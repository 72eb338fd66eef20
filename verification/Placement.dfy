/**
 Where everything a template renders ends up. The place of a piece of output is a way through
 the template: which child, and in which round of a loop, at every level. The law says which ways
 lead to output, what they show, and that the output is what they show, in document order.
 */
module Placement {
  import opened Options
  import opened Numerals
  import opened Scope
  import opened Renderer
  import Expressions
  import ExpressionTheorems
  import Tokenizer

  /* ---- output as it is read from left to right ---- */

  datatype Event = Start(name: string, attrs: seq<(string, string)>) | Chars(text: string) | End(name: string)

  function EventsOf(x: Xml): seq<Event>
    decreases x, 0
  {
    match x
    case Text(text) => [Chars(text)]
    case Element(name, attrs, children) => [Start(name, attrs)] + EventsOfAll(children) + [End(name)]
  }

  function EventsOfAll(xs: seq<Xml>): seq<Event>
    decreases xs, 1
  {
    if xs == [] then [] else EventsOf(xs[0]) + EventsOfAll(xs[1..])
  }

  /* ---- ways ---- */

  /** The child to go to, and the round of it: the key of a loop; for a plain element, 1 is its end. */
  datatype Turn = Turn(child: nat, round: nat)

  type Way = seq<Turn>

  /** Document order: an element begins before what it contains. */
  predicate Before(v: Way, w: Way) {
    if w == [] then false
    else if v == [] then true
    else
      || v[0].child < w[0].child
      || (v[0].child == w[0].child && v[0].round < w[0].round)
      || (v[0] == w[0] && Before(v[1..], w[1..]))
  }

  predicate Increasing(ws: seq<Way>) {
    forall i, j | 0 <= i < j < |ws| :: Before(ws[i], ws[j])
  }

  /* ---- what is visible where ---- */

  /** The test of an `if` has a value, and it is not 0. */
  predicate Holds(attrs: seq<(string, string)>, env: Aliases, data: Data) {
    var test := Calculate(Attribute(attrs, "test"), env, data);
    test.Some? && test.value != 0
  }

  /** The bindings behind one node: `var` adds one, scopes close theirs, everything else passes them on. */
  function BindingsAfter(x: Xml, env: Aliases, data: Data): Aliases
    decreases x, 0
  {
    match x
    case Text(_) => env
    case Element(name, attrs, children) =>
      match DirectiveOf(name)
      case Var => Bind(env, Attribute(attrs, "name"), Attribute(attrs, "value"))
      case If => if Holds(attrs, env, data) then BindingsAt(children, |children|, env, data) else env
      case Plain => BindingsAt(children, |children|, env, data)
      case _ => env
  }

  /** The bindings visible at child `i`. */
  function BindingsAt(xs: seq<Xml>, i: nat, env: Aliases, data: Data): Aliases
    requires i <= |xs|
    decreases xs, i
  {
    if i == 0 then env else BindingsAfter(xs[i - 1], BindingsAt(xs, i - 1, env, data), data)
  }

  function Keys(attrs: seq<(string, string)>, data: Data): seq<string> {
    data.keys(Attribute(attrs, "in"))
  }

  /** The bindings in one round of a loop: its variable stands for the collection's entry. */
  function RoundEnv(attrs: seq<(string, string)>, key: string, env: Aliases): Aliases {
    Bind(env, Attribute(attrs, "value"), Attribute(attrs, "in") + ":" + key)
  }

  /** The way leads to output: every `if` on it holds and every round of a loop has its key. */
  predicate Leads(xs: seq<Xml>, w: Way, env: Aliases, data: Data)
    decreases |w|, 0
  {
    && w != [] && w[0].child < |xs|
    && LeadsIn(xs[w[0].child], w[0].round, w[1..], BindingsAt(xs, w[0].child, env, data), data)
  }

  predicate LeadsIn(x: Xml, round: nat, w: Way, env: Aliases, data: Data)
    decreases |w|, 1
  {
    match x
    case Text(_) => round == 0 && w == []
    case Element(name, attrs, children) =>
      match DirectiveOf(name)
      case Block => round == 0 && Leads(children, w, env, data)
      case If => round == 0 && Holds(attrs, env, data) && Leads(children, w, env, data)
      case For =>
        round < |Keys(attrs, data)| && Leads(children, w, RoundEnv(attrs, Keys(attrs, data)[round], env), data)
      case Var => false
      case Plain => (round <= 1 && w == []) || (round == 0 && Leads(children, w, env, data))
      case _ => round == 0 && w == []
  }

  /** What a way that leads to output shows. */
  function Shown(xs: seq<Xml>, w: Way, env: Aliases, data: Data): seq<Event>
    decreases |w|, 0
  {
    if w == [] || w[0].child >= |xs| then []
    else ShownIn(xs[w[0].child], w[0].round, w[1..], BindingsAt(xs, w[0].child, env, data), data)
  }

  function ShownIn(x: Xml, round: nat, w: Way, env: Aliases, data: Data): seq<Event>
    decreases |w|, 1
  {
    match x
    case Text(text) => [Chars(text)]
    case Element(name, attrs, children) =>
      match DirectiveOf(name)
      case Print => [Chars(data.value(Resolve(env, Attribute(attrs, "value"))))]
      case Eval =>
        var v := Calculate(Attribute(attrs, "expr"), env, data);
        if v.Some? then [Chars(IntText(v.value))] else []
      case Html => EventsOfAll(data.html(data.value(Resolve(env, Attribute(attrs, "value")))))
      case Plain =>
        if w == [] then (if round == 0 then [Start(name, attrs)] else [End(name)]) else Shown(children, w, env, data)
      case For =>
        if round < |Keys(attrs, data)| then Shown(children, w, RoundEnv(attrs, Keys(attrs, data)[round], env), data)
        else []
      case _ => Shown(children, w, env, data)
  }

  function Gathered(xs: seq<Xml>, ws: seq<Way>, env: Aliases, data: Data): seq<Event> {
    if ws == [] then [] else Shown(xs, ws[0], env, data) + Gathered(xs, ws[1..], env, data)
  }

  /** Every expression that is reached has a value. */
  predicate Defined(x: Xml, env: Aliases, data: Data)
    decreases x, 0
  {
    match x
    case Text(_) => true
    case Element(name, attrs, children) =>
      match DirectiveOf(name)
      case Eval => Calculate(Attribute(attrs, "expr"), env, data).Some?
      case If =>
        && Calculate(Attribute(attrs, "test"), env, data).Some?
        && (Holds(attrs, env, data) ==> AllDefined(children, 0, env, data))
      case For =>
        forall k | 0 <= k < |Keys(attrs, data)| ::
          AllDefined(children, 0, RoundEnv(attrs, Keys(attrs, data)[k], env), data)
      case Block => AllDefined(children, 0, env, data)
      case Plain => AllDefined(children, 0, env, data)
      case _ => true
  }

  predicate AllDefined(xs: seq<Xml>, i: nat, env: Aliases, data: Data)
    requires i <= |xs|
    decreases xs, |xs| - i
  {
    i == |xs| || (Defined(xs[i], BindingsAt(xs, i, env, data), data) && AllDefined(xs, i + 1, env, data))
  }

  /* ---- all ways, in order ---- */

  function Under(t: Turn, ws: seq<Way>): (r: seq<Way>)
    ensures |r| == |ws| && forall j | 0 <= j < |ws| :: r[j] == [t] + ws[j]
  {
    if ws == [] then [] else [[t] + ws[0]] + Under(t, ws[1..])
  }

  ghost function NodeWays(x: Xml, i: nat, env: Aliases, data: Data): seq<Way>
    decreases x, 1, 0
  {
    match x
    case Text(_) => [[Turn(i, 0)]]
    case Element(name, attrs, children) =>
      match DirectiveOf(name)
      case Block => Under(Turn(i, 0), Ways(children, 0, env, data))
      case If => if Holds(attrs, env, data) then Under(Turn(i, 0), Ways(children, 0, env, data)) else []
      case For => LoopWays(x, i, 0, env, data)
      case Var => []
      case Plain => [[Turn(i, 0)]] + Under(Turn(i, 0), Ways(children, 0, env, data)) + [[Turn(i, 1)]]
      case _ => [[Turn(i, 0)]]
  }

  ghost function LoopWays(x: Xml, i: nat, k: nat, env: Aliases, data: Data): seq<Way>
    requires x.Element? && k <= |Keys(x.attrs, data)|
    decreases x, 0, |Keys(x.attrs, data)| - k
  {
    var keys := Keys(x.attrs, data);
    if k == |keys| then []
    else
      Under(Turn(i, k), Ways(x.children, 0, RoundEnv(x.attrs, keys[k], env), data))
      + LoopWays(x, i, k + 1, env, data)
  }

  ghost function Ways(xs: seq<Xml>, i: nat, env: Aliases, data: Data): seq<Way>
    requires i <= |xs|
    decreases xs, 2, |xs| - i
  {
    if i == |xs| then []
    else NodeWays(xs[i], i, BindingsAt(xs, i, env, data), data) + Ways(xs, i + 1, env, data)
  }

  /* ---- they are the ways that lead to output ---- */

  lemma {:induction false} InUnder(t: Turn, ws: seq<Way>, w: Way)
    ensures w in Under(t, ws) <==> w != [] && w[0] == t && w[1..] in ws
  {
    var us := Under(t, ws);
    if w in us {
      var j :| 0 <= j < |us| && us[j] == w;
      assert w == [t] + ws[j] && w[1..] == ws[j];
    }
    if w != [] && w[0] == t && w[1..] in ws {
      var j :| 0 <= j < |ws| && ws[j] == w[1..];
      assert w == [t] + ws[j] == us[j];
    }
  }

  lemma {:induction false} Single(t: Turn, w: Way)
    ensures w in [[t]] <==> w != [] && w[0].child == t.child && w[0].round == t.round && w[1..] == []
  {
    if w == [t] { assert w[1..] == []; }
    if w != [] && w[1..] == [] { assert w == [w[0]] + w[1..] && w[0] == Turn(w[0].child, w[0].round); }
    assert t == Turn(t.child, t.round);
  }

  /** From the first child on, all ways are there. */
  lemma {:induction false} InAllWays(xs: seq<Xml>, env: Aliases, data: Data, w: Way)
    ensures w in Ways(xs, 0, env, data) <==> Leads(xs, w, env, data)
    decreases xs, 3
  {
    hide Ways;
    InWays(xs, 0, env, data, w);
    WayNonempty(xs, w, env, data);
  }

  lemma {:induction false} InNode(x: Xml, i: nat, env: Aliases, data: Data, w: Way)
    ensures w in NodeWays(x, i, env, data) <==>
              w != [] && w[0].child == i && LeadsIn(x, w[0].round, w[1..], env, data)
    decreases x, 1, 0
  {
    hide Holds, Calculate, Keys, DirectiveOf, Leads, Ways;
    Single(Turn(i, 0), w);
    Single(Turn(i, 1), w);
    if x.Element? {
      var kind, inner := DirectiveOf(x.name), Ways(x.children, 0, env, data);
      if kind.Block? || kind.If? || kind.Plain? {
        InAllWays(x.children, env, data, if w == [] then [] else w[1..]);
        InUnder(Turn(i, 0), inner, w);
        if kind.Plain? {
          assert w in NodeWays(x, i, env, data) <==>
            w in [[Turn(i, 0)]] || w in Under(Turn(i, 0), inner) || w in [[Turn(i, 1)]];
        }
        if w != [] { assert w[0] == Turn(w[0].child, w[0].round); }
      } else if kind.For? {
        InLoop(x, i, 0, env, data, w);
      }
    }
  }

  lemma {:induction false} InLoop(x: Xml, i: nat, k: nat, env: Aliases, data: Data, w: Way)
    requires x.Element? && k <= |Keys(x.attrs, data)|
    ensures w in LoopWays(x, i, k, env, data) <==>
              && w != [] && w[0].child == i && k <= w[0].round < |Keys(x.attrs, data)|
              && Leads(x.children, w[1..], RoundEnv(x.attrs, Keys(x.attrs, data)[w[0].round], env), data)
    decreases x, 0, |Keys(x.attrs, data)| - k
  {
    hide Leads, RoundEnv, Keys, Ways;
    var keys := Keys(x.attrs, data);
    if k < |keys| {
      var inner := Ways(x.children, 0, RoundEnv(x.attrs, keys[k], env), data);
      InLoop(x, i, k + 1, env, data, w);
      InUnder(Turn(i, k), inner, w);
      InAllWays(x.children, RoundEnv(x.attrs, keys[k], env), data, if w == [] then [] else w[1..]);
      assert w in LoopWays(x, i, k, env, data) <==>
        w in Under(Turn(i, k), inner) || w in LoopWays(x, i, k + 1, env, data);
      if w != [] { assert w[0] == Turn(w[0].child, w[0].round); }
    }
  }

  lemma {:induction false} InWays(xs: seq<Xml>, i: nat, env: Aliases, data: Data, w: Way)
    requires i <= |xs|
    ensures w in Ways(xs, i, env, data) <==> Leads(xs, w, env, data) && i <= w[0].child
    decreases xs, 2, |xs| - i
  {
    hide LeadsIn, NodeWays;
    if i < |xs| {
      InNode(xs[i], i, BindingsAt(xs, i, env, data), data, w);
      InWays(xs, i + 1, env, data, w);
    }
  }

  /* ---- they are in document order ---- */

  lemma {:induction false} IncreasingConcat(a: seq<Way>, b: seq<Way>)
    requires Increasing(a) && Increasing(b) && forall v, w | v in a && w in b :: Before(v, w)
    ensures Increasing(a + b)
  {
    hide Before;
    var s := a + b;
    forall i, j | 0 <= i < j < |s| ensures Before(s[i], s[j]) {
      if j < |a| {
        assert s[i] == a[i] && s[j] == a[j];
      } else if i >= |a| {
        assert s[i] == b[i - |a|] && s[j] == b[j - |a|];
      } else {
        assert s[i] in a && s[j] in b;
      }
    }
  }

  lemma {:induction false} UnderIncreasing(t: Turn, ws: seq<Way>)
    requires Increasing(ws)
    ensures Increasing(Under(t, ws))
  {
    var us := Under(t, ws);
    forall i, j | 0 <= i < j < |us| ensures Before(us[i], us[j]) {
      assert us[i][1..] == ws[i] && us[j][1..] == ws[j];
    }
  }

  lemma {:induction false} NodeIncreasing(x: Xml, i: nat, env: Aliases, data: Data)
    ensures Increasing(NodeWays(x, i, env, data))
    decreases x, 1, 0
  {
    hide Holds, Calculate, DirectiveOf, Leads, Keys;
    if x.Element? {
      var kind := DirectiveOf(x.name);
      if kind.Block? || kind.If? || kind.Plain? {
        WaysIncreasing(x.children, 0, env, data);
        var inner := Under(Turn(i, 0), Ways(x.children, 0, env, data));
        UnderIncreasing(Turn(i, 0), Ways(x.children, 0, env, data));
        if kind.Plain? {
          forall w | w in inner ensures w[0] == Turn(i, 0) && w[1..] != [] {
            InUnder(Turn(i, 0), Ways(x.children, 0, env, data), w);
            InAllWays(x.children, env, data, w[1..]);
            WayNonempty(x.children, w[1..], env, data);
          }
          hide Ways;
          assert [Turn(i, 0)][1..] == [] && [Turn(i, 1)][1..] == [];
          IncreasingConcat([[Turn(i, 0)]], inner);
          IncreasingConcat([[Turn(i, 0)]] + inner, [[Turn(i, 1)]]);
        }
      } else if kind.For? {
        LoopIncreasing(x, i, 0, env, data);
      }
    }
  }

  lemma WayNonempty(xs: seq<Xml>, w: Way, env: Aliases, data: Data)
    ensures Leads(xs, w, env, data) ==> w != []
  {
  }

  lemma {:induction false} LoopIncreasing(x: Xml, i: nat, k: nat, env: Aliases, data: Data)
    requires x.Element? && k <= |Keys(x.attrs, data)|
    ensures Increasing(LoopWays(x, i, k, env, data))
    decreases x, 0, |Keys(x.attrs, data)| - k
  {
    var keys := Keys(x.attrs, data);
    if k < |keys| {
      var ws := Ways(x.children, 0, RoundEnv(x.attrs, keys[k], env), data);
      WaysIncreasing(x.children, 0, RoundEnv(x.attrs, keys[k], env), data);
      LoopIncreasing(x, i, k + 1, env, data);
      UnderIncreasing(Turn(i, k), ws);
      var first, rest := Under(Turn(i, k), ws), LoopWays(x, i, k + 1, env, data);
      forall v, w | v in first && w in rest ensures Before(v, w) {
        InUnder(Turn(i, k), ws, v);
        InLoop(x, i, k + 1, env, data, w);
      }
      IncreasingConcat(first, rest);
    }
  }

  lemma {:induction false} WaysIncreasing(xs: seq<Xml>, i: nat, env: Aliases, data: Data)
    requires i <= |xs|
    ensures Increasing(Ways(xs, i, env, data))
    decreases xs, 2, |xs| - i
  {
    hide LeadsIn, NodeWays;
    if i < |xs| {
      var e := BindingsAt(xs, i, env, data);
      NodeIncreasing(xs[i], i, e, data);
      WaysIncreasing(xs, i + 1, env, data);
      var first, rest := NodeWays(xs[i], i, e, data), Ways(xs, i + 1, env, data);
      forall v, w | v in first && w in rest ensures Before(v, w) {
        InNode(xs[i], i, e, data, v);
        InWays(xs, i + 1, env, data, w);
      }
      IncreasingConcat(first, rest);
    }
  }

  /* ---- and the output is what they show ---- */

  lemma {:induction false} EventsConcat(a: seq<Xml>, b: seq<Xml>)
    ensures EventsOfAll(a + b) == EventsOfAll(a) + EventsOfAll(b)
  {
    if a == [] {
      assert a + b == b;
    } else {
      assert (a + b)[0] == a[0] && (a + b)[1..] == a[1..] + b;
      EventsConcat(a[1..], b);
      hide EventsOf;
      assert EventsOf(a[0]) + (EventsOfAll(a[1..]) + EventsOfAll(b))
        == EventsOf(a[0]) + EventsOfAll(a[1..]) + EventsOfAll(b);
    }
  }

  lemma {:induction false} EventsOne(x: Xml)
    ensures EventsOfAll([x]) == EventsOf(x)
  {
    hide EventsOf;
    assert [x][1..] == [] && EventsOf(x) + [] == EventsOf(x);
  }

  lemma {:induction false} GatheredConcat(xs: seq<Xml>, v: seq<Way>, w: seq<Way>, env: Aliases, data: Data)
    ensures Gathered(xs, v + w, env, data) == Gathered(xs, v, env, data) + Gathered(xs, w, env, data)
  {
    hide Shown;
    if v == [] {
      assert v + w == w;
    } else {
      assert (v + w)[0] == v[0] && (v + w)[1..] == v[1..] + w;
      GatheredConcat(xs, v[1..], w, env, data);
    }
  }

  lemma {:induction false} GatheredOne(xs: seq<Xml>, w: Way, env: Aliases, data: Data)
    ensures Gathered(xs, [w], env, data) == Shown(xs, w, env, data)
  {
    hide Shown;
    assert [w][1..] == [];
  }

  /** Ways through child `i` show what they show inside of it. */
  lemma {:induction false} GatheredUnder(xs: seq<Xml>, t: Turn, inside: seq<Xml>, ws: seq<Way>,
                                         env: Aliases, env': Aliases, data: Data)
    requires t.child < |xs|
    requires forall w | w in ws ::
               ShownIn(xs[t.child], t.round, w, BindingsAt(xs, t.child, env, data), data)
               == Shown(inside, w, env', data)
    ensures Gathered(xs, Under(t, ws), env, data) == Gathered(inside, ws, env', data)
    decreases |ws|
  {
    if ws != [] {
      var w := [t] + ws[0];
      assert w[0] == t && w[1..] == ws[0];
      assert Shown(xs, w, env, data) == Shown(inside, ws[0], env', data);
      hide Shown, ShownIn, BindingsAt;
      GatheredUnder(xs, t, inside, ws[1..], env, env', data);
    }
  }

  /** A node that writes by itself: its one way shows what it writes. */
  lemma {:induction false} LeafLaw(xs: seq<Xml>, i: nat, env: Aliases, data: Data)
    requires i < |xs| && (xs[i].Element? ==> !(DirectiveOf(xs[i].name) in {Block, If, Plain, For}))
    ensures NodeLaw(xs, i, env, data)
  {
    hide BindingsAt, Calculate, DirectiveOf, Resolve;
    var x := xs[i];
    GatheredOne(xs, [Turn(i, 0)], env, data);
    assert [Turn(i, 0)][1..] == [];
    if x.Text? {
      EventsOne(x);
    } else {
      EventsOne(Text(data.value(Resolve(BindingsAt(xs, i, env, data), Attribute(x.attrs, "value")))));
      var v := Calculate(Attribute(x.attrs, "expr"), BindingsAt(xs, i, env, data), data);
      if v.Some? { EventsOne(Text(IntText(v.value))); }
    }
  }

  /** What the law says of one node among its siblings. */
  ghost predicate NodeLaw(xs: seq<Xml>, i: nat, env: Aliases, data: Data)
    requires i < |xs|
  {
    var e := BindingsAt(xs, i, env, data);
    var r := RenderNode(xs[i], e, data);
    && (r.Some? <==> Defined(xs[i], e, data))
    && (r.Some? ==> r.value.1 == BindingsAfter(xs[i], e, data))
    && (r.Some? ==> EventsOfAll(r.value.0) == Gathered(xs, NodeWays(xs[i], i, e, data), env, data))
  }

  /** What it says of the siblings from `i` on. */
  ghost predicate AllLaw(xs: seq<Xml>, i: nat, env: Aliases, data: Data)
    requires i <= |xs|
  {
    var r := RenderAll(xs[i..], BindingsAt(xs, i, env, data), data);
    && (r.Some? <==> AllDefined(xs, i, env, data))
    && (r.Some? ==> r.value.1 == BindingsAt(xs, |xs|, env, data))
    && (r.Some? ==> EventsOfAll(r.value.0) == Gathered(xs, Ways(xs, i, env, data), env, data))
  }

  lemma {:induction false} LawOfNode(xs: seq<Xml>, i: nat, env: Aliases, data: Data)
    requires i < |xs|
    ensures NodeLaw(xs, i, env, data)
    decreases xs[i], 1, 0
  {
    var x := xs[i];
    match x
    case Text(_) => LeafLaw(xs, i, env, data);
    case Element(name, _, children) =>
      var e := BindingsAt(xs, i, env, data);
      if DirectiveOf(name) in {Block, If, Plain} {
        LawOfAll(children, 0, e, data);
        InnerLaw(xs, i, env, data);
      } else if DirectiveOf(name).For? {
        LawOfRounds(xs, i, 0, env, data);
        LoopLaw(xs, i, env, data);
      } else {
        LeafLaw(xs, i, env, data);
      }
  }

  /** What the ways inside a block, a plain element or an `if` that holds show. */
  lemma {:induction false} InnerShown(xs: seq<Xml>, i: nat, env: Aliases, data: Data)
    requires i < |xs| && xs[i].Element? && DirectiveOf(xs[i].name) in {Block, If, Plain}
    ensures var x, e := xs[i], BindingsAt(xs, i, env, data);
            var inner := Ways(x.children, 0, e, data);
            Gathered(xs, Under(Turn(i, 0), inner), env, data) == Gathered(x.children, inner, e, data)
  {
    var x, e := xs[i], BindingsAt(xs, i, env, data);
    var inner := Ways(x.children, 0, e, data);
    forall w | w in inner ensures w != [] {
      InAllWays(x.children, e, data, w);
      WayNonempty(x.children, w, e, data);
    }
    hide Calculate, Leads, Ways, Shown, BindingsAt, Gathered;
    GatheredUnder(xs, Turn(i, 0), x.children, inner, env, e, data);
  }

  lemma {:induction false} InnerLaw(xs: seq<Xml>, i: nat, env: Aliases, data: Data)
    requires i < |xs| && xs[i].Element? && DirectiveOf(xs[i].name) in {Block, If, Plain}
    requires AllLaw(xs[i].children, 0, BindingsAt(xs, i, env, data), data)
    ensures NodeLaw(xs, i, env, data)
  {
    var x, e := xs[i], BindingsAt(xs, i, env, data);
    InnerShown(xs, i, env, data);
    if DirectiveOf(x.name).Plain? {
      PlainLaw(xs, i, env, data);
    } else {
      assert x.children[0..] == x.children;
      hide Calculate, Leads, Ways, AllDefined, Shown, RenderAll, Gathered, EventsOfAll;
      assert EventsOfAll([]) == [] && Gathered(xs, [], env, data) == [] by { EventsNone(xs, env, data); }
    }
  }

  lemma EventsNone(xs: seq<Xml>, env: Aliases, data: Data)
    ensures EventsOfAll([]) == [] && Gathered(xs, [], env, data) == []
  {
  }

  lemma {:induction false} PlainLaw(xs: seq<Xml>, i: nat, env: Aliases, data: Data)
    requires i < |xs| && xs[i].Element? && DirectiveOf(xs[i].name).Plain?
    requires AllLaw(xs[i].children, 0, BindingsAt(xs, i, env, data), data)
    requires var inner := Ways(xs[i].children, 0, BindingsAt(xs, i, env, data), data);
             Gathered(xs, Under(Turn(i, 0), inner), env, data)
             == Gathered(xs[i].children, inner, BindingsAt(xs, i, env, data), data)
    ensures NodeLaw(xs, i, env, data)
  {
    var x, e := xs[i], BindingsAt(xs, i, env, data);
    var middle := Under(Turn(i, 0), Ways(x.children, 0, e, data));
    assert x.children[0..] == x.children;
    assert [Turn(i, 0)][1..] == [] && [Turn(i, 1)][1..] == [];
    assert Shown(xs, [Turn(i, 0)], env, data) == [Start(x.name, x.attrs)];
    assert Shown(xs, [Turn(i, 1)], env, data) == [End(x.name)];
    hide Shown, Ways, AllDefined, Leads;
    GatheredOne(xs, [Turn(i, 0)], env, data);
    GatheredOne(xs, [Turn(i, 1)], env, data);
    GatheredConcat(xs, [[Turn(i, 0)]], middle, env, data);
    GatheredConcat(xs, [[Turn(i, 0)]] + middle, [[Turn(i, 1)]], env, data);
    var r := RenderAll(x.children, e, data);
    if r.Some? { EventsOne(Element(x.name, x.attrs, r.value.0)); }
  }

  /** What it says of the rounds of a loop from `k` on. */
  ghost predicate RoundsLaw(xs: seq<Xml>, i: nat, k: nat, env: Aliases, data: Data)
    requires i < |xs| && xs[i].Element? && k <= |Keys(xs[i].attrs, data)|
  {
    var x, e, keys := xs[i], BindingsAt(xs, i, env, data), Keys(xs[i].attrs, data);
    var r := RenderLoop(x, keys[k..], e, data);
    && (r.Some? <==> forall j | k <= j < |keys| :: AllDefined(x.children, 0, RoundEnv(x.attrs, keys[j], e), data))
    && (r.Some? ==> EventsOfAll(r.value) == Gathered(xs, LoopWays(x, i, k, e, data), env, data))
  }

  lemma {:induction false} LawOfRounds(xs: seq<Xml>, i: nat, k: nat, env: Aliases, data: Data)
    requires i < |xs| && xs[i].Element? && DirectiveOf(xs[i].name).For? && k <= |Keys(xs[i].attrs, data)|
    ensures RoundsLaw(xs, i, k, env, data)
    decreases xs[i], 0, |Keys(xs[i].attrs, data)| - k
  {
    var x, keys := xs[i], Keys(xs[i].attrs, data);
    if k < |keys| {
      LawOfAll(x.children, 0, RoundEnv(x.attrs, keys[k], BindingsAt(xs, i, env, data)), data);
      LawOfRounds(xs, i, k + 1, env, data);
      RoundLaw(xs, i, k, env, data);
    }
  }

  /** One round more of a loop. */
  lemma {:induction false} LoopCons(x: Xml, keys: seq<string>, k: nat, e: Aliases, data: Data)
    requires x.Element? && k < |keys|
    ensures RenderLoop(x, keys[k..], e, data) ==
      match RenderAll(x.children, RoundEnv(x.attrs, keys[k], e), data)
      case None => None
      case Some(one) =>
        (match RenderLoop(x, keys[k + 1..], e, data) case None => None case Some(rest) => Some(one.0 + rest))
  {
    hide RenderAll;
    assert keys[k..][1..] == keys[k + 1..] && keys[k..][0] == keys[k];
  }

  /** What the ways through one round show. */
  lemma {:induction false} RoundShown(xs: seq<Xml>, i: nat, k: nat, env: Aliases, data: Data)
    requires i < |xs| && xs[i].Element? && DirectiveOf(xs[i].name).For? && k < |Keys(xs[i].attrs, data)|
    ensures var x := xs[i];
            var inside := RoundEnv(x.attrs, Keys(x.attrs, data)[k], BindingsAt(xs, i, env, data));
            var inner := Ways(x.children, 0, inside, data);
            Gathered(xs, Under(Turn(i, k), inner), env, data) == Gathered(x.children, inner, inside, data)
  {
    hide Shown, Ways, RoundEnv, BindingsAt, Gathered;
    var x := xs[i];
    var inside := RoundEnv(x.attrs, Keys(x.attrs, data)[k], BindingsAt(xs, i, env, data));
    GatheredUnder(xs, Turn(i, k), x.children, Ways(x.children, 0, inside, data), env, inside, data);
  }

  lemma {:induction false} RoundLaw(xs: seq<Xml>, i: nat, k: nat, env: Aliases, data: Data)
    requires i < |xs| && xs[i].Element? && DirectiveOf(xs[i].name).For? && k < |Keys(xs[i].attrs, data)|
    requires var inside := RoundEnv(xs[i].attrs, Keys(xs[i].attrs, data)[k], BindingsAt(xs, i, env, data));
             AllLaw(xs[i].children, 0, inside, data)
    requires RoundsLaw(xs, i, k + 1, env, data)
    ensures RoundsLaw(xs, i, k, env, data)
  {
    var x, e, keys := xs[i], BindingsAt(xs, i, env, data), Keys(xs[i].attrs, data);
    var inside := RoundEnv(x.attrs, keys[k], e);
    var inner := Ways(x.children, 0, inside, data);
    assert x.children[0..] == x.children;
    LoopCons(x, keys, k, e, data);
    RoundShown(xs, i, k, env, data);
    assert LoopWays(x, i, k, e, data) == Under(Turn(i, k), inner) + LoopWays(x, i, k + 1, e, data);
    hide BindingsAt, RoundEnv, AllDefined, LoopWays, RenderAll, RenderLoop, EventsOfAll, Gathered, Keys;
    GatheredConcat(xs, Under(Turn(i, k), inner), LoopWays(x, i, k + 1, e, data), env, data);
    var one, rest := RenderAll(x.children, inside, data), RenderLoop(x, keys[k + 1..], e, data);
    if one.Some? && rest.Some? { EventsConcat(one.value.0, rest.value); }
  }

  lemma {:induction false} LoopLaw(xs: seq<Xml>, i: nat, env: Aliases, data: Data)
    requires i < |xs| && xs[i].Element? && DirectiveOf(xs[i].name).For? && RoundsLaw(xs, i, 0, env, data)
    ensures NodeLaw(xs, i, env, data)
  {
    var keys := Keys(xs[i].attrs, data);
    assert keys[0..] == keys;
    hide AllDefined, LoopWays, RenderLoop;
  }

  lemma {:induction false} LawOfAll(xs: seq<Xml>, i: nat, env: Aliases, data: Data)
    requires i <= |xs|
    ensures AllLaw(xs, i, env, data)
    decreases xs, 2, |xs| - i
  {
    if i < |xs| {
      LawOfNode(xs, i, env, data);
      LawOfAll(xs, i + 1, env, data);
      StepLaw(xs, i, env, data);
    } else {
      assert xs[i..] == [];
    }
  }

  function Joined(one: (seq<Xml>, Aliases), rest: Rendering): Rendering {
    match rest case None => None case Some(r) => Some((one.0 + r.0, r.1))
  }

  lemma {:induction false} RenderCons(xs: seq<Xml>, i: nat, e: Aliases, data: Data)
    requires i < |xs|
    ensures RenderAll(xs[i..], e, data) ==
      match RenderNode(xs[i], e, data)
      case None => None
      case Some(one) => Joined(one, RenderAll(xs[i + 1..], one.1, data))
  {
    hide RenderNode;
    assert xs[i..][0] == xs[i] && xs[i..][1..] == xs[i + 1..];
  }

  lemma {:induction false} StepLaw(xs: seq<Xml>, i: nat, env: Aliases, data: Data)
    requires i < |xs| && NodeLaw(xs, i, env, data) && AllLaw(xs, i + 1, env, data)
    ensures AllLaw(xs, i, env, data)
  {
    var e := BindingsAt(xs, i, env, data);
    assert BindingsAt(xs, i + 1, env, data) == BindingsAfter(xs[i], e, data);
    RenderCons(xs, i, e, data);
    hide Defined, NodeWays, RenderNode, RenderAll, BindingsAfter, BindingsAt, EventsOfAll, Gathered;
    GatheredConcat(xs, NodeWays(xs[i], i, e, data), Ways(xs, i + 1, env, data), env, data);
    var one := RenderNode(xs[i], e, data);
    if one.Some? {
      var rest := RenderAll(xs[i + 1..], one.value.1, data);
      if rest.Some? { EventsConcat(one.value.0, rest.value.0); }
    }
  }

  /**
   Rendering succeeds iff every expression that is reached has a value. Then there is a list of
   exactly the ways that lead to output, in document order, and the output is what they show.
   */
  lemma {:induction false} PlacementLaw(xs: seq<Xml>, env: Aliases, data: Data) returns (ws: seq<Way>)
    ensures RenderAll(xs, env, data).Some? <==> AllDefined(xs, 0, env, data)
    ensures Increasing(ws) && forall w :: w in ws <==> Leads(xs, w, env, data)
    ensures RenderAll(xs, env, data).Some? ==>
              var (out, after) := RenderAll(xs, env, data).value;
              EventsOfAll(out) == Gathered(xs, ws, env, data) && after == BindingsAt(xs, |xs|, env, data)
  {
    ws := Ways(xs, 0, env, data);
    assert xs[0..] == xs;
    LawOfAll(xs, 0, env, data);
    WaysIncreasing(xs, 0, env, data);
    hide Leads, Ways, Increasing;
    forall w ensures w in ws <==> Leads(xs, w, env, data) { InAllWays(xs, env, data, w); }
  }

  /* ---- names ---- */

  lemma PrefixChar(prefix: string, name: string)
    requires |prefix| > 5
    ensures prefix <= name ==> |name| > 5 && name[5] == prefix[5]
  {
  }

  /** A directive is chosen by the prefix of the element's name; every other element is plain. */
  lemma {:induction false} DirectiveLaw(name: string)
    ensures DirectiveOf(name).Block? <==> "udho:block" <= name
    ensures DirectiveOf(name).Eval? <==> "udho:eval" <= name
    ensures DirectiveOf(name).For? <==> "udho:for" <= name
    ensures DirectiveOf(name).Html? <==> "udho:html" <= name
    ensures DirectiveOf(name).If? <==> "udho:if" <= name
    ensures DirectiveOf(name).Print? <==> "udho:text" <= name
    ensures DirectiveOf(name).Var? <==> "udho:var" <= name
  {
    PrefixChar("udho:block", name);
    PrefixChar("udho:eval", name);
    PrefixChar("udho:for", name);
    PrefixChar("udho:html", name);
    PrefixChar("udho:if", name);
    PrefixChar("udho:text", name);
    PrefixChar("udho:var", name);
  }

  /** Of several attributes of one name the first counts, and a missing one is the empty text. */
  lemma {:induction false} AttributeLaw(attrs: seq<(string, string)>, name: string, i: nat)
    ensures i < |attrs| && attrs[i].0 == name && (forall j | 0 <= j < i :: attrs[j].0 != name) ==>
              Attribute(attrs, name) == attrs[i].1
    ensures (forall a | a in attrs :: a.0 != name) ==> Attribute(attrs, name) == ""
    decreases |attrs|
  {
    if attrs != [] && attrs[0].0 != name {
      var rest := attrs[1..];
      AttributeLaw(rest, name, if i == 0 then 0 else i - 1);
      if i > 0 && i < |attrs| {
        assert rest[i - 1] == attrs[i];
        if forall j | 0 <= j < i :: attrs[j].0 != name {
          forall j | 0 <= j < i - 1 ensures rest[j].0 != name { assert rest[j] == attrs[j + 1]; }
        }
      }
    }
  }

  /**
   The text of an attribute has the meaning of the expression it prints, where a name stands for the
   data under its resolved key and a size is asked under the key as written.
   */
  lemma {:induction false} CalculateLaw(
    e: ExpressionTheorems.Expr, gaps: seq<string>, aliases: Aliases, data: Data) returns (env: Expressions.Env)
    requires e.Wf() && Tokenizer.Typed(e) && Tokenizer.Spaced(e.Tokens(), gaps)
    ensures forall h, t | Simple(h) && Member(t) ::
              env.parse(h + t) == data.parse(if h in aliases then aliases[h] + t else h + t)
    ensures env.count == data.count && env.partial == data.partial
    ensures var v := e.Meaning(env);
            Calculate(Tokenizer.Print(e.Tokens(), gaps), aliases, data) == if v.Value? then Some(v.value) else None
  {
    hide Resolve;
    env := ExpressionEnv(aliases, data);
    Tokenizer.EvaluateText(e, gaps, env);
    forall h, t | Simple(h) && Member(t)
      ensures env.parse(h + t) == data.parse(if h in aliases then aliases[h] + t else h + t)
    {
      LookupLaw(aliases, h, t);
    }
  }
}
