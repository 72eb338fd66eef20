/**
 The template renderer of includes/udho/parser.h: directives of an XML tree that share one
 mutable scope table, refining a renderer that passes a lexical environment around.
 */
module Renderer {
  import opened Options
  import opened Numerals
  import opened Scope
  import Expressions
  import Tokenizer

  datatype Xml =
    | Text(text: string)
    | Element(name: string, attrs: seq<(string, string)>, children: seq<Xml>)

  /** The prepared object as total functions of a resolved key; `html` parses a fragment. */
  datatype Data = Data(
    value: string -> string,
    parse: string -> Expressions.Answer,
    partial: string -> int,
    count: string -> nat,
    keys: string -> seq<string>,
    html: string -> seq<Xml>)

  datatype Directive = Block | Eval | For | Html | If | Print | Var | Plain

  predicate StartsWith(s: string, prefix: string) { prefix <= s }

  /** The first matching entry of the directive map; no prefix is a prefix of another one. */
  function DirectiveOf(name: string): Directive {
    if StartsWith(name, "udho:block") then Block
    else if StartsWith(name, "udho:eval") then Eval
    else if StartsWith(name, "udho:for") then For
    else if StartsWith(name, "udho:html") then Html
    else if StartsWith(name, "udho:if") then If
    else if StartsWith(name, "udho:text") then Print
    else if StartsWith(name, "udho:var") then Var
    else Plain
  }

  /** The first attribute of that name, or the empty string. */
  function Attribute(attrs: seq<(string, string)>, name: string): string {
    if attrs == [] then "" else if attrs[0].0 == name then attrs[0].1 else Attribute(attrs[1..], name)
  }

  /** Values go through the aliases; sizes are asked under the key as written. */
  function ExpressionEnv(aliases: Aliases, data: Data): Expressions.Env {
    Expressions.Env(key => data.parse(Resolve(aliases, key)), data.count, data.partial)
  }

  /** evaluate<int> on the text of an attribute; None is an exception or undefined behaviour. */
  function Calculate(text: string, aliases: Aliases, data: Data): Option<int> {
    match Expressions.Evaluate(Tokenizer.Tokenize(text), ExpressionEnv(aliases, data))
    case Value(v) => Some(v)
    case _ => None
  }

  /* ---- the renderer with a lexical environment ---- */

  /** Output and the environment for what follows; None if some expression is undefined. */
  type Rendering = Option<(seq<Xml>, Aliases)>

  function RenderNode(x: Xml, env: Aliases, data: Data): Rendering
    decreases x, 1, 0
  {
    match x
    case Text(_) => Some(([x], env))
    case Element(name, attrs, children) =>
      match DirectiveOf(name)
      case Block =>
        var r :- RenderAll(children, env, data);
        Some((r.0, env))
      case Eval =>
        var v :- Calculate(Attribute(attrs, "expr"), env, data);
        Some(([Text(IntText(v))], env))
      case For =>
        var out :- RenderLoop(x, data.keys(Attribute(attrs, "in")), env, data);
        Some((out, env))
      case Html => Some((data.html(data.value(Resolve(env, Attribute(attrs, "value")))), env))
      case If =>
        var truth :- Calculate(Attribute(attrs, "test"), env, data);
        if truth != 0 then RenderAll(children, env, data) else Some(([], env))
      case Print => Some(([Text(data.value(Resolve(env, Attribute(attrs, "value"))))], env))
      case Var => Some(([], Bind(env, Attribute(attrs, "name"), Attribute(attrs, "value"))))
      case Plain =>
        var r :- RenderAll(children, env, data);
        Some(([Element(name, attrs, r.0)], r.1))
  }

  function RenderAll(xs: seq<Xml>, env: Aliases, data: Data): Rendering
    decreases xs, 0, 0
  {
    if xs == [] then Some(([], env))
    else
      var r :- RenderNode(xs[0], env, data);
      var rest :- RenderAll(xs[1..], r.1, data);
      Some((r.0 + rest.0, rest.1))
  }

  /** The environment of one pass of a loop. */
  function PassEnv(x: Xml, key: string, env: Aliases): Aliases
    requires x.Element?
  {
    Bind(env, Attribute(x.attrs, "value"), Attribute(x.attrs, "in") + ":" + key)
  }

  function RenderLoop(x: Xml, keys: seq<string>, env: Aliases, data: Data): Option<seq<Xml>>
    requires x.Element?
    decreases x, 0, |keys|
  {
    if keys == [] then Some([])
    else
      var r :- RenderAll(x.children, PassEnv(x, keys[0], env), data);
      var rest :- RenderLoop(x, keys[1..], env, data);
      Some(r.0 + rest)
  }

  /** `r` with `out` written before it. */
  function After(out: seq<Xml>, r: Rendering): Rendering {
    match r case None => None case Some(p) => Some((out + p.0, p.1))
  }

  function LoopAfter(out: seq<Xml>, r: Option<seq<Xml>>): Option<seq<Xml>> {
    match r case None => None case Some(p) => Some(out + p)
  }

  /** The passes of a loop written out: one block each, beginning with the loop variable. */
  function Unrolled(x: Xml, keys: seq<string>): seq<Xml>
    requires x.Element?
  {
    if keys == [] then []
    else
      var ref := Attribute(x.attrs, "in") + ":" + keys[0];
      var bound := Element("udho:var", [("name", Attribute(x.attrs, "value")), ("value", ref)], []);
      [Element("udho:block", [], [bound] + x.children)] + Unrolled(x, keys[1..])
  }

  lemma Differs(s: string, prefix: string, i: nat)
    requires i < |s| && i < |prefix| && s[i] != prefix[i]
    ensures !StartsWith(s, prefix)
  {
  }

  lemma BlockAndVar()
    ensures DirectiveOf("udho:block").Block? && DirectiveOf("udho:var").Var?
  {
    Differs("udho:var", "udho:block", 5);
    Differs("udho:var", "udho:eval", 5);
    Differs("udho:var", "udho:for", 5);
    Differs("udho:var", "udho:html", 5);
    Differs("udho:var", "udho:if", 5);
    Differs("udho:var", "udho:text", 5);
  }

  /** udho:for is its passes written as blocks. */
  lemma {:induction false} ForIsBlocks(x: Xml, keys: seq<string>, env: Aliases, data: Data)
    requires x.Element?
    ensures RenderAll(Unrolled(x, keys), env, data)
         == match RenderLoop(x, keys, env, data) case None => None case Some(out) => Some((out, env))
  {
    if keys != [] {
      var blocks := Unrolled(x, keys);
      var inner := blocks[0].children;
      assert blocks[1..] == Unrolled(x, keys[1..]);
      assert inner[1..] == x.children;
      BlockAndVar();
      var bound := inner[0];
      assert Attribute(bound.attrs[1..], "value") == bound.attrs[1].1;
      assert RenderNode(bound, env, data) == Some(([], PassEnv(x, keys[0], env)));
      var pass := RenderAll(x.children, PassEnv(x, keys[0], env), data);
      if pass.Some? { assert [] + pass.value.0 == pass.value.0; }
      assert RenderAll(inner, env, data) == pass;
      assert RenderNode(blocks[0], env, data) == match pass case None => None case Some(p) => Some((p.0, env));
      ForIsBlocks(x, keys[1..], env, data);
    }
  }

  /* ---- the renderer with the shared table ---- */

  /** `t'` is `t` with more aliases, all of the current scope. */
  ghost predicate Grown(t: Table, t': Table) {
    && t'.level == t.level
    && (forall k | k in t.storage :: k in t'.storage && t'.storage[k] == t.storage[k])
    && (forall k | k in t'.storage && k !in t.storage :: t'.storage[k].depth == t.level)
  }

  /** Whatever a scope has added is gone when it is left. */
  lemma LeaveScope(t: Table, t': Table)
    requires Consistent(t) && Grown(Deeper(t), t')
    ensures Shallower(t') == t
  {
    assert ClearAt(t'.storage, t'.level) == t.storage;
  }

  /** From table `t`, output `r` and table `t'` are what the environment-passing renderer gives. */
  ghost predicate Refines(t: Table, spec: Rendering, t': Table, r: Option<seq<Xml>>) {
    match spec
    case None => r.None?
    case Some((out, env)) =>
      r == Some(out) && AliasesOf(t'.storage) == env && Grown(t, t') && Consistent(t')
  }

  lemma AfterNothing(r: Rendering, q: Option<seq<Xml>>)
    ensures After([], r) == r && LoopAfter([], q) == q
  {
    if r.Some? { assert [] + r.value.0 == r.value.0; }
    if q.Some? { assert [] + q.value == q.value; }
  }

  lemma AfterAll(out: seq<Xml>, env: Aliases)
    ensures After(out, Some(([], env))) == Some((out, env)) && LoopAfter(out, Some([])) == Some(out)
  {
    assert out + [] == out;
  }

  /** One more child rendered. */
  lemma AfterOne(out: seq<Xml>, xs: seq<Xml>, env: Aliases, data: Data)
    requires xs != []
    ensures After(out, RenderAll(xs, env, data))
         == match RenderNode(xs[0], env, data)
            case None => None
            case Some(p) => After(out + p.0, RenderAll(xs[1..], p.1, data))
  {
    var one := RenderNode(xs[0], env, data);
    if one.Some? {
      var rest := RenderAll(xs[1..], one.value.1, data);
      if rest.Some? { assert out + (one.value.0 + rest.value.0) == out + one.value.0 + rest.value.0; }
    }
  }

  /** One more pass of a loop. */
  lemma LoopAfterOne(out: seq<Xml>, x: Xml, keys: seq<string>, env: Aliases, data: Data)
    requires x.Element? && keys != []
    ensures LoopAfter(out, RenderLoop(x, keys, env, data))
         == match RenderAll(x.children, PassEnv(x, keys[0], env), data)
            case None => None
            case Some(p) => LoopAfter(out + p.0, RenderLoop(x, keys[1..], env, data))
  {
    var one := RenderAll(x.children, PassEnv(x, keys[0], env), data);
    if one.Some? {
      var rest := RenderLoop(x, keys[1..], env, data);
      if rest.Some? { assert out + (one.value.0 + rest.value) == out + one.value.0 + rest.value; }
    }
  }

  class XmlParser {
    const table: LookupTable
    const data: Data

    constructor (table: LookupTable, data: Data)
      ensures this.table == table && this.data == data
    {
      this.table := table;
      this.data := data;
    }

    /** xml::parse. */
    method Parse(x: Xml) returns (r: Option<seq<Xml>>)
      requires Consistent(table.View())
      modifies table
      ensures Refines(old(table.View()), RenderNode(x, AliasesOf(old(table.storage)), data), table.View(), r)
      ensures r.Some? && x.Element? && DirectiveOf(x.name) in {Block, For} ==> table.View() == old(table.View())
      decreases x, 1, 0
    {
      match x {
        case Text(_) => r := Some([x]);
        case Element(name, attrs, children) =>
          match DirectiveOf(name) {
            case Block => r := InScope(x);
            case Eval =>
              var v := Calculate(Attribute(attrs, "expr"), AliasesOf(table.storage), data);
              r := if v.None? then None else Some([Text(IntText(v.value))]);
            case For => r := Loop(x);
            case Html => r := Some(data.html(data.value(table.Lookup(Attribute(attrs, "value")))));
            case If =>
              var truth := Calculate(Attribute(attrs, "test"), AliasesOf(table.storage), data);
              if truth.None? {
                r := None;
              } else if truth.value != 0 {
                r := Travarse(children);
              } else {
                r := Some([]);
              }
            case Print => r := Some([Text(data.value(table.Lookup(Attribute(attrs, "value"))))]);
            case Var =>
              var _ := table.Add(Attribute(attrs, "name"), Attribute(attrs, "value"));
              r := Some([]);
            case Plain =>
              var inner := Travarse(children);
              r := if inner.None? then None else Some([Element(name, attrs, inner.value)]);
          }
      }
    }

    /** tags::block. */
    method InScope(x: Xml) returns (r: Option<seq<Xml>>)
      requires x.Element? && Consistent(table.View())
      modifies table
      ensures var spec := RenderAll(x.children, AliasesOf(old(table.storage)), data);
              r == match spec case None => None case Some((out, _)) => Some(out)
      ensures r.Some? ==> table.View() == old(table.View())
      decreases x, 0, 0
    {
      ghost var t := table.View();
      table.Down();
      r := Travarse(x.children);
      if r.Some? { LeaveScope(t, table.View()); }
      table.Up();
    }

    /** tags::loop. */
    method Loop(x: Xml) returns (r: Option<seq<Xml>>)
      requires x.Element? && Consistent(table.View())
      modifies table
      ensures r == RenderLoop(x, data.keys(Attribute(x.attrs, "in")), AliasesOf(old(table.storage)), data)
      ensures r.Some? ==> table.View() == old(table.View())
      decreases x, 0, 0
    {
      var keys := data.keys(Attribute(x.attrs, "in"));
      ghost var t := table.View();
      var out: seq<Xml> := [];
      AfterNothing(None, RenderLoop(x, keys, AliasesOf(t.storage), data));
      assert keys[0..] == keys;
      for i := 0 to |keys|
        invariant table.View() == t
        invariant LoopAfter(out, RenderLoop(x, keys[i..], AliasesOf(t.storage), data))
               == RenderLoop(x, keys, AliasesOf(t.storage), data)
      {
        assert keys[i..][1..] == keys[i + 1..];
        LoopAfterOne(out, x, keys[i..], AliasesOf(t.storage), data);
        table.Down();
        var _ := table.Add(Attribute(x.attrs, "value"), Attribute(x.attrs, "in") + ":" + keys[i]);
        ghost var t1 := table.View();
        var pass := Travarse(x.children);
        if pass.None? { return None; }
        LeaveScope(t, table.View());
        table.Up();
        out := out + pass.value;
      }
      assert keys[|keys|..] == [];
      AfterAll(out, map[]);
      r := Some(out);
    }

    /** xml::travarse. */
    method Travarse(xs: seq<Xml>) returns (r: Option<seq<Xml>>)
      requires Consistent(table.View())
      modifies table
      ensures Refines(old(table.View()), RenderAll(xs, AliasesOf(old(table.storage)), data), table.View(), r)
      decreases xs, 0, 0
    {
      ghost var t := table.View();
      var out: seq<Xml> := [];
      AfterNothing(RenderAll(xs, AliasesOf(t.storage), data), None);
      assert xs[0..] == xs;
      for i := 0 to |xs|
        invariant Consistent(table.View()) && Grown(t, table.View())
        invariant After(out, RenderAll(xs[i..], AliasesOf(table.storage), data))
               == RenderAll(xs, AliasesOf(t.storage), data)
      {
        assert xs[i..][1..] == xs[i + 1..];
        AfterOne(out, xs[i..], AliasesOf(table.storage), data);
        var one := Parse(xs[i]);
        if one.None? { return None; }
        out := out + one.value;
      }
      assert xs[|xs|..] == [];
      AfterAll(out, AliasesOf(table.storage));
      r := Some(out);
    }
  }
}
