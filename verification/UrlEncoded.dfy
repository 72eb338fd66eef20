/** The urlencoded form driver of includes/udho/forms.h, on positions of the query. */
module UrlEncoded {
  import opened Maps
  import opened Options
  import opened Search

  /** Without '=' the range of a value begins behind its end. */
  type Fields = map<string, Bounded>

  /** The segments from `last` on, inserted into `m`. */
  function ParseFrom(s: string, last: nat, m: Fields): Fields
    requires last <= |s|
    decreases |s| - last
  {
    var it := FindChar(s, last, |s|, '&');
    var assign := FindChar(s, last, it, '=');
    var m' := Insert(m, Copied(s, last, assign), Between(s, assign + 1, it));
    if it == |s| then m' else ParseFrom(s, it + 1, m')
  }

  function Parse(s: string): Fields {
    ParseFrom(s, 0, map[])
  }

  /** The loop of urlencoded_::parse. */
  method ParseLoop(s: string) returns (fields: Fields)
    ensures fields == Parse(s)
  {
    fields := map[];
    var last := 0;
    while true
      invariant last <= |s| && ParseFrom(s, last, fields) == Parse(s)
      decreases |s| - last
    {
      var it := FindChar(s, last, |s|, '&');
      var assign := FindChar(s, last, it, '=');
      fields := Insert(fields, Copied(s, last, assign), Between(s, assign + 1, it));
      if it == |s| { break; }
      last := it + 1;
    }
  }

  /* ---- reading a printed query ---- */

  /** url::param. */
  datatype Param = Param(key: string, value: string) {
    function Print(): string { key + "=" + value }
    predicate Good() { '&' !in key && '=' !in key && '&' !in value }
  }

  /** boost::algorithm::join of the printed parameters with '&'. */
  function Join(ps: seq<Param>): string {
    if ps == [] then "" else if |ps| == 1 then ps[0].Print() else ps[0].Print() + "&" + Join(ps[1..])
  }

  predicate AllGood(ps: seq<Param>) {
    ps == [] || (ps[0].Good() && AllGood(ps[1..]))
  }

  function Pairs(ps: seq<Param>, m: Fields): Fields
    decreases |ps|
  {
    if ps == [] then m else Pairs(ps[1..], Insert(m, ps[0].key, Text(ps[0].value)))
  }

  /** One segment that stands at `last`, ended by '&' or by the end of the query. */
  lemma ReadSegment(s: string, last: nat, p: Param)
    requires p.Good() && At(s, last, p.Print())
    requires var it := last + |p.Print()|; it == |s| || s[it] == '&'
    ensures var it, assign := last + |p.Print()|, last + |p.key|;
            && FindChar(s, last, |s|, '&') == it && FindChar(s, last, it, '=') == assign
            && Copied(s, last, assign) == p.key && Between(s, assign + 1, it) == Text(p.value)
  {
    var it, assign := last + |p.Print()|, last + |p.key|;
    Cut(s, last, p.key + "=", p.value);
    Cut(s, last, p.key, "=");
    AtChar(s, assign, "=", 0);
    forall i | last <= i < it ensures s[i] != '&' && (i < assign ==> s[i] != '=') {
      if i < assign {
        AtChar(s, last, p.key, i - last);
      } else if i > assign {
        AtChar(s, assign + 1, p.value, i - assign - 1);
      }
    }
    FindCharIs(s, last, |s|, '&', it);
    FindCharIs(s, last, it, '=', assign);
    Slice(s, last, p.key);
    Slice(s, assign + 1, p.value);
  }

  lemma {:induction false} ReadJoined(s: string, last: nat, ps: seq<Param>, m: Fields)
    requires ps != [] && AllGood(ps) && At(s, last, Join(ps)) && last + |Join(ps)| == |s|
    ensures ParseFrom(s, last, m) == Pairs(ps, m)
    decreases |ps|
  {
    hide Find, FindChar, At;
    var p := ps[0];
    if |ps| == 1 {
      ReadSegment(s, last, p);
    } else {
      var it := last + |p.Print()|;
      Cut(s, last, p.Print() + "&", Join(ps[1..]));
      Cut(s, last, p.Print(), "&");
      AtChar(s, it, "&", 0);
      ReadSegment(s, last, p);
      ReadJoined(s, it + 1, ps[1..], Insert(m, p.key, Text(p.value)));
    }
  }

  /** Parsing joined parameters gives the parameters back. */
  lemma QueryRoundTrip(ps: seq<Param>)
    requires ps != [] && AllGood(ps)
    ensures Parse(Join(ps)) == Pairs(ps, map[])
  {
    ReadJoined(Join(ps), 0, ps, map[]);
  }

  /** Of equal keys the first wins, and there are no other keys. */
  lemma {:induction false} FirstWins(ps: seq<Param>, m: Fields, k: string)
    ensures k in Pairs(ps, m) <==> k in m || exists p | p in ps :: p.key == k
    ensures k in m ==> Pairs(ps, m)[k] == m[k]
    ensures forall i | 0 <= i < |ps| && ps[i].key == k && k !in m && (forall j | 0 <= j < i :: ps[j].key != k) ::
              k in Pairs(ps, m) && Pairs(ps, m)[k] == Text(ps[i].value)
    decreases |ps|
  {
    if ps != [] {
      var m' := Insert(m, ps[0].key, Text(ps[0].value));
      FirstWins(ps[1..], m', k);
      assert ps == [ps[0]] + ps[1..];
      forall i | 0 <= i < |ps| && ps[i].key == k && k !in m && (forall j | 0 <= j < i :: ps[j].key != k)
        ensures k in Pairs(ps, m) && Pairs(ps, m)[k] == Text(ps[i].value)
      {
        if i > 0 {
          assert ps[1..][i - 1] == ps[i] && ps[0].key != k;
          forall j | 0 <= j < i - 1 ensures ps[1..][j].key != k { assert ps[1..][j] == ps[j + 1]; }
        }
      }
    }
  }

  /* ---- reading any query ---- */

  /** What stands between two '&': a key, and a value if there is a '='. */
  datatype Segment = Segment(key: string, value: Option<string>) {
    function Print(): string { key + (if value.Some? then "=" + value.value else "") }
    function Value(): Bounded { if value.Some? then Text(value.value) else Backwards }
    predicate Good() { '&' !in key && '=' !in key && (value.Some? ==> '&' !in value.value) }
  }

  function Joined(gs: seq<Segment>): string
    requires gs != []
  {
    if |gs| == 1 then gs[0].Print() else gs[0].Print() + "&" + Joined(gs[1..])
  }

  predicate GoodSegments(gs: seq<Segment>) {
    gs == [] || (gs[0].Good() && GoodSegments(gs[1..]))
  }

  function Collected(gs: seq<Segment>, m: Fields): Fields
    decreases |gs|
  {
    if gs == [] then m else Collected(gs[1..], Insert(m, gs[0].key, gs[0].Value()))
  }

  lemma ReadAny(s: string, last: nat, g: Segment)
    requires g.Good() && At(s, last, g.Print())
    requires var it := last + |g.Print()|; it == |s| || s[it] == '&'
    ensures var it, assign := last + |g.Print()|, last + |g.key|;
            && FindChar(s, last, |s|, '&') == it && FindChar(s, last, it, '=') == assign
            && Copied(s, last, assign) == g.key && Between(s, assign + 1, it) == g.Value()
  {
    if g.value.Some? {
      assert g.Print() == Param(g.key, g.value.value).Print();
      ReadSegment(s, last, Param(g.key, g.value.value));
    } else {
      var it := last + |g.key|;
      assert g.Print() == g.key;
      forall i | last <= i < it ensures s[i] != '&' && s[i] != '=' { AtChar(s, last, g.key, i - last); }
      FindCharIs(s, last, |s|, '&', it);
      FindCharIs(s, last, it, '=', it);
      Slice(s, last, g.key);
    }
  }

  lemma {:induction false} ReadSegments(s: string, last: nat, gs: seq<Segment>, m: Fields)
    requires gs != [] && GoodSegments(gs) && At(s, last, Joined(gs)) && last + |Joined(gs)| == |s|
    ensures ParseFrom(s, last, m) == Collected(gs, m)
    decreases |gs|
  {
    hide FindChar, At;
    var g := gs[0];
    if |gs| == 1 {
      ReadAny(s, last, g);
    } else {
      var it := last + |g.Print()|;
      Cut(s, last, g.Print() + "&", Joined(gs[1..]));
      Cut(s, last, g.Print(), "&");
      AtChar(s, it, "&", 0);
      ReadAny(s, last, g);
      ReadSegments(s, it + 1, gs[1..], Insert(m, g.key, g.Value()));
    }
  }

  lemma {:induction false} Segments(s: string) returns (gs: seq<Segment>)
    ensures gs != [] && GoodSegments(gs) && Joined(gs) == s
    decreases |s|
  {
    var it := FindChar(s, 0, |s|, '&');
    FindCharIs(s, 0, |s|, '&', it);
    var assign := FindChar(s, 0, it, '=');
    FindCharIs(s, 0, it, '=', assign);
    var g := Segment(s[..assign], if assign == it then None else Some(s[assign + 1..it]));
    assert g.Print() == s[..it];
    if it == |s| {
      gs := [g];
      assert gs[1..] == [];
    } else {
      var rest := Segments(s[it + 1..]);
      gs := [g] + rest;
      assert gs[1..] == rest;
      assert s == s[..it] + "&" + s[it + 1..];
    }
  }

  /**
   Every text is a query: it is segments joined by '&', and parsing inserts exactly them in order.
   A segment without '=' has a value that begins behind its end.
   */
  lemma {:induction false} EveryQuery(s: string) returns (gs: seq<Segment>)
    ensures gs != [] && GoodSegments(gs) && Joined(gs) == s && Parse(s) == Collected(gs, map[])
  {
    gs := Segments(s);
    ReadSegments(s, 0, gs, map[]);
  }
}
