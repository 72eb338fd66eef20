/** Parsing an address that was printed or built gives back what it was printed or built from. */
module UrlTheorems {
  import opened Numerals
  import opened Options
  import opened Search
  import opened Url
  import opened UrlEncoded
  import Maps
  import PercentEncoding

  function Or(text: Option<string>): string {
    if text.Some? then text.value else ""
  }

  /** What follows the protocol of an address with a path. */
  datatype Parts = Parts(host: string, port: Option<string>, path: string, query: Option<string>) {
    predicate Good() {
      && ':' !in host && '/' !in host && '/' !in Or(port)
      && path != "" && path[0] == '/' && '?' !in path
    }
    function Colon(): string { if port.Some? then ":" + port.value else "" }
    function Mark(): string { if query.Some? then "?" + query.value else "" }
    function Target(): string { path + Mark() }
    function Rest(): string { host + (Colon() + Target()) }
    function ToCuts(protocol: string): Cuts { Cuts(protocol, host, Or(port), path, Target(), Or(query)) }
  }

  /* ---- cutting a printed address ---- */

  lemma {:induction false} TerminalIs(s: string, lo: nat, r: nat)
    requires lo <= r <= |s| && (forall i | lo <= i < r :: s[i] != ':' && s[i] != '/')
    requires r == |s| || s[r] == ':' || s[r] == '/'
    ensures FindTerminal(s, lo) == r
    decreases |s| - lo
  {
    if lo < r { TerminalIs(s, lo + 1, r); }
  }

  /** Where a text free of `c` ends is where `c` is found, if it stands there. */
  lemma FindBehind(s: string, lo: nat, text: string, c: char)
    requires At(s, lo, text) && c !in text && (lo + |text| == |s| || s[lo + |text|] == c)
    ensures FindChar(s, lo, |s|, c) == lo + |text|
  {
    forall i | lo <= i < lo + |text| ensures s[i] != c { AtChar(s, lo, text, i - lo); }
    FindCharIs(s, lo, |s|, c, lo + |text|);
  }

  lemma FindHost(s: string, lo: nat, host: string)
    requires At(s, lo, host) && ':' !in host && '/' !in host
    requires var r := lo + |host|; r < |s| && (s[r] == ':' || s[r] == '/')
    ensures FindTerminal(s, lo) == lo + |host|
  {
    forall i | lo <= i < lo + |host| ensures s[i] != ':' && s[i] != '/' { AtChar(s, lo, host, i - lo); }
    TerminalIs(s, lo, lo + |host|);
  }

  lemma {:induction false} CutQuery(s: string, mark: nat, query: string)
    requires At(s, mark, "?" + query) && mark + 1 + |query| == |s|
    ensures s[mark] == '?' && Copied(s, mark + 1, |s|) == query
  {
    AtChar(s, mark, "?" + query, 0);
    hide At, Copied;
    Cut(s, mark, "?", query);
    Slice(s, mark + 1, query);
  }

  lemma {:induction false} CutTarget(s: string, slash: nat, p: Parts)
    requires p.Good() && At(s, slash, p.Target()) && slash + |p.Target()| == |s|
    ensures var mark := slash + |p.path|;
            && slash < |s| && s[slash] == '/' && FindChar(s, slash, |s|, '?') == mark
            && Copied(s, slash, |s|) == p.Target() && Copied(s, slash, mark) == p.path
            && (mark == |s| <==> p.query.None?) && (mark != |s| ==> Copied(s, mark + 1, |s|) == Or(p.query))
  {
    hide At, FindChar, Copied;
    var mark := slash + |p.path|;
    Cut(s, slash, p.path, p.Mark());
    AtChar(s, slash, p.path, 0);
    if p.query.Some? { CutQuery(s, mark, p.query.value); }
    FindBehind(s, slash, p.path, '?');
    Slice(s, slash, p.path);
    Slice(s, slash, p.Target());
  }

  lemma {:induction false} CutPort(s: string, it: nat, p: Parts)
    requires p.Good() && p.port.Some? && At(s, it, p.Colon())
    requires var slash := it + |p.Colon()|; slash < |s| && s[slash] == '/'
    ensures s[it] == ':' && FindChar(s, it + 1, |s|, '/') == it + |p.Colon()|
    ensures Copied(s, it + 1, it + |p.Colon()|) == p.port.value
  {
    AtChar(s, it, p.Colon(), 0);
    Cut(s, it, ":", p.port.value);
    FindBehind(s, it + 1, p.port.value, '/');
    Slice(s, it + 1, p.port.value);
  }

  lemma {:induction false} CutRest(s: string, protocol: string, start: nat, p: Parts)
    requires p.Good() && At(s, start, p.Rest()) && start + |p.Rest()| == |s|
    ensures CutHost(s, protocol, start) == p.ToCuts(protocol)
  {
    hide At, FindChar, FindTerminal, Copied;
    var it := start + |p.host|;
    var slash := it + |p.Colon()|;
    Cut(s, start, p.host, p.Colon() + p.Target());
    Cut(s, it, p.Colon(), p.Target());
    CutTarget(s, slash, p);
    Slice(s, start, p.host);
    if p.port.Some? { CutPort(s, it, p); }
    FindHost(s, start, p.host);
  }

  lemma {:induction false} ProtocolFound(s: string, protocol: string, rest: string)
    requires s == protocol + TERMINAL + rest && !Occurs(protocol, TERMINAL)
    ensures Find(s, 0, |s|, TERMINAL) == |protocol|
    ensures Copied(s, 0, |protocol|) == protocol && At(s, |protocol| + 3, rest)
  {
    hide Find, Copied, At, Occurs;
    Whole(s);
    Cut(s, 0, protocol + TERMINAL, rest);
    Cut(s, 0, protocol, TERMINAL);
    NoStraddle(s, |protocol|);
    Slice(s, 0, protocol);
    FindAfter(s, 0, |s|, protocol, TERMINAL);
  }

  lemma Whole(s: string)
    ensures At(s, 0, s)
  {
  }

  /** No second "://" begins before one and reaches into it. */
  lemma NoStraddle(s: string, n: nat)
    requires At(s, n, TERMINAL)
    ensures forall i: nat | i < n < i + 3 :: !At(s, i, TERMINAL)
  {
    AtChar(s, n, TERMINAL, 0);
    forall i: nat | i < n < i + 3 ensures !At(s, i, TERMINAL) { AtChar(s, i, TERMINAL, n - i); }
  }

  lemma {:induction false} CutProtocol(protocol: string, p: Parts)
    requires p.Good() && !Occurs(protocol, TERMINAL)
    ensures CutUp(protocol + TERMINAL + p.Rest()) == p.ToCuts(protocol)
  {
    hide Find, At, Copied, CutHost, Occurs;
    var s := protocol + TERMINAL + p.Rest();
    ProtocolFound(s, protocol, p.Rest());
    CutRest(s, protocol, |protocol| + 3, p);
  }

  lemma CutBare(p: Parts)
    requires p.Good() && !Occurs(p.Rest(), TERMINAL)
    ensures CutUp(p.Rest()) == p.ToCuts("")
  {
    var s := p.Rest();
    NoneInside(s, 0, s, TERMINAL);
    CutRest(s, "", 0, p);
  }

  /* ---- ports ---- */

  lemma {:induction false} DigitsAll(s: string, i: nat)
    requires i <= |s| && AllDigits(s)
    ensures Digits(s, i) == s[i..]
    decreases |s| - i
  {
    if i < |s| {
      assert s[i] in s;
      DigitsAll(s, i + 1);
    }
  }

  /** Every port is read back from its decimal text. */
  lemma PortRoundTrip(n: nat)
    requires n <= SIZE_MAX
    ensures Stoul(NatText(n)) == Some(n)
  {
    var s := NatText(n);
    assert s[0] in s && IsDigit(s[0]);
    DigitsAll(s, 0);
    NatRoundTrip(n);
  }

  lemma {:induction false} DigitsUntil(s: string, i: nat, n: nat)
    requires i <= n <= |s| && AllDigits(s[i..n]) && (n == |s| || !IsDigit(s[n]))
    ensures Digits(s, i) == s[i..n]
    decreases n - i
  {
    if i < n {
      assert s[i] == s[i..n][0] && s[i] in s[i..n];
      assert s[i + 1..n] == s[i..n][1..];
      DigitsUntil(s, i + 1, n);
    }
  }

  predicate PortPieces(pad: string, sign: string, digits: string, tail: string) {
    && (forall c | c in pad :: c in SPACES) && sign in {"", "+", "-"}
    && (forall c | c in digits :: c in "0123456789") && (tail == "" || tail[0] !in "0123456789")
    && (digits == "" && sign == "" && tail != "" ==> tail[0] !in SPACES && tail[0] !in "+-")
  }

  lemma DigitIs(c: char)
    ensures IsDigit(c) <==> c in "0123456789"
  {
  }

  lemma {:induction false} PortDigits(s: string, i: nat, digits: string, tail: string)
    requires i <= |s| && s[i..] == digits + tail
    requires (forall c | c in digits :: c in "0123456789") && (tail == "" || tail[0] !in "0123456789")
    ensures AllDigits(digits) && Digits(s, i) == digits
  {
    hide IsDigit;
    forall c | c in digits ensures IsDigit(c) { DigitIs(c); }
    var j := i + |digits|;
    assert digits == s[i..][..|digits|] == s[i..j];
    assert j < |s| ==> s[j] == s[i..][|digits|] == tail[0];
    if j < |s| { DigitIs(s[j]); }
    DigitsUntil(s, i, j);
  }

  /** Where the white space of a port text ends and its digits begin. */
  lemma {:induction false} PortCut(pad: string, sign: string, digits: string, tail: string)
    requires PortPieces(pad, sign, digits, tail)
    ensures var s, p := pad + sign + digits + tail, |pad|;
            && SkipSpace(s, 0, |s|) == p && (sign != "" ==> s[p] == sign[0])
            && (sign == "" && p < |s| ==> s[p] !in "+-") && s[p + |sign|..] == digits + tail
  {
    var s, p := pad + sign + digits + tail, |pad|;
    var rest := sign + digits + tail;
    assert s == pad + rest;
    forall k | 0 <= k < p ensures IsSpace(s[k]) {
      assert s[k] == pad[k] && pad[k] in pad;
      SpaceIs(s[k]);
    }
    if rest != "" {
      assert s[p] == rest[0];
      assert digits != "" ==> digits[0] in digits;
      SpaceIs(rest[0]);
    }
    PadSkipped(s, 0, p, |s|);
  }

  /** A port text is read up to its first character behind the digits; a minus wraps around. */
  lemma {:induction false} PortText(pad: string, sign: string, digits: string, tail: string)
    requires PortPieces(pad, sign, digits, tail)
    ensures AllDigits(digits)
    ensures var n := NatValue(digits);
            Stoul(pad + sign + digits + tail) ==
              if digits == "" || n > SIZE_MAX then None
              else Some(if sign == "-" then (0x1_0000_0000_0000_0000 - n) % 0x1_0000_0000_0000_0000 else n)
  {
    hide SkipSpace, Digits;
    var s := pad + sign + digits + tail;
    PortCut(pad, sign, digits, tail);
    PortDigits(s, |pad| + |sign|, digits, tail);
  }

  /** What is read from a printed address without a port. */
  lemma {:induction false} DefaultPort(protocol: string, p: Parts)
    requires p.Good() && !Occurs(protocol, TERMINAL) && p.port in {None, Some("")}
    ensures FromString(protocol + "://" + p.Rest()) ==
      Some(Address(protocol, p.host, if protocol == "https" then 443 else 80, p.path, p.Target(), Or(p.query)))
  {
    hide CutUp, Stoul, Occurs;
    CutProtocol(protocol, p);
  }

  /** What is read from a printed address with a port, which decides whether it is read at all. */
  lemma {:induction false} GivenPort(protocol: string, p: Parts)
    requires p.Good() && !Occurs(protocol, TERMINAL) && p.port.Some? && p.port.value != ""
    ensures var read, n := FromString(protocol + "://" + p.Rest()), Stoul(p.port.value);
            read == if n.None? then None
                    else Some(Address(protocol, p.host, n.value, p.path, p.Target(), Or(p.query)))
  {
    hide CutUp, Stoul, Occurs;
    CutProtocol(protocol, p);
  }

  /** An address that ends with its host has the path "/". */
  lemma {:induction false} BareHost(protocol: string, host: string)
    requires !Occurs(protocol, TERMINAL) && ':' !in host && '/' !in host
    ensures FromString(protocol + "://" + host) ==
      Some(Address(protocol, host, if protocol == "https" then 443 else 80, "/", "/", ""))
  {
    hide Find, At, Copied, Occurs, FindTerminal;
    var s := protocol + TERMINAL + host;
    var start := |protocol| + 3;
    ProtocolFound(s, protocol, host);
    assert forall i | start <= i < |s| :: s[i] == host[i - start];
    TerminalIs(s, start, |s|);
    Slice(s, start, host);
  }

  /* ---- stability ---- */

  lemma {:induction false} CopiedFrom(s: string, lo: nat, hi: nat)
    requires lo <= hi <= |s|
    ensures Copied(s, lo, hi) == s[lo..hi]
    decreases |s| - lo
  {
    if lo < hi { CopiedFrom(s, lo + 1, hi); }
  }

  lemma {:induction false} TerminalFree(s: string, lo: nat)
    requires lo <= |s|
    ensures forall i | lo <= i < FindTerminal(s, lo) :: s[i] != ':' && s[i] != '/'
    ensures var it := FindTerminal(s, lo); it == |s| || s[it] == ':' || s[it] == '/'
    decreases |s| - lo
  {
    if lo < |s| { TerminalFree(s, lo + 1); }
  }

  /** A target is its path, or its path and its query. */
  predicate Joined(path: string, target: string, query: string) {
    (target == path && query == "") || target == path + ("?" + query)
  }

  predicate IsPath(path: string) {
    path != "" && path[0] == '/' && '?' !in path
  }

  /** What cutting up any text leaves of host and target. */
  lemma {:induction false} HostShape(s: string, protocol: string, start: nat)
    requires start <= |s|
    ensures var c := CutHost(s, protocol, start);
            && ':' !in c.host && '/' !in c.host && Joined(c.path, c.target, c.query)
            && (if c.target == "" then c.path == "" else IsPath(c.path))
  {
    hide FindTerminal, FindChar, Copied, IsPath;
    var it := FindTerminal(s, start);
    TerminalFree(s, start);
    CopiedFrom(s, start, it);
    if it != |s| {
      var slash := if s[it] == ':' then FindChar(s, it + 1, |s|, '/') else it;
      if s[it] == ':' { FindCharIs(s, it + 1, |s|, '/', slash); }
      hide Joined;
      TargetShape(s, slash);
    }
  }

  lemma {:induction false} TargetShape(s: string, slash: nat)
    requires slash <= |s| && (slash == |s| || s[slash] == '/')
    ensures var mark := FindChar(s, slash, |s|, '?');
            var target, path := Copied(s, slash, |s|), Copied(s, slash, mark);
            && Joined(path, target, if mark == |s| then "" else Copied(s, mark + 1, |s|))
            && (if target == "" then path == "" else IsPath(path))
  {
    hide FindChar, Copied;
    var mark := FindChar(s, slash, |s|, '?');
    FindCharIs(s, slash, |s|, '?', mark);
    CopiedFrom(s, slash, |s|);
    CopiedFrom(s, slash, mark);
    if mark < |s| {
      CopiedFrom(s, mark + 1, |s|);
      assert s[slash..] == s[slash..mark] + ("?" + s[mark + 1..]);
    }
  }

  lemma {:induction false} ProtocolShape(s: string)
    ensures !Occurs(CutUp(s).protocol, TERMINAL)
  {
    var end := Find(s, 0, |s|, TERMINAL);
    if end != |s| {
      FindIs(s, 0, |s|, TERMINAL, end);
      CopiedFrom(s, 0, end);
      var p := s[..end];
      forall i: nat | i <= |p| ensures !At(p, i, TERMINAL) {
        if At(p, i, TERMINAL) { Window(s, 0, p, i, TERMINAL); }
      }
    }
  }

  /** Printing a parsed address and parsing it again changes nothing, whatever the text was. */
  lemma {:induction false} UrlStability(s: string)
    requires FromString(s).Some?
    ensures FromString(Stringify(FromString(s).value)) == FromString(s)
  {
    var a, c := FromString(s).value, CutUp(s);
    ProtocolShape(s);
    var end := Find(s, 0, |s|, TERMINAL);
    if end == |s| {
      HostShape(s, "", 0);
    } else {
      FoundInside(s, TERMINAL);
      HostShape(s, c.protocol, end + 3);
    }
    Reprint(a);
  }

  /** The parts that a well-formed address is printed from. */
  lemma {:induction false} PartsOf(a: Address) returns (p: Parts)
    requires ':' !in a.host && '/' !in a.host && IsPath(a.path) && Joined(a.path, a.target, a.query)
    ensures p.Good() && p.host == a.host && p.port == Some(NatText(a.port)) && p.path == a.path
    ensures p.Target() == a.target && Or(p.query) == a.query
  {
    DigitsOnly(NatText(a.port));
    hide NatText;
    var same := |a.target| == |a.path|;
    p := Parts(a.host, Some(NatText(a.port)), a.path, if same then None else Some(a.query));
    assert |a.path + ("?" + a.query)| > |a.path|;
    if same { assert a.path + "" == a.path; }
  }

  /** Every well-formed address is read back from its text. */
  lemma {:induction false} Reprint(a: Address)
    requires !Occurs(a.protocol, TERMINAL) && ':' !in a.host && '/' !in a.host && a.port <= SIZE_MAX
    requires IsPath(a.path) && Joined(a.path, a.target, a.query)
    ensures FromString(Stringify(a)) == Some(a)
  {
    hide CutUp, Stoul, Occurs, Joined, NatText;
    var p := PartsOf(a);
    CutProtocol(a.protocol, p);
    PortRoundTrip(a.port);
    assert Stringify(a) == a.protocol + TERMINAL + p.Rest();
  }

  lemma DigitsOnly(s: string)
    requires AllDigits(s)
    ensures '/' !in s
  {
  }

  /* ---- building queries ---- */

  lemma {:induction false} JoinAppend(ps: seq<Param>, qs: seq<Param>)
    requires ps != [] && qs != []
    ensures Join(ps + qs) == Join(ps) + "&" + Join(qs)
  {
    var all := ps + qs;
    assert all[1..] == ps[1..] + qs;
    if |ps| == 1 {
      assert all[1..] == qs;
    } else {
      JoinAppend(ps[1..], qs);
      var first := ps[0].Print() + "&";
      assert first + (Join(ps[1..]) + "&" + Join(qs)) == first + Join(ps[1..]) + "&" + Join(qs);
    }
  }

  lemma {:induction false} GoodAppend(ps: seq<Param>, qs: seq<Param>)
    ensures AllGood(ps + qs) <==> AllGood(ps) && AllGood(qs)
  {
    if ps == [] {
      assert ps + qs == qs;
    } else {
      assert (ps + qs)[1..] == ps[1..] + qs;
      GoodAppend(ps[1..], qs);
    }
  }

  /** An address with a path, as text. */
  function Printed(protocol: Option<string>, p: Parts): string {
    (if protocol.Some? then protocol.value + TERMINAL else "") + p.Rest()
  }

  /** The protocol is the only place where "://" may stand, unless there is one to find before. */
  predicate Clear(protocol: Option<string>, p: Parts) {
    if protocol.Some? then !Occurs(protocol.value, TERMINAL) else !Occurs(p.Rest(), TERMINAL)
  }

  lemma ReadPrinted(protocol: Option<string>, p: Parts)
    requires p.Good() && Clear(protocol, p)
    ensures CutUp(Printed(protocol, p)) == p.ToCuts(Or(protocol))
  {
    if protocol.Some? {
      CutProtocol(protocol.value, p);
    } else {
      assert Printed(protocol, p) == p.Rest();
      CutBare(p);
    }
  }

  /** A base address whose query is printed from `before`. */
  predicate Base(protocol: Option<string>, p: Parts, before: seq<Param>) {
    && p.Good() && Clear(protocol, p) && AllGood(before)
    && (if before == [] then p.query == None && '?' !in Printed(protocol, p) else p.query == Some(Join(before)))
  }

  function Front(protocol: Option<string>, p: Parts): string {
    (if protocol.Some? then protocol.value + TERMINAL else "") + (p.host + (p.Colon() + p.path))
  }

  lemma PrintedIsFront(protocol: Option<string>, p: Parts)
    ensures Printed(protocol, p) == Front(protocol, p) + p.Mark()
  {
    var head := if protocol.Some? then protocol.value + TERMINAL else "";
    Regroup(p.host, p.Colon(), p.path, p.Mark());
    assert head + ((p.host + (p.Colon() + p.path)) + p.Mark()) == (head + (p.host + (p.Colon() + p.path))) + p.Mark();
  }

  lemma Regroup(a: string, b: string, c: string, d: string)
    ensures a + (b + (c + d)) == (a + (b + c)) + d
  {
  }

  lemma BuildFirst(front: string, params: seq<Param>)
    requires '?' !in front
    ensures Build(front, params) == front + ("?" + Join(params))
  {
    hide Join;
    FindCharIs(front, 0, |front|, '?', |front|);
    assert front + "?" + Join(params) == front + ("?" + Join(params));
  }

  lemma BuildMore(front: string, query: string, params: seq<Param>)
    ensures Build(front + ("?" + query), params) == front + ("?" + (query + "&" + Join(params)))
  {
    hide Join, FindChar;
    var base, joined := front + ("?" + query), Join(params);
    assert base[|front|] == '?';
    FindCharIs(base, 0, |base|, '?', |base|);
    assert base + "&" + joined == front + ("?" + (query + "&" + joined));
  }

  lemma {:induction false} BuiltPrinted(protocol: Option<string>, p: Parts, before: seq<Param>, params: seq<Param>)
    requires Base(protocol, p, before) && params != []
    ensures Build(Printed(protocol, p), params) == Printed(protocol, p.(query := Some(Join(before + params))))
  {
    hide Join, Build, Printed, Front, Clear;
    var q := p.(query := Some(Join(before + params)));
    PrintedIsFront(protocol, p);
    PrintedIsFront(protocol, q);
    FrontSame(protocol, p, q.query);
    if before == [] {
      assert before + params == params && Front(protocol, p) + "" == Front(protocol, p);
      BuildFirst(Front(protocol, p), params);
    } else {
      JoinAppend(before, params);
      BuildMore(Front(protocol, p), Join(before), params);
    }
  }

  lemma FrontSame(protocol: Option<string>, p: Parts, query: Option<string>)
    ensures Front(protocol, p.(query := query)) == Front(protocol, p)
  {
  }

  /** Parameters in which no "://" stands. */
  predicate NoTerminal(ps: seq<Param>) {
    ps == [] || (!Occurs(ps[0].key, TERMINAL) && !Occurs(ps[0].value, TERMINAL) && NoTerminal(ps[1..]))
  }

  lemma {:induction false} JoinTerminal(ps: seq<Param>)
    ensures Occurs(Join(ps), TERMINAL) <==> !NoTerminal(ps)
  {
    hide Occurs;
    if ps == [] {
      NothingInEmpty(TERMINAL);
    } else {
      OccursAcross(ps[0].key, '=', ps[0].value, TERMINAL);
      if |ps| > 1 {
        OccursAcross(ps[0].Print(), '&', Join(ps[1..]), TERMINAL);
        JoinTerminal(ps[1..]);
      }
    }
  }

  /** A built address has a "://" exactly where its base or a parameter has one. */
  lemma {:induction false} BuildTerminal(base: string, params: seq<Param>)
    ensures Occurs(Build(base, params), TERMINAL) <==> Occurs(base, TERMINAL) || !NoTerminal(params)
  {
    hide Occurs, NoTerminal, Join;
    JoinTerminal(params);
    OccursAcross(base, '?', Join(params), TERMINAL);
    OccursAcross(base, '&', Join(params), TERMINAL);
  }

  /** A "://" in a parameter ends the protocol of an address whose base has none. */
  lemma {:induction false} ProtocolTaken(base: string, params: seq<Param>)
    requires base != "" && !Occurs(base, TERMINAL) && !NoTerminal(params)
    ensures CutUp(Build(base, params)).protocol != ""
  {
    var s := Build(base, params);
    BuildTerminal(base, params);
    BuildBegins(base, params);
    hide Build;
    OccursFound(s, TERMINAL);
    NotAtFront(s, base);
    CopiedFrom(s, 0, Find(s, 0, |s|, TERMINAL));
  }

  lemma BuildBegins(base: string, params: seq<Param>)
    ensures var s := Build(base, params); At(s, 0, base) && |base| < |s| && s[|base|] in {'?', '&'}
  {
  }

  lemma {:induction false} NotAtFront(s: string, base: string)
    requires base != "" && At(s, 0, base) && |base| < |s| && s[|base|] in {'?', '&'}
    requires !Occurs(base, TERMINAL)
    ensures !At(s, 0, TERMINAL)
  {
    hide At;
    if |base| < 3 {
      AtChar(s, 0, TERMINAL, |base|);
    } else {
      Window(s, 0, base, 0, TERMINAL);
    }
  }

  /** The texts of the base, with a new query. */
  function WithQuery(c: Cuts, query: string): Cuts {
    c.(target := c.path + ("?" + query), query := query)
  }

  /**
   url::build keeps protocol, host, port and path of its base, and its query is the base's pairs
   followed by the parameters: iff the base has a protocol or no parameter contains "://".
   */
  lemma {:induction false} QueryBuild(protocol: Option<string>, p: Parts, before: seq<Param>, params: seq<Param>)
    requires Base(protocol, p, before) && params != [] && AllGood(params)
    ensures Parse(Join(before + params)) == Pairs(before + params, map[])
    ensures var base, query := Printed(protocol, p), Join(before + params);
            CutUp(Build(base, params)) == WithQuery(CutUp(base), query) <==> protocol.Some? || NoTerminal(params)
  {
    hide CutUp, Occurs, At, Join, NoTerminal, Parse;
    var base := Printed(protocol, p);
    ReadPrinted(protocol, p);
    GoodAppend(before, params);
    QueryRoundTrip(before + params);
    if protocol.Some? || NoTerminal(params) {
      QueryKept(protocol, p, before, params);
    } else {
      assert base == p.Rest();
      ProtocolTaken(base, params);
    }
  }

  lemma {:induction false} QueryKept(protocol: Option<string>, p: Parts, before: seq<Param>, params: seq<Param>)
    requires Base(protocol, p, before) && params != [] && (protocol.Some? || NoTerminal(params))
    ensures CutUp(Build(Printed(protocol, p), params)) == WithQuery(p.ToCuts(Or(protocol)), Join(before + params))
  {
    hide CutUp, Occurs, At, Join, NoTerminal, Build;
    var q := p.(query := Some(Join(before + params)));
    BuiltPrinted(protocol, p, before, params);
    if protocol.None? {
      assert Printed(protocol, p) == p.Rest() && Printed(protocol, q) == q.Rest();
      BuildTerminal(p.Rest(), params);
    }
    ReadPrinted(protocol, q);
  }

  /** The same of the address itself: whenever the base can be read, and exactly under that condition. */
  lemma {:induction false} AddressBuild(protocol: Option<string>, p: Parts, before: seq<Param>, params: seq<Param>)
    requires Base(protocol, p, before) && params != [] && AllGood(params)
    requires FromString(Printed(protocol, p)).Some?
    ensures var a, query := FromString(Printed(protocol, p)).value, Join(before + params);
            var expected := a.(target := a.path + ("?" + query), query := query);
            FromString(Build(Printed(protocol, p), params)) == Some(expected) <==> protocol.Some? || NoTerminal(params)
  {
    hide CutUp, Occurs, At, Join, NoTerminal, Build, Stoul;
    var base := Printed(protocol, p);
    ReadPrinted(protocol, p);
    QueryBuild(protocol, p, before, params);
    if protocol.None? && !NoTerminal(params) {
      assert base == p.Rest();
      ProtocolTaken(base, params);
    }
  }

  /** An address of a protocol and a host only. */
  lemma {:induction false} CutHostOnly(s: string, protocol: string, host: string)
    requires s == protocol + TERMINAL + host && !Occurs(protocol, TERMINAL) && ':' !in host && '/' !in host
    ensures CutUp(s) == Cuts(protocol, host, "", "", "", "")
  {
    hide Find, Occurs;
    ProtocolFound(s, protocol, host);
    var start := |protocol| + 3;
    forall i | start <= i < |s| ensures s[i] != ':' && s[i] != '/' { AtChar(s, start, host, i - start); }
    TerminalIs(s, start, |s|);
    Slice(s, start, host);
  }

  /** The condition is needed: a link as a parameter of a relative address. */
  lemma {:induction false} LinkAsParameter()
    ensures Build("/a", [Param("n", "x://y")]) == "/a?n=x://y"
    ensures FromString("/a?n=x://y") == Some(Address("/a?n=x", "y", 80, "/", "/", ""))
  {
    BuildFirst("/a", [Param("n", "x://y")]);
    assert Param("n", "x://y").Print() == "n=x://y";
    LinkRead("/a?n=x", "y");
    assert "/a?n=x" + TERMINAL + "y" == "/a?n=x://y";
  }

  lemma {:induction false} LinkRead(protocol: string, host: string)
    requires protocol == "/a?n=x" && ':' !in host && '/' !in host
    ensures FromString(protocol + TERMINAL + host) == Some(Address(protocol, host, 80, "/", "/", ""))
  {
    forall i: nat | i <= |protocol| ensures !At(protocol, i, TERMINAL) { AtChar(protocol, i, TERMINAL, 0); }
    assert !Occurs(protocol, TERMINAL);
    hide CutUp, Occurs;
    CutHostOnly(protocol + TERMINAL + host, protocol, host);
  }

  /* ---- parameters of any bytes ---- */

  type Bytes = PercentEncoding.Bytes

  function Encoded(raw: seq<(Bytes, Bytes)>): seq<Param> {
    if raw == [] then []
    else [Param(PercentEncoding.Encode(raw[0].0), PercentEncoding.Encode(raw[0].1))] + Encoded(raw[1..])
  }

  /** The value that goes with the first occurrence of a key. */
  function FirstValue(raw: seq<(Bytes, Bytes)>, key: Bytes): Option<Bytes> {
    if raw == [] then None else if raw[0].0 == key then Some(raw[0].1) else FirstValue(raw[1..], key)
  }

  lemma {:induction false} EncodedFits(raw: seq<(Bytes, Bytes)>)
    ensures AllGood(Encoded(raw)) && NoTerminal(Encoded(raw)) && |Encoded(raw)| == |raw|
  {
    hide PercentEncoding.Encode, Occurs;
    if raw != [] {
      EncodedFits(raw[1..]);
      NoTerminalInside(raw[0].0);
      NoTerminalInside(raw[0].1);
      PercentEncoding.EncodedSafe(raw[0].0);
      PercentEncoding.EncodedSafe(raw[0].1);
    }
  }

  lemma NoTerminalInside(s: Bytes)
    ensures !Occurs(PercentEncoding.Encode(s), TERMINAL)
  {
    hide PercentEncoding.Encode;
    PercentEncoding.EncodedSafe(s);
    var t: string := PercentEncoding.Encode(s);
    forall i: nat | i <= |t| ensures !At(t, i, TERMINAL) { AtChar(t, i, TERMINAL, 0); }
  }

  lemma {:induction false} EncodedPairs(raw: seq<(Bytes, Bytes)>, m: Fields, key: Bytes)
    ensures var k, fields := PercentEncoding.Encode(key), Pairs(Encoded(raw), m);
            && (k in fields <==> k in m || FirstValue(raw, key).Some?)
            && (k in m ==> k in fields && fields[k] == m[k])
            && (k in fields && k !in m ==> fields[k] == Text(PercentEncoding.Encode(FirstValue(raw, key).value)))
    decreases |raw|
  {
    hide PercentEncoding.Encode, PercentEncoding.Decode;
    if raw != [] {
      var first := Encoded(raw)[0];
      assert Encoded(raw)[1..] == Encoded(raw[1..]);
      PercentEncoding.EncodingRoundTrip(key);
      PercentEncoding.EncodingRoundTrip(raw[0].0);
      EncodedPairs(raw[1..], Maps.Insert(m, first.key, Text(first.value)), key);
    }
  }

  lemma {:induction false} EncodedKeys(raw: seq<(Bytes, Bytes)>, m: Fields)
    ensures forall k | k in Pairs(Encoded(raw), m) && k !in m ::
              exists i | 0 <= i < |raw| :: k == PercentEncoding.Encode(raw[i].0)
    decreases |raw|
  {
    hide PercentEncoding.Encode;
    if raw != [] {
      var first := Encoded(raw)[0];
      var m' := Maps.Insert(m, first.key, Text(first.value));
      assert Encoded(raw)[1..] == Encoded(raw[1..]);
      EncodedKeys(raw[1..], m');
      forall k | k in Pairs(Encoded(raw), m) && k !in m
        ensures exists i | 0 <= i < |raw| :: k == PercentEncoding.Encode(raw[i].0)
      {
        if k in m' {
          assert k == PercentEncoding.Encode(raw[0].0);
        } else {
          var i :| 0 <= i < |raw[1..]| && k == PercentEncoding.Encode(raw[1..][i].0);
          assert raw[1..][i] == raw[i + 1];
        }
      }
    }
  }

  /** A text that decodes to `value`. */
  ghost predicate Encodes(text: Bounded, value: Bytes) {
    exists t: Bytes :: text == Text(t) && PercentEncoding.Decode(t) == value
  }

  /**
   Keys and values of any bytes, percent-encoded, survive a query: it parses to the encodings of
   the keys, each with an encoding that decodes to the value of its first occurrence.
   */
  lemma {:induction false} EncodedQuery(raw: seq<(Bytes, Bytes)>, key: Bytes)
    requires raw != []
    ensures var k, fields := PercentEncoding.Encode(key), Parse(Join(Encoded(raw)));
            && (forall x | x in fields :: exists i | 0 <= i < |raw| :: x == PercentEncoding.Encode(raw[i].0))
            && PercentEncoding.Decode(k) == key
            && match FirstValue(raw, key)
               case None => k !in fields
               case Some(value) => k in fields && Encodes(fields[k], value)
  {
    hide PercentEncoding.Encode, PercentEncoding.Decode, Parse, Join, FirstValue;
    EncodedFits(raw);
    QueryRoundTrip(Encoded(raw));
    EncodedPairs(raw, map[], key);
    EncodedKeys(raw, map[]);
    PercentEncoding.EncodingRoundTrip(key);
    if FirstValue(raw, key).Some? { PercentEncoding.EncodingRoundTrip(FirstValue(raw, key).value); }
  }

  /** Built with percent-encoded parameters, every address keeps what its base has. */
  lemma {:induction false} EncodedBuild(protocol: Option<string>, p: Parts, before: seq<Param>,
                                        raw: seq<(Bytes, Bytes)>)
    requires Base(protocol, p, before) && raw != []
    ensures var base, query := Printed(protocol, p), Join(before + Encoded(raw));
            CutUp(Build(base, Encoded(raw))) == WithQuery(CutUp(base), query)
  {
    hide CutUp, Join, Build, Printed;
    EncodedFits(raw);
    QueryBuild(protocol, p, before, Encoded(raw));
  }
}
