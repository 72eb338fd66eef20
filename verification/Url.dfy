/** Addresses: includes/udho/url.h. */
module Url {
  import opened Numerals
  import opened Options
  import opened Search
  import UrlEncoded

  datatype Address = Address(protocol: string, host: string, port: nat, path: string, target: string, query: string)

  const TERMINAL := "://"

  /** std::find_first_of(":/"). */
  function FindTerminal(s: string, lo: nat): (r: nat)
    requires lo <= |s|
    ensures lo <= r <= |s|
    decreases |s| - lo
  {
    if lo == |s| || s[lo] == ':' || s[lo] == '/' then lo else FindTerminal(s, lo + 1)
  }

  /** The longest run of digits from `i` on. */
  function Digits(s: string, i: nat): (r: string)
    requires i <= |s|
    ensures AllDigits(r)
    decreases |s| - i
  {
    if i == |s| || !IsDigit(s[i]) then "" else [s[i]] + Digits(s, i + 1)
  }

  /** std::stoul in base ten; None is std::invalid_argument or std::out_of_range. */
  function Stoul(s: string): Option<nat> {
    var i := SkipSpace(s, 0, |s|);
    var sign := i < |s| && (s[i] == '-' || s[i] == '+');
    var digits := Digits(s, if sign then i + 1 else i);
    if digits == "" || NatValue(digits) > SIZE_MAX then None
    else if sign && s[i] == '-' && NatValue(digits) != 0 then Some(SIZE_MAX + 1 - NatValue(digits))
    else Some(NatValue(digits))
  }

  function Port(text: string, protocol: string): Option<nat> {
    if text != "" then Stoul(text) else Some(if protocol == "https" then 443 else 80)
  }

  function OrSlash(s: string): string {
    if s != "" then s else "/"
  }

  /** The texts cut out of an address. */
  datatype Cuts = Cuts(protocol: string, host: string, port: string, path: string, target: string, query: string)

  function CutHost(s: string, protocol: string, start: nat): Cuts
    requires start <= |s|
  {
    var it := FindTerminal(s, start);
    var host := Copied(s, start, it);
    if it == |s| then Cuts(protocol, host, "", "", "", "")
    else
      var slash := if s[it] == ':' then FindChar(s, it + 1, |s|, '/') else it;
      var mark := FindChar(s, slash, |s|, '?');
      Cuts(protocol, host, if s[it] == ':' then Copied(s, it + 1, slash) else "",
           Copied(s, slash, mark), Copied(s, slash, |s|), if mark == |s| then "" else Copied(s, mark + 1, |s|))
  }

  function CutUp(s: string): Cuts {
    var end := Find(s, 0, |s|, TERMINAL);
    if end == |s| then CutHost(s, "", 0)
    else
      FoundInside(s, TERMINAL);
      CutHost(s, Copied(s, 0, end), end + 3)
  }

  /** What from_string makes of a text; None if the port cannot be read. */
  function FromString(s: string): Option<Address> {
    var cuts := CutUp(s);
    var port :- Port(cuts.port, cuts.protocol);
    Some(Address(cuts.protocol, cuts.host, port, OrSlash(cuts.path), OrSlash(cuts.target), cuts.query))
  }

  function Stringify(a: Address): string {
    a.protocol + TERMINAL + (a.host + ":" + NatText(a.port) + a.target)
  }

  function Build(base: string, params: seq<UrlEncoded.Param>): string {
    base + (if FindChar(base, 0, |base|, '?') != |base| then "&" else "?") + UrlEncoded.Join(params)
  }

  /** udho::url with the fields its constructor sets. */
  class Location {
    var protocol: string
    var host: string
    var port: nat
    var path: string
    var target: string
    var query: string
    var fields: UrlEncoded.Fields

    constructor ()
      ensures View() == Address("", "", 0, "", "", "") && fields == map[]
    {
      protocol, host, port, path, target, query, fields := "", "", 0, "", "", "", map[];
    }

    function View(): Address
      reads this
    {
      Address(protocol, host, port, path, target, query)
    }

    /** from_string; without a readable port std::stoul throws half-way. */
    method Load(url: string) returns (ok: bool)
      modifies this
      ensures ok == FromString(url).Some?
      ensures ok ==> View() == FromString(url).value && fields == UrlEncoded.Parse(query)
      ensures !ok ==> View() == old(View()).(protocol := CutUp(url).protocol, host := CutUp(url).host)
      ensures !ok ==> fields == old(fields)
    {
      hide Find, FindChar, FindTerminal, Copied, Stoul;
      var proto, hst, prt, pth, tgt, qry := "", "", "", "", "", "";
      var start := 0;
      var end := SearchLoop(url, 0, |url|, TERMINAL);
      if end != |url| {
        FoundInside(url, TERMINAL);
        proto, start := Copied(url, 0, end), end + 3;
      }
      var it := FindTerminal(url, start);
      hst := Copied(url, start, it);
      if it != |url| {
        if url[it] == ':' {
          var slash := FindChar(url, it + 1, |url|, '/');
          prt, it := Copied(url, it + 1, slash), slash;
        }
        tgt := Copied(url, it, |url|);
        var mark := FindChar(url, it, |url|, '?');
        pth := Copied(url, it, mark);
        if mark != |url| { qry := Copied(url, mark + 1, |url|); }
      }
      protocol, host := proto, hst;
      var number := Port(prt, proto);
      if number.None? { return false; }
      port, path, target, query := number.value, OrSlash(pth), OrSlash(tgt), qry;
      fields := UrlEncoded.ParseLoop(query);
      ok := true;
    }
  }

  lemma FoundInside(s: string, p: string)
    requires Find(s, 0, |s|, p) != |s|
    ensures Find(s, 0, |s|, p) + |p| <= |s|
  {
    FindIs(s, 0, |s|, p, Find(s, 0, |s|, p));
  }
}
