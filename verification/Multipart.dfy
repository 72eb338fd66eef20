/**
 The multipart form parser of includes/udho/forms.h, on positions of the request body:
 first the scan that cuts the body into parts and header lines, then what is made of them.
 Ranges of iterators become the strings they delimit.
 */
module Multipart {
  import opened Maps
  import opened Options
  import opened Search

  /** A header line: key and value. */
  datatype Field = Field(key: string, value: string)

  const CRLF := "\r\n"

  /* ---- the scan ---- */

  /** The header on one line, if it has a colon. */
  function LineFields(s: string, lo: nat, hi: nat): seq<Field>
    requires lo <= hi <= |s|
  {
    var colon := FindChar(s, lo, hi, ':');
    if colon == hi then []
    else [Field(Copied(s, lo, colon), Copied(s, SkipSpace(s, colon + 1, hi), hi))]
  }

  /** The header lines of a part and where the blank line begins, or undefined behaviour. */
  datatype HeaderResult = Block(fields: seq<Field>, blank: nat) | Endless

  function Before(fields: seq<Field>, r: HeaderResult): HeaderResult {
    if fields == [] || r.Endless? then r else Block(fields + r.fields, r.blank)
  }

  /** The loop over header lines, the line from `last` to `index` being next. */
  function HeadersFrom(s: string, last: nat, index: nat, end: nat): HeaderResult
    requires last <= index <= end <= |s|
    decreases |s| - index
  {
    if index + 2 > end then Endless
    else
      var next := Find(s, index + 2, end, CRLF);
      var more := if next == index + 2 then Block([], next) else HeadersFrom(s, index + 2, next, end);
      Before(LineFields(s, last, index), more)
  }

  datatype RawPart = RawPart(fields: seq<Field>, body: Bounded)

  /** parse_part on the range from `begin` to `end`; None is undefined behaviour. */
  function ScanPart(s: string, begin: nat, end: nat): Option<RawPart>
    requires end <= |s|
  {
    if begin > end then None
    else
      var h := HeadersFrom(s, begin, Find(s, begin, end, CRLF), end);
      if h.Endless? then None else Some(RawPart(h.fields, Between(s, h.blank + 2, end - 2)))
  }

  /** The parts scanned, and whether the scan came to its end without undefined behaviour. */
  datatype Scan = Scan(parts: seq<RawPart>, complete: bool)

  /** The loop of multipart_::parse, a delimiter standing at `last`. */
  function ScanFrom(s: string, b: string, last: nat): Scan
    requires b != "" && last <= |s|
    decreases |s| - last
  {
    if last + |b| > |s| then Scan([], false)
    else
      var index := Find(s, last + |b|, |s|, b);
      if index == |s| then Scan([], true)
      else
        var part := ScanPart(s, last + |b| + 2, index);
        if part.None? then Scan([], false)
        else
          var rest := ScanFrom(s, b, index);
          Scan([part.value] + rest.parts, rest.complete)
  }

  /* ---- what is made of the parts ---- */

  type Headers = map<string, string>

  datatype Part = Part(headers: Headers, body: Bounded)

  type Parts = map<string, Part>

  /** The parsed form; std::out_of_range from headers().at; or undefined behaviour. */
  datatype FormResult = Parsed(parts: Parts) | NoDisposition | Undefined

  const DISPOSITION := "Content-Disposition"

  /** All headers inserted in order: the first of equal keys wins. */
  function HeaderMap(fields: seq<Field>): Headers {
    if fields == [] then map[]
    else Insert(HeaderMap(fields[..|fields| - 1]), fields[|fields| - 1].key, fields[|fields| - 1].value)
  }

  /** form_part::header(key, sub) on the value of the header. */
  function SubField(value: string, sub: string): string {
    var begin := Find(value, 0, |value|, sub + "=");
    var end := FindChar(value, begin, |value|, ';');
    var quote := FindChar(value, begin, end, '"');
    if quote == end then Copied(value, begin, end)
    else Copied(value, quote + 1, FindChar(value, quote + 1, end, '"'))
  }

  /** form_part::name; None is std::out_of_range. */
  function NameOf(headers: Headers): Option<string> {
    if DISPOSITION in headers then Some(SubField(headers[DISPOSITION], "name")) else None
  }

  /** The scanned parts inserted one by one; the first exception ends the parse. */
  function Collect(parts: seq<RawPart>, complete: bool, m: Parts): FormResult
    decreases |parts|
  {
    if parts == [] then (if complete then Parsed(m) else Undefined)
    else
      var headers := HeaderMap(parts[0].fields);
      var name := NameOf(headers);
      if name.None? then NoDisposition
      else Collect(parts[1..], complete, Insert(m, name.value, Part(headers, parts[0].body)))
  }

  function Parse(s: string, b: string): FormResult
    requires b != ""
  {
    var scan := ScanFrom(s, b, Find(s, 0, |s|, b));
    Collect(scan.parts, scan.complete, map[])
  }

  /* ---- the loops of the source ---- */

  lemma HeaderMapLast(fields: seq<Field>, f: Field)
    ensures HeaderMap(fields + [f]) == Insert(HeaderMap(fields), f.key, f.value)
  {
    assert (fields + [f])[..|fields + [f]| - 1] == fields;
  }

  lemma BeforeBefore(a: seq<Field>, b: seq<Field>, r: HeaderResult)
    ensures Before(a, Before(b, r)) == Before(a + b, r)
  {
    if a == [] { assert a + b == b; }
    if b == [] { assert a + b == a; }
    if r.Block? { assert a + (b + r.fields) == a + b + r.fields; }
  }

  lemma NothingBehind(fields: seq<Field>, blank: nat)
    ensures Before(fields, Block([], blank)) == Block(fields, blank)
  {
    assert fields + [] == fields;
  }

  /** What is read from a line on, behind the headers already read. */
  lemma NextHeader(s: string, last: nat, index: nat, end: nat, fields: seq<Field>)
    requires last <= index <= end <= |s| && index + 2 <= end
    ensures
      var next, more := Find(s, index + 2, end, CRLF), fields + LineFields(s, last, index);
      Before(fields, HeadersFrom(s, last, index, end)) ==
      if next == index + 2 then Block(more, next) else Before(more, HeadersFrom(s, index + 2, next, end))
  {
    hide Find, LineFields;
    var next, own := Find(s, index + 2, end, CRLF), LineFields(s, last, index);
    BeforeBefore(fields, own, if next == index + 2 then Block([], next) else HeadersFrom(s, index + 2, next, end));
    NothingBehind(fields + own, next);
  }

  lemma NothingBefore(r: HeaderResult)
    ensures Before([], r) == r
  {
  }

  lemma EndsWithin(s: string, last: nat, index: nat, end: nat, fields: seq<Field>)
    requires last <= index <= end <= |s| && index + 2 > end
    ensures Before(fields, HeadersFrom(s, last, index, end)) == Endless
  {
  }

  /** One header line of parse_part. */
  method HeaderLine(s: string, last: nat, index: nat, headers: Headers, ghost fields: seq<Field>)
    returns (r: Headers)
    requires last <= index <= |s| && headers == HeaderMap(fields)
    ensures r == HeaderMap(fields + LineFields(s, last, index))
  {
    r := headers;
    var colon := FindChar(s, last, index, ':');
    if colon != index {
      var key, value := Copied(s, last, colon), Copied(s, SkipSpace(s, colon + 1, index), index);
      r := Insert(headers, key, value);
      HeaderMapLast(fields, Field(key, value));
    } else {
      assert fields + [] == fields;
    }
  }

  /** The loop of parse_part. */
  method HeaderLoop(s: string, begin: nat, end: nat) returns (ok: bool, headers: Headers, index: nat)
    requires begin <= end <= |s|
    ensures match HeadersFrom(s, begin, Find(s, begin, end, CRLF), end)
            case Endless => !ok
            case Block(fields, blank) => ok && headers == HeaderMap(fields) && index == blank
  {
    hide HeadersFrom, Before, Find, At, LineFields;
    var last := begin;
    index := SearchLoop(s, last, end, CRLF);
    headers := map[];
    ghost var fields: seq<Field> := [];
    ghost var spec := HeadersFrom(s, last, index, end);
    NothingBefore(spec);
    while true
      invariant begin <= last <= index <= end
      invariant Before(fields, HeadersFrom(s, last, index, end)) == spec
      invariant headers == HeaderMap(fields)
      decreases end - index
    {
      if index + 2 > end {
        EndsWithin(s, last, index, end, fields);
        return false, headers, index;
      }
      NextHeader(s, last, index, end, fields);
      headers := HeaderLine(s, last, index, headers, fields);
      fields := fields + LineFields(s, last, index);
      last := index + 2;
      index := SearchLoop(s, last, end, CRLF);
      if index == last { break; }
    }
    ok := true;
  }

  /** parse_part up to the insertion of the part. */
  method PartLoop(s: string, begin: nat, end: nat) returns (ok: bool, headers: Headers, body: Bounded)
    requires end <= |s|
    ensures match ScanPart(s, begin, end)
            case None => !ok
            case Some(part) => ok && headers == HeaderMap(part.fields) && body == part.body
  {
    if begin > end { return false, map[], Backwards; }
    var index: nat;
    ok, headers, index := HeaderLoop(s, begin, end);
    body := Between(s, index + 2, end - 2);
  }

  /** One round of the loop of parse. */
  lemma ScanStep(s: string, b: string, last: nat, index: nat, part: Option<RawPart>)
    requires b != "" && last + |b| <= |s| && index == Find(s, last + |b|, |s|, b) && index != |s|
    requires part == ScanPart(s, last + |b| + 2, index)
    ensures ScanFrom(s, b, last) ==
      if part.None? then Scan([], false)
      else Scan([part.value] + ScanFrom(s, b, index).parts, ScanFrom(s, b, index).complete)
  {
  }

  /** The parts scanned from `last` on, collected behind `m`. */
  ghost function Rest(s: string, b: string, last: nat, m: Parts): FormResult
    requires b != "" && last <= |s|
  {
    Collect(ScanFrom(s, b, last).parts, ScanFrom(s, b, last).complete, m)
  }

  lemma RestStep(s: string, b: string, last: nat, index: nat, part: RawPart, m: Parts)
    requires b != "" && last + |b| <= |s| && index == Find(s, last + |b|, |s|, b) && index != |s|
    requires Some(part) == ScanPart(s, last + |b| + 2, index)
    ensures Rest(s, b, last, m) ==
      match NameOf(HeaderMap(part.fields))
      case None => NoDisposition
      case Some(name) => Rest(s, b, index, Insert(m, name, Part(HeaderMap(part.fields), part.body)))
  {
    ScanStep(s, b, last, index, Some(part));
    var rest := ScanFrom(s, b, index).parts;
    assert ([part] + rest)[1..] == rest;
  }

  /** The loop of parse. */
  method ParseLoop(s: string, b: string) returns (r: FormResult)
    requires b != ""
    ensures r == Parse(s, b)
  {
    hide HeaderMap, ScanPart, NameOf, At;
    var parts: Parts := map[];
    var index := SearchLoop(s, 0, |s|, b);
    ghost var spec := Rest(s, b, index, parts);
    while true
      invariant index <= |s| && Rest(s, b, index, parts) == spec
      decreases |s| - index
    {
      var last := index;
      if last + |b| > |s| { return Undefined; }
      index := SearchLoop(s, last + |b|, |s|, b);
      if index == |s| { return Parsed(parts); }
      var ok, headers, body := PartLoop(s, last + |b| + 2, index);
      if !ok { return Undefined; }
      RestStep(s, b, last, index, ScanPart(s, last + |b| + 2, index).value, parts);
      var name := NameOf(headers);
      if name.None? { return NoDisposition; }
      parts := Insert(parts, name.value, Part(headers, body));
    }
  }
}
