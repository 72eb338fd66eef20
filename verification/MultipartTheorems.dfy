/** Parsing a printed multipart form gives back its parts (section 5.1.1 of RFC 2046, section 4 of RFC 7578). */
module MultipartTheorems {
  import opened Maps
  import opened Numerals
  import opened Options
  import opened Search
  import opened Multipart

  /* ---- forms and their text ---- */

  /** Header lines, at least one, and a body. */
  datatype FormPart = FormPart(fields: seq<Field>, body: string)

  function Line(h: Field): string { h.key + ": " + h.value }

  function Lines(hs: seq<Field>): string {
    if hs == [] then "" else Line(hs[0]) + "\r\n" + Lines(hs[1..])
  }

  function Content(p: FormPart): string { Lines(p.fields) + "\r\n" + p.body + "\r\n" }

  /** Everything between two delimiters. */
  function PartText(p: FormPart): string { "\r\n" + Content(p) }

  function PartsText(ps: seq<FormPart>, b: string): string {
    if ps == [] then "" else b + PartText(ps[0]) + PartsText(ps[1..], b)
  }

  /** The whole request body; the epilogue begins with the dashes of the closing delimiter. */
  function FormText(preamble: string, ps: seq<FormPart>, b: string, epilogue: string): string {
    preamble + (PartsText(ps, b) + b + epilogue)
  }

  predicate GoodField(h: Field) {
    ':' !in h.key && (h.value == "" || h.value[0] !in SPACES) && !Occurs(Line(h), "\r\n")
  }

  predicate GoodFields(hs: seq<Field>) {
    hs == [] || (GoodField(hs[0]) && GoodFields(hs[1..]))
  }

  /** The delimiter occurs nowhere inside the part. */
  predicate GoodPart(p: FormPart, b: string) {
    p.fields != [] && GoodFields(p.fields) && !Occurs(PartText(p), b)
  }

  predicate GoodParts(ps: seq<FormPart>, b: string) {
    ps == [] || (GoodPart(ps[0], b) && GoodParts(ps[1..], b))
  }

  /** What stands before a delimiter: nothing, or lines. */
  predicate EndsLine(text: string) {
    text == "" || text[|text| - 1] == '\n'
  }

  predicate GoodForm(preamble: string, ps: seq<FormPart>, b: string, epilogue: string) {
    && b != "" && '\n' !in b
    && EndsLine(preamble) && !Occurs(preamble, b) && !Occurs(epilogue, b)
    && GoodParts(ps, b)
  }

  /** What the scan finds. */
  function Raw(ps: seq<FormPart>): seq<RawPart> {
    if ps == [] then [] else [RawPart(ps[0].fields, Text(ps[0].body))] + Raw(ps[1..])
  }

  /* ---- searching in text cut at known places ---- */

  /** A delimiter without line breaks cannot begin before the end of a line and end behind it. */
  lemma FindDelimiter(s: string, lo: nat, text: string, b: string)
    requires b != "" && '\n' !in b && EndsLine(text)
    requires At(s, lo, text) && At(s, lo + |text|, b) && !Occurs(text, b)
    ensures Find(s, lo, |s|, b) == lo + |text|
  {
    forall i: nat | lo <= i < lo + |text| < i + |b| ensures !At(s, i, b) {
      var k := lo + |text| - 1;
      AtChar(s, lo, text, |text| - 1);
      AtChar(s, i, b, k - i);
    }
    FindAfter(s, lo, |s|, text, b);
  }

  lemma FindLine(s: string, lo: nat, hi: nat, line: string)
    requires At(s, lo, line) && At(s, lo + |line|, CRLF) && lo + |line| + 2 <= hi <= |s| && !Occurs(line, CRLF)
    ensures Find(s, lo, hi, CRLF) == lo + |line|
  {
    forall i: nat | lo <= i < lo + |line| < i + |CRLF| ensures !At(s, i, CRLF) {
      AtChar(s, lo + |line|, CRLF, 0);
      AtChar(s, i, CRLF, 1);
    }
    FindAfter(s, lo, hi, line, CRLF);
  }

  /* ---- reading headers ---- */

  /** One printed header line is read as its key and value. */
  lemma {:induction false} ReadField(s: string, lo: nat, h: Field)
    requires At(s, lo, Line(h)) && GoodField(h)
    ensures LineFields(s, lo, lo + |Line(h)|) == [h]
  {
    assert Line(h) == h.key + ":" + " " + h.value;
    ReadPadded(s, lo, h.key, " ", h.value);
  }

  /** White space between the colon and the value, of any length, is not part of the value. */
  lemma {:induction false} ReadPadded(s: string, lo: nat, key: string, pad: string, value: string)
    requires At(s, lo, key + ":" + pad + value) && ':' !in key
    requires (forall c | c in pad :: c in SPACES) && (value == "" || value[0] !in SPACES)
    ensures LineFields(s, lo, lo + |key| + 1 + |pad| + |value|) == [Field(key, value)]
  {
    var c, v, hi := lo + |key|, lo + |key| + 1 + |pad|, lo + |key| + 1 + |pad| + |value|;
    assert hi <= |s|;
    hide At, Copied;
    Cut(s, lo, key + ":" + pad, value);
    Cut(s, lo, key + ":", pad);
    Cut(s, lo, key, ":");
    forall i | lo <= i < c ensures s[i] != ':' { AtChar(s, lo, key, i - lo); }
    AtChar(s, c, ":", 0);
    FindCharIs(s, lo, hi, ':', c);
    forall i | c + 1 <= i < v ensures i < |s| && IsSpace(s[i]) {
      AtChar(s, c + 1, pad, i - c - 1);
      SpaceIs(s[i]);
    }
    if value != "" {
      AtChar(s, v, value, 0);
      SpaceIs(value[0]);
    }
    PadSkipped(s, c + 1, v, hi);
    Slice(s, lo, key);
    Slice(s, v, value);
  }

  /** Where a printed line ends and what stands behind it. */
  lemma LineCut(s: string, last: nat, end: nat, line: string, tail: string)
    requires !Occurs(line, CRLF) && At(s, last, line + CRLF + tail) && end == last + |line| + 2 + |tail|
    ensures var index := last + |line|;
            Find(s, last, end, CRLF) == index && At(s, last, line) && At(s, index + 2, tail)
  {
    Cut(s, last, line + CRLF, tail);
    Cut(s, last, line, CRLF);
    FindLine(s, last, end, line);
  }

  lemma {:induction false} ReadFields(s: string, last: nat, end: nat, hs: seq<Field>, rest: string)
    requires hs != [] && GoodFields(hs)
    requires At(s, last, Lines(hs) + CRLF + rest) && end == last + |Lines(hs)| + 2 + |rest|
    ensures HeadersFrom(s, last, Find(s, last, end, CRLF), end) == Block(hs, last + |Lines(hs)|)
    decreases |hs|
  {
    hide At, Find, LineFields, Occurs;
    var h, tail := hs[0], Lines(hs[1..]) + CRLF + rest;
    var index := last + |Line(h)|;
    assert Lines(hs) + CRLF + rest == Line(h) + CRLF + tail;
    LineCut(s, last, end, Line(h), tail);
    ReadField(s, last, h);
    if |hs| == 1 {
      assert tail == CRLF + rest;
      Cut(s, index + 2, CRLF, rest);
      FindIs(s, index + 2, end, CRLF, index + 2);
    } else {
      NextLineFound(s, index + 2, end, hs[1..], rest);
      ReadFields(s, index + 2, end, hs[1..], rest);
    }
    FieldInFront(hs, last + |Lines(hs)|);
  }

  lemma FieldInFront(hs: seq<Field>, blank: nat)
    requires hs != []
    ensures Before([hs[0]], Block(hs[1..], blank)) == Block(hs, blank)
  {
    assert [hs[0]] + hs[1..] == hs;
  }

  /** The next header line is not mistaken for the blank line. */
  lemma NextLineFound(s: string, last: nat, end: nat, hs: seq<Field>, rest: string)
    requires hs != [] && GoodFields(hs)
    requires At(s, last, Lines(hs) + CRLF + rest) && end == last + |Lines(hs)| + 2 + |rest|
    ensures Find(s, last, end, CRLF) != last
  {
    var line, tail := Line(hs[0]), Lines(hs[1..]) + CRLF + rest;
    assert Lines(hs) + CRLF + rest == line + CRLF + tail;
    LineCut(s, last, end, line, tail);
  }

  /* ---- reading names ---- */

  const KEY := "name="

  /** A Content-Disposition: anything, a quoted name, anything. */
  function Disposition(pre: string, name: string, suffix: string): string {
    pre + (KEY + ("\"" + (name + ("\"" + suffix))))
  }

  /** No earlier `name=` stands in `pre`, as in `filename=`, or nothing behind it ends it before the quoted name. */
  predicate Clean(pre: string) {
    var i := Find(pre, 0, |pre|, KEY);
    FindChar(pre, i, |pre|, ';') == |pre| && FindChar(pre, i, |pre|, '"') == |pre|
  }

  /** The part of a name in front of its first '"' or ';'. */
  function Front(name: string): string {
    name[..Until(name, '"', ';')]
  }

  /** The first `name=` of a text that has one behind `pre` is the first one of `pre`, if there is one. */
  lemma {:induction false} KeyFound(v: string, pre: string)
    requires At(v, 0, pre) && At(v, |pre|, KEY)
    ensures Find(v, 0, |v|, KEY) == Find(pre, 0, |pre|, KEY)
  {
    hide At;
    var r := Find(pre, 0, |pre|, KEY);
    FindIs(pre, 0, |pre|, KEY, r);
    forall i: nat | i < r ensures !At(v, i, KEY) {
      if i + 5 <= |pre| {
        Window(v, 0, pre, i, KEY);
      } else {
        NoStraddle(v, i, |pre|);
      }
    }
    if r < |pre| { Window(v, 0, pre, r, KEY); }
    AtChar(v, |pre|, KEY, 4);
    FindIs(v, 0, |v|, KEY, r);
  }

  lemma NoStraddle(v: string, i: nat, n: nat)
    requires i < n < i + 5 && At(v, n, KEY)
    ensures !At(v, i, KEY)
  {
    AtChar(v, n, KEY, 0);
    AtChar(v, i, KEY, n - i);
  }

  /** How a text reads in which the name begins at `k` and ends at `k + m`. */
  lemma {:induction false} NameEnds(v: string, b: nat, k: nat, m: nat)
    requires Find(v, 0, |v|, KEY) == b < k && k + m < |v| && v[k - 1] == '"'
    requires forall j | b <= j < k + m :: v[j] != ';' && (v[j] == '"' ==> j == k - 1)
    requires v[k + m] == '"' || v[k + m] == ';'
    ensures SubField(v, "name") == Copied(v, k, k + m)
  {
    assert "name" + "=" == KEY;
    var end := FindChar(v, b, |v|, ';');
    FindCharIs(v, b, |v|, ';', end);
    FindCharIs(v, b, end, '"', k - 1);
    FindCharIs(v, k, end, '"', k + m);
  }

  /** The pieces of a disposition, where they stand. */
  lemma {:induction false} DispositionAt(pre: string, name: string, suffix: string)
    ensures var v, k := Disposition(pre, name, suffix), |pre| + 6;
            && At(v, 0, pre) && At(v, |pre|, KEY) && At(v, k - 1, "\"") && At(v, k, name) && At(v, k + |name|, "\"")
            && |v| == k + |name| + 1 + |suffix|
  {
    hide At;
    var v, k := Disposition(pre, name, suffix), |pre| + 6;
    Itself(v);
    Cut(v, 0, pre, KEY + ("\"" + (name + ("\"" + suffix))));
    Cut(v, |pre|, KEY, "\"" + (name + ("\"" + suffix)));
    Cut(v, k - 1, "\"", name + ("\"" + suffix));
    Cut(v, k, name, "\"" + suffix);
    Cut(v, k + |name|, "\"", suffix);
  }

  lemma Itself(s: string)
    ensures At(s, 0, s)
  {
  }

  /** Behind the first `name=` of a clean text there is neither a semicolon nor a quote. */
  lemma {:induction false} CleanBehind(pre: string)
    requires Clean(pre)
    ensures forall j | Find(pre, 0, |pre|, KEY) <= j < |pre| :: pre[j] != ';' && pre[j] != '"'
  {
    var i := Find(pre, 0, |pre|, KEY);
    FindCharIs(pre, i, |pre|, ';', |pre|);
    FindCharIs(pre, i, |pre|, '"', |pre|);
  }

  /** Behind a clean text the quoted name is read, up to its first '"' or ';'. */
  lemma {:induction false} ReadCleanName(pre: string, name: string, suffix: string)
    requires Clean(pre)
    ensures SubField(Disposition(pre, name, suffix), "name") == Front(name)
  {
    hide At, Find, FindChar, Copied, Clean, Disposition, SubField;
    var v, b, k, m := Disposition(pre, name, suffix), Find(pre, 0, |pre|, KEY), |pre| + 6, Until(name, '"', ';');
    DispositionAt(pre, name, suffix);
    KeyFound(v, pre);
    CleanBehind(pre);
    AtChar(v, k - 1, "\"", 0);
    AtChar(v, k + |name|, "\"", 0);
    if m < |name| { AtChar(v, k, name, m); }
    forall j | b <= j < k + m ensures v[j] != ';' && (v[j] == '"' ==> j == k - 1) {
      if j < |pre| {
        AtChar(v, 0, pre, j);
      } else if j < k - 1 {
        AtChar(v, |pre|, KEY, j - |pre|);
      } else if j >= k {
        AtChar(v, k, name, j - k);
      }
    }
    NameEnds(v, b, k, m);
    assert name == name[..m] + name[m..];
    Cut(v, k, name[..m], name[m..]);
    Slice(v, k, name[..m]);
  }

  /** FindChar in the part that two texts have in common. */
  lemma {:induction false} SameFound(v: string, t: string, lo: nat, hi: nat, hi': nat, c: char)
    requires lo <= hi <= |t| && hi <= hi' <= |v| && At(v, 0, t)
    requires FindChar(t, lo, hi, c) < hi || hi == hi'
    ensures FindChar(v, lo, hi', c) == FindChar(t, lo, hi, c)
  {
    var r := FindChar(t, lo, hi, c);
    FindCharIs(t, lo, hi, c, r);
    forall i | 0 <= i < |t| ensures v[i] == t[i] { AtChar(v, 0, t, i); }
    FindCharIs(v, lo, hi', c, r);
  }

  lemma {:induction false} SameCopied(v: string, t: string, lo: nat, hi: nat)
    requires lo <= hi <= |t| && At(v, 0, t)
    ensures Copied(v, lo, hi) == Copied(t, lo, hi)
    decreases hi - lo
  {
    if lo < hi {
      AtChar(v, 0, t, lo);
      SameCopied(v, t, lo + 1, hi);
    }
  }

  /** The beginning of a disposition, up to the opening quote of its name. */
  function Opening(pre: string): string { pre + (KEY + "\"") }

  /** Behind a text that is not clean, neither the name nor what follows it is read. */
  lemma {:induction false} ReadOtherName(pre: string, name: string, suffix: string)
    requires !Clean(pre)
    ensures SubField(Disposition(pre, name, suffix), "name") == SubField(Opening(pre), "name")
  {
    var v, t := Disposition(pre, name, suffix), Opening(pre);
    OpeningAt(pre, name, suffix);
    KeyFound(v, pre);
    KeyFound(t, pre);
    OtherEnds(v, t, pre);
  }

  lemma {:induction false} OpeningAt(pre: string, name: string, suffix: string)
    ensures var v, t := Disposition(pre, name, suffix), Opening(pre);
            && At(v, 0, t) && At(v, 0, pre) && At(v, |pre|, KEY)
            && At(t, 0, pre) && At(t, |pre|, KEY) && |t| == |pre| + 6 && t[|pre| + 5] == '"'
  {
    hide At;
    var v, t := Disposition(pre, name, suffix), Opening(pre);
    DispositionAt(pre, name, suffix);
    Itself(t);
    Cut(t, 0, pre, KEY + "\"");
    Cut(t, |pre|, KEY, "\"");
    Cut(v, |pre|, KEY, "\"");
    Cut(v, 0, pre, KEY + "\"");
  }

  lemma {:induction false} OtherEnds(v: string, t: string, pre: string)
    requires !Clean(pre) && At(v, 0, t) && At(t, 0, pre) && At(t, |pre|, KEY) && |t| == |pre| + 6 && t[|pre| + 5] == '"'
    requires Find(v, 0, |v|, KEY) == Find(t, 0, |t|, KEY) == Find(pre, 0, |pre|, KEY)
    ensures SubField(v, "name") == SubField(t, "name")
  {
    hide At, Find, Copied;
    assert "name" + "=" == KEY;
    var i := Find(pre, 0, |pre|, KEY);
    var end, end' := FindChar(t, i, |t|, ';'), FindChar(v, i, |v|, ';');
    AtChar(v, 0, t, |t| - 1);
    EndsLater(v, t, i);
    var quote := FindChar(t, i, end, '"');
    QuoteInside(t, pre, i);
    SameFound(v, t, i, end, end', '"');
    if quote < end {
      CloseInside(t, pre, i);
      SameFound(v, t, quote + 1, end, end', '"');
      SameCopied(v, t, quote + 1, FindChar(t, quote + 1, end, '"'));
    } else {
      SameCopied(v, t, i, end);
    }
  }

  /** A text that goes on ends where its beginning ends, if that ends inside, and otherwise no earlier. */
  lemma {:induction false} EndsLater(v: string, t: string, i: nat)
    requires i <= |t| <= |v| && At(v, 0, t)
    ensures var end, end' := FindChar(t, i, |t|, ';'), FindChar(v, i, |v|, ';');
            if end < |t| then end' == end else end' >= end
  {
    var end, end' := FindChar(t, i, |t|, ';'), FindChar(v, i, |v|, ';');
    FindCharIs(t, i, |t|, ';', end);
    FindCharIs(v, i, |v|, ';', end');
    forall j | 0 <= j < |t| ensures v[j] == t[j] { AtChar(v, 0, t, j); }
  }

  /** Without a semicolon inside, there is a quote inside. */
  lemma {:induction false} QuoteInside(t: string, pre: string, i: nat)
    requires !Clean(pre) && At(t, 0, pre) && |t| == |pre| + 6 && i == Find(pre, 0, |pre|, KEY) && At(t, |pre|, KEY)
    requires t[|pre| + 5] == '"'
    ensures var end := FindChar(t, i, |t|, ';');
            (end == |t| ==> FindChar(t, i, end, '"') < |pre|) && (end < |t| ==> end < |pre|)
  {
    hide At, Find;
    var end := FindChar(t, i, |t|, ';');
    FindCharIs(t, i, |t|, ';', end);
    forall j | 0 <= j < |pre| ensures t[j] == pre[j] { AtChar(t, 0, pre, j); }
    forall j | |pre| <= j < |t| ensures t[j] != ';' { if j < |pre| + 5 { AtChar(t, |pre|, KEY, j - |pre|); } }
    if end == |t| {
      FindCharIs(pre, i, |pre|, ';', |pre|);
      var q := FindChar(pre, i, |pre|, '"');
      FindCharIs(pre, i, |pre|, '"', q);
      FindCharIs(t, i, end, '"', q);
    }
  }

  /** Behind a quote that is not the last character there is a closing one, or the text ends inside. */
  lemma {:induction false} CloseInside(t: string, pre: string, i: nat)
    requires |t| == |pre| + 6 && t[|pre| + 5] == '"' && i <= |t|
    requires var end := FindChar(t, i, |t|, ';'); end == |t| ==> FindChar(t, i, end, '"') < |pre|
    ensures var end := FindChar(t, i, |t|, ';');
            var quote := FindChar(t, i, end, '"');
            end == |t| ==> FindChar(t, quote + 1, end, '"') < end
  {
    var end := FindChar(t, i, |t|, ';');
    if end == |t| {
      var quote := FindChar(t, i, end, '"');
      var close := FindChar(t, quote + 1, end, '"');
      FindCharIs(t, quote + 1, end, '"', close);
    }
  }

  /**
   What is read as the name, in every case: the name up to its first '"' or ';' if the text before
   it is clean, and otherwise something that does not depend on the name.
   */
  lemma {:induction false} ReadName(pre: string, name: string, suffix: string)
    ensures SubField(Disposition(pre, name, suffix), "name")
         == if Clean(pre) then Front(name) else SubField(Opening(pre), "name")
    ensures Clean(pre) ==> (Front(name) == name <==> '"' !in name && ';' !in name)
  {
    hide Clean, SubField, Disposition, Opening;
    if Clean(pre) { ReadCleanName(pre, name, suffix); } else { ReadOtherName(pre, name, suffix); }
    FrontIs(name);
  }

  lemma FrontIs(name: string)
    ensures Front(name) == name <==> '"' !in name && ';' !in name
  {
    var m := Until(name, '"', ';');
    if m == |name| {
      assert Front(name) == name;
    } else {
      assert |Front(name)| < |name| && name[m] in name;
    }
  }

  /** All names are recovered behind `pre` iff it is clean. */
  lemma {:induction false} NamesRecovered(pre: string, suffix: string)
    ensures Clean(pre) <==>
            forall name | '"' !in name && ';' !in name :: SubField(Disposition(pre, name, suffix), "name") == name
  {
    hide Clean, SubField, Disposition, Opening, Front;
    forall name | '"' !in name && ';' !in name
      ensures Clean(pre) ==> SubField(Disposition(pre, name, suffix), "name") == name
    {
      ReadName(pre, name, suffix);
    }
    if !Clean(pre) {
      ReadName(pre, "a", suffix);
      ReadName(pre, "b", suffix);
      assert "a" != "b";
    }
  }

  lemma AbsentClean(pre: string)
    requires !Occurs(pre, KEY)
    ensures Clean(pre)
  {
    OccursFound(pre, KEY);
  }

  /** A file name that stands first is taken for the name. */
  lemma {:induction false} FilenameFirst(file: string, rest: string)
    requires '"' !in file && ';' !in file
    ensures SubField("form-data; filename=\"" + (file + ("\"; " + rest)), "name") == file
  {
    hide SubField, Clean, Disposition;
    NoKeyInside("form-data; file");
    AbsentClean("form-data; file");
    ReadName("form-data; file", file, "; " + rest);
    FilenameText(file, rest);
  }

  lemma {:induction false} FilenameText(file: string, rest: string)
    ensures Disposition("form-data; file", file, "; " + rest) == "form-data; filename=\"" + (file + ("\"; " + rest))
  {
    Regroup("form-data; file", KEY, "\"", file, "; " + rest);
    assert "form-data; file" + (KEY + "\"") == "form-data; filename=\"";
    assert "\"" + ("; " + rest) == "\"; " + rest;
  }

  lemma Regroup(a: string, k: string, q: string, f: string, s: string)
    ensures a + (k + (q + (f + (q + s)))) == (a + (k + q)) + (f + (q + s))
  {
  }

  /** A name without quotes is read with its key. */
  lemma {:induction false} UnquotedName(pre: string, name: string, suffix: string)
    requires !Occurs(pre, KEY) && '"' !in name && ';' !in name && (suffix == "" || suffix[0] == ';')
    ensures SubField(pre + (KEY + name + suffix), "name") == KEY + name
  {
    hide At, Find, FindChar, Copied, Occurs;
    var v, b := pre + (KEY + name + suffix), |pre|;
    var end := b + 5 + |name|;
    assert KEY + name + suffix == KEY + (name + suffix);
    Itself(v);
    Cut(v, 0, pre, KEY + name + suffix);
    Cut(v, b, KEY + name, suffix);
    Cut(v, b, KEY, name);
    OccursFound(pre, KEY);
    KeyFound(v, pre);
    if suffix != "" { AtChar(v, end, suffix, 0); }
    forall j | b <= j < end ensures v[j] != ';' && v[j] != '"' {
      if j < b + 5 { AtChar(v, b, KEY, j - b); } else { AtChar(v, b + 5, name, j - b - 5); }
    }
    FindCharIs(v, b, |v|, ';', end);
    FindCharIs(v, b, end, '"', end);
    assert "name" + "=" == KEY;
    Slice(v, b, KEY + name);
  }

  /** Two dispositions as browsers and other clients may write them. */
  lemma {:induction false} OtherLayouts()
    ensures SubField("form-data; filename=\"a\"; name=\"b\"", "name") == "a"
    ensures SubField("form-data; name=b", "name") == "name=b"
  {
    hide SubField;
    FilenameFirst("a", "name=\"b\"");
    assert "form-data; filename=\"" + ("a" + ("\"; " + "name=\"b\"")) == "form-data; filename=\"a\"; name=\"b\"";
    NoKeyInside("form-data; ");
    UnquotedName("form-data; ", "b", "");
    assert "form-data; " + (KEY + "b" + "") == "form-data; name=b";
    assert KEY + "b" == "name=b";
  }

  lemma NoKeyInside(s: string)
    requires 'n' !in s
    ensures !Occurs(s, KEY)
  {
    forall i: nat | i <= |s| ensures !At(s, i, KEY) { AtChar(s, i, KEY, 0); }
  }

  /** The first of equal keys wins. */
  lemma {:induction false} FirstHeaderWins(before: seq<Field>, f: Field, after: seq<Field>)
    requires forall h | h in before :: h.key != f.key
    ensures var all := HeaderMap(before + [f] + after); f.key in all && all[f.key] == f.value
    decreases |after|
  {
    if after == [] {
      assert before + [f] + after == before + [f];
      HeaderMapLast(before, f);
      HeaderKeys(before);
    } else {
      var front, last := after[..|after| - 1], after[|after| - 1];
      assert before + [f] + after == before + [f] + front + [last];
      FirstHeaderWins(before, f, front);
      HeaderMapLast(before + [f] + front, last);
    }
  }

  lemma {:induction false} HeaderKeys(fields: seq<Field>)
    ensures forall k | k in HeaderMap(fields) :: exists h | h in fields :: h.key == k
    decreases |fields|
  {
    if fields != [] { HeaderKeys(fields[..|fields| - 1]); }
  }

  /* ---- scanning parts ---- */

  lemma ReadPart(s: string, begin: nat, p: FormPart)
    requires p.fields != [] && GoodFields(p.fields) && At(s, begin, Content(p))
    ensures ScanPart(s, begin, begin + |Content(p)|) == Some(RawPart(p.fields, Text(p.body)))
  {
    hide HeadersFrom, Find, At, GoodFields, Lines, Copied;
    var hs, rest, end := p.fields, p.body + CRLF, begin + |Content(p)|;
    var blank := begin + |Lines(hs)|;
    assert Content(p) == Lines(hs) + CRLF + rest;
    Cut(s, begin, Lines(hs) + CRLF, rest);
    Cut(s, blank + 2, p.body, CRLF);
    Slice(s, blank + 2, p.body);
    ReadFields(s, begin, end, hs, rest);
  }

  /** The next delimiter stands behind the part, and between them is its content. */
  lemma NextPart(s: string, b: string, last: nat, p: FormPart, tail: string) returns (index: nat)
    requires b != "" && '\n' !in b && GoodPart(p, b) && At(tail, 0, b)
    requires At(s, last, b + (PartText(p) + tail)) && last + |b| + |PartText(p)| + |tail| == |s|
    ensures index == last + |b| + 2 + |Content(p)| < |s| && At(s, index, tail)
    ensures Find(s, last + |b|, |s|, b) == index
    ensures At(s, last + |b| + 2, Content(p))
  {
    var text := PartText(p);
    index := last + |b| + |text|;
    Cut(s, last, b, text + tail);
    Cut(s, last + |b|, text, tail);
    Window(s, index, tail, 0, b);
    FindDelimiter(s, last + |b|, text, b);
    Cut(s, last + |b|, CRLF, Content(p));
  }

  /** What stands from a delimiter to the end of the body. */
  function Remaining(ps: seq<FormPart>, b: string, epilogue: string): string {
    PartsText(ps, b) + b + epilogue
  }

  lemma RemainingStarts(ps: seq<FormPart>, b: string, epilogue: string)
    ensures At(Remaining(ps, b, epilogue), 0, b)
    ensures ps != [] ==> Remaining(ps, b, epilogue) == b + (PartText(ps[0]) + Remaining(ps[1..], b, epilogue))
  {
    if ps == [] {
      assert Remaining(ps, b, epilogue) == b + epilogue;
    } else {
      assert Remaining(ps, b, epilogue) == b + (PartText(ps[0]) + Remaining(ps[1..], b, epilogue));
    }
  }

  lemma {:induction false} ReadParts(s: string, b: string, last: nat, ps: seq<FormPart>, epilogue: string)
    requires b != "" && '\n' !in b && !Occurs(epilogue, b) && GoodParts(ps, b)
    requires At(s, last, Remaining(ps, b, epilogue)) && last + |Remaining(ps, b, epilogue)| == |s|
    ensures ScanFrom(s, b, last) == Scan(Raw(ps), true)
    decreases |ps|
  {
    hide At, Find, ScanPart, Occurs;
    RemainingStarts(ps, b, epilogue);
    if ps == [] {
      assert Remaining(ps, b, epilogue) == b + epilogue;
      Cut(s, last, b, epilogue);
      NoneInside(s, last + |b|, epilogue, b);
    } else {
      var p, tail := ps[0], Remaining(ps[1..], b, epilogue);
      RemainingStarts(ps[1..], b, epilogue);
      var index := NextPart(s, b, last, p, tail);
      ReadPart(s, last + |b| + 2, p);
      ScanStep(s, b, last, index, Some(RawPart(p.fields, Text(p.body))));
      ReadParts(s, b, index, ps[1..], epilogue);
    }
  }

  /**
   Round trip: for every form whose delimiter occurs only at delimiter lines, whatever its headers
   are, parsing its text scans exactly its parts: every header and every body.
   */
  lemma {:induction false} MultipartRoundTrip(preamble: string, ps: seq<FormPart>, b: string, epilogue: string)
    requires GoodForm(preamble, ps, b, epilogue)
    ensures Parse(FormText(preamble, ps, b, epilogue), b) == Collect(Raw(ps), true, map[])
  {
    hide At, Find, ScanFrom, Occurs, PartsText, Collect;
    var s, tail := FormText(preamble, ps, b, epilogue), Remaining(ps, b, epilogue);
    assert s == preamble + tail;
    Itself(s);
    Cut(s, 0, preamble, tail);
    RemainingStarts(ps, b, epilogue);
    Window(s, |preamble|, tail, 0, b);
    FindDelimiter(s, 0, preamble, b);
    ReadParts(s, b, |preamble|, ps, epilogue);
  }

  /* ---- forms with quoted names ---- */

  /** A part whose first Content-Disposition has a quoted name. */
  datatype NamedPart = NamedPart(
    before: seq<Field>, pre: string, name: string, suffix: string, after: seq<Field>, body: string)
  {
    function Fields(): seq<Field> {
      before + [Field("Content-Disposition", Disposition(pre, name, suffix))] + after
    }
    function ToPart(): FormPart { FormPart(Fields(), body) }
    /** The name can be recovered: see ReadName. */
    predicate Named() {
      (forall h | h in before :: h.key != "Content-Disposition") && Clean(pre) && '"' !in name && ';' !in name
    }
  }

  function ToParts(ns: seq<NamedPart>): seq<FormPart> {
    if ns == [] then [] else [ns[0].ToPart()] + ToParts(ns[1..])
  }

  predicate AllNamed(ns: seq<NamedPart>) {
    ns == [] || (ns[0].Named() && AllNamed(ns[1..]))
  }

  /** What parsing makes of the parts: of equal keys and of equal names the first wins. */
  function PartMap(ns: seq<NamedPart>, m: Parts): Parts
    decreases |ns|
  {
    if ns == [] then m
    else PartMap(ns[1..], Insert(m, ns[0].name, Part(HeaderMap(ns[0].Fields()), Text(ns[0].body))))
  }

  lemma {:induction false} ReadPartName(p: NamedPart)
    requires p.Named()
    ensures NameOf(HeaderMap(p.Fields())) == Some(p.name)
  {
    hide Disposition, SubField, Clean, HeaderMap;
    FirstHeaderWins(p.before, Field("Content-Disposition", Disposition(p.pre, p.name, p.suffix)), p.after);
    ReadName(p.pre, p.name, p.suffix);
  }

  lemma {:induction false} CollectNamed(ns: seq<NamedPart>, m: Parts)
    requires AllNamed(ns)
    ensures Collect(Raw(ToParts(ns)), true, m) == Parsed(PartMap(ns, m))
    decreases |ns|
  {
    hide HeaderMap, NameOf;
    if ns != [] {
      ReadPartName(ns[0]);
      var rest := ToParts(ns[1..]);
      assert ToParts(ns)[1..] == rest && Raw(ToParts(ns))[1..] == Raw(rest);
      CollectNamed(ns[1..], Insert(m, ns[0].name, Part(HeaderMap(ns[0].Fields()), Text(ns[0].body))));
    }
  }

  /** With quoted names behind clean texts, every name is recovered too, the first part winning among equal names. */
  lemma {:induction false} NamedRoundTrip(preamble: string, ns: seq<NamedPart>, b: string, epilogue: string)
    requires GoodForm(preamble, ToParts(ns), b, epilogue) && AllNamed(ns)
    ensures Parse(FormText(preamble, ToParts(ns), b, epilogue), b) == Parsed(PartMap(ns, map[]))
  {
    hide Parse, Collect, FormText;
    MultipartRoundTrip(preamble, ToParts(ns), b, epilogue);
    CollectNamed(ns, map[]);
  }

  /* ---- how a parse fails ---- */

  /** A line without a colon is no header. */
  lemma {:induction false} LineWithoutColon(s: string, lo: nat, line: string)
    requires At(s, lo, line) && ':' !in line
    ensures lo + |line| <= |s| && LineFields(s, lo, lo + |line|) == []
  {
    forall i | lo <= i < lo + |line| ensures s[i] != ':' { AtChar(s, lo, line, i - lo); }
    FindCharIs(s, lo, lo + |line|, ':', lo + |line|);
  }

  /** Without a delimiter the scan runs past the end of the body. */
  lemma {:induction false} NoDelimiter(s: string, b: string)
    requires b != "" && !Occurs(s, b)
    ensures Parse(s, b) == Undefined
  {
    NoneInside(s, 0, s, b);
  }

  predicate HasDisposition(p: FormPart) {
    exists h | h in p.fields :: h.key == "Content-Disposition"
  }

  lemma {:induction false} NameIff(fields: seq<Field>)
    ensures NameOf(HeaderMap(fields)).Some? <==> exists h | h in fields :: h.key == "Content-Disposition"
    decreases |fields|
  {
    if fields != [] {
      var front, last := fields[..|fields| - 1], fields[|fields| - 1];
      NameIff(front);
      assert fields == front + [last];
    }
  }

  lemma {:induction false} CollectIff(ps: seq<FormPart>, m: Parts)
    ensures if forall p | p in ps :: HasDisposition(p) then Collect(Raw(ps), true, m).Parsed?
            else Collect(Raw(ps), true, m) == NoDisposition
    decreases |ps|
  {
    hide HeaderMap, NameOf;
    if ps != [] {
      assert ps == [ps[0]] + ps[1..];
      assert Raw(ps)[1..] == Raw(ps[1..]);
      NameIff(ps[0].fields);
      var headers := HeaderMap(ps[0].fields);
      assert HasDisposition(ps[0]) <==> NameOf(headers).Some?;
      assert ps[0] in ps;
      if NameOf(headers).Some? {
        CollectIff(ps[1..], Insert(m, NameOf(headers).value, Part(headers, Text(ps[0].body))));
      }
    }
  }

  /** A printed form is parsed iff every part has a Content-Disposition, of whatever content. */
  lemma {:induction false} ParsedIff(preamble: string, ps: seq<FormPart>, b: string, epilogue: string)
    requires GoodForm(preamble, ps, b, epilogue)
    ensures var r := Parse(FormText(preamble, ps, b, epilogue), b);
            if forall p | p in ps :: HasDisposition(p) then r.Parsed? else r == NoDisposition
  {
    hide Parse, Collect, FormText;
    MultipartRoundTrip(preamble, ps, b, epilogue);
    CollectIff(ps, map[]);
  }
}
