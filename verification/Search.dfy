/** The substring search of includes/udho/util.h and the searches of std, over positions of one string. */
module Search {

  /** `p` stands in `s` at position `i`. */
  predicate At(s: string, i: nat, p: string) {
    i + |p| <= |s| && forall j | 0 <= j < |p| :: s[i + j] == p[j]
  }

  /** The first position in [lo, hi) where `p` stands before `hi`, or `hi`. */
  function Find(s: string, lo: nat, hi: nat, p: string): (r: nat)
    requires lo <= hi <= |s|
    ensures lo <= r <= hi
    decreases |s| - lo
  {
    if lo == hi || (At(s, lo, p) && lo + |p| <= hi) then lo else Find(s, lo + 1, hi, p)
  }

  /** std::find of one character. */
  function FindChar(s: string, lo: nat, hi: nat, c: char): (r: nat)
    requires lo <= hi <= |s|
    ensures lo <= r <= hi
    decreases |s| - lo
  {
    if lo == hi || s[lo] == c then lo else FindChar(s, lo + 1, hi, c)
  }

  predicate IsSpace(c: char) {
    c == ' ' || '\t' <= c <= '\r'
  }

  /** The first character in [lo, hi) that is not white space, or `hi`. */
  function SkipSpace(s: string, lo: nat, hi: nat): (r: nat)
    requires lo <= hi <= |s|
    ensures lo <= r <= hi
    decreases |s| - lo
  {
    if lo == hi || !IsSpace(s[lo]) then lo else SkipSpace(s, lo + 1, hi)
  }

  /** bounded_str::copied: the characters of a range, appended one by one. */
  function Copied(s: string, lo: nat, hi: nat): (r: string)
    requires lo <= hi <= |s|
    decreases |s| - lo
  {
    if lo == hi then "" else [s[lo]] + Copied(s, lo + 1, hi)
  }

  /** A bounded_str: the text of a range, or a range that begins behind its end. */
  datatype Bounded = Text(text: string) | Backwards

  function Between(s: string, lo: nat, hi: int): Bounded
    requires hi <= |s|
  {
    if lo > hi then Backwards else Text(Copied(s, lo, hi))
  }

  /** A position is the one found iff `p` stands there, or it is the end, and `p` stands nowhere before. */
  lemma {:induction false} FindIs(s: string, lo: nat, hi: nat, p: string, r: nat)
    requires lo <= r <= hi <= |s|
    ensures Find(s, lo, hi, p) == r <==>
      && (forall i: nat | lo <= i < r :: !(At(s, i, p) && i + |p| <= hi))
      && (r == hi || (At(s, r, p) && r + |p| <= hi))
    decreases |s| - lo
  {
    if lo < r { FindIs(s, lo + 1, hi, p, r); }
  }

  lemma {:induction false} FindCharIs(s: string, lo: nat, hi: nat, c: char, r: nat)
    requires lo <= r <= hi <= |s|
    ensures FindChar(s, lo, hi, c) == r <==> (forall i | lo <= i < r :: s[i] != c) && (r == hi || s[r] == c)
    decreases |s| - lo
  {
    if lo < r { FindCharIs(s, lo + 1, hi, c, r); }
  }

  /** The two nested loops of _search. */
  method SearchLoop(s: string, first: nat, last: nat, p: string) returns (r: nat)
    requires first <= last <= |s|
    ensures r == Find(s, first, last, p)
  {
    var f := first;
    while true
      invariant first <= f <= last
      invariant forall i: nat | first <= i < f :: !(At(s, i, p) && i + |p| <= last)
      decreases last - f
    {
      var it, k := f, 0;
      while true
        invariant it == f + k <= last && 0 <= k <= |p|
        invariant forall j | 0 <= j < k :: s[f + j] == p[j]
        decreases |p| - k
      {
        if k == |p| {
          assert f < last ==> At(s, f, p);
          FindIs(s, first, last, p, f);
          return f;
        }
        if it == last {
          FindIs(s, first, last, p, last);
          return last;
        }
        if s[it] != p[k] { break; }
        it, k := it + 1, k + 1;
      }
      assert p[k] != s[f + k] && !At(s, f, p);
      f := f + 1;
    }
  }

  /* ---- what stands where ---- */

  predicate Occurs(text: string, p: string) {
    exists i: nat | i <= |text| :: At(text, i, p)
  }

  /** A concatenation stands at a position iff its halves stand there, one behind the other. */
  lemma Cut(s: string, i: nat, a: string, b: string)
    ensures At(s, i, a + b) <==> At(s, i, a) && At(s, i + |a|, b)
  {
    var ab := a + b;
    if At(s, i, ab) {
      forall j | 0 <= j < |a| ensures s[i + j] == a[j] { assert ab[j] == a[j]; }
      forall j | 0 <= j < |b| ensures s[i + |a| + j] == b[j] { assert ab[|a| + j] == b[j]; }
    }
    if At(s, i, a) && At(s, i + |a|, b) {
      forall j | 0 <= j < |ab| ensures s[i + j] == ab[j] {
        if j >= |a| { assert s[i + |a| + (j - |a|)] == b[j - |a|]; }
      }
    }
  }

  lemma {:induction false} Slice(s: string, i: nat, t: string)
    requires At(s, i, t)
    ensures Copied(s, i, i + |t|) == t
    decreases |t|
  {
    if t != "" {
      assert t == [t[0]] + t[1..] && s[i + 0] == t[0];
      forall j | 0 <= j < |t[1..]| ensures s[i + 1 + j] == t[1..][j] { assert s[i + (j + 1)] == t[j + 1]; }
      Slice(s, i + 1, t[1..]);
    }
  }

  /** A match inside a text that stands in `s`. */
  lemma Window(s: string, lo: nat, t: string, k: nat, p: string)
    requires At(s, lo, t) && k + |p| <= |t|
    ensures At(s, lo + k, p) <==> At(t, k, p)
  {
    if At(s, lo + k, p) {
      forall j | 0 <= j < |p| ensures t[k + j] == p[j] { assert s[lo + (k + j)] == t[k + j]; }
    }
    if At(t, k, p) {
      forall j | 0 <= j < |p| ensures s[lo + k + j] == p[j] { assert s[lo + (k + j)] == t[k + j]; }
    }
  }

  lemma NothingInEmpty(p: string)
    requires p != ""
    ensures !Occurs("", p)
  {
  }

  /** What occurs in a text is what _search finds. */
  lemma OccursFound(s: string, p: string)
    requires p != ""
    ensures Occurs(s, p) <==> Find(s, 0, |s|, p) != |s|
    ensures Occurs(s, p) ==> At(s, Find(s, 0, |s|, p), p)
  {
    var r := Find(s, 0, |s|, p);
    FindIs(s, 0, |s|, p, r);
    if r == |s| {
      forall i: nat | i <= |s| ensures !At(s, i, p) {}
    }
  }

  /** No match reaches across a character that the pattern does not have. */
  lemma {:induction false} OccursAcross(a: string, c: char, b: string, p: string)
    requires p != "" && c !in p
    ensures Occurs(a + [c] + b, p) <==> Occurs(a, p) || Occurs(b, p)
  {
    var s := a + [c] + b;
    if Occurs(a, p) { OccursLeft(a, c, b, p); }
    if Occurs(b, p) { OccursRight(a, c, b, p); }
    if Occurs(s, p) {
      var i: nat :| i <= |s| && At(s, i, p);
      if i + |p| <= |a| {
        forall j | 0 <= j < |p| ensures a[i + j] == p[j] { AtChar(s, i, p, j); }
        assert At(a, i, p);
      } else if i > |a| {
        var k := i - |a| - 1;
        forall j | 0 <= j < |p| ensures b[k + j] == p[j] { AtChar(s, i, p, j); }
        assert At(b, k, p);
      } else {
        AtChar(s, i, p, |a| - i);
      }
    }
  }

  lemma OccursLeft(a: string, c: char, b: string, p: string)
    requires Occurs(a, p)
    ensures Occurs(a + [c] + b, p)
  {
    var s := a + [c] + b;
    var i: nat :| i <= |a| && At(a, i, p);
    forall j | 0 <= j < |p| ensures s[i + j] == p[j] { AtChar(a, i, p, j); }
    assert At(s, i, p);
  }

  lemma OccursRight(a: string, c: char, b: string, p: string)
    requires Occurs(b, p)
    ensures Occurs(a + [c] + b, p)
  {
    var s := a + [c] + b;
    var i: nat :| i <= |b| && At(b, i, p);
    var k := |a| + 1 + i;
    forall j | 0 <= j < |p| ensures s[k + j] == p[j] { AtChar(b, i, p, j); }
    assert At(s, k, p);
  }

  lemma AtChar(s: string, i: nat, p: string, k: nat)
    requires k < |p|
    ensures At(s, i, p) ==> i + k < |s| && s[i + k] == p[k]
  {
  }

  /** Behind a text without `p`, and with nothing straddling its end, the first match is at its end. */
  lemma FindAfter(s: string, lo: nat, hi: nat, text: string, p: string)
    requires p != "" && lo + |text| + |p| <= hi <= |s| && At(s, lo, text) && At(s, lo + |text|, p)
    requires !Occurs(text, p)
    requires forall i: nat | lo <= i < lo + |text| < i + |p| :: !At(s, i, p)
    ensures Find(s, lo, hi, p) == lo + |text|
  {
    forall i: nat | lo <= i < lo + |text| ensures !At(s, i, p) {
      if i + |p| <= lo + |text| { NotInWindow(s, lo, text, i, p); }
    }
    FindIs(s, lo, hi, p, lo + |text|);
  }

  lemma NotInWindow(s: string, lo: nat, t: string, i: nat, p: string)
    requires At(s, lo, t) && lo <= i && i + |p| <= lo + |t| && !Occurs(t, p)
    ensures !At(s, i, p)
  {
    var k := i - lo;
    Window(s, lo, t, k, p);
    assert !At(t, k, p);
  }

  lemma NoneInside(s: string, from: nat, t: string, p: string)
    requires p != "" && At(s, from, t) && from + |t| == |s| && !Occurs(t, p)
    ensures Find(s, from, |s|, p) == |s|
  {
    forall i: nat | from <= i < |s| ensures !(At(s, i, p) && i + |p| <= |s|) {
      if i + |p| <= |s| { NotInWindow(s, from, t, i, p); }
    }
    FindIs(s, from, |s|, p, |s|);
  }

  /* ---- white space ---- */

  const SPACES := {' ', '\t', '\n', '\U{000B}', '\U{000C}', '\r'}

  lemma SpaceIs(c: char)
    ensures IsSpace(c) <==> c in SPACES
  {
  }

  lemma {:induction false} PadSkipped(s: string, lo: nat, v: nat, hi: nat)
    requires lo <= v <= hi <= |s| && (forall i | lo <= i < v :: IsSpace(s[i])) && (v == hi || !IsSpace(s[v]))
    ensures SkipSpace(s, lo, hi) == v
    decreases v - lo
  {
    if lo < v { PadSkipped(s, lo + 1, v, hi); }
  }
}
