/**
 Characters to tokens: the char_separator of includes/udho/parser.h and the loop of
 `tokenize` that puts two-character operators back together.
 */
module Tokenizer {
  import opened Options
  import opened Numerals
  import opened Expressions
  import opened ExpressionTheorems

  predicate IsSpace(c: char) { c == ' ' || c == '\t' || c == '\n' }

  predicate IsDelim(c: char) { c in ",+-*/%()&|<>=" }

  function Flush(cur: string): seq<string> {
    if cur == "" then [] else [cur]
  }

  /** The words of `s`, `cur` being the word begun so far. */
  function Words(s: string, cur: string): seq<string>
    decreases |s|
  {
    if s == "" then Flush(cur)
    else if IsSpace(s[0]) then Flush(cur) + Words(s[1..], "")
    else if IsDelim(s[0]) then Flush(cur) + [[s[0]]] + Words(s[1..], "")
    else Words(s[1..], cur + [s[0]])
  }

  predicate Joins(a: string, b: string) {
    || (a == "<" && b == "=")
    || (a == ">" && b == "=")
    || (a == "=" && b == "=")
    || (a == "&" && b == "&")
    || (a == "|" && b == "|")
  }

  function Merge(ws: seq<string>): seq<string>
    decreases |ws|
  {
    if ws == [] then []
    else if |ws| >= 2 && Joins(ws[0], ws[1]) then [ws[0] + ws[1]] + Merge(ws[2..])
    else [ws[0]] + Merge(ws[1..])
  }

  function CreateAll(ws: seq<string>): (r: seq<Token>)
    ensures |r| == |ws| && forall i | 0 <= i < |ws| :: r[i] == Create(ws[i])
  {
    if ws == [] then [] else [Create(ws[0])] + CreateAll(ws[1..])
  }

  function Tokenize(s: string): seq<Token> {
    CreateAll(Merge(Words(s, "")))
  }

  /** The words from `i` on, one token read. */
  lemma MergeAt(words: seq<string>, i: nat, output: seq<Token>)
    requires i < |words|
    ensures
      var two := i + 1 < |words| && Joins(words[i], words[i + 1]);
      output + CreateAll(Merge(words[i..])) ==
      if two then output + [Create(words[i] + words[i + 1])] + CreateAll(Merge(words[i + 2..]))
      else output + [Create(words[i])] + CreateAll(Merge(words[i + 1..]))
  {
    hide Create, Joins;
    var ws := words[i..];
    assert ws[1..] == words[i + 1..];
    if i + 1 < |words| && Joins(words[i], words[i + 1]) {
      assert ws[2..] == words[i + 2..];
      CreateMore(output, ws[0] + ws[1], Merge(ws[2..]));
    } else {
      CreateMore(output, ws[0], Merge(ws[1..]));
    }
  }

  lemma CreateMore(output: seq<Token>, w: string, rest: seq<string>)
    ensures output + CreateAll([w] + rest) == output + [Create(w)] + CreateAll(rest)
  {
    hide Create;
    assert ([w] + rest)[1..] == rest;
  }

  /** The loop of `tokenize` over the words, looking one word ahead. */
  method TokenizeLoop(words: seq<string>) returns (output: seq<Token>)
    ensures output == CreateAll(Merge(words))
  {
    hide Create, Joins, CreateAll;
    output := [];
    var i := 0;
    while i < |words|
      invariant 0 <= i <= |words|
      invariant output + CreateAll(Merge(words[i..])) == CreateAll(Merge(words))
    {
      var ctoken := words[i];
      MergeAt(words, i, output);
      if i + 1 < |words| && Joins(ctoken, words[i + 1]) {
        output := output + [Create(ctoken + words[i + 1])];
        i := i + 2;
      } else {
        output := output + [Create(ctoken)];
        i := i + 1;
      }
    }
    assert words[i..] == [];
  }

  /* ---- printing ---- */

  predicate IsWord(s: string) {
    s != "" && forall c | c in s :: c !in " \t\n,+-*/%()&|<>="
  }

  predicate Blank(s: string) {
    forall c | c in s :: c in " \t\n"
  }

  const RECOMBINED := {"<=", ">=", "==", "&&", "||"}

  /** One separator character, or one of the five operators `tokenize` recombines. */
  predicate IsSymbol(s: string) {
    (|s| == 1 && s[0] in ",+-*/%()&|<>=") || s in RECOMBINED
  }

  /** A token that its own text reads back as. */
  predicate Printable(t: Token) {
    Create(t.text) == t && (IsWord(t.text) || IsSymbol(t.text))
  }

  /** `gaps[i]` stands before token `i`, the last gap at the end. */
  predicate Spaced(ts: seq<Token>, gaps: seq<string>) {
    && |gaps| == |ts| + 1
    && (forall g | g in gaps :: Blank(g))
    && (forall i | 0 <= i < |ts| - 1 :: IsWord(ts[i].text) && IsWord(ts[i + 1].text) ==> gaps[i + 1] != "")
  }

  function Print(ts: seq<Token>, gaps: seq<string>): string
    requires |gaps| == |ts| + 1
  {
    if ts == [] then gaps[0] else gaps[0] + ts[0].text + Print(ts[1..], gaps[1..])
  }

  function Raw(t: Token): (r: seq<string>)
    ensures r != []
  {
    if IsWord(t.text) || |t.text| <= 1 then [t.text] else [t.text[..1], t.text[1..]]
  }

  function RawAll(ts: seq<Token>): seq<string> {
    if ts == [] then [] else Raw(ts[0]) + RawAll(ts[1..])
  }

  /** No token printed before another one is glued to the first character of that one. */
  predicate NoMerge(ts: seq<Token>) {
    forall i | 0 <= i < |ts| - 1 :: ts[i].text + Raw(ts[i + 1])[0] !in RECOMBINED
  }

  lemma JoinsIs(a: string, b: string)
    requires a != "" && b != ""
    ensures Joins(a, b) <==> a + b in RECOMBINED
  {
    var s := a + b;
    if Joins(a, b) {
      assert s == [a[0], b[0]];
    }
    if s in RECOMBINED {
      assert |a| == 1 && |b| == 1 && a == [s[0]] && b == [s[1]];
    }
  }

  lemma SymbolSplit(s: string)
    requires s in RECOMBINED
    ensures |s| == 2 && Joins(s[..1], s[1..]) && s[..1] == [s[0]] && s[1..] == [s[1]] && IsDelim(s[0]) && IsDelim(s[1])
  {
    assert s == s[..1] + s[1..];
    JoinsIs(s[..1], s[1..]);
  }

  lemma {:induction false} SkipBlank(g: string, rest: string)
    requires Blank(g)
    ensures Words(g + rest, "") == Words(rest, "")
  {
    if g == "" {
      assert g + rest == rest;
    } else {
      assert g[0] in g && (g + rest)[1..] == g[1..] + rest;
      SkipBlank(g[1..], rest);
    }
  }

  lemma {:induction false} ReadWord(w: string, rest: string, cur: string)
    requires forall c | c in w :: !IsSpace(c) && !IsDelim(c)
    ensures Words(w + rest, cur) == Words(rest, cur + w)
  {
    if w == "" {
      assert w + rest == rest && cur + w == cur;
    } else {
      assert w[0] in w && (w + rest)[1..] == w[1..] + rest;
      ReadWord(w[1..], rest, cur + [w[0]]);
      assert cur + [w[0]] + w[1..] == cur + w;
    }
  }

  lemma EndWord(cur: string, rest: string)
    requires cur != "" && (rest == "" || IsSpace(rest[0]) || IsDelim(rest[0]))
    ensures Words(rest, cur) == [cur] + Words(rest, "")
  {
  }

  lemma ReadSymbol(s: string, rest: string)
    requires IsSymbol(s)
    ensures Words(s + rest, "") == (if |s| == 1 then [s] else [s[..1], s[1..]]) + Words(rest, "")
  {
    assert (s + rest)[1..] == s[1..] + rest;
    if |s| == 1 {
      assert s == [s[0]] && s[1..] + rest == rest;
    } else {
      SymbolSplit(s);
      assert (s[1..] + rest)[1..] == rest;
    }
  }

  lemma ReadText(t: Token, rest: string)
    requires Printable(t) && (IsWord(t.text) ==> rest == "" || IsSpace(rest[0]) || IsDelim(rest[0]))
    ensures Words(t.text + rest, "") == Raw(t) + Words(rest, "")
  {
    hide Words, Create;
    if IsWord(t.text) {
      ReadWord(t.text, rest, "");
      assert "" + t.text == t.text;
      EndWord(t.text, rest);
    } else {
      ReadSymbol(t.text, rest);
      if t.text in RECOMBINED { SymbolSplit(t.text); }
    }
  }

  lemma {:induction false} WordsOfPrint(ts: seq<Token>, gaps: seq<string>)
    requires Spaced(ts, gaps) && forall t | t in ts :: Printable(t)
    ensures Words(Print(ts, gaps), "") == RawAll(ts)
    decreases |ts|
  {
    hide Printable, Raw, IsWord;
    assert gaps[0] in gaps;
    if ts == [] {
      SkipBlank(gaps[0], "");
      assert gaps[0] + "" == gaps[0];
    } else {
      var t, rest := ts[0], Print(ts[1..], gaps[1..]);
      assert t in ts && Print(ts, gaps) == gaps[0] + (t.text + rest);
      SkipBlank(gaps[0], t.text + rest);
      WordsOfPrint(ts[1..], gaps[1..]);
      if IsWord(t.text) { RestStarts(ts, gaps); }
      ReadText(t, rest);
    }
  }

  lemma RestStarts(ts: seq<Token>, gaps: seq<string>)
    requires Spaced(ts, gaps) && (forall t | t in ts :: Printable(t)) && ts != [] && IsWord(ts[0].text)
    ensures var rest := Print(ts[1..], gaps[1..]); rest == "" || IsSpace(rest[0]) || IsDelim(rest[0])
  {
    if gaps[1] != "" {
      assert gaps[1] in gaps && gaps[1][0] in gaps[1];
    } else if |ts| > 1 {
      var next := ts[1];
      assert next in ts && !IsWord(next.text);
      assert IsDelim(next.text[0]) by { if |next.text| == 2 { SymbolSplit(next.text); } }
    }
  }

  function Texts(ts: seq<Token>): (r: seq<string>)
    ensures |r| == |ts| && forall i | 0 <= i < |ts| :: r[i] == ts[i].text
  {
    if ts == [] then [] else [ts[0].text] + Texts(ts[1..])
  }

  /** Reading back one token in front of others that read back as `tail`. */
  lemma MergeOne(t: Token, ts: seq<Token>, tail: seq<string>)
    requires Printable(t) && |tail| >= |ts|
    requires if ts == [] then tail == [] else tail != [] && tail[0] == Raw(ts[0])[0]
    ensures Merge(Raw(t) + tail) == [t.text] + Texts(ts)
       <==> Merge(tail) == Texts(ts) && (ts != [] ==> !Joins(t.text, Raw(ts[0])[0]))
  {
    var all := Raw(t) + tail;
    if |Raw(t)| == 2 {
      SymbolSplit(t.text);
      assert all[2..] == tail && all[0] == t.text[..1] && all[1] == t.text[1..];
      assert t.text == t.text[..1] + t.text[1..];
      NeverTwice(t.text);
      assert Merge(all) == [t.text] + Merge(tail);
    } else {
      assert all[1..] == tail && all[0] == t.text;
      if ts != [] && Joins(t.text, tail[0]) {
        assert Merge(all)[0] == t.text + tail[0] != t.text;
        assert ([t.text] + Texts(ts))[0] == t.text;
      } else {
        assert Merge(all) == [t.text] + Merge(tail);
      }
    }
    assert ([t.text] + Texts(ts))[1..] == Texts(ts) && ([t.text] + Merge(tail))[1..] == Merge(tail);
  }

  lemma {:induction false} MergeOfRaw(ts: seq<Token>)
    requires forall t | t in ts :: Printable(t)
    ensures Merge(RawAll(ts)) == Texts(ts) <==> NoMerge(ts)
    ensures |RawAll(ts)| >= |ts| && (ts != [] ==> RawAll(ts)[0] == Raw(ts[0])[0])
    decreases |ts|
  {
    if ts != [] {
      assert ts[0] in ts;
      MergeOfRaw(ts[1..]);
      NoMergeCons(ts);
      MergeOne(ts[0], ts[1..], RawAll(ts[1..]));
    }
  }

  lemma NeverTwice(s: string)
    requires |s| == 2
    ensures forall b :: !Joins(s, b)
  {
  }

  lemma RawNonempty(t: Token)
    requires Printable(t)
    ensures t.text != "" && |Raw(t)[0]| >= 1
  {
  }

  lemma NoMergeCons(ts: seq<Token>)
    requires ts != [] && forall t | t in ts :: Printable(t)
    ensures NoMerge(ts) <==> NoMerge(ts[1..]) && (|ts| > 1 ==> !Joins(ts[0].text, Raw(ts[1])[0]))
  {
    hide Joins, Raw, Printable;
    if |ts| > 1 {
      assert ts[0] in ts && ts[1] in ts;
      RawNonempty(ts[0]);
      RawNonempty(ts[1]);
      JoinsIs(ts[0].text, Raw(ts[1])[0]);
    }
    forall i | 0 <= i < |ts[1..]| - 1
      ensures ts[1..][i].text + Raw(ts[1..][i + 1])[0] == ts[i + 1].text + Raw(ts[i + 2])[0] {}
    if NoMerge(ts[1..]) && (|ts| > 1 ==> !Joins(ts[0].text, Raw(ts[1])[0])) {
      forall i | 0 <= i < |ts| - 1 ensures ts[i].text + Raw(ts[i + 1])[0] !in RECOMBINED {
        if i > 0 { assert ts[1..][i - 1].text + Raw(ts[1..][i])[0] !in RECOMBINED; }
      }
    }
  }

  /** Printed with any blanks, a token list reads back as itself iff no neighbours merge. */
  lemma TokenizerRoundTrip(ts: seq<Token>, gaps: seq<string>)
    requires Spaced(ts, gaps) && forall t | t in ts :: Printable(t)
    ensures Tokenize(Print(ts, gaps)) == ts <==> NoMerge(ts)
  {
    WordsOfPrint(ts, gaps);
    MergeOfRaw(ts);
    CreateBack(ts, Merge(RawAll(ts)));
  }

  lemma CreateBack(ts: seq<Token>, ws: seq<string>)
    requires forall t | t in ts :: Create(t.text) == t
    ensures CreateAll(ws) == ts <==> ws == Texts(ts)
  {
    if CreateAll(ws) == ts {
      forall i | 0 <= i < |ws| ensures ws[i] == Texts(ts)[i] {
        assert ts[i] == Create(ws[i]);
        CreateKeepsText(ws[i]);
      }
      assert ws == Texts(ts);
    }
    if ws == Texts(ts) {
      forall i | 0 <= i < |ts| ensures CreateAll(ws)[i] == ts[i] { assert ts[i] in ts; }
      assert CreateAll(ws) == ts;
    }
  }

  lemma CreateKeepsText(s: string)
    ensures Create(s).text == s
  {
  }

  /* ---- from characters to values ---- */

  /** The tree can be typed: its names are single words and it does not use `!=`. */
  predicate Typed(e: Expr) {
    match e
    case Lit(text) => IsWord(text)
    case Var(name) => IsWord(name)
    case Bin(op, l, r) => op != "!=" && Typed(l) && Typed(r)
    case Unary(_, arg) => Typed(arg)
    case Paren(e1) => Typed(e1)
  }

  /** No two operators meet, and none stands at either end. */
  predicate Separated(ts: seq<Token>) {
    && ts != [] && !ts[0].Op? && !ts[|ts| - 1].Op?
    && forall i | 0 <= i < |ts| - 1 :: !(ts[i].Op? && ts[i + 1].Op?)
  }

  lemma SeparatedAround(a: seq<Token>, t: Token, b: seq<Token>)
    requires Separated(a) && Separated(b)
    ensures Separated(a + [t] + b)
  {
    var s := a + [t] + b;
    forall i | 0 <= i < |s| - 1 ensures !(s[i].Op? && s[i + 1].Op?) {
      if i > |a| { assert s[i] == b[i - |a| - 1] && s[i + 1] == b[i - |a|]; }
    }
  }

  lemma SeparatedInside(a: seq<Token>, b: seq<Token>, c: seq<Token>)
    requires Separated(b) && a != [] && c != []
    requires (forall t | t in a :: !t.Op?) && (forall t | t in c :: !t.Op?)
    ensures Separated(a + b + c)
  {
    var s := a + b + c;
    var k, n := |a|, |a| + |b|;
    forall i | 0 <= i < k ensures !s[i].Op? { assert s[i] == a[i]; }
    forall i | n <= i < |s| ensures !s[i].Op? { assert s[i] == c[i - n]; }
    forall i | k <= i < n - 1 ensures !(s[i].Op? && s[i + 1].Op?) {
      assert s[i] == b[i - k] && s[i + 1] == b[i + 1 - k];
    }
  }

  /** A text that starts like no number, and is none of the words that are numbers, is no number. */
  lemma NotReal(s: string)
    requires var t := Unsigned(s); t == "" || (!IsDigit(t[0]) && t[0] != '.' && ((|t| != 3 && |t| != 8) || t == "not"))
    ensures !IsReal(s)
  {
    var t := Unsigned(s);
    if IsDecimal(s) { DecimalChars(s); }
    if |t| == 3 { assert Lower(t)[1] == 'o'; }
  }

  lemma OperatorPrintable(op: string)
    requires IsOperator(op) && op != "!="
    ensures Printable(Op(op))
  {
    OperatorShape(op);
    NotReal(op);
    hide IsReal;
  }

  lemma OperatorShape(op: string)
    requires IsOperator(op) && op != "!="
    ensures IsSymbol(op) && op != "," && op != "(" && op != ")"
    ensures var t := Unsigned(op); |t| <= 2 && (t == "" || (!IsDigit(t[0]) && t[0] != '.'))
  {
    if |op| == 2 { assert op[..1] == [op[0]] && op[1..] == [op[1]]; }
  }

  lemma FunctionPrintable(f: string)
    requires f in {"count", "not"}
    ensures Printable(Function(f))
  {
    assert f[0] == 'c' || f[0] == 'n';
    NotReal(f);
    LongNotOperator(f);
    LettersWord(f);
    hide IsReal, IsWord, IsOperator;
    assert |f| >= 3;
  }

  lemma LettersWord(f: string)
    requires f in {"count", "not"}
    ensures IsWord(f)
  {
  }

  lemma LongNotOperator(s: string)
    requires |s| >= 3
    ensures !IsOperator(s)
  {
  }

  lemma ParensPrintable()
    ensures Printable(OPEN) && Printable(CLOSE)
  {
    NotReal("(");
    NotReal(")");
    assert '(' in "(" && ')' in ")";
  }

  lemma {:induction false} TokensFit(e: Expr)
    requires e.Wf() && Typed(e)
    ensures Separated(e.Tokens()) && forall t | t in e.Tokens() :: Printable(t)
  {
    hide Printable, IsReal, Level, IsName, IsWord;
    match e
    case Lit(text) => OperandPrintable(e);
    case Var(name) => OperandPrintable(e);
    case Bin(op, l, r) =>
      TokensFit(l);
      TokensFit(r);
      LevelIsPrecedence(op);
      OperatorPrintable(op);
      SeparatedAround(l.Tokens(), Op(op), r.Tokens());
    case Unary(f, arg) =>
      TokensFit(arg);
      FunctionPrintable(f);
      ParensPrintable();
      SeparatedInside([Function(f), OPEN], arg.Tokens(), [CLOSE]);
    case Paren(e1) =>
      TokensFit(e1);
      ParensPrintable();
      SeparatedInside([OPEN], e1.Tokens(), [CLOSE]);
  }

  lemma OperandPrintable(e: Expr)
    requires (e.Lit? || e.Var?) && e.Wf() && Typed(e)
    ensures Printable(e.Tokens()[0])
  {
    hide IsReal, IsWord;
    if e.Var? { NameIsId(e.name); }
  }

  lemma SeparatedNoMerge(ts: seq<Token>)
    requires Separated(ts) && forall t | t in ts :: Printable(t)
    ensures NoMerge(ts)
  {
    hide Joins, Raw, Printable;
    forall i | 0 <= i < |ts| - 1 ensures ts[i].text + Raw(ts[i + 1])[0] !in RECOMBINED {
      assert ts[i] in ts && ts[i + 1] in ts;
      RawNonempty(ts[i]);
      RawNonempty(ts[i + 1]);
      JoinsIs(ts[i].text, Raw(ts[i + 1])[0]);
      if Joins(ts[i].text, Raw(ts[i + 1])[0]) {
        JoinsOnlyOperators(ts[i], ts[i + 1]);
      }
    }
  }

  lemma WordNotJoined(t: Token)
    requires IsWord(t.text)
    ensures Raw(t) == [t.text] && t.text !in {"=", "&", "|"}
  {
    assert t.text[0] in t.text;
  }

  lemma JoinsOnlyOperators(a: Token, b: Token)
    requires Printable(a) && Printable(b) && Joins(a.text, Raw(b)[0])
    ensures a.Op? && b.Op?
  {
    OperatorPrintable(a.text);
    if IsWord(b.text) { WordNotJoined(b); }
    SymbolJoins(b.text, Raw(b)[0]);
    OperatorPrintable(b.text);
  }

  lemma SymbolJoins(s: string, c: string)
    requires IsSymbol(s) && c == (if |s| == 1 then s else s[..1]) && (c == "=" || c == "&" || c == "|")
    ensures IsOperator(s) && s != "!="
  {
    if |s| == 2 {
      assert s == s[..1] + s[1..];
      if c == "=" { assert s == "=="; } else if c == "&" { assert s == "&&"; } else { assert s == "||"; }
    }
  }

  /**
   From characters to the value: every typed expression, with any blanks between its tokens,
   is tokenized, translated and evaluated to its meaning.
   */
  lemma EvaluateText(e: Expr, gaps: seq<string>, env: Env)
    requires e.Wf() && Typed(e) && Spaced(e.Tokens(), gaps)
    ensures Evaluate(Tokenize(Print(e.Tokens(), gaps)), env) == e.Meaning(env)
  {
    TokensFit(e);
    SeparatedNoMerge(e.Tokens());
    TokenizerRoundTrip(e.Tokens(), gaps);
    CompilerCorrect(e, env);
  }
}
