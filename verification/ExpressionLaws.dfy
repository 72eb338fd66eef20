/** What the compiler makes of texts with two operators: they group and compute as integer arithmetic does. */
module ExpressionLaws {
  import opened Numerals
  import opened Expressions
  import opened ExpressionTheorems
  import opened Tokenizer

  /** The value of a text without any blanks. */
  function ValueOf(text: string, env: Env): Outcome<int> {
    Evaluate(Tokenize(text), env)
  }

  function Literal(n: nat): Expr { Lit(NatText(n)) }

  lemma {:induction false} LiteralFits(n: nat, env: Env)
    ensures Literal(n).Wf() && Typed(Literal(n))
    ensures Literal(n).Before(env) == Literal(n).Meaning(env) == Value(n)
  {
    hide IsDecimal, NatValue;
    var s := NatText(n);
    assert s[0] in s;
    NatRoundTrip(n);
    IntIsDecimal(s);
    hide NatText;
    forall c | c in s ensures c !in " \t\n,+-*/%()&|<>=" { assert IsDigit(c); }
  }

  lemma Regroup(a: string, o: string, b: string, p: string, c: string)
    ensures a + (o + (b + (p + (c + "")))) == a + o + b + p + c
  {
    assert c + "" == c;
    assert a + (o + (b + (p + c))) == a + o + (b + (p + c)) == a + o + b + (p + c) == a + o + b + p + c;
  }

  lemma SixGaps()
    ensures NoGaps(6) == ["", "", "", "", "", ""]
  {
  }

  lemma {:induction false} PrintFive(a: string, o: string, b: string, p: string, c: string, ts: seq<Token>)
    requires |ts| == 5
    requires ts[0].text == a && ts[1].text == o && ts[2].text == b && ts[3].text == p && ts[4].text == c
    ensures Print(ts, ["", "", "", "", "", ""]) == a + o + b + p + c
  {
    assert Print(ts[5..], NoGaps(1)) == "" by { assert ts[5..] == []; }
    hide Print, NoGaps;
    PrintOne(ts, 4, 1, "");
    PrintOne(ts, 3, 2, c + "");
    PrintOne(ts, 2, 3, p + (c + ""));
    PrintOne(ts, 1, 4, b + (p + (c + "")));
    PrintOne(ts, 0, 5, o + (b + (p + (c + ""))));
    Regroup(a, o, b, p, c);
    SixGaps();
    assert ts[0..] == ts;
  }

  function NoGaps(n: nat): (r: seq<string>)
    ensures |r| == n
  {
    seq(n, i => "")
  }

  lemma {:induction false} PrintOne(ts: seq<Token>, i: nat, n: nat, rest: string)
    requires i < |ts| && n == |ts| - i && (n > 0 ==> Print(ts[i + 1..], NoGaps(n)) == rest)
    ensures Print(ts[i..], NoGaps(n + 1)) == ts[i].text + rest
  {
    assert ts[i..][1..] == ts[i + 1..] && NoGaps(n + 1)[1..] == NoGaps(n);
    assert "" + ts[i].text == ts[i].text;
  }

  /** Two operators between three numbers, the tighter or the left one grouped first. */
  function Grouped(a: nat, o: string, b: nat, p: string, c: nat): Expr {
    if Level(p) > Level(o) then Bin(o, Literal(a), Bin(p, Literal(b), Literal(c)))
    else Bin(p, Bin(o, Literal(a), Literal(b)), Literal(c))
  }

  /** The text of two operators between three numbers. */
  function Three(a: nat, o: string, b: nat, p: string, c: nat): string {
    NatText(a) + o + NatText(b) + p + NatText(c)
  }

  lemma {:induction false} GroupedTokens(a: nat, o: string, b: nat, p: string, c: nat)
    ensures Grouped(a, o, b, p, c).Tokens() == [Real(NatText(a)), Op(o), Real(NatText(b)), Op(p), Real(NatText(c))]
  {
    hide NatText, Level;
    assert Bin(p, Literal(b), Literal(c)).Tokens() == [Real(NatText(b)), Op(p), Real(NatText(c))];
    assert Bin(o, Literal(a), Literal(b)).Tokens() == [Real(NatText(a)), Op(o), Real(NatText(b))];
  }

  lemma {:induction false} GroupedFits(a: nat, o: string, b: nat, p: string, c: nat)
    requires Level(o) != 0 && Level(p) != 0 && o != "!=" && p != "!="
    ensures Grouped(a, o, b, p, c).Wf() && Typed(Grouped(a, o, b, p, c))
  {
    hide NatText, IsReal, IsWord, IsName;
    var env := Env(_ => Absent, _ => 0, _ => 0);
    LiteralFits(a, env);
    LiteralFits(b, env);
    LiteralFits(c, env);
    LevelBounds(o);
    LevelBounds(p);
    hide Level;
    var x, y, z := Literal(a), Literal(b), Literal(c);
    if Level(p) > Level(o) {
      assert Bin(p, y, z).Wf() && Typed(Bin(p, y, z));
    } else {
      assert Bin(o, x, y).Wf() && Typed(Bin(o, x, y));
    }
  }

  lemma LevelBounds(op: string)
    ensures Level(op) < 5
  {
  }

  lemma OperatorNotWord(op: string)
    requires Level(op) != 0 && op != "!="
    ensures !IsWord(op)
  {
    assert op[0] in op && op[0] in " \t\n,+-*/%()&|<>=";
  }

  lemma {:induction false} NoGapsSpaced(a: nat, o: string, b: nat, p: string, c: nat)
    requires Level(o) != 0 && Level(p) != 0 && o != "!=" && p != "!="
    ensures Spaced([Real(NatText(a)), Op(o), Real(NatText(b)), Op(p), Real(NatText(c))], ["", "", "", "", "", ""])
  {
    OperatorNotWord(o);
    OperatorNotWord(p);
    hide NatText, IsWord, Level;
  }

  lemma {:induction false} ThreeIsGrouped(a: nat, o: string, b: nat, p: string, c: nat, env: Env)
    requires Level(o) != 0 && Level(p) != 0 && o != "!=" && p != "!="
    ensures ValueOf(Three(a, o, b, p, c), env) == Grouped(a, o, b, p, c).Meaning(env)
  {
    hide NatText, Level, Evaluate, Tokenize, IsWord, Grouped, Spaced;
    var e := Grouped(a, o, b, p, c);
    GroupedFits(a, o, b, p, c);
    GroupedTokens(a, o, b, p, c);
    NoGapsSpaced(a, o, b, p, c);
    PrintFive(NatText(a), o, NatText(b), p, NatText(c), e.Tokens());
    EvaluateText(e, ["", "", "", "", "", ""], env);
  }

  /** The meaning of a sum, product, relation or junction of two trees that have values. */
  lemma {:induction false} BinMeaning(o: string, l: Expr, r: Expr, x: int, y: int, env: Env)
    requires l.Before(env) == l.Meaning(env) == Value(x) && r.Before(env) == r.Meaning(env) == Value(y)
    ensures Bin(o, l, r).Meaning(env) == Bin(o, l, r).Before(env) == Combined(o, Value(x), Value(y))
  {
    hide Combined;
  }

  /** The right operator first, or the left one first. */
  lemma {:induction false} Computed(a: nat, o: string, b: nat, p: string, c: nat, v: int, env: Env)
    requires Level(o) != 0 && Level(p) != 0 && o != "!=" && p != "!="
    requires if Level(p) > Level(o) then Combined(p, Value(b), Value(c)) == Value(v)
             else Combined(o, Value(a), Value(b)) == Value(v)
    ensures ValueOf(Three(a, o, b, p, c), env)
         == if Level(p) > Level(o) then Combined(o, Value(a), Value(v)) else Combined(p, Value(v), Value(c))
  {
    hide NatText, Level, Combined, ValueOf, Three;
    ThreeIsGrouped(a, o, b, p, c, env);
    LiteralFits(a, env);
    LiteralFits(b, env);
    LiteralFits(c, env);
    if Level(p) > Level(o) {
      BinMeaning(p, Literal(b), Literal(c), b, c, env);
      BinMeaning(o, Literal(a), Bin(p, Literal(b), Literal(c)), a, v, env);
    } else {
      BinMeaning(o, Literal(a), Literal(b), a, b, env);
      BinMeaning(p, Bin(o, Literal(a), Literal(b)), Literal(c), v, c, env);
    }
  }

  function Bit(b: bool): int { if b then 1 else 0 }

  /** Products bind tighter than sums, and operators of one level group to the left. */
  lemma {:induction false} SumsAndProducts(a: nat, b: nat, c: nat, env: Env)
    ensures ValueOf(NatText(a) + "+" + NatText(b) + "*" + NatText(c), env) == Value(a + b * c)
    ensures ValueOf(NatText(a) + "*" + NatText(b) + "+" + NatText(c), env) == Value(a * b + c)
    ensures ValueOf(NatText(a) + "-" + NatText(b) + "-" + NatText(c), env) == Value(a - b - c)
    ensures ValueOf(NatText(a) + "-" + NatText(b) + "/" + NatText(c), env)
         == if c == 0 then DivisionByZero else Value(a - b / c)
  {
    hide ValueOf, NatText;
    Computed(a, "+", b, "*", c, b * c, env);
    Computed(a, "*", b, "+", c, a * b, env);
    Computed(a, "-", b, "-", c, a - b, env);
    if c == 0 { DividedByZero(a, b, env); } else { Computed(a, "-", b, "/", c, b / c, env); }
  }

  lemma {:induction false} RightFails(o: string, l: Expr, r: Expr, env: Env)
    requires l.Before(env).Value? && r.Before(env) == DivisionByZero
    ensures Bin(o, l, r).Meaning(env) == DivisionByZero
  {
  }

  lemma ZeroDivisor(x: int)
    ensures Combined("/", Value(x), Value(0)) == DivisionByZero
  {
  }

  lemma {:induction false} DividedByZero(a: nat, b: nat, env: Env)
    ensures ValueOf(NatText(a) + "-" + NatText(b) + "/" + NatText(0), env) == DivisionByZero
  {
    hide ValueOf, NatText;
    ThreeIsGrouped(a, "-", b, "/", 0, env);
    var quotient := Bin("/", Literal(b), Literal(0));
    assert Grouped(a, "-", b, "/", 0) == Bin("-", Literal(a), quotient);
    hide Grouped, Level, Literal, Combined, Three;
    hide Expr.Meaning, Expr.Before;
    LiteralFits(a, env);
    LiteralFits(b, env);
    LiteralFits(0, env);
    ZeroDivisor(b);
    BinMeaning("/", Literal(b), Literal(0), b, 0, env);
    RightFails("-", Literal(a), quotient, env);
  }

  /** Relations bind looser than sums. */
  lemma {:induction false} Relations(a: nat, b: nat, c: nat, env: Env)
    ensures ValueOf(NatText(a) + "<" + NatText(b) + "+" + NatText(c), env) == Value(Bit(a < b + c))
    ensures ValueOf(NatText(a) + "-" + NatText(b) + ">=" + NatText(c), env) == Value(Bit(a - b >= c))
  {
    hide ValueOf, NatText;
    Computed(a, "<", b, "+", c, b + c, env);
    Computed(a, "-", b, ">=", c, a - b, env);
  }

  /** Junctions, all of one level, bind looser than relations. */
  lemma {:induction false} Junctions(a: nat, b: nat, c: nat, env: Env)
    ensures ValueOf(NatText(a) + "&&" + NatText(b) + "<" + NatText(c), env) == Value(Bit(a != 0 && b < c))
    ensures ValueOf(NatText(a) + "==" + NatText(b) + "|" + NatText(c), env) == Value(Bit(a == b || c != 0))
    ensures ValueOf(NatText(a) + "||" + NatText(b) + "&&" + NatText(c), env) == Value(Bit((a != 0 || b != 0) && c != 0))
  {
    hide ValueOf, NatText;
    Computed(a, "&&", b, "<", c, Bit(b < c), env);
    Computed(a, "==", b, "|", c, Bit(a == b), env);
    Computed(a, "||", b, "&&", c, Bit(a != 0 || b != 0), env);
  }
}
