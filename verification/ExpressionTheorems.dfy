/** The expression compiler preserves meaning, and translation loses nothing. */
module ExpressionTheorems {
  import opened Options
  import opened Numerals
  import opened Expressions

  /* ---- expression trees ---- */

  const JUNCTIONS := {"&&", "||", "&", "|"}
  const RELATIONS := {"<=", ">=", "<", ">", "==", "=", "!="}
  const SUMS := {"+", "-"}
  const PRODUCTS := {"*", "/"}

  /** The level of the grammar that an operator belongs to; 0 for other texts. */
  function Level(op: string): nat {
    if op in JUNCTIONS then 1
    else if op in RELATIONS then 2
    else if op in SUMS then 3
    else if op in PRODUCTS then 4
    else 0
  }

  /** A text that names something: no number, operator, function, call or punctuation. */
  predicate IsName(s: string) {
    && Level(s) == 0 && !IsReal(s) && '@' !in s
    && s !in {"count", "not", "max", "min", "avg"} && s !in {",", "(", ")"}
  }

  /** Integer division rounding toward zero. */
  function TowardZero(x: int, y: int): int
    requires y != 0
  {
    var q := (if x < 0 then -x else x) / (if y < 0 then -y else y);
    if (x < 0) == (y < 0) then q else -q
  }

  /** Sums, products and relations of two integers. */
  function Arithmetic(op: string, x: int, y: int): Outcome<int>
    requires op in RELATIONS + SUMS + PRODUCTS
  {
    match op
    case "+" => Value(x + y)
    case "-" => Value(x - y)
    case "*" => Value(x * y)
    case "/" => if y == 0 then DivisionByZero else Value(TowardZero(x, y))
    case _ =>
      var holds := (op == "<" && x < y) || (op == ">" && x > y) || (op == "<=" && x <= y) || (op == ">=" && x >= y)
                   || ((op == "==" || op == "=") && x == y) || (op == "!=" && x != y);
      Value(if holds then 1 else 0)
  }

  /** What the two operands of an operator come to; the right one is used only where it matters. */
  function Combined(op: string, l: Outcome<int>, r: Outcome<int>): Outcome<int> {
    var x :- l;
    if op in {"&", "&&"} && x == 0 then Value(0)
    else if op in {"|", "||"} && x != 0 then Value(1)
    else
      var y :- r;
      if op in JUNCTIONS then Value(if y != 0 then 1 else 0)
      else if op in RELATIONS + SUMS + PRODUCTS then Arithmetic(op, x, y)
      else Unset
  }

  datatype Expr =
    | Lit(text: string)
    | Var(name: string)
    | Bin(op: string, l: Expr, r: Expr)
    | Unary(f: string, arg: Expr)
    | Paren(e: Expr)
  {
    /** Binding strength of the outermost operator; operands and groups bind tighter than any operator. */
    function Strength(): nat {
      if Bin? then Level(op) else 5
    }

    /**
     The trees the grammar gives: four levels of left-associative operators, unary calls of
     `count` and `not`, and parentheses anywhere.
     */
    predicate Wf() {
      match this
      case Lit(text) => IsReal(text)
      case Var(name) => IsName(name)
      case Bin(op, l, r) =>
        && Level(op) != 0 && l.Wf() && r.Wf()
        && l.Strength() >= Level(op) && r.Strength() > Level(op)
      case Unary(f, arg) => f in {"count", "not"} && arg.Wf()
      case Paren(e) => e.Wf()
    }

    /** The infix token list. */
    function Tokens(): seq<Token> {
      match this
      case Lit(text) => [Real(text)]
      case Var(name) => [Id(name)]
      case Bin(op, l, r) => l.Tokens() + [Op(op)] + r.Tokens()
      case Unary(f, arg) => [Function(f), OPEN] + arg.Tokens() + [CLOSE]
      case Paren(e) => [OPEN] + e.Tokens() + [CLOSE]
    }

    function Postfix(): seq<Token> {
      match this
      case Lit(text) => [Real(text)]
      case Var(name) => [Id(name)]
      case Bin(op, l, r) => l.Postfix() + r.Postfix() + [Op(op)]
      case Unary(f, arg) => arg.Postfix() + [CallToken(f, 1)]
      case Paren(e) => e.Postfix()
    }

    /** The tree without enclosing parentheses. */
    function Core(): Expr {
      if Paren? then e.Core() else this
    }

    /** What the tree means. */
    function Meaning(env: Env): Outcome<int>
      decreases this, 0
    {
      match this
      case Lit(text) => Value(if IsInt(text) then IntValue(text) else env.partial(text))
      case Var(name) =>
        (match env.parse(name) case Found(v) => Value(v) case Absent => OutOfRange case Refused => Thrown)
      case Bin(op, l, r) =>
        var _ :- l.Before(env);
        var _ :- r.Before(env);
        Combined(op, l.Meaning(env), r.Meaning(env))
      case Unary(f, arg) =>
        var _ :- arg.Before(env);
        if f == "count" then Value(if arg.Core().Var? then env.count(arg.Core().name) else 0)
        else (match arg.Meaning(env)
              case Value(x) => Value(if x == 0 then 1 else 0)
              case OutOfRange => Value(0)
              case failure => failure)
      case Paren(e) => e.Meaning(env)
    }

    /** What happens before the tree is used as an operand: a bare name is looked up only when it is used. */
    function Before(env: Env): Outcome<int>
      decreases this, 1
    {
      if Core().Var? then Value(0) else Meaning(env)
    }
  }

  lemma LevelIsPrecedence(op: string)
    ensures Level(op) == Precedence(op) && Op(op).Prec() == Level(op)
  {
  }

  lemma NameIsId(s: string)
    requires IsName(s)
    ensures Create(s) == Id(s)
  {
    LevelIsPrecedence(s);
  }

  lemma QuotientIs(x: int, y: int)
    requires y != 0
    ensures Quotient(x, y) == TowardZero(x, y)
  {
  }

  /** The operators of the evaluator are those of integer arithmetic. */
  lemma ApplyIsCombined(op: string, l: Outcome<int>, r: Outcome<int>)
    requires Level(op) != 0
    ensures Apply(op, l, r) == Combined(op, l, r)
  {
    if op == "/" && l.Value? && r.Value? && r.value != 0 { QuotientIs(l.value, r.value); }
    hide Quotient, TowardZero;
  }

  /* ---- rpn of an expression is its postfix form ---- */

  /** What processing a tree has written when its last token has been read ... */
  function Written(e: Expr): seq<Token> {
    if e.Bin? then e.l.Postfix() + Written(e.r) else e.Postfix()
  }

  /** ... and the operators of its right spine, which still wait on the stack. */
  function Waiting(e: Expr): seq<Token> {
    if e.Bin? then [Op(e.op)] + Waiting(e.r) else []
  }

  lemma {:induction false} WaitingOps(e: Expr)
    requires e.Wf()
    ensures forall t | t in Waiting(e) :: t.Op? && t.Prec() >= e.Strength()
    ensures Written(e) + Reverse(Waiting(e)) == e.Postfix()
  {
    hide Reverse, IsReal;
    if e.Bin? {
      WaitingOps(e.r);
      ReverseCons(Op(e.op), Waiting(e.r));
      assert Written(e) + (Reverse(Waiting(e.r)) + [Op(e.op)])
          == e.l.Postfix() + (Written(e.r) + Reverse(Waiting(e.r))) + [Op(e.op)];
    }
  }

  lemma {:induction false} ReverseCons<T>(x: T, s: seq<T>)
    ensures Reverse([x] + s) == Reverse(s) + [x]
  {
    var xs := [x] + s;
    if s == [] {
      assert xs == [x] && xs[..0] == [];
    } else {
      assert xs[..|xs| - 1] == [x] + s[..|s| - 1];
      ReverseCons(x, s[..|s| - 1]);
    }
  }

  /** What is on top of the stack does not capture `e`: no called function, no tighter operator. */
  predicate Admits(stack: seq<Token>, e: Expr) {
    stack == [] ||
    var top := stack[|stack| - 1];
    !top.Function? && (e.Bin? && top.Op? ==> top.Prec() < e.Strength())
  }

  /** Operators above `stack` are all popped by an operator that binds no tighter. */
  lemma {:induction false} PopSpine(stack: seq<Token>, spine: seq<Token>, out: seq<Token>, p: nat)
    requires forall t | t in spine :: t.Op? && t.Prec() >= p
    requires stack != [] && stack[|stack| - 1].Op? ==> stack[|stack| - 1].Prec() < p
    ensures PopOperators(Machine(stack + spine, out, 0), p) == Machine(stack, out + Reverse(spine), 0)
    decreases |spine|
  {
    var k := |spine|;
    if k == 0 {
      assert stack + spine == stack && out + Reverse(spine) == out;
    } else {
      assert spine[k - 1] in spine;
      assert (stack + spine)[..|stack + spine| - 1] == stack + spine[..k - 1];
      PopSpine(stack, spine[..k - 1], out + [spine[k - 1]], p);
      assert out + Reverse(spine) == out + [spine[k - 1]] + Reverse(spine[..k - 1]);
    }
  }

  /** A closing parenthesis writes the operators waiting above its opening one. */
  lemma {:induction false} PopToOpen(stack: seq<Token>, spine: seq<Token>, out: seq<Token>)
    requires forall t | t in spine :: t.Op?
    ensures PopGroup(Machine(stack + [OPEN] + spine, out, 0)) == Machine(stack + [OPEN], out + Reverse(spine), 0)
    decreases |spine|
  {
    var k := |spine|;
    var all := stack + [OPEN] + spine;
    if k == 0 {
      assert all == stack + [OPEN] && out + Reverse(spine) == out;
    } else {
      assert spine[k - 1] in spine;
      assert all[|all| - 1] == spine[k - 1] && all[..|all| - 1] == stack + [OPEN] + spine[..k - 1];
      PopToOpen(stack, spine[..k - 1], out + [spine[k - 1]]);
      assert out + Reverse(spine) == out + [spine[k - 1]] + Reverse(spine[..k - 1]);
    }
  }

  lemma ReadOne(t: Token, rest: seq<Token>, m: Machine)
    ensures RpnFrom([t] + rest, m) == RpnFrom(rest, Step(m, t))
  {
    assert ([t] + rest)[1..] == rest;
  }

  /** Reading all of `e` is one big step of the machine. */
  lemma {:induction false} Process(e: Expr, stack: seq<Token>, out: seq<Token>, rest: seq<Token>)
    requires e.Wf() && Admits(stack, e)
    ensures RpnFrom(e.Tokens() + rest, Machine(stack, out, 0))
         == RpnFrom(rest, Machine(stack + Waiting(e), out + Written(e), 0))
    decreases e, 2
  {
    match e
    case Lit(text) => ReadOne(Real(text), rest, Machine(stack, out, 0)); assert stack + Waiting(e) == stack;
    case Var(name) => ReadOne(Id(name), rest, Machine(stack, out, 0)); assert stack + Waiting(e) == stack;
    case Bin(op, l, r) => ProcessBin(e, stack, out, rest);
    case Paren(e1) => ProcessGroup(e1, stack, out, rest); assert stack + Waiting(e) == stack;
    case Unary(f, arg) => ProcessCall(e, stack, out, rest); assert stack + Waiting(e) == stack;
  }

  /** An operator pops exactly what its left operand has left waiting. */
  lemma ReadOperator(op: Token, stack: seq<Token>, spine: seq<Token>, out: seq<Token>,
                     post: seq<Token>, done: seq<Token>)
    requires op.Op? && forall t | t in spine :: t.Op? && t.Prec() >= op.Prec()
    requires stack != [] && stack[|stack| - 1].Op? ==> stack[|stack| - 1].Prec() < op.Prec()
    requires done + Reverse(spine) == post
    ensures Step(Machine(stack + spine, out + done, 0), op) == Machine(stack + [op], out + post, 0)
  {
    PopSpine(stack, spine, out + done, op.Prec());
    assert out + done + Reverse(spine) == out + (done + Reverse(spine));
  }

  /** Reading an operator once its left operand has been read. */
  lemma {:induction false} OperatorRead(e: Expr, stack: seq<Token>, out: seq<Token>, tail: seq<Token>)
    requires e.Bin? && e.Wf() && Admits(stack, e)
    ensures RpnFrom([Op(e.op)] + tail, Machine(stack + Waiting(e.l), out + Written(e.l), 0))
         == RpnFrom(tail, Machine(stack + [Op(e.op)], out + e.l.Postfix(), 0))
  {
    hide RpnFrom, IsReal, Reverse, Step, Level, IsName, Waiting, Written;
    LevelIsPrecedence(e.op);
    ReadOne(Op(e.op), tail, Machine(stack + Waiting(e.l), out + Written(e.l), 0));
    WaitingOps(e.l);
    ReadOperator(Op(e.op), stack, Waiting(e.l), out, e.l.Postfix(), Written(e.l));
  }

  lemma {:induction false} ProcessBin(e: Expr, stack: seq<Token>, out: seq<Token>, rest: seq<Token>)
    requires e.Bin? && e.Wf() && Admits(stack, e)
    ensures RpnFrom(e.Tokens() + rest, Machine(stack, out, 0))
         == RpnFrom(rest, Machine(stack + Waiting(e), out + Written(e), 0))
    decreases e, 1
  {
    hide RpnFrom, IsReal, Level, IsName;
    LevelIsPrecedence(e.op);
    var op, l, r := Op(e.op), e.l, e.r;
    var tail := r.Tokens() + rest;
    assert e.Tokens() + rest == l.Tokens() + ([op] + tail);
    Process(l, stack, out, [op] + tail);
    OperatorRead(e, stack, out, tail);
    Process(r, stack + [op], out + l.Postfix(), rest);
    assert stack + [op] + Waiting(r) == stack + Waiting(e);
    assert out + l.Postfix() + Written(r) == out + Written(e);
  }

  /** A parenthesised expression has written its postfix form when its closing parenthesis is read. */
  lemma {:induction false} ProcessInner(e: Expr, stack: seq<Token>, out: seq<Token>, rest: seq<Token>)
    requires e.Wf()
    ensures RpnFrom([OPEN] + e.Tokens() + [CLOSE] + rest, Machine(stack, out, 0))
         == RpnFrom(rest, CloseStep(Machine(stack + [OPEN], out + e.Postfix(), 0)))
    decreases e, 3
  {
    hide RpnFrom, CloseStep, Reverse, Waiting, Written, IsReal;
    var tail := [CLOSE] + rest;
    var m := Machine(stack + [OPEN] + Waiting(e), out + Written(e), 0);
    assert [OPEN] + e.Tokens() + [CLOSE] + rest == [OPEN] + (e.Tokens() + tail);
    ReadOne(OPEN, e.Tokens() + tail, Machine(stack, out, 0));
    Process(e, stack + [OPEN], out, tail);
    ReadOne(CLOSE, rest, m);
    WaitingOps(e);
    ReadClose(stack, Waiting(e), out, e.Postfix(), Written(e));
  }

  lemma ReadClose(stack: seq<Token>, spine: seq<Token>, out: seq<Token>, post: seq<Token>, done: seq<Token>)
    requires forall t | t in spine :: t.Op?
    requires done + Reverse(spine) == post
    ensures CloseStep(Machine(stack + [OPEN] + spine, out + done, 0))
         == CloseStep(Machine(stack + [OPEN], out + post, 0))
  {
    hide PopGroup, CallToken;
    PopToOpen(stack, spine, out + done);
    PopToOpen(stack, [], out + post);
    assert stack + [OPEN] + [] == stack + [OPEN] && out + post + Reverse([]) == out + post;
    assert out + done + Reverse(spine) == out + (done + Reverse(spine));
  }

  lemma CloseGroup(stack: seq<Token>, out: seq<Token>)
    requires stack == [] || !stack[|stack| - 1].Function?
    ensures CloseStep(Machine(stack + [OPEN], out, 0)) == Machine(stack, out, 0)
  {
    hide CallToken;
    assert (stack + [OPEN])[..|stack|] == stack;
  }

  lemma CloseCall(stack: seq<Token>, f: string, out: seq<Token>)
    ensures CloseStep(Machine(stack + [Function(f)] + [OPEN], out, 0)) == Machine(stack, out + [CallToken(f, 1)], 0)
  {
    hide CallToken;
    var called := stack + [Function(f)];
    assert (called + [OPEN])[..|called|] == called && called[..|stack|] == stack;
  }

  lemma {:induction false} ProcessGroup(e: Expr, stack: seq<Token>, out: seq<Token>, rest: seq<Token>)
    requires e.Wf() && (stack == [] || !stack[|stack| - 1].Function?)
    ensures RpnFrom(Paren(e).Tokens() + rest, Machine(stack, out, 0))
         == RpnFrom(rest, Machine(stack, out + e.Postfix(), 0))
    decreases e, 4
  {
    hide RpnFrom, CloseStep, IsReal;
    ProcessInner(e, stack, out, rest);
    CloseGroup(stack, out + e.Postfix());
  }

  lemma {:induction false} ProcessCall(e: Expr, stack: seq<Token>, out: seq<Token>, rest: seq<Token>)
    requires e.Unary? && e.Wf()
    ensures RpnFrom(e.Tokens() + rest, Machine(stack, out, 0))
         == RpnFrom(rest, Machine(stack, out + e.Postfix(), 0))
    decreases e, 1
  {
    hide RpnFrom, CloseStep, CallToken, IsReal;
    var f := Function(e.f);
    var tail := [OPEN] + e.arg.Tokens() + [CLOSE] + rest;
    assert e.Tokens() + rest == [f] + tail;
    ReadOne(f, tail, Machine(stack, out, 0));
    ProcessInner(e.arg, stack + [f], out, rest);
    CloseCall(stack, e.f, out + e.arg.Postfix());
    assert out + e.arg.Postfix() + [CallToken(e.f, 1)] == out + e.Postfix();
  }

  /** The translation of every expression is its postfix form. */
  lemma RpnIsPostfix(e: Expr)
    requires e.Wf()
    ensures Rpn(e.Tokens()) == e.Postfix()
  {
    Process(e, [], [], []);
    WaitingOps(e);
    assert e.Tokens() + [] == e.Tokens();
    assert [] + Waiting(e) == Waiting(e) && [] + Written(e) == Written(e);
  }

  /* ---- evaluating a postfix form gives the meaning of the tree ---- */

  /** The token the evaluator leaves for a tree of value `v`. */
  function ResultToken(e: Expr, v: int): Token {
    match e.Core()
    case Lit(text) => Real(text)
    case Var(name) => Id(name)
    case _ => Real(IntText(v))
  }

  lemma {:induction false} CoreMeaning(e: Expr, env: Env)
    ensures e.Core().Meaning(env) == e.Meaning(env)
  {
    if e.Paren? { CoreMeaning(e.e, env); }
  }

  lemma ResultTokenFits(e: Expr, v: int, env: Env)
    requires e.Before(env) == Value(v)
    ensures Fetch(ResultToken(e, v), env) == e.Meaning(env)
    ensures CountOf(ResultToken(e, v), env) == if e.Core().Var? then env.count(e.Core().name) else 0
  {
    CoreMeaning(e, env);
    IntRoundTrip(v);
  }

  lemma {:induction false} CallNamePrefix(f: string, rest: string)
    requires '@' !in f
    ensures CallName(f + "@" + rest) == f
  {
    var text := f + "@" + rest;
    if f != "" {
      assert text[0] == f[0] && text[1..] == f[1..] + "@" + rest;
      CallNamePrefix(f[1..], rest);
    }
  }

  lemma AtNotReal(s: string)
    requires '@' in s
    ensures !IsReal(s)
  {
    if IsDecimal(s) { DecimalChars(s); }
    var t := Unsigned(s);
    assert s == t || s == [s[0]] + t;
    var i :| 0 <= i < |t| && t[i] == '@';
    assert Lower(t)[i] == '@';
    assert '@' !in "inf" && '@' !in "infinity" && '@' !in "nan";
  }

  lemma AtNotOperator(s: string)
    requires '@' in s
    ensures !IsOperator(s)
  {
    assert '@' !in "&&" && '@' !in "||" && '@' !in "&" && '@' !in "|";
    assert '@' !in "<=" && '@' !in ">=" && '@' !in "==" && '@' !in "!=";
  }

  lemma AtNotFunction(s: string)
    requires '@' in s
    ensures !IsFunction(s)
  {
    assert '@' !in "count" && '@' !in "not" && '@' !in "max" && '@' !in "min" && '@' !in "avg";
  }

  lemma CallTokenKind(name: string, args: nat)
    ensures CallToken(name, args).Call?
    ensures '@' !in name ==> CallName(CallToken(name, args).text) == name
  {
    var text := name + "@" + NatText(args);
    assert text[|name|] == '@';
    AtNotReal(text);
    AtNotOperator(text);
    AtNotFunction(text);
    if '@' !in name { CallNamePrefix(name, NatText(args)); }
  }

  lemma CreateInt(v: int)
    ensures Create(IntText(v)) == Real(IntText(v))
  {
    IntRoundTrip(v);
    IntIsDecimal(IntText(v));
  }

  /** What remains to be evaluated once `t` has been. */
  function Resume(step: Outcome<seq<Token>>, rest: seq<Token>, env: Env): Outcome<int> {
    var stack :- step;
    EvalFrom(rest, stack, env)
  }

  lemma EvalOne(t: Token, rest: seq<Token>, stack: seq<Token>, env: Env)
    ensures EvalFrom([t] + rest, stack, env) == Resume(EvalStep(stack, t, env), rest, env)
  {
    assert ([t] + rest)[1..] == rest;
  }

  /** Where the evaluator stands after the postfix form of a tree. */
  function After(e: Expr, stack: seq<Token>, rest: seq<Token>, env: Env): Outcome<int> {
    var v :- e.Before(env);
    EvalFrom(rest, stack + [ResultToken(e, v)], env)
  }

  lemma {:induction false} EvalPostfix(e: Expr, stack: seq<Token>, rest: seq<Token>, env: Env)
    requires e.Wf()
    ensures EvalFrom(e.Postfix() + rest, stack, env) == After(e, stack, rest, env)
    decreases e, 1
  {
    hide Create, EvalFrom, CallToken;
    match e
    case Lit(text) =>
      EvalOne(Real(text), rest, stack, env);
      assert e.Before(env) == e.Meaning(env) && e.Meaning(env).Value?;
    case Var(name) => EvalOne(Id(name), rest, stack, env);
    case Paren(e1) => EvalPostfix(e1, stack, rest, env); assert e.Before(env) == e1.Before(env);
    case Bin(op, l, r) => EvalBin(e, stack, rest, env);
    case Unary(f, arg) => EvalUnary(e, stack, rest, env);
  }

  /** The stack with the value of a computed tree on it. */
  function Pushed(stack: seq<Token>, value: Outcome<int>): Outcome<seq<Token>> {
    var x :- value;
    Value(stack + [Real(IntText(x))])
  }

  lemma {:induction false} CallStep(e: Expr, stack: seq<Token>, env: Env)
    requires e.Unary? && e.Wf() && e.arg.Before(env).Value?
    ensures EvalStep(stack + [ResultToken(e.arg, e.arg.Before(env).value)], CallToken(e.f, 1), env)
         == Pushed(stack, e.Meaning(env))
  {
    hide Create, CallToken, IsReal, Fetch, CountOf;
    var v := e.arg.Before(env).value;
    CallTokenKind(e.f, 1);
    ResultTokenFits(e.arg, v, env);
    assert (stack + [ResultToken(e.arg, v)])[..|stack|] == stack;
    if e.Meaning(env).Value? { CreateInt(e.Meaning(env).value); }
  }

  lemma {:induction false} EvalUnary(e: Expr, stack: seq<Token>, rest: seq<Token>, env: Env)
    requires e.Unary? && e.Wf()
    ensures EvalFrom(e.Postfix() + rest, stack, env) == After(e, stack, rest, env)
    decreases e, 0
  {
    hide EvalFrom, EvalStep, CallToken, IsReal, Negate;
    var call, arg := CallToken(e.f, 1), e.arg;
    assert e.Postfix() + rest == arg.Postfix() + ([call] + rest);
    EvalPostfix(arg, stack, [call] + rest, env);
    assert e.Before(env) == e.Meaning(env);
    if arg.Before(env).Value? {
      EvalOne(call, rest, stack + [ResultToken(arg, arg.Before(env).value)], env);
      CallStep(e, stack, env);
    }
  }

  lemma {:induction false} OperatorStep(e: Expr, stack: seq<Token>, env: Env)
    requires e.Bin? && e.Wf() && e.l.Before(env).Value? && e.r.Before(env).Value?
    ensures var operands := [ResultToken(e.l, e.l.Before(env).value), ResultToken(e.r, e.r.Before(env).value)];
            EvalStep(stack + operands, Op(e.op), env) == Pushed(stack, e.Meaning(env))
  {
    hide Create, IsReal, Fetch, Apply, Combined, Level, ResultToken;
    var x, y := e.l.Before(env).value, e.r.Before(env).value;
    var stack2 := stack + [ResultToken(e.l, x), ResultToken(e.r, y)];
    ResultTokenFits(e.l, x, env);
    ResultTokenFits(e.r, y, env);
    ApplyIsCombined(e.op, e.l.Meaning(env), e.r.Meaning(env));
    assert stack2[..|stack|] == stack;
    if e.Meaning(env).Value? { CreateInt(e.Meaning(env).value); }
  }

  lemma {:induction false} EvalBin(e: Expr, stack: seq<Token>, rest: seq<Token>, env: Env)
    requires e.Bin? && e.Wf()
    ensures EvalFrom(e.Postfix() + rest, stack, env) == After(e, stack, rest, env)
    decreases e, 0
  {
    hide EvalFrom, EvalStep, Combined, IsReal, Level;
    var op, l, r := Op(e.op), e.l, e.r;
    assert e.Postfix() + rest == l.Postfix() + (r.Postfix() + ([op] + rest));
    EvalPostfix(l, stack, r.Postfix() + ([op] + rest), env);
    assert e.Before(env) == e.Meaning(env);
    if l.Before(env).Value? {
      var first := ResultToken(l, l.Before(env).value);
      EvalPostfix(r, stack + [first], [op] + rest, env);
      if r.Before(env).Value? {
        var second := ResultToken(r, r.Before(env).value);
        assert stack + [first] + [second] == stack + [first, second];
        EvalOne(op, rest, stack + [first, second], env);
        OperatorStep(e, stack, env);
      }
    }
  }

  lemma CombinedKinds(op: string, l: Outcome<int>, r: Outcome<int>)
    requires Level(op) != 0 && !l.Underflow? && !l.Unset? && !r.Underflow? && !r.Unset?
    ensures !Combined(op, l, r).Underflow? && !Combined(op, l, r).Unset?
  {
  }

  /** Evaluation of an expression can only end in a value, a division by zero or a failed look-up. */
  lemma {:induction false} MeaningKinds(e: Expr, env: Env)
    requires e.Wf()
    ensures !e.Meaning(env).Underflow? && !e.Meaning(env).Unset?
  {
    hide IsReal, Combined;
    match e
    case Lit(_) =>
    case Var(_) =>
    case Bin(op, l, r) =>
      MeaningKinds(l, env);
      MeaningKinds(r, env);
      CombinedKinds(op, l.Meaning(env), r.Meaning(env));
    case Unary(_, arg) => MeaningKinds(arg, env);
    case Paren(e1) => MeaningKinds(e1, env);
  }

  /**
   Compiler correctness: translating and evaluating an expression gives its meaning, failures
   included. The evaluator pops an empty stack for no expression of the grammar.
   */
  lemma CompilerCorrect(e: Expr, env: Env)
    requires e.Wf()
    ensures Evaluate(e.Tokens(), env) == e.Meaning(env)
    ensures !Evaluate(e.Tokens(), env).Underflow? && !Evaluate(e.Tokens(), env).Unset?
  {
    RpnIsPostfix(e);
    EvalPostfix(e, [], [], env);
    assert e.Postfix() + [] == e.Postfix();
    if e.Before(env).Value? { ResultTokenFits(e, e.Before(env).value, env); }
    MeaningKinds(e, env);
  }

  /** Division rounds toward zero: the remainder is smaller than the divisor and has the sign of the dividend. */
  lemma QuotientTruncates(l: int, r: int)
    requires r != 0
    ensures var m := l - Quotient(l, r) * r;
            && (if r > 0 then -r < m < r else r < m < -r)
            && (l >= 0 ==> m >= 0) && (l <= 0 ==> m <= 0)
    ensures Compute("/", l, r) == Value(Quotient(l, r))
  {
    var a, b := if l >= 0 then l else -l, if r > 0 then r else -r;
    Remainder(a, b);
    Negations(a / b, b);
  }

  lemma Remainder(a: nat, b: nat)
    requires b > 0
    ensures 0 <= a - (a / b) * b < b
  {
  }

  lemma Negations(x: int, y: int)
    ensures (-x) * y == -(x * y) && x * (-y) == -(x * y) && (-x) * (-y) == x * y
  {
  }

  /**
   Junctions, in either spelling, are the connectives on "not zero" and answer 0 or 1; a left
   operand that decides makes a name on the right never be looked up.
   */
  lemma JunctionTruth(op: string, l: Expr, name: string, env: Env)
    requires op in {"&", "&&", "|", "||"} && l.Meaning(env).Value?
    ensures var x, v := l.Meaning(env).value, Bin(op, l, Var(name)).Meaning(env);
            && ((op[0] == '&') == (x == 0) ==> v == Value(Truth(x != 0)))
            && ((op[0] == '&') != (x == 0) ==>
                  match env.parse(name)
                  case Found(y) => v == Value(Truth(y != 0))
                  case Absent => v == OutOfRange
                  case Refused => v == Thrown)
  {
    assert l.Before(env).Value?;
  }

  /* ---- conservation, for every token list ---- */

  function Operands(ts: seq<Token>): seq<Token> {
    if ts == [] then [] else (if ts[0].Operand() then [ts[0]] else []) + Operands(ts[1..])
  }

  function Operators(ts: seq<Token>): multiset<Token> {
    if ts == [] then multiset{} else (if ts[0].Op? then multiset{ts[0]} else multiset{}) + Operators(ts[1..])
  }

  lemma {:induction false} OperandsConcat(a: seq<Token>, b: seq<Token>)
    ensures Operands(a + b) == Operands(a) + Operands(b)
  {
    if a == [] {
      assert a + b == b;
    } else {
      var own := if a[0].Operand() then [a[0]] else [];
      assert (a + b)[1..] == a[1..] + b;
      OperandsConcat(a[1..], b);
      assert own + (Operands(a[1..]) + Operands(b)) == own + Operands(a[1..]) + Operands(b);
    }
  }

  lemma {:induction false} OperatorsConcat(a: seq<Token>, b: seq<Token>)
    ensures Operators(a + b) == Operators(a) + Operators(b)
  {
    if a == [] {
      assert a + b == b;
    } else {
      assert (a + b)[1..] == a[1..] + b;
      OperatorsConcat(a[1..], b);
    }
  }

  lemma CountsConcat(a: seq<Token>, b: seq<Token>)
    ensures Operands(a + b) == Operands(a) + Operands(b)
    ensures Operators(a + b) == Operators(a) + Operators(b)
  {
    OperandsConcat(a, b);
    OperatorsConcat(a, b);
  }

  lemma CountsOne(a: seq<Token>, t: Token)
    ensures Operands(a + [t]) == Operands(a) + if t.Operand() then [t] else []
    ensures Operators(a + [t]) == Operators(a) + if t.Op? then multiset{t} else multiset{}
  {
    CountsConcat(a, [t]);
    assert [t][1..] == [];
  }

  /** The stack never holds an operand. */
  ghost predicate Clean(m: Machine) {
    forall t | t in m.stack :: !t.Operand()
  }

  ghost function OperatorsOf(m: Machine): multiset<Token> {
    Operators(m.output) + Operators(m.stack)
  }

  lemma PopOne(m: Machine, m': Machine)
    requires Clean(m) && m.stack != []
    requires m' == Machine(m.stack[..|m.stack| - 1], m.output + [m.stack[|m.stack| - 1]], m.fargc)
    ensures Clean(m') && Operands(m'.output) == Operands(m.output) && OperatorsOf(m') == OperatorsOf(m)
  {
    var n := |m.stack|;
    assert m.stack == m.stack[..n - 1] + [m.stack[n - 1]] && m.stack[n - 1] in m.stack;
    CountsOne(m.output, m.stack[n - 1]);
    CountsOne(m.stack[..n - 1], m.stack[n - 1]);
  }

  lemma {:induction false} PopGroupConserves(m: Machine)
    requires Clean(m)
    ensures Clean(PopGroup(m)) && Operands(PopGroup(m).output) == Operands(m.output)
    ensures OperatorsOf(PopGroup(m)) == OperatorsOf(m)
    decreases |m.stack|
  {
    var n := |m.stack|;
    if n != 0 && !m.stack[n - 1].Open? {
      var m' := Machine(m.stack[..n - 1], m.output + [m.stack[n - 1]], m.fargc);
      PopOne(m, m');
      PopGroupConserves(m');
    }
  }

  lemma {:induction false} PopOperatorsConserves(m: Machine, p: nat)
    requires Clean(m)
    ensures Clean(PopOperators(m, p)) && Operands(PopOperators(m, p).output) == Operands(m.output)
    ensures OperatorsOf(PopOperators(m, p)) == OperatorsOf(m)
    decreases |m.stack|
  {
    var n := |m.stack|;
    if n != 0 && m.stack[n - 1].Op? && m.stack[n - 1].Prec() >= p {
      var m' := Machine(m.stack[..n - 1], m.output + [m.stack[n - 1]], m.fargc);
      PopOne(m, m');
      PopOperatorsConserves(m', p);
    }
  }

  lemma DropTop(stack: seq<Token>)
    requires stack != [] && !stack[|stack| - 1].Op?
    ensures Operators(stack[..|stack| - 1]) == Operators(stack)
  {
    assert stack == stack[..|stack| - 1] + [stack[|stack| - 1]];
    CountsOne(stack[..|stack| - 1], stack[|stack| - 1]);
  }

  lemma CloseConserves(m: Machine)
    requires Clean(m)
    ensures Clean(CloseStep(m)) && Operands(CloseStep(m).output) == Operands(m.output)
    ensures OperatorsOf(CloseStep(m)) == OperatorsOf(m)
  {
    hide PopGroup, CallToken, Operands, Operators;
    var m1 := PopGroup(m);
    PopGroupConserves(m);
    var n := |m1.stack|;
    if n != 0 {
      DropTop(m1.stack);
      CallConserves(m1, m1.stack[..n - 1]);
    }
  }

  /** The call that may follow a closing parenthesis replaces a function by a call. */
  lemma CallConserves(m: Machine, stack: seq<Token>)
    requires Clean(Machine(stack, m.output, m.fargc))
    ensures stack != [] && stack[|stack| - 1].Function? ==>
              var t := CallToken(stack[|stack| - 1].text, m.fargc + 1);
              && Operands(m.output + [t]) == Operands(m.output) && Operators(m.output + [t]) == Operators(m.output)
              && Operators(stack[..|stack| - 1]) == Operators(stack)
  {
    if stack != [] && stack[|stack| - 1].Function? {
      DropTop(stack);
      CallTokenKind(stack[|stack| - 1].text, m.fargc + 1);
      CountsOne(m.output, CallToken(stack[|stack| - 1].text, m.fargc + 1));
    }
  }

  lemma StepConserves(m: Machine, t: Token)
    requires Clean(m)
    ensures var m' := Step(m, t);
            && Clean(m')
            && Operands(m'.output) == Operands(m.output) + (if t.Operand() then [t] else [])
            && OperatorsOf(m') == OperatorsOf(m) + if t.Op? then multiset{t} else multiset{}
  {
    hide PopOperators, CloseStep, Operands, Operators;
    CountsOne(m.output, t);
    CountsOne(m.stack, t);
    match t {
      case Op(_) =>
        PopOperatorsConserves(m, t.Prec());
        CountsOne(PopOperators(m, t.Prec()).stack, t);
      case Close(_) => CloseConserves(m);
      case _ =>
    }
  }

  lemma {:induction false} ReverseCounts(s: seq<Token>)
    requires forall t | t in s :: !t.Operand()
    ensures Operands(Reverse(s)) == [] && Operators(Reverse(s)) == Operators(s)
  {
    if s != [] {
      var n := |s|;
      var last, front := s[n - 1], s[..n - 1];
      assert s == front + [last] && last in s && Reverse(s) == [last] + Reverse(front);
      hide Reverse, Operands, Operators;
      ReverseCounts(front);
      CountsConcat([last], Reverse(front));
      CountsLone(last);
      CountsOne(front, last);
    }
  }

  lemma CountsLone(t: Token)
    ensures Operands([t]) == if t.Operand() then [t] else []
    ensures Operators([t]) == if t.Op? then multiset{t} else multiset{}
  {
    assert [t][1..] == [];
  }

  lemma RpnEnds(m: Machine)
    requires Clean(m)
    ensures Operands(RpnFrom([], m)) == Operands(m.output) && Operators(RpnFrom([], m)) == OperatorsOf(m)
  {
    ReverseCounts(m.stack);
    CountsConcat(m.output, Reverse(m.stack));
  }

  lemma {:induction false} RpnConservesFrom(ts: seq<Token>, m: Machine)
    requires Clean(m)
    ensures Operands(RpnFrom(ts, m)) == Operands(m.output) + Operands(ts)
    ensures Operators(RpnFrom(ts, m)) == OperatorsOf(m) + Operators(ts)
    decreases |ts|
  {
    if ts == [] {
      RpnEnds(m);
    } else {
      var t, rest := ts[0], ts[1..];
      var m' := Step(m, t);
      var own := if t.Operand() then [t] else [];
      StepConserves(m, t);
      RpnConservesFrom(rest, m');
      assert RpnFrom(ts, m) == RpnFrom(rest, m');
      assert Operands(m.output) + own + Operands(rest) == Operands(m.output) + (own + Operands(rest));
    }
  }

  /**
   Conservation: for every token list, with or without balanced parentheses, the translation
   writes the operands in input order and every operator as often as it was read.
   */
  lemma RpnConserves(ts: seq<Token>)
    ensures Operands(Rpn(ts)) == Operands(ts) && Operators(Rpn(ts)) == Operators(ts)
  {
    RpnConservesFrom(ts, EMPTY);
  }
}
