/**
 The expression compiler of includes/udho/parser.h: tokens, the translation to reverse
 Polish notation (expression::rpn) and the stack evaluator (expression::evaluate<int>).
 */
module Expressions {
  import opened Options
  import opened Numerals

  /* ---- tokens ---- */

  datatype Token =
    | Real(text: string)
    | Id(text: string)
    | Function(text: string)
    | Call(text: string)
    | Op(text: string)
    | Comma(text: string)
    | Open(text: string)
    | Close(text: string)
  {
    predicate Operand() { Real? || Id? }
    function Prec(): nat { if Op? then Precedence(text) else 0 }
  }

  const OPEN := Open("(")
  const CLOSE := Close(")")

  function Precedence(op: string): nat {
    if op in {"&&", "||", "&", "|"} then 1
    else if op in {"<=", ">=", "<", ">", "==", "=", "!="} then 2
    else if op in {"+", "-"} then 3
    else if op in {"*", "/"} then 4
    else 0
  }

  predicate IsOperator(s: string) {
    Precedence(s) != 0
  }

  predicate IsFunction(s: string) {
    s in {"count", "not", "max", "min", "avg"}
  }

  function Lower(s: string): (r: string) {
    seq(|s|, i requires 0 <= i < |s| => if 'A' <= s[i] <= 'Z' then (s[i] as int + 32) as char else s[i])
  }

  /** The words lexical_cast<double> accepts although they look like names. */
  predicate IsSpecialReal(s: string) {
    Lower(Unsigned(s)) in {"inf", "infinity", "nan"}
  }

  predicate IsReal(s: string) {
    IsDecimal(s) || IsSpecialReal(s)
  }

  /** token::create. */
  function Create(buff: string): Token {
    if IsReal(buff) then Real(buff)
    else if buff == "," then Comma(buff)
    else if buff == "(" then Open(buff)
    else if buff == ")" then Close(buff)
    else if IsOperator(buff) then Op(buff)
    else if IsFunction(buff) then Function(buff)
    else if '@' in buff then Call(buff)
    else Id(buff)
  }

  /* ---- expression::rpn ---- */

  function Reverse<T>(s: seq<T>): (r: seq<T>)
    ensures |r| == |s|
  {
    if s == [] then [] else [s[|s| - 1]] + Reverse(s[..|s| - 1])
  }

  /** The top of the stack is its last element. */
  datatype Machine = Machine(stack: seq<Token>, output: seq<Token>, fargc: nat)

  /** The pops of a closing parenthesis: everything above the nearest open one. */
  function PopGroup(m: Machine): (r: Machine)
    ensures |r.stack| <= |m.stack| && r.fargc == m.fargc
    ensures r.stack != [] ==> r.stack[|r.stack| - 1].Open?
    decreases |m.stack|
  {
    var n := |m.stack|;
    if n == 0 || m.stack[n - 1].Open? then m
    else PopGroup(Machine(m.stack[..n - 1], m.output + [m.stack[n - 1]], m.fargc))
  }

  /** The pops of an operator of precedence `p`. */
  function PopOperators(m: Machine, p: nat): (r: Machine)
    ensures |r.stack| <= |m.stack| && r.fargc == m.fargc
    decreases |m.stack|
  {
    var n := |m.stack|;
    if n == 0 || !m.stack[n - 1].Op? || m.stack[n - 1].Prec() < p then m
    else PopOperators(Machine(m.stack[..n - 1], m.output + [m.stack[n - 1]], m.fargc), p)
  }

  function CallToken(name: string, args: nat): Token {
    Create(name + "@" + NatText(args))
  }

  function CloseStep(m: Machine): Machine {
    var m1 := PopGroup(m);
    var n := |m1.stack|;
    var stack := if n == 0 then [] else m1.stack[..n - 1];
    var k := |stack|;
    if k != 0 && stack[k - 1].Function? then
      Machine(stack[..k - 1], m1.output + [CallToken(stack[k - 1].text, m1.fargc + 1)], 0)
    else m1.(stack := stack)
  }

  function Step(m: Machine, t: Token): Machine {
    match t
    case Real(_) => m.(output := m.output + [t])
    case Id(_) => m.(output := m.output + [t])
    case Function(_) => m.(stack := m.stack + [t])
    case Comma(_) => m.(fargc := m.fargc + 1)
    case Open(_) => m.(stack := m.stack + [t])
    case Close(_) => CloseStep(m)
    case Op(_) =>
      var m1 := PopOperators(m, t.Prec());
      m1.(stack := m1.stack + [t])
    case Call(_) => m
  }

  function RpnFrom(ts: seq<Token>, m: Machine): seq<Token>
    decreases |ts|
  {
    if ts == [] then m.output + Reverse(m.stack) else RpnFrom(ts[1..], Step(m, ts[0]))
  }

  const EMPTY := Machine([], [], 0)

  function Rpn(ts: seq<Token>): seq<Token> {
    RpnFrom(ts, EMPTY)
  }

  lemma ReadToken(ts: seq<Token>, i: nat, m: Machine)
    requires i < |ts|
    ensures RpnFrom(ts[i..], m) == RpnFrom(ts[i + 1..], Step(m, ts[i]))
  {
    assert ts[i..][1..] == ts[i + 1..];
  }

  lemma Unread(ts: seq<Token>, m: Machine)
    ensures RpnFrom(ts[0..], m) == RpnFrom(ts, m)
    ensures RpnFrom(ts[|ts|..], m) == m.output + Reverse(m.stack)
  {
    assert ts[0..] == ts;
  }

  lemma {:induction false} PopLast(output: seq<Token>, stack: seq<Token>)
    requires stack != []
    ensures output + Reverse(stack) == output + [stack[|stack| - 1]] + Reverse(stack[..|stack| - 1])
  {
    var last, below := [stack[|stack| - 1]], Reverse(stack[..|stack| - 1]);
    assert Reverse(stack) == last + below;
    hide Reverse;
    assert output + (last + below) == output + last + below;
  }

  /** The loops of expression::rpn, run on explicit stacks. */
  method RpnLoop(tokens: seq<Token>) returns (output: seq<Token>)
    ensures output == Rpn(tokens)
  {
    hide CallToken, Create, RpnFrom, Reverse;
    output := [];
    var stack: seq<Token> := [];
    var fargc := 0;
    Unread(tokens, EMPTY);
    for i := 0 to |tokens|
      invariant RpnFrom(tokens[i..], Machine(stack, output, fargc)) == Rpn(tokens)
    {
      var t := tokens[i];
      ghost var m := Machine(stack, output, fargc);
      ReadToken(tokens, i, m);
      if t.Real? || t.Id? {
        output := output + [t];
      } else if t.Function? || t.Open? {
        stack := stack + [t];
      } else if t.Comma? {
        fargc := fargc + 1;
      } else if t.Close? {
        while stack != [] && !stack[|stack| - 1].Open?
          invariant PopGroup(Machine(stack, output, fargc)) == PopGroup(m)
        {
          output, stack := output + [stack[|stack| - 1]], stack[..|stack| - 1];
        }
        if stack != [] { stack := stack[..|stack| - 1]; }
        if stack != [] && stack[|stack| - 1].Function? {
          output := output + [CallToken(stack[|stack| - 1].text, fargc + 1)];
          fargc := 0;
          stack := stack[..|stack| - 1];
        }
      } else if t.Op? {
        while stack != [] && stack[|stack| - 1].Op? && stack[|stack| - 1].Prec() >= t.Prec()
          invariant PopOperators(Machine(stack, output, fargc), t.Prec()) == PopOperators(m, t.Prec())
        {
          output, stack := output + [stack[|stack| - 1]], stack[..|stack| - 1];
        }
        stack := stack + [t];
      }
      assert Machine(stack, output, fargc) == Step(m, t);
    }
    Unread(tokens, Machine(stack, output, fargc));
    while stack != []
      invariant output + Reverse(stack) == Rpn(tokens)
    {
      PopLast(output, stack);
      output, stack := output + [stack[|stack| - 1]], stack[..|stack| - 1];
    }
    assert Reverse<Token>([]) == [];
  }

  /* ---- expression::evaluate<int> ---- */

  /**
   A value, or why there is none: an empty stack popped, a division by zero, a function that
   leaves its result unset, std::out_of_range, or any other exception.
   */
  datatype Outcome<+T> = Value(value: T) | Underflow | DivisionByZero | Unset | OutOfRange | Thrown {

    predicate IsFailure() {
      !Value?
    }

    function PropagateFailure<U>(): (r: Outcome<U>)
      requires IsFailure()
    {
      match this
      case Underflow => Underflow
      case DivisionByZero => DivisionByZero
      case Unset => Unset
      case OutOfRange => OutOfRange
      case Thrown => Thrown
    }

    function Extract(): T
      requires !IsFailure()
    {
      value
    }
  }

  /** What the scope table answers to a key. */
  datatype Answer = Found(value: int) | Absent | Refused

  /**
   The scope table as an expression reads it, values and sizes by key; and what a conversion to
   int leaves behind when a number is not an integer.
   */
  datatype Env = Env(parse: string -> Answer, count: string -> nat, partial: string -> int)

  function Number(text: string, env: Env): int {
    if IsInt(text) then IntValue(text) else env.partial(text)
  }

  function LookUp(name: string, env: Env): Outcome<int> {
    match env.parse(name)
    case Found(v) => Value(v)
    case Absent => OutOfRange
    case Refused => Thrown
  }

  function Fetch(t: Token, env: Env): Outcome<int> {
    match t
    case Real(text) => Value(Number(text, env))
    case Id(text) => LookUp(text, env)
    case _ => Value(0)
  }

  /** std::size_t count(token): only names have a size; the key is not resolved through aliases. */
  function CountOf(t: Token, env: Env): nat {
    if t.Id? then env.count(t.text) else 0
  }

  /** C++ integer division truncates toward zero. */
  function Quotient(l: int, r: int): int
    requires r != 0
  {
    if l >= 0 then (if r > 0 then l / r else -(l / -r))
    else (if r > 0 then -(-l / r) else -l / -r)
  }

  function Truth(b: bool): int { if b then 1 else 0 }

  /** An arithmetic or logical operator on two values. */
  function Compute(op: string, l: int, r: int): Outcome<int> {
    if op == "+" then Value(l + r)
    else if op == "-" then Value(l - r)
    else if op == "*" then Value(l * r)
    else if op == "/" then (if r == 0 then DivisionByZero else Value(Quotient(l, r)))
    else if op == "<" then Value(Truth(l < r))
    else if op == ">" then Value(Truth(l > r))
    else if op == "<=" then Value(Truth(l <= r))
    else if op == ">=" then Value(Truth(l >= r))
    else if op == "==" || op == "=" then Value(Truth(l == r))
    else if op == "!=" then Value(Truth(l != r))
    else Unset
  }

  /** A binary operator on fetched operands; the right one is fetched only where it matters. */
  function Apply(op: string, l: Outcome<int>, r: Outcome<int>): Outcome<int> {
    var x :- l;
    if op == "&" || op == "&&" then
      if x == 0 then Value(0)
      else
        var y :- r;
        Value(Truth(x != 0 && y != 0))
    else if op == "|" || op == "||" then
      if x != 0 then Value(1)
      else
        var y :- r;
        Value(Truth(x != 0 || y != 0))
    else
      var y :- r;
      Compute(op, x, y)
  }

  /** `not`, which takes a key that is out of range for a truth. */
  function Negate(x: Outcome<int>): Outcome<int> {
    match x
    case Value(v) => Value(Truth(v == 0))
    case OutOfRange => Value(0)
    case _ => x
  }

  /** A call on one popped token; functions other than count and not leave the result unset. */
  function Invoke(name: string, key: Token, env: Env): Outcome<int> {
    if name == "count" then Value(CountOf(key, env))
    else if name == "not" then Negate(Fetch(key, env))
    else Unset
  }

  /** The part of a call token in front of '@'. */
  function CallName(text: string): string {
    if text == "" || text[0] == '@' then "" else [text[0]] + CallName(text[1..])
  }

  /** One token of the evaluator. */
  function EvalStep(stack: seq<Token>, t: Token, env: Env): Outcome<seq<Token>> {
    var n := |stack|;
    if t.Op? then
      if n < 2 then Underflow
      else
        var v :- Apply(t.text, Fetch(stack[n - 2], env), Fetch(stack[n - 1], env));
        Value(stack[..n - 2] + [Create(IntText(v))])
    else if t.Call? then
      if n < 1 then Underflow
      else
        var v :- Invoke(CallName(t.text), stack[n - 1], env);
        Value(stack[..n - 1] + [Create(IntText(v))])
    else Value(stack + [t])
  }

  function EvalFrom(ts: seq<Token>, stack: seq<Token>, env: Env): Outcome<int>
    decreases |ts|
  {
    if ts == [] then (if stack == [] then Underflow else Fetch(stack[|stack| - 1], env))
    else
      var stack' :- EvalStep(stack, ts[0], env);
      EvalFrom(ts[1..], stack', env)
  }

  function Evaluate(infix: seq<Token>, env: Env): Outcome<int> {
    EvalFrom(Rpn(infix), [], env)
  }

  lemma EvaluateToken(ts: seq<Token>, i: nat, stack: seq<Token>, env: Env)
    requires i < |ts|
    ensures EvalFrom(ts[i..], stack, env) ==
      match EvalStep(stack, ts[i], env)
      case Value(stack') => EvalFrom(ts[i + 1..], stack', env)
      case Underflow => Underflow
      case DivisionByZero => DivisionByZero
      case Unset => Unset
      case OutOfRange => OutOfRange
      case Thrown => Thrown
  {
    assert ts[i..][1..] == ts[i + 1..];
  }

  /** The loop of expression::evaluate<int>. */
  method EvaluateLoop(infix: seq<Token>, env: Env) returns (r: Outcome<int>)
    ensures r == Evaluate(infix, env)
  {
    hide EvalFrom, Apply, Invoke, CallName, Create, Rpn;
    var tokens := RpnLoop(infix);
    var stack: seq<Token> := [];
    assert tokens[0..] == tokens;
    for i := 0 to |tokens|
      invariant EvalFrom(tokens[i..], stack, env) == Evaluate(infix, env)
    {
      var t := tokens[i];
      EvaluateToken(tokens, i, stack, env);
      if !t.Op? && !t.Call? {
        stack := stack + [t];
      } else if t.Op? {
        if |stack| < 2 { return Underflow; }
        var rhs, lhs := stack[|stack| - 1], stack[|stack| - 2];
        var result := Apply(t.text, Fetch(lhs, env), Fetch(rhs, env));
        if !result.Value? { return result; }
        stack := stack[..|stack| - 2] + [Create(IntText(result.value))];
      } else {
        if |stack| < 1 { return Underflow; }
        var result := Invoke(CallName(t.text), stack[|stack| - 1], env);
        if !result.Value? { return result; }
        stack := stack[..|stack| - 1] + [Create(IntText(result.value))];
      }
    }
    Evaluated(tokens, stack, env);
    r := if stack == [] then Underflow else Fetch(stack[|stack| - 1], env);
  }

  lemma Evaluated(ts: seq<Token>, stack: seq<Token>, env: Env)
    ensures EvalFrom(ts[|ts|..], stack, env) == if stack == [] then Underflow else Fetch(stack[|stack| - 1], env)
  {
  }
}
