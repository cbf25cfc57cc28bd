/**
 * Values of the configuration language and the postfix arithmetic of its
 * !( ... ) expressions (dz3/translator.py).  Values are what the Python
 * parser builds: int, str, bool, list and dict.
 */
module ConfigValues {
  import opened Results
  import opened PyText
  import opened Dicts

  /** A value: int, str, bool, list or dict (a table). */
  datatype Value =
    | Int(i: int)
    | Str(s: string)
    | Bool(b: bool)
    | List(items: seq<Value>)
    | Table(entries: seq<(string, Value)>)

  /** Token kinds the parser dispatches on. */
  datatype Kind =
    | NUMBER | STRING | NAME | ASSIGN | LBRACE | RBRACE | LBRACKET | RBRACKET
    | EQUAL | COMMA | TABLE | LPAREN | RPAREN | EXPR | TRUE | FALSE

  /** The SyntaxError, IndexError and TypeError the parser and the evaluator raise. */
  datatype ConfigError =
    | UnexpectedToken(kind: Kind)         // an item that does not start with a NAME
    | MissingAssign(name: string)         // a NAME not followed by :=
    | UnknownName(name: string)           // a NAME that no earlier item defined
    | UnknownTokenType(kind: Kind)        // a token that cannot start a value
    | ExpectedExpr(kind: Kind)
    | Expected(want: Kind, found: Kind)
    | ExpectedName(found: Kind)
    | OutOfTokens                         // IndexError: reading past the last token
    | BadOperand(word: string)            // a word that is no number, name or operator
    | StackUnderflow                      // IndexError: pop from an empty stack
    | BadExpression                       // the stack does not end with one value
    | TypeMismatch                        // TypeError from + - * on these operands
    | FloatResult(text: string)           // a float would result; floats are not modelled
    | ZeroDivision                        // ZeroDivisionError: a / b with b == 0

  // ---------------------------------------------------------------------
  // Python arithmetic on values
  // ---------------------------------------------------------------------

  /** The integer a value stands for in arithmetic: bool is a subclass of int. */
  function Numeric(v: Value): Option<int>
  {
    match v
    case Int(i) => Some(i)
    case Bool(b) => Some(if b then 1 else 0)
    case _ => None
  }

  /** s * n for a str or list s: n copies, none when n is not positive. */
  function Repeat<T>(s: seq<T>, n: int): (r: seq<T>)
    ensures n <= 0 ==> r == []
    decreases if n > 0 then n else 0
  {
    if n <= 0 then [] else s + Repeat(s, n - 1)
  }

  /** s * n holds n copies of s. */
  lemma {:induction false} RepeatLength<T>(s: seq<T>, n: nat)
    ensures |Repeat(s, n)| == |s| * n
  {
    if n > 0 {
      RepeatLength(s, n - 1);
      assert |s| * n == |s| + |s| * (n - 1);
    }
  }

  /** a + b: numbers add, strings and lists concatenate, anything else is a TypeError. */
  function Add(a: Value, b: Value): (r: Result<Value, ConfigError>)
  {
    if Numeric(a).Some? && Numeric(b).Some? then Ok(Int(Numeric(a).value + Numeric(b).value))
    else if a.Str? && b.Str? then Ok(Str(a.s + b.s))
    else if a.List? && b.List? then Ok(List(a.items + b.items))
    else Err(TypeMismatch)
  }

  /** a - b: defined on numbers only. */
  function Sub(a: Value, b: Value): (r: Result<Value, ConfigError>)
  {
    if Numeric(a).Some? && Numeric(b).Some? then Ok(Int(Numeric(a).value - Numeric(b).value))
    else Err(TypeMismatch)
  }

  /** a * b: numbers multiply, a str or list times a number repeats (either order). */
  function Mul(a: Value, b: Value): (r: Result<Value, ConfigError>)
  {
    if Numeric(a).Some? && Numeric(b).Some? then Ok(Int(Numeric(a).value * Numeric(b).value))
    else if a.Str? && Numeric(b).Some? then Ok(Str(Repeat(a.s, Numeric(b).value)))
    else if Numeric(a).Some? && b.Str? then Ok(Str(Repeat(b.s, Numeric(a).value)))
    else if a.List? && Numeric(b).Some? then Ok(List(Repeat(a.items, Numeric(b).value)))
    else if Numeric(a).Some? && b.List? then Ok(List(Repeat(b.items, Numeric(a).value)))
    else Err(TypeMismatch)
  }

  /**
   * a / b: on numbers, a zero divisor raises ZeroDivisionError and any other
   * divisor gives a float, which this model does not represent.
   */
  function Div(a: Value, b: Value): (r: Result<Value, ConfigError>)
  {
    if Numeric(a).Some? && Numeric(b).Some? then
      if Numeric(b).value == 0 then Err(ZeroDivision) else Err(FloatResult("/"))
    else Err(TypeMismatch)
  }

  /** Add, Sub and Mul agree with integer arithmetic on ints and keep lengths on strings and lists. */
  lemma ArithmeticOnInts(x: int, y: int, s: string, t: string)
    ensures Add(Int(x), Int(y)) == Ok(Int(x + y)) && Sub(Int(x), Int(y)) == Ok(Int(x - y))
    ensures Mul(Int(x), Int(y)) == Ok(Int(x * y))
    ensures Add(Bool(true), Bool(true)) == Ok(Int(2))
    ensures Add(Str(s), Str(t)).Ok? && |Add(Str(s), Str(t)).value.s| == |s| + |t|
    ensures Sub(Str(s), Str(t)) == Err(TypeMismatch) && Add(Str(s), Int(x)) == Err(TypeMismatch)
    ensures y > 0 ==> |Mul(Str(s), Int(y)).value.s| == |s| * y
    ensures Div(Int(x), Int(0)) == Err(ZeroDivision) && Div(Int(x), Bool(false)) == Err(ZeroDivision)
    ensures y != 0 ==> Div(Int(x), Int(y)) == Err(FloatResult("/"))
    ensures Div(Str(s), Int(y)) == Err(TypeMismatch)
  {
    if y > 0 {
      RepeatLength(s, y);
    }
  }

  // ---------------------------------------------------------------------
  // Postfix evaluation
  // ---------------------------------------------------------------------

  predicate IsOperator(w: string)
  {
    w == "+" || w == "-" || w == "*" || w == "/"
  }

  /** str.isdigit() on a word, for ASCII digits. */
  predicate IsDigitWord(w: string)
  {
    w != [] && forall i :: 0 <= i < |w| ==> IsDigit(w[i])
  }

  /** A word that pushes a value: digits, or a name defined earlier. */
  predicate IsOperand(w: string, ctx: map<string, Value>)
  {
    IsDigitWord(w) || w in ctx
  }

  /** The value a word pushes: digits win over a name of the same spelling. */
  function OperandValue(w: string, ctx: map<string, Value>): Value
    requires IsOperand(w, ctx)
  {
    if IsDigitWord(w) then Int(DigitsValue(w)) else ctx[w]
  }

  function Operate(op: string, a: Value, b: Value): Result<Value, ConfigError>
    requires IsOperator(op)
  {
    if op == "+" then Add(a, b)
    else if op == "-" then Sub(a, b)
    else if op == "*" then Mul(a, b)
    else Div(a, b)
  }

  /** The stack after the words, from the given stack, or the first error raised. */
  function EvalWords(words: seq<string>, ctx: map<string, Value>, stack: seq<Value>): Result<seq<Value>, ConfigError>
  {
    if words == [] then Ok(stack)
    else
      var w := words[0];
      if IsOperand(w, ctx) then EvalWords(words[1..], ctx, stack + [OperandValue(w, ctx)])
      else if IsOperator(w) then
        if |stack| < 2 then Err(StackUnderflow)
        else
          var v :- Operate(w, stack[|stack| - 2], stack[|stack| - 1]);
          EvalWords(words[1..], ctx, stack[..|stack| - 2] + [v])
      else Err(BadOperand(w))
  }

  /** evaluate_expression: the single value left on the stack. */
  function Evaluate(expr: string, ctx: map<string, Value>): Result<Value, ConfigError>
  {
    var stack :- EvalWords(SplitWords(expr), ctx, []);
    if |stack| != 1 then Err(BadExpression) else Ok(stack[0])
  }

  function Operands(words: seq<string>, ctx: map<string, Value>): nat
  {
    if words == [] then 0 else (if IsOperand(words[0], ctx) then 1 else 0) + Operands(words[1..], ctx)
  }

  /**
   * A successful evaluation reads only numbers, defined names and operators,
   * and every operator takes two values and leaves one: the stack grows by
   * the operands and shrinks by the operators.
   */
  lemma {:induction false} EvalWordsCount(words: seq<string>, ctx: map<string, Value>, stack: seq<Value>)
    requires EvalWords(words, ctx, stack).Ok?
    ensures forall i :: 0 <= i < |words| ==> IsOperand(words[i], ctx) || IsOperator(words[i])
    ensures |EvalWords(words, ctx, stack).value| == |stack| + 2 * Operands(words, ctx) - |words|
  {
    if words != [] {
      var w := words[0];
      if IsOperand(w, ctx) {
        EvalWordsCount(words[1..], ctx, stack + [OperandValue(w, ctx)]);
      } else {
        var v := Operate(w, stack[|stack| - 2], stack[|stack| - 1]).value;
        EvalWordsCount(words[1..], ctx, stack[..|stack| - 2] + [v]);
      }
      assert forall i :: 1 <= i < |words| ==> words[i] == words[1..][i - 1];
    }
  }

  /** A well-formed postfix expression has exactly one more operand than operators. */
  lemma EvaluateCount(expr: string, ctx: map<string, Value>)
    requires Evaluate(expr, ctx).Ok?
    ensures var words := SplitWords(expr);
      (forall i :: 0 <= i < |words| ==> IsOperand(words[i], ctx) || IsOperator(words[i])) &&
      2 * Operands(words, ctx) == |words| + 1
  {
    EvalWordsCount(SplitWords(expr), ctx, []);
  }

  /** The value a numeral pushes is its decimal value. */
  lemma NumeralOperand(x: string, ctx: map<string, Value>)
    requires IsDigitWord(x)
    ensures IsOperand(x, ctx) && OperandValue(x, ctx) == Int(DigitsValue(x))
    ensures x != [] && NoSpace(x)
  {
    assert forall k :: 0 <= k < |x| ==> IsDigit(x[k]);
  }

  /** The words x y op, from an empty stack, leave op applied to x and y. */
  lemma BinaryWords(x: string, y: string, op: string, ctx: map<string, Value>)
    requires IsDigitWord(x) && IsDigitWord(y) && (op == "+" || op == "-" || op == "*") && op !in ctx
    ensures var v := Operate(op, Int(DigitsValue(x)), Int(DigitsValue(y)));
      v.Ok? && EvalWords([x, y, op], ctx, []) == Ok([v.value])
  {
    NumeralOperand(x, ctx);
    NumeralOperand(y, ctx);
    var a, b := Int(DigitsValue(x)), Int(DigitsValue(y));
    var v := Operate(op, a, b);
    var w3, w2, w1 := [x, y, op], [y, op], [op];
    assert w3[0] == x && w3[1..] == w2 && [] + [a] == [a];
    assert w2[0] == y && w2[1..] == w1 && [a] + [b] == [a, b];
    assert w1[0] == op && w1[1..] == [] && !IsDigit(op[0]);
    assert v.Ok? && [a, b][..0] + [v.value] == [v.value];
    assert EvalWords(w1, ctx, [a, b]) == Ok([v.value]);
  }

  /** + - * on integers. */
  function IntOperation(op: string, x: int, y: int): int
  {
    if op == "+" then x + y else if op == "-" then x - y else x * y
  }

  /** On two ints, + - * compute the integer sum, difference and product. */
  lemma OperateInts(op: string, x: int, y: int)
    requires op == "+" || op == "-" || op == "*"
    ensures Operate(op, Int(x), Int(y)) == Ok(Int(IntOperation(op, x, y)))
  {
    if op == "+" {
    } else if op == "-" {
      assert op != "+";
    } else {
      assert op != "+" && op != "-";
    }
  }

  /** "x y op" on two numerals computes op on their values. */
  lemma BinaryNumerals(x: string, y: string, op: string, ctx: map<string, Value>)
    requires IsDigitWord(x) && IsDigitWord(y) && (op == "+" || op == "-" || op == "*") && op !in ctx
    ensures Evaluate(JoinWords([x, y, op]), ctx) == Ok(Int(IntOperation(op, DigitsValue(x), DigitsValue(y))))
  {
    var words := [x, y, op];
    NumeralOperand(x, ctx);
    NumeralOperand(y, ctx);
    assert op != [] && NoSpace(op);
    assert forall i | 0 <= i < |words| :: words[i] != [] && NoSpace(words[i]);
    SplitJoin(words);
    BinaryWords(x, y, op, ctx);
    var a, b := Int(DigitsValue(x)), Int(DigitsValue(y));
    var v := Operate(op, a, b).value;
    var e := JoinWords(words);
    assert EvalWords(SplitWords(e), ctx, []) == Ok([v]);
    assert Evaluate(e, ctx) == Ok(v);
    var dx, dy := DigitsValue(x), DigitsValue(y);
    OperateInts(op, dx, dy);
  }
}
