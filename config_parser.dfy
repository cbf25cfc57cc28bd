/**
 * The recursive-descent parser of the configuration language
 * (dz3/translator.py, ConfigParser).  The parser reads a list of tokens
 * through a cursor and keeps the values of earlier assignments in a
 * context.  The reading functions below take the tokens not yet read and
 * return the value with the tokens left after it; the class ConfigParser
 * does the same work on its cursor and is proved equal to them.
 */
module Translator {
  import opened Results
  import opened PyText
  import opened Dicts
  import opened ConfigValues

  /** A token: its kind and its text (the tokenizer that makes them is not part of this model). */
  datatype Token = Token(kind: Kind, text: string)

  type Context = map<string, Value>

  /** Reading returns what was read and the tokens after it. */
  type Read<T> = Result<(T, seq<Token>), ConfigError>

  /** rest is what is left of ts after reading at least one token. */
  predicate Consumes(ts: seq<Token>, rest: seq<Token>)
  {
    |rest| < |ts| && rest == ts[|ts| - |rest|..]
  }

  lemma TailConsumes(ts: seq<Token>)
    requires ts != []
    ensures Consumes(ts, ts[1..])
  {
  }

  /** NAME, a sign, then a value and an optional comma: the entry's tokens are consumed. */
  lemma EntryConsumes(ts: seq<Token>, r2: seq<Token>, r3: seq<Token>, next: seq<Token>)
    requires |ts| >= 2 && r2 == ts[2..] && Consumes(r2, r3)
    requires next == r3 || (r3 != [] && next == r3[1..])
    ensures Consumes(ts, next)
  {
    assert r3 == ts[|ts| - |r3|..];
    if next != r3 {
      assert next == ts[|ts| - |next|..];
    }
  }

  /** s[2:-1] in Python: the text of @"..." and !(...) without their delimiters. */
  function Inner(s: string): string
  {
    if |s| >= 3 then s[2..|s| - 1] else []
  }

  /** expect: the next token must be of the given kind, and is skipped. */
  function ReadKind(ts: seq<Token>, kind: Kind): Result<seq<Token>, ConfigError>
  {
    if ts == [] then Err(OutOfTokens)
    else if ts[0].kind != kind then Err(Expected(kind, ts[0].kind))
    else Ok(ts[1..])
  }

  /** parse_name: the text of the next token, which must be a NAME. */
  function ReadName(ts: seq<Token>): Read<string>
  {
    if ts == [] then Err(OutOfTokens)
    else if ts[0].kind != NAME then Err(ExpectedName(ts[0].kind))
    else Ok((ts[0].text, ts[1..]))
  }

  /** The tokens after an optional comma; an empty list raises, as indexing past the end does. */
  function SkipComma(ts: seq<Token>): Result<seq<Token>, ConfigError>
  {
    if ts == [] then Err(OutOfTokens)
    else if ts[0].kind == COMMA then Ok(ts[1..])
    else Ok(ts)
  }

  /** parse_value on a token that stands for a value by itself: a literal or a defined NAME. */
  function Atom(t: Token, ctx: Context): Result<Value, ConfigError>
  {
    match t.kind
    case STRING => Ok(Str(Inner(t.text)))
    case NUMBER =>
      (match ParseInt(Strip(t.text))
       case Some(n) => Ok(Int(n))
       case None => Err(FloatResult(t.text)))
    case TRUE => Ok(Bool(true))
    case FALSE => Ok(Bool(false))
    case NAME => if t.text in ctx then Ok(ctx[t.text]) else Err(UnknownName(t.text))
    case _ => Err(UnknownTokenType(t.kind))
  }

  /** parse_value: one value, dispatched on the kind of its first token. */
  function ReadValue(ts: seq<Token>, ctx: Context): (r: Read<Value>)
    ensures r.Ok? ==> Consumes(ts, r.value.1)
    decreases |ts|, 2
  {
    if ts == [] then Err(OutOfTokens)
    else if ts[0].kind == LBRACE then ReadArray(ts, ctx)
    else if ts[0].kind == TABLE then ReadTable(ts, ctx)
    else if ts[0].kind == EXPR then ReadExpr(ts, ctx)
    else
      var v :- Atom(ts[0], ctx);
      TailConsumes(ts);
      Ok((v, ts[1..]))
  }

  /** parse_expr: an EXPR token, evaluated in the context. */
  function ReadExpr(ts: seq<Token>, ctx: Context): (r: Read<Value>)
    ensures r.Ok? ==> Consumes(ts, r.value.1)
  {
    if ts == [] then Err(OutOfTokens)
    else if ts[0].kind != EXPR then Err(ExpectedExpr(ts[0].kind))
    else
      var v :- Evaluate(Inner(ts[0].text), ctx);
      TailConsumes(ts);
      Ok((v, ts[1..]))
  }

  /** parse_array: { values }, each value optionally followed by a comma. */
  function ReadArray(ts: seq<Token>, ctx: Context): (r: Read<Value>)
    ensures r.Ok? ==> Consumes(ts, r.value.1)
    decreases |ts|, 1
  {
    var rest :- ReadKind(ts, LBRACE);
    ReadElements(rest, ctx, [])
  }

  /** One element of an array: a value and the comma after it, if any. */
  function ReadElement(ts: seq<Token>, ctx: Context): (r: Read<Value>)
    ensures r.Ok? ==> Consumes(ts, r.value.1)
    decreases |ts|, 3
  {
    var (v, rest) :- ReadValue(ts, ctx);
    var next :- SkipComma(rest);
    Ok((v, next))
  }

  /** The loop of parse_array from the given tokens, with the values read so far. */
  function ReadElements(ts: seq<Token>, ctx: Context, items: seq<Value>): (r: Read<Value>)
    ensures r.Ok? ==> Consumes(ts, r.value.1)
    decreases |ts|, 4
  {
    if ts == [] then Err(OutOfTokens)
    else if ts[0].kind == RBRACE then Ok((List(items), ts[1..]))
    else
      var (v, next) :- ReadElement(ts, ctx);
      ReadElements(next, ctx, items + [v])
  }

  /** parse_table: table ( [ NAME = value ... ] ), each entry optionally followed by a comma. */
  function ReadTable(ts: seq<Token>, ctx: Context): (r: Read<Value>)
    ensures r.Ok? ==> Consumes(ts, r.value.1)
    decreases |ts|, 1
  {
    var r1 :- ReadKind(ts, TABLE);
    var r2 :- ReadKind(r1, LPAREN);
    var r3 :- ReadKind(r2, LBRACKET);
    ReadEntries(r3, ctx, [])
  }

  /** One entry of a table: NAME = value and the comma after it, if any. */
  function ReadEntry(ts: seq<Token>, ctx: Context): (r: Read<(string, Value)>)
    ensures r.Ok? ==> Consumes(ts, r.value.1)
    decreases |ts|, 3
  {
    var (key, r1) :- ReadName(ts);
    var r2 :- ReadKind(r1, EQUAL);
    var (v, r3) :- ReadValue(r2, ctx);
    var next :- SkipComma(r3);
    EntryConsumes(ts, r2, r3, next);
    Ok(((key, v), next))
  }

  /** The loop of parse_table from the given tokens, with the dict built so far. */
  function ReadEntries(ts: seq<Token>, ctx: Context, table: seq<(string, Value)>): (r: Read<Value>)
    ensures r.Ok? ==> Consumes(ts, r.value.1)
    decreases |ts|, 4
  {
    if ts == [] then Err(OutOfTokens)
    else if ts[0].kind == RBRACKET then
      var rest :- ReadKind(ts[1..], RPAREN);
      Ok((Table(table), rest))
    else
      var (entry, next) :- ReadEntry(ts, ctx);
      ReadEntries(next, ctx, Put(table, entry.0, entry.1))
  }

  /**
   * The loop of parse: NAME := value items until the tokens run out.  The
   * result is the dict of assignments and the context after them.
   */
  function ReadItems(ts: seq<Token>, ctx: Context, result: seq<(string, Value)>): Result<(seq<(string, Value)>, Context), ConfigError>
    decreases |ts|
  {
    if ts == [] then Ok((result, ctx))
    else if ts[0].kind != NAME then Err(UnexpectedToken(ts[0].kind))
    else
      var name := ts[0].text;
      if |ts| < 2 || ts[1].kind != ASSIGN then Err(MissingAssign(name))
      else
        var (v, rest) :- ReadValue(ts[2..], ctx);
        ReadItems(rest, ctx[name := v], Put(result, name, v))
  }

  /** An item whose value fails to read stops ReadItems with that error. */
  lemma ItemValueFails(ts: seq<Token>, ctx: Context, result: seq<(string, Value)>)
    requires |ts| >= 2 && ts[0].kind == NAME && ts[1].kind == ASSIGN && ReadValue(ts[2..], ctx).Err?
    ensures ReadItems(ts, ctx, result) == Err(ReadValue(ts[2..], ctx).error)
  {
  }

  /** An item whose value reads: ReadItems goes on after it with the name bound to that value. */
  lemma ItemAssigned(ts: seq<Token>, ctx: Context, result: seq<(string, Value)>, v: Value, rest: seq<Token>)
    requires |ts| >= 2 && ts[0].kind == NAME && ts[1].kind == ASSIGN && ReadValue(ts[2..], ctx) == Ok((v, rest))
    ensures ReadItems(ts, ctx, result) == ReadItems(rest, ctx[ts[0].text := v], Put(result, ts[0].text, v))
  {
  }

  /** A NAME that is not followed by ':=' stops ReadItems with MissingAssign. */
  lemma ItemMissingAssign(ts: seq<Token>, ctx: Context, result: seq<(string, Value)>)
    requires ts != [] && ts[0].kind == NAME && (|ts| < 2 || ts[1].kind != ASSIGN)
    ensures ReadItems(ts, ctx, result) == Err(MissingAssign(ts[0].text))
  {
  }

  /** parse on a fresh parser: the dict of all assignments. */
  function ReadConfig(ts: seq<Token>): Result<seq<(string, Value)>, ConfigError>
  {
    var (result, _) :- ReadItems(ts, map[], []);
    Ok(result)
  }

  /** parse_expr on an EXPR token: the evaluation of its text, and the tokens after it. */
  lemma ExprStep(ts: seq<Token>, ctx: Context)
    requires ts != [] && ts[0].kind == EXPR
    ensures var e := Evaluate(Inner(ts[0].text), ctx);
      ReadExpr(ts, ctx) == if e.Ok? then Ok((e.value, ts[1..])) else Err(e.error)
  {
  }

  /** One pass of parse_array's loop: an element, then the rest of the loop. */
  lemma ElementStep(ts: seq<Token>, ctx: Context, items: seq<Value>)
    requires ts != [] && ts[0].kind != RBRACE
    ensures var e := ReadElement(ts, ctx);
      ReadElements(ts, ctx, items) ==
        if e.Ok? then ReadElements(e.value.1, ctx, items + [e.value.0]) else Err(e.error)
  {
  }

  /** One pass of parse_table's loop: an entry, then the rest of the loop. */
  lemma EntryStep(ts: seq<Token>, ctx: Context, table: seq<(string, Value)>)
    requires ts != [] && ts[0].kind != RBRACKET
    ensures var e := ReadEntry(ts, ctx);
      ReadEntries(ts, ctx, table) ==
        if e.Ok? then ReadEntries(e.value.1, ctx, Put(table, e.value.0.0, e.value.0.1)) else Err(e.error)
  {
  }

  /** An element read piece by piece. */
  lemma ElementParts(ts: seq<Token>, ctx: Context, v: Value, valued: seq<Token>)
    requires ReadValue(ts, ctx) == Ok((v, valued)) && valued != []
    ensures ReadElement(ts, ctx) == Ok((v, SkipComma(valued).value))
  {
  }

  /** An entry whose name does not read fails with the name's error. */
  lemma EntryNameFails(ts: seq<Token>, ctx: Context)
    requires ReadName(ts).Err?
    ensures ReadEntry(ts, ctx) == Err(ReadName(ts).error)
  {
  }

  /** An entry whose name is not followed by '=' fails with that error. */
  lemma EntrySignFails(ts: seq<Token>, ctx: Context, key: string, named: seq<Token>)
    requires ReadName(ts) == Ok((key, named)) && ReadKind(named, EQUAL).Err?
    ensures ReadEntry(ts, ctx) == Err(ReadKind(named, EQUAL).error)
  {
  }

  /** An entry whose value does not read fails with the value's error. */
  lemma EntryValueFails(ts: seq<Token>, ctx: Context, key: string, named: seq<Token>, equal: seq<Token>)
    requires ReadName(ts) == Ok((key, named)) && ReadKind(named, EQUAL) == Ok(equal) && ReadValue(equal, ctx).Err?
    ensures ReadEntry(ts, ctx) == Err(ReadValue(equal, ctx).error)
  {
  }

  /** An entry whose value is the last token runs out of tokens looking for a comma or the closing bracket. */
  lemma EntryAtEnd(ts: seq<Token>, ctx: Context, key: string, named: seq<Token>, equal: seq<Token>, v: Value)
    requires ReadName(ts) == Ok((key, named)) && ReadKind(named, EQUAL) == Ok(equal)
    requires ReadValue(equal, ctx) == Ok((v, []))
    ensures ReadEntry(ts, ctx) == Err(OutOfTokens)
  {
  }

  /** A complete entry: its name, its value, and the tokens after the value and its comma, if any. */
  lemma EntryRead(ts: seq<Token>, ctx: Context, key: string, named: seq<Token>, equal: seq<Token>, v: Value, valued: seq<Token>)
    requires ReadName(ts) == Ok((key, named)) && ReadKind(named, EQUAL) == Ok(equal)
    requires ReadValue(equal, ctx) == Ok((v, valued)) && valued != []
    ensures ReadEntry(ts, ctx) == Ok(((key, v), SkipComma(valued).value))
  {
  }

  /** A method's result and cursor agree with a reading function's. */
  predicate Matches<T(==)>(r: Result<T, ConfigError>, spec: Read<T>, rest: seq<Token>)
  {
    && (spec.Ok? ==> r == Ok(spec.value.0) && rest == spec.value.1)
    && (spec.Err? ==> r == Err(spec.error))
  }

  /** The parser: its tokens, its cursor, and the values of earlier assignments. */
  class ConfigParser {
    const tokens: seq<Token>
    var index: nat
    var context: Context

    predicate Valid()
      reads this
    {
      index <= |tokens|
    }

    constructor (tokens: seq<Token>)
      ensures this.tokens == tokens && index == 0 && context == map[]
      ensures Valid()
    {
      this.tokens := tokens;
      index := 0;
      context := map[];
    }

    /** parse: NAME := value items until the tokens run out, each stored in the result and the context. */
    method Parse() returns (r: Result<seq<(string, Value)>, ConfigError>)
      requires Valid()
      modifies this
      ensures Valid() && old(index) <= index
      ensures var spec := ReadItems(tokens[old(index)..], old(context), []);
        && (spec.Ok? ==> r == Ok(spec.value.0) && context == spec.value.1 && index == |tokens|)
        && (spec.Err? ==> r == Err(spec.error))
    {
      var result: seq<(string, Value)> := [];
      while index < |tokens|
        invariant Valid() && old(index) <= index
        invariant ReadItems(tokens[old(index)..], old(context), []) == ReadItems(tokens[index..], context, result)
        decreases |tokens| - index
      {
        var item := ParseItem(result);
        if item.Err? {
          return Err(item.error);
        }
        result := item.value;
      }
      return Ok(result);
    }

    /** One pass of parse's loop: NAME := value, stored in the context and in the items read so far. */
    method ParseItem(result: seq<(string, Value)>) returns (r: Result<seq<(string, Value)>, ConfigError>)
      requires Valid() && index < |tokens|
      modifies this
      ensures Valid() && old(index) <= index
      ensures r.Ok? ==> (old(index) < index
        && ReadItems(old(tokens[index..]), old(context), result) == ReadItems(tokens[index..], context, r.value))
      ensures r.Err? ==> ReadItems(old(tokens[index..]), old(context), result) == Err(r.error)
    {
      ghost var start := tokens[index..];
      var t := tokens[index];
      if t.kind != NAME {
        return Err(UnexpectedToken(t.kind));
      }
      var name := ParseName();
      assert name.Ok?;
      if index < |tokens| && tokens[index].kind == ASSIGN {
        var matched := Expect(ASSIGN);
        assert start[2..] == tokens[index..];
        var v := ParseValue();
        if v.Err? {
          ItemValueFails(start, context, result);
          return Err(v.error);
        }
        ItemAssigned(start, context, result, v.value, tokens[index..]);
        context := context[name.value := v.value];
        return Ok(Put(result, name.value, v.value));
      } else {
        ItemMissingAssign(start, context, result);
        return Err(MissingAssign(name.value));
      }
    }

    /** parse_value: one value, dispatched on the kind of the next token. */
    method ParseValue() returns (r: Result<Value, ConfigError>)
      requires Valid()
      modifies this
      decreases |tokens| - index, 2
      ensures Valid() && context == old(context) && old(index) <= index
      ensures Matches(r, ReadValue(tokens[old(index)..], context), tokens[index..])
    {
      if index == |tokens| {
        return Err(OutOfTokens);
      }
      var t := tokens[index];
      match t.kind {
        case STRING =>
          index := index + 1;
          return Ok(Str(Inner(t.text)));
        case NUMBER =>
          index := index + 1;
          match ParseInt(Strip(t.text)) {
            case Some(n) => return Ok(Int(n));
            case None => return Err(FloatResult(t.text));
          }
        case TRUE =>
          index := index + 1;
          return Ok(Bool(true));
        case FALSE =>
          index := index + 1;
          return Ok(Bool(false));
        case LBRACE =>
          r := ParseArray();
        case TABLE =>
          r := ParseTable();
        case EXPR =>
          r := ParseExpr();
        case NAME =>
          index := index + 1;
          if t.text in context {
            return Ok(context[t.text]);
          }
          return Err(UnknownName(t.text));
        case _ =>
          return Err(UnknownTokenType(t.kind));
      }
    }

    /** parse_expr: evaluates the next token, which must be an EXPR, then skips it. */
    method ParseExpr() returns (r: Result<Value, ConfigError>)
      requires Valid()
      modifies this
      ensures Valid() && context == old(context) && old(index) <= index
      ensures Matches(r, ReadExpr(tokens[old(index)..], context), tokens[index..])
    {
      if index == |tokens| {
        return Err(OutOfTokens);
      }
      var t := tokens[index];
      if t.kind != EXPR {
        return Err(ExpectedExpr(t.kind));
      }
      ExprStep(tokens[index..], context);
      var v :- EvaluateExpression(Inner(t.text));
      index := index + 1;
      return Ok(v);
    }

    /** evaluate_expression: a postfix evaluation on a stack of values. */
    method EvaluateExpression(expr: string) returns (r: Result<Value, ConfigError>)
      ensures r == Evaluate(expr, context)
    {
      var words := SplitWords(expr);
      var stack: seq<Value> := [];
      var k := 0;
      while k < |words|
        invariant k <= |words|
        invariant EvalWords(words, context, []) == EvalWords(words[k..], context, stack)
      {
        var w := words[k];
        assert words[k..][0] == w && words[k..][1..] == words[k + 1..];
        if IsDigitWord(w) {
          stack := stack + [Int(DigitsValue(w))];
        } else if w in context {
          stack := stack + [context[w]];
        } else if IsOperator(w) {
          if |stack| < 2 {
            return Err(StackUnderflow);
          }
          var b, a := stack[|stack| - 1], stack[|stack| - 2];
          var v :- Operate(w, a, b);
          stack := stack[..|stack| - 2] + [v];
        } else {
          return Err(BadOperand(w));
        }
        k := k + 1;
      }
      if |stack| != 1 {
        return Err(BadExpression);
      }
      return Ok(stack[0]);
    }

    /** parse_array: { values }, a comma after a value skipped. */
    method ParseArray() returns (r: Result<Value, ConfigError>)
      requires Valid()
      modifies this
      decreases |tokens| - index, 1
      ensures Valid() && context == old(context) && old(index) <= index
      ensures Matches(r, ReadArray(tokens[old(index)..], context), tokens[index..])
    {
      var items: seq<Value> := [];
      :- Expect(LBRACE);
      while true
        invariant Valid() && context == old(context) && old(index) < index
        invariant ReadArray(tokens[old(index)..], context) == ReadElements(tokens[index..], context, items)
        decreases |tokens| - index
      {
        if index == |tokens| {
          return Err(OutOfTokens);
        }
        if tokens[index].kind == RBRACE {
          break;
        }
        ElementStep(tokens[index..], context, items);
        var v :- ParseElement();
        items := items + [v];
      }
      var closed := Expect(RBRACE);
      return Ok(List(items));
    }

    /** The body of parse_array's loop: a value, then a comma if there is one. */
    method ParseElement() returns (r: Result<Value, ConfigError>)
      requires Valid()
      modifies this
      decreases |tokens| - index, 3
      ensures Valid() && context == old(context) && old(index) <= index
      ensures Matches(r, ReadElement(tokens[old(index)..], context), tokens[index..])
    {
      var v :- ParseValue();
      ghost var valued := tokens[index..];
      if index == |tokens| {
        return Err(OutOfTokens);
      }
      if tokens[index].kind == COMMA {
        index := index + 1;
      }
      ElementParts(tokens[old(index)..], context, v, valued);
      return Ok(v);
    }

    /** parse_table: table ( [ NAME = value ... ] ), a later entry replacing an earlier one of the same name. */
    method ParseTable() returns (r: Result<Value, ConfigError>)
      requires Valid()
      modifies this
      decreases |tokens| - index, 1
      ensures Valid() && context == old(context) && old(index) <= index
      ensures Matches(r, ReadTable(tokens[old(index)..], context), tokens[index..])
    {
      var table: seq<(string, Value)> := [];
      :- Expect(TABLE);
      :- Expect(LPAREN);
      :- Expect(LBRACKET);
      while true
        invariant Valid() && context == old(context) && old(index) < index
        invariant ReadTable(tokens[old(index)..], context) == ReadEntries(tokens[index..], context, table)
        decreases |tokens| - index
      {
        if index == |tokens| {
          return Err(OutOfTokens);
        }
        if tokens[index].kind == RBRACKET {
          break;
        }
        EntryStep(tokens[index..], context, table);
        var entry :- ParseEntry();
        var (key, v) := entry;
        table := Put(table, key, v);
      }
      var closed := Expect(RBRACKET);
      :- Expect(RPAREN);
      return Ok(Table(table));
    }

    /** The body of parse_table's loop: NAME = value, then a comma if there is one. */
    method ParseEntry() returns (r: Result<(string, Value), ConfigError>)
      requires Valid()
      modifies this
      decreases |tokens| - index, 2
      ensures Valid() && context == old(context) && old(index) <= index
      ensures Matches(r, ReadEntry(tokens[old(index)..], context), tokens[index..])
    {
      ghost var start := tokens[index..];
      ghost var ctx := context;
      var name := ParseName();
      if name.Err? {
        EntryNameFails(start, context);
        return Err(name.error);
      }
      var key := name.value;
      ghost var named := tokens[index..];
      var sign := Expect(EQUAL);
      if sign.Fail? {
        EntrySignFails(start, context, key, named);
        return Err(sign.error);
      }
      ghost var equal := tokens[index..];
      var value := ParseValue();
      if value.Err? {
        EntryValueFails(start, context, key, named, equal);
        return Err(value.error);
      }
      assert context == ctx;
      var v := value.value;
      if index == |tokens| {
        EntryAtEnd(start, context, key, named, equal, v);
        return Err(OutOfTokens);
      }
      EntryRead(start, context, key, named, equal, v, tokens[index..]);
      if tokens[index].kind == COMMA {
        index := index + 1;
      }
      return Ok((key, v));
    }

    /** parse_name: the text of the next token, which must be a NAME; the cursor moves only on success. */
    method ParseName() returns (r: Result<string, ConfigError>)
      requires Valid()
      modifies this
      ensures Valid() && context == old(context)
      ensures Matches(r, ReadName(tokens[old(index)..]), tokens[index..])
      ensures index == if r.Ok? then old(index) + 1 else old(index)
    {
      if index == |tokens| {
        return Err(OutOfTokens);
      }
      var t := tokens[index];
      if t.kind != NAME {
        return Err(ExpectedName(t.kind));
      }
      index := index + 1;
      return Ok(t.text);
    }

    /** expect: the next token must be of the given kind; the cursor moves only on success. */
    method Expect(kind: Kind) returns (r: Outcome<ConfigError>)
      requires Valid()
      modifies this
      ensures Valid() && context == old(context)
      ensures match ReadKind(tokens[old(index)..], kind)
        case Ok(rest) => r == Pass && index == old(index) + 1 && tokens[index..] == rest
        case Err(e) => r == Fail(e) && index == old(index)
    {
      if index == |tokens| {
        return Fail(OutOfTokens);
      }
      if tokens[index].kind != kind {
        return Fail(Expected(kind, tokens[index].kind));
      }
      index := index + 1;
      return Pass;
    }
  }
}
