/**
 * What the configuration parser guarantees (dz3/translator.py): the shape
 * of the accepted input, how assignments reach the result and the context,
 * forward references, optional commas and duplicate keys.
 */
module TranslatorProperties {
  import opened Results
  import opened PyText
  import opened Dicts
  import opened ConfigValues
  import opened Translator

  // ---------------------------------------------------------------------
  // Single tokens
  // ---------------------------------------------------------------------

  /** expect and parse_name succeed exactly on a token of the wanted kind, and then skip exactly that token. */
  lemma ExpectOneToken(ts: seq<Token>, kind: Kind)
    ensures ReadKind(ts, kind).Ok? <==> ts != [] && ts[0].kind == kind
    ensures ReadKind(ts, kind).Ok? ==> ReadKind(ts, kind).value == ts[1..]
    ensures ReadName(ts).Ok? <==> ts != [] && ts[0].kind == NAME
    ensures ReadName(ts).Ok? ==> ReadName(ts).value == (ts[0].text, ts[1..])
  {
  }

  /** A STRING token @"s" reads as the string s; true and false read as booleans. */
  lemma LiteralValues(s: string, rest: seq<Token>, ctx: Context)
    ensures ReadValue([Token(STRING, "@\"" + s + "\"")] + rest, ctx) == Ok((Str(s), rest))
    ensures ReadValue([Token(TRUE, "true")] + rest, ctx) == Ok((Bool(true), rest))
    ensures ReadValue([Token(FALSE, "false")] + rest, ctx) == Ok((Bool(false), rest))
  {
    var text := "@\"" + s + "\"";
    assert text[2..|text| - 1] == s;
    assert ([Token(STRING, text)] + rest)[1..] == rest;
    assert ([Token(TRUE, "true")] + rest)[1..] == rest;
    assert ([Token(FALSE, "false")] + rest)[1..] == rest;
  }

  /** A NAME in value position reads as its value in the context, and an undefined name raises. */
  lemma NameValue(ts: seq<Token>, ctx: Context)
    requires ts != [] && ts[0].kind == NAME
    ensures ts[0].text in ctx ==> ReadValue(ts, ctx) == Ok((ctx[ts[0].text], ts[1..]))
    ensures ts[0].text !in ctx ==> ReadValue(ts, ctx) == Err(UnknownName(ts[0].text))
  {
  }

  // ---------------------------------------------------------------------
  // Items: NAME := value
  // ---------------------------------------------------------------------

  /** parse rejects an item that does not start with a NAME, and a NAME without := after it. */
  lemma ItemShape(ts: seq<Token>, ctx: Context, result: seq<(string, Value)>)
    requires ts != []
    ensures ts[0].kind != NAME ==> ReadItems(ts, ctx, result) == Err(UnexpectedToken(ts[0].kind))
    ensures ts[0].kind == NAME && (|ts| < 2 || ts[1].kind != ASSIGN) ==>
      ReadItems(ts, ctx, result) == Err(MissingAssign(ts[0].text))
  {
  }

  /** The result and the context hold the same names with the same values, and the result no name twice. */
  ghost predicate Mirrors(result: seq<(string, Value)>, ctx: Context)
  {
    && DistinctKeys(result)
    && (forall k :: k in ctx <==> Lookup(result, k).Some?)
    && (forall k :: k in ctx ==> Lookup(result, k) == Some(ctx[k]))
  }

  /** Storing a value under a name in both the result and the context keeps them mirrored. */
  lemma StoreMirrors(result: seq<(string, Value)>, ctx: Context, name: string, v: Value)
    requires Mirrors(result, ctx)
    ensures Mirrors(Put(result, name, v), ctx[name := v])
  {
    PutDistinct(result, name, v);
    forall k
      ensures k in ctx[name := v] <==> Lookup(Put(result, name, v), k).Some?
      ensures k in ctx[name := v] ==> Lookup(Put(result, name, v), k) == Some(ctx[name := v][k])
    {
      PutLookup(result, name, v, k);
    }
  }

  /** Every item stores its value in both the result and the context, so they stay mirrored. */
  lemma {:induction false} ItemsMirror(ts: seq<Token>, ctx: Context, result: seq<(string, Value)>)
    requires Mirrors(result, ctx) && ReadItems(ts, ctx, result).Ok?
    ensures Mirrors(ReadItems(ts, ctx, result).value.0, ReadItems(ts, ctx, result).value.1)
    decreases |ts|
  {
    if ts != [] {
      var name := ts[0].text;
      var (v, rest) := ReadValue(ts[2..], ctx).value;
      StoreMirrors(result, ctx, name, v);
      ItemsMirror(rest, ctx[name := v], Put(result, name, v));
    }
  }

  /** parse on a fresh parser: the result and the final context agree name by name. */
  lemma ConfigMirrorsContext(ts: seq<Token>)
    requires ReadItems(ts, map[], []).Ok?
    ensures Mirrors(ReadItems(ts, map[], []).value.0, ReadItems(ts, map[], []).value.1)
  {
    ItemsMirror(ts, map[], []);
  }

  /** One item NAME := value, with the value's own tokens given. */
  lemma ItemStep(name: string, assign: Token, value: Token, rest: seq<Token>, ctx: Context, result: seq<(string, Value)>, v: Value)
    requires assign.kind == ASSIGN && ReadValue([value] + rest, ctx) == Ok((v, rest))
    ensures ReadItems([Token(NAME, name), assign, value] + rest, ctx, result) == ReadItems(rest, ctx[name := v], Put(result, name, v))
  {
    var ts := [Token(NAME, name), assign, value] + rest;
    assert |ts| >= 2 && ts[0] == Token(NAME, name) && ts[1] == assign && ts[2..] == [value] + rest;
    ItemAssigned(ts, ctx, result, v, rest);
  }

  /** A later assignment to a name replaces its earlier value and keeps the name's first position. */
  lemma ReassignReplaces(a: string, b: string)
    requires a != b
    ensures ReadConfig([
      Token(NAME, a), Token(ASSIGN, ":="), Token(TRUE, "true"),
      Token(NAME, b), Token(ASSIGN, ":="), Token(TRUE, "true"),
      Token(NAME, a), Token(ASSIGN, ":="), Token(FALSE, "false")])
      == Ok([(a, Bool(false)), (b, Bool(true))])
  {
    var assign, t, f := Token(ASSIGN, ":="), Token(TRUE, "true"), Token(FALSE, "false");
    var s3 := [Token(NAME, a), assign, f] + [];
    var s2 := [Token(NAME, b), assign, t] + s3;
    var s1 := [Token(NAME, a), assign, t] + s2;
    assert s1 == [Token(NAME, a), assign, t, Token(NAME, b), assign, t, Token(NAME, a), assign, f];
    var ctx1, ctx2, ctx3 := map[][a := Bool(true)], map[][a := Bool(true)][b := Bool(true)], map[][a := Bool(true)][b := Bool(true)][a := Bool(false)];
    var r1, r2, r3 := [(a, Bool(true))], [(a, Bool(true)), (b, Bool(true))], [(a, Bool(false)), (b, Bool(true))];
    assert Put([], a, Bool(true)) == r1;
    assert Put(r1, b, Bool(true)) == r2 by {
      assert r1[1..] == [];
    }
    assert Put(r2, a, Bool(false)) == r3 by {
      assert r2[1..] == [(b, Bool(true))];
    }
    LiteralValues([], s2, map[]);
    ItemStep(a, assign, t, s2, map[], [], Bool(true));
    LiteralValues([], s3, ctx1);
    ItemStep(b, assign, t, s3, ctx1, r1, Bool(true));
    LiteralValues([], [], ctx2);
    ItemStep(a, assign, f, [], ctx2, r2, Bool(false));
    assert ReadItems([], ctx3, r3) == Ok((r3, ctx3));
  }

  /** A name used as a value before any item defines it raises, even when a later item defines it. */
  lemma ForwardReferenceFails()
    ensures ReadConfig([
      Token(NAME, "A"), Token(ASSIGN, ":="), Token(NAME, "B"),
      Token(NAME, "B"), Token(ASSIGN, ":="), Token(TRUE, "true")])
      == Err(UnknownName("B"))
  {
    var ts := [Token(NAME, "A"), Token(ASSIGN, ":="), Token(NAME, "B"),
      Token(NAME, "B"), Token(ASSIGN, ":="), Token(TRUE, "true")];
    NameValue(ts[2..], map[]);
  }

  // ---------------------------------------------------------------------
  // A value is read from its own tokens only
  // ---------------------------------------------------------------------

  /**
   * Reading a value looks only at the tokens it consumes: c followed by
   * anything else reads as the same value, with that remainder left.
   */
  lemma {:induction false} ValueLocal(c: seq<Token>, rest: seq<Token>, rest2: seq<Token>, ctx: Context)
    requires ReadValue(c + rest, ctx).Ok? && ReadValue(c + rest, ctx).value.1 == rest
    ensures ReadValue(c + rest2, ctx) == Ok((ReadValue(c + rest, ctx).value.0, rest2))
    decreases |c|, 1
  {
    var ts, ts2 := c + rest, c + rest2;
    assert |c| > 0 && ts[0] == c[0] && ts2[0] == c[0];
    if c[0].kind == LBRACE {
      ArrayLocal(c, rest, rest2, ctx);
    } else if c[0].kind == TABLE {
      TableLocal(c, rest, rest2, ctx);
    } else {
      assert |c| == 1 && ts2[1..] == rest2;
    }
  }

  lemma {:induction false} ArrayLocal(c: seq<Token>, rest: seq<Token>, rest2: seq<Token>, ctx: Context)
    requires c != [] && c[0].kind == LBRACE
    requires ReadArray(c + rest, ctx).Ok? && ReadArray(c + rest, ctx).value.1 == rest
    ensures ReadArray(c + rest2, ctx) == Ok((ReadArray(c + rest, ctx).value.0, rest2))
    decreases |c|, 0
  {
    var ts, ts2 := c + rest, c + rest2;
    assert ts[1..] == c[1..] + rest && ts2[1..] == c[1..] + rest2;
    ElementsLocal(c[1..], rest, rest2, ctx, []);
  }

  /** Cutting c + rest inside c. */
  lemma Split<T>(c: seq<T>, rest: seq<T>, i: nat, j: nat)
    requires i <= j <= |c|
    ensures c + rest == c[..j] + (c[j..] + rest)
    ensures (c + rest)[i..] == c[i..j] + (c[j..] + rest)
    ensures (c + rest)[j..] == c[j..] + rest
  {
  }

  /** The first element and the tail of c[j..] + rest. */
  lemma Tail<T>(c: seq<T>, rest: seq<T>, j: nat)
    requires j < |c|
    ensures c[j..] + rest != [] && (c[j..] + rest)[0] == c[j]
    ensures (c[j..] + rest)[1..] == c[j + 1..] + rest
  {
  }

  /** The optional comma after an element of c is looked for in c, whatever follows. */
  lemma CommaLocal(c: seq<Token>, rest: seq<Token>, rest2: seq<Token>, j1: nat, j: nat)
    requires j1 < |c| && j <= |c| && SkipComma(c[j1..] + rest) == Ok(c[j..] + rest)
    ensures SkipComma(c[j1..] + rest2) == Ok(c[j..] + rest2)
  {
    Tail(c, rest, j1);
    Tail(c, rest2, j1);
    if c[j1].kind == COMMA {
      assert |c[j..] + rest| == |c[j1 + 1..] + rest|;
    } else {
      assert |c[j..] + rest| == |c[j1..] + rest|;
    }
  }

  /** An array element read from the front of c reads the same before any remainder. */
  lemma {:induction false} ElementLocal(c: seq<Token>, rest: seq<Token>, rest2: seq<Token>, ctx: Context, v: Value, j: nat)
    requires j < |c| && ReadElement(c + rest, ctx) == Ok((v, c[j..] + rest))
    ensures ReadElement(c + rest2, ctx) == Ok((v, c[j..] + rest2))
    decreases |c|, 0
  {
    var ts := c + rest;
    var r1 := ReadValue(ts, ctx).value.1;
    var j1 := |c| + |rest| - |r1|;
    assert 0 < j1 <= j && r1 == ts[j1..];
    Split(c, rest, j1, j1);
    Split(c, rest2, j1, j1);
    ValueLocal(c[..j1], c[j1..] + rest, c[j1..] + rest2, ctx);
    ElementParts(ts, ctx, v, r1);
    ElementParts(c + rest2, ctx, v, c[j1..] + rest2);
    CommaLocal(c, rest, rest2, j1, j);
  }

  /** parse_array's loop after an element that was read. */
  lemma ElementsAfter(ts: seq<Token>, ctx: Context, items: seq<Value>, v: Value, next: seq<Token>)
    requires ts != [] && ts[0].kind != RBRACE && ReadElement(ts, ctx) == Ok((v, next))
    ensures ReadElements(ts, ctx, items) == ReadElements(next, ctx, items + [v])
  {
    ElementStep(ts, ctx, items);
  }

  lemma {:induction false} ElementsLocal(c: seq<Token>, rest: seq<Token>, rest2: seq<Token>, ctx: Context, items: seq<Value>)
    requires ReadElements(c + rest, ctx, items).Ok? && ReadElements(c + rest, ctx, items).value.1 == rest
    ensures ReadElements(c + rest2, ctx, items) == Ok((ReadElements(c + rest, ctx, items).value.0, rest2))
    decreases |c|, 2
  {
    var ts, ts2 := c + rest, c + rest2;
    assert |c| > 0 && ts[0] == c[0] && ts2[0] == c[0];
    if c[0].kind == RBRACE {
      assert |c| == 1 && ts2[1..] == rest2;
    } else {
      ElementsLocalStep(c, rest, rest2, ctx, items);
    }
  }

  /** ElementsLocal when c starts with an element. */
  lemma {:induction false} ElementsLocalStep(c: seq<Token>, rest: seq<Token>, rest2: seq<Token>, ctx: Context, items: seq<Value>)
    requires c != [] && c[0].kind != RBRACE
    requires ReadElements(c + rest, ctx, items).Ok? && ReadElements(c + rest, ctx, items).value.1 == rest
    ensures ReadElements(c + rest2, ctx, items) == Ok((ReadElements(c + rest, ctx, items).value.0, rest2))
    decreases |c|, 1
  {
    var ts, ts2 := c + rest, c + rest2;
    assert ts[0] == c[0] && ts2[0] == c[0];
    assert ReadElement(ts, ctx).Ok?;
    var (v, next) := ReadElement(ts, ctx).value;
    ElementsAfter(ts, ctx, items, v, next);
    var j := |c| + |rest| - |next|;
    assert 0 < j < |c| && next == ts[j..];
    Split(c, rest, j, j);
    ElementLocal(c, rest, rest2, ctx, v, j);
    ElementsAfter(ts2, ctx, items, v, c[j..] + rest2);
    ElementsLocal(c[j..], rest, rest2, ctx, items + [v]);
  }

  lemma {:induction false} TableLocal(c: seq<Token>, rest: seq<Token>, rest2: seq<Token>, ctx: Context)
    requires c != [] && c[0].kind == TABLE
    requires ReadTable(c + rest, ctx).Ok? && ReadTable(c + rest, ctx).value.1 == rest
    ensures ReadTable(c + rest2, ctx) == Ok((ReadTable(c + rest, ctx).value.0, rest2))
    decreases |c|, 0
  {
    var ts, ts2 := c + rest, c + rest2;
    assert |c| > 3 && ts[..3] == c[..3] && ts2[..3] == c[..3];
    assert ts[3..] == c[3..] + rest && ts2[3..] == c[3..] + rest2;
    EntriesLocal(c[3..], rest, rest2, ctx, []);
  }

  /** A table entry read from the front of c reads the same before any remainder. */
  lemma {:induction false} EntryLocal(c: seq<Token>, rest: seq<Token>, rest2: seq<Token>, ctx: Context, entry: (string, Value), j: nat)
    requires j < |c| && ReadEntry(c + rest, ctx) == Ok((entry, c[j..] + rest))
    ensures ReadEntry(c + rest2, ctx) == Ok((entry, c[j..] + rest2))
    decreases |c|, 0
  {
    var ts, ts2 := c + rest, c + rest2;
    var r1 := ReadName(ts).value.1;
    var r2 := ReadKind(r1, EQUAL).value;
    var r3 := ReadValue(r2, ctx).value.1;
    assert r1 == ts[1..] && r2 == ts[2..];
    var j1 := |c| + |rest| - |r3|;
    assert 2 < j1 <= j && r3 == ts[j1..];
    Split(c, rest, 2, j1);
    Split(c, rest2, 2, j1);
    Split(c, rest2, 1, j1);
    ValueLocal(c[2..j1], c[j1..] + rest, c[j1..] + rest2, ctx);
    assert ts2[0] == c[0] && ts2[1] == c[1] && ts2[1..][1..] == ts2[2..];
    EntryRead(ts, ctx, entry.0, r1, r2, entry.1, r3);
    EntryRead(ts2, ctx, entry.0, ts2[1..], ts2[2..], entry.1, c[j1..] + rest2);
    CommaLocal(c, rest, rest2, j1, j);
  }

  /** parse_table's loop after an entry that was read. */
  lemma EntriesAfter(ts: seq<Token>, ctx: Context, table: seq<(string, Value)>, entry: (string, Value), next: seq<Token>)
    requires ts != [] && ts[0].kind != RBRACKET && ReadEntry(ts, ctx) == Ok((entry, next))
    ensures ReadEntries(ts, ctx, table) == ReadEntries(next, ctx, Put(table, entry.0, entry.1))
  {
    EntryStep(ts, ctx, table);
  }

  lemma {:induction false} EntriesLocal(c: seq<Token>, rest: seq<Token>, rest2: seq<Token>, ctx: Context, table: seq<(string, Value)>)
    requires ReadEntries(c + rest, ctx, table).Ok? && ReadEntries(c + rest, ctx, table).value.1 == rest
    ensures ReadEntries(c + rest2, ctx, table) == Ok((ReadEntries(c + rest, ctx, table).value.0, rest2))
    decreases |c|, 2
  {
    var ts, ts2 := c + rest, c + rest2;
    assert |c| > 0 && ts[0] == c[0] && ts2[0] == c[0];
    if c[0].kind == RBRACKET {
      assert ts[1..][1..] == rest && |c| == 2;
      assert ts[1..][0] == c[1] && ts2[1..][0] == c[1] && ts2[1..][1..] == rest2;
    } else {
      EntriesLocalStep(c, rest, rest2, ctx, table);
    }
  }

  /** EntriesLocal when c starts with an entry. */
  lemma {:induction false} EntriesLocalStep(c: seq<Token>, rest: seq<Token>, rest2: seq<Token>, ctx: Context, table: seq<(string, Value)>)
    requires c != [] && c[0].kind != RBRACKET
    requires ReadEntries(c + rest, ctx, table).Ok? && ReadEntries(c + rest, ctx, table).value.1 == rest
    ensures ReadEntries(c + rest2, ctx, table) == Ok((ReadEntries(c + rest, ctx, table).value.0, rest2))
    decreases |c|, 1
  {
    var ts, ts2 := c + rest, c + rest2;
    assert ts[0] == c[0] && ts2[0] == c[0];
    assert ReadEntry(ts, ctx).Ok?;
    var (entry, next) := ReadEntry(ts, ctx).value;
    EntriesAfter(ts, ctx, table, entry, next);
    var j := |c| + |rest| - |next|;
    assert 0 < j < |c| && next == ts[j..];
    Split(c, rest, j, j);
    EntryLocal(c, rest, rest2, ctx, entry, j);
    EntriesAfter(ts2, ctx, table, entry, c[j..] + rest2);
    EntriesLocal(c[j..], rest, rest2, ctx, Put(table, entry.0, entry.1));
  }

  // ---------------------------------------------------------------------
  // Arrays and tables
  // ---------------------------------------------------------------------

  /**
   * A comma after an array element may be left out: before another
   * element, and before the closing brace (a trailing comma).
   */
  lemma CommaOptional(c: seq<Token>, rest: seq<Token>, comma: Token, ctx: Context, items: seq<Value>)
    requires comma.kind == COMMA && rest != [] && rest[0].kind != COMMA
    requires ReadValue(c + rest, ctx).Ok? && ReadValue(c + rest, ctx).value.1 == rest
    ensures ReadElements(c + [comma] + rest, ctx, items) == ReadElements(c + rest, ctx, items)
  {
    var v := ReadValue(c + rest, ctx).value.0;
    ValueLocal(c, rest, [comma] + rest, ctx);
    var with, without := c + [comma] + rest, c + rest;
    assert with == c + ([comma] + rest);
    assert c != [] && with[0] == c[0] && without[0] == c[0];
    assert ReadElement(with, ctx) == Ok((v, rest));
    assert ReadElement(without, ctx) == Ok((v, rest));
  }

  /** A table built entry by entry never holds a key twice. */
  lemma {:induction false} EntriesDistinct(ts: seq<Token>, ctx: Context, table: seq<(string, Value)>)
    requires DistinctKeys(table) && ReadEntries(ts, ctx, table).Ok?
    ensures ReadEntries(ts, ctx, table).value.0.Table?
    ensures DistinctKeys(ReadEntries(ts, ctx, table).value.0.entries)
    decreases |ts|
  {
    if ts[0].kind != RBRACKET {
      var ((key, v), next) := ReadEntry(ts, ctx).value;
      PutDistinct(table, key, v);
      EntriesDistinct(next, ctx, Put(table, key, v));
    }
  }

  /** One table entry NAME = value followed by a comma, with the value's own tokens given. */
  lemma EntryStepOf(key: string, value: Token, rest: seq<Token>, ctx: Context, table: seq<(string, Value)>, v: Value)
    requires ReadValue([value] + rest, ctx) == Ok((v, rest)) && rest != []
    ensures ReadEntries([Token(NAME, key), Token(EQUAL, "="), value] + rest, ctx, table)
      == ReadEntries(SkipComma(rest).value, ctx, Put(table, key, v))
  {
    var valued := [value] + rest;
    var equal := [Token(EQUAL, "=")] + valued;
    var ts := [Token(NAME, key)] + equal;
    assert ts == [Token(NAME, key), Token(EQUAL, "="), value] + rest;
    assert ReadName(ts) == Ok((key, equal)) by { assert ts[1..] == equal; }
    assert ReadKind(equal, EQUAL) == Ok(valued) by { assert equal[1..] == valued; }
    EntryRead(ts, ctx, key, equal, valued, v, rest);
    EntriesAfter(ts, ctx, table, (key, v), SkipComma(rest).value);
  }

  /** table ( [ opens a table, whose entries follow. */
  lemma TableOpen(first: seq<Token>, ctx: Context)
    ensures ReadTable([Token(TABLE, "table"), Token(LPAREN, "("), Token(LBRACKET, "[")] + first, ctx)
      == ReadEntries(first, ctx, [])
  {
    var bracketed := [Token(LBRACKET, "[")] + first;
    var paren := [Token(LPAREN, "(")] + bracketed;
    var ts := [Token(TABLE, "table")] + paren;
    assert ts == [Token(TABLE, "table"), Token(LPAREN, "("), Token(LBRACKET, "[")] + first;
    assert ReadKind(ts, TABLE) == Ok(paren) by { assert ts[1..] == paren; }
    assert ReadKind(paren, LPAREN) == Ok(bracketed) by { assert paren[1..] == bracketed; }
    assert ReadKind(bracketed, LBRACKET) == Ok(first) by { assert bracketed[1..] == first; }
  }

  /** ] ) closes a table with the entries read so far. */
  lemma TableClose(rest: seq<Token>, ctx: Context, table: seq<(string, Value)>)
    ensures ReadEntries([Token(RBRACKET, "]"), Token(RPAREN, ")")] + rest, ctx, table) == Ok((Table(table), rest))
  {
    var closing := [Token(RPAREN, ")")] + rest;
    var close := [Token(RBRACKET, "]")] + closing;
    assert close == [Token(RBRACKET, "]"), Token(RPAREN, ")")] + rest;
    assert ReadKind(closing, RPAREN) == Ok(rest) by { assert closing[1..] == rest; }
    assert close[1..] == closing;
  }

  /** The entries k = true, k = false: one key, holding the later value. */
  lemma DuplicateEntries(k: string, close: seq<Token>, ctx: Context)
    requires close != [] && close[0].kind != COMMA
    ensures ReadEntries([Token(NAME, k), Token(EQUAL, "="), Token(TRUE, "true"), Token(COMMA, ","),
      Token(NAME, k), Token(EQUAL, "="), Token(FALSE, "false")] + close, ctx, [])
      == ReadEntries(close, ctx, [(k, Bool(false))])
  {
    var eq, t, f := Token(EQUAL, "="), Token(TRUE, "true"), Token(FALSE, "false");
    var second := [Token(NAME, k), eq, f] + close;
    var comma := [Token(COMMA, ",")] + second;
    assert [Token(NAME, k), eq, t] + comma
      == [Token(NAME, k), eq, t, Token(COMMA, ","), Token(NAME, k), eq, f] + close;
    assert ReadEntries([Token(NAME, k), eq, t] + comma, ctx, []) == ReadEntries(second, ctx, [(k, Bool(true))]) by {
      LiteralValues([], comma, ctx);
      EntryStepOf(k, t, comma, ctx, [], Bool(true));
      assert Put([], k, Bool(true)) == [(k, Bool(true))];
      assert SkipComma(comma) == Ok(second) by { assert comma[1..] == second; }
    }
    assert ReadEntries(second, ctx, [(k, Bool(true))]) == ReadEntries(close, ctx, [(k, Bool(false))]) by {
      LiteralValues([], close, ctx);
      EntryStepOf(k, f, close, ctx, [(k, Bool(true))], Bool(false));
      assert Put([(k, Bool(true))], k, Bool(false)) == [(k, Bool(false))] by {
        assert [(k, Bool(true))][1..] == [];
      }
    }
  }

  /** table ( [ k = true, k = false ] ): the later entry of a duplicate key wins. */
  lemma DuplicateKeyKeepsLast(k: string, rest: seq<Token>, ctx: Context)
    ensures ReadTable([
      Token(TABLE, "table"), Token(LPAREN, "("), Token(LBRACKET, "["),
      Token(NAME, k), Token(EQUAL, "="), Token(TRUE, "true"), Token(COMMA, ","),
      Token(NAME, k), Token(EQUAL, "="), Token(FALSE, "false"),
      Token(RBRACKET, "]"), Token(RPAREN, ")")] + rest, ctx)
      == Ok((Table([(k, Bool(false))]), rest))
  {
    var close := [Token(RBRACKET, "]"), Token(RPAREN, ")")] + rest;
    var first := [Token(NAME, k), Token(EQUAL, "="), Token(TRUE, "true"), Token(COMMA, ","),
      Token(NAME, k), Token(EQUAL, "="), Token(FALSE, "false")] + close;
    assert [Token(TABLE, "table"), Token(LPAREN, "("), Token(LBRACKET, "[")] + first
      == [Token(TABLE, "table"), Token(LPAREN, "("), Token(LBRACKET, "["),
        Token(NAME, k), Token(EQUAL, "="), Token(TRUE, "true"), Token(COMMA, ","),
        Token(NAME, k), Token(EQUAL, "="), Token(FALSE, "false"),
        Token(RBRACKET, "]"), Token(RPAREN, ")")] + rest;
    TableOpen(first, ctx);
    DuplicateEntries(k, close, ctx);
    TableClose(rest, ctx, [(k, Bool(false))]);
  }
}
