/**
 * The assembler's output fed to the interpreter, as the main block of
 * dz4/assembler_inteprator.py does: the binary file holds the packed words
 * one after another, and interpret reads them back nine bytes at a time.
 *
 * Because field A is packed over the opcode's bits and the decoder reads the
 * fields six bits later than they were packed, a program does not run as
 * its mnemonics say: the executed opcode is the A operand, and the addresses
 * are mixtures of neighbouring operands.
 */
module Pipeline {
  import opened Results
  import opened Bits
  import opened PyText
  import opened InstructionFormat
  import opened Interpreter
  import opened Assembler

  /** The operand D a command binds: args[3] for a four-field command, none (0) otherwise. */
  function BoundD(fields: seq<FieldRange>, args: seq<int>): int
  {
    if HasField(fields, D) && |args| > 3 then args[3] else 0
  }

  /**
   * The entry assembled for a command and fitting operands records the
   * operands as its fields, and its word decodes to them skewed, with A as
   * the opcode.
   */
  lemma BoundEntryDecodes(command: string, args: seq<int>)
    requires command in COMMANDS && Fits(COMMANDS[command].fields, args)
    ensures var r := BindOperands(command, args);
      var d := BoundD(COMMANDS[command].fields, args);
      r.Ok? && |r.value.binary| == WORD_BYTES &&
      FieldValue(r.value.fields, A) == args[0] && FieldValue(r.value.fields, B) == args[1] &&
      FieldValue(r.value.fields, C) == args[2] && FieldValue(r.value.fields, D) == d &&
      Decode(r.value.binary) == Skewed(args[0], args[1], args[2], d)
  {
    var fields := COMMANDS[command].fields;
    var d := BoundD(fields, args);
    BindAccepts(command, args);
    assert d == if HasField(fields, D) then args[3] else 0;
    FieldDataValues(fields, args[0], args[1], args[2], d);
    var word := ToBytes(ValueOf(WordLayout(args[0], args[1], args[2], d)), WORD_BYTES);
    assert BindOperands(command, args).value.binary == word;
    Pow2Constants();
    DecodeWordLayout(args[0], args[1], args[2], d);
  }

  /** A field read six bits late, reduced modulo 1024: the low four bits of x above the six bits hi. */
  lemma LateField(x: nat, m: nat, hi: nat)
    requires hi < 64 && m > 0 && m % 16 == 0
    ensures ((x % m) * 64 + hi) % MEMORY_SIZE == (x % 16) * 64 + hi
  {
    var q := x % m;
    var k := x / m;
    assert x == m * k + q;
    var j := m / 16;
    assert m * k == 16 * (j * k);
    DivModUnique(x, 16, j * k + q / 16, q % 16);
    assert q * 64 == 1024 * (q / 16) + (q % 16) * 64;
    DivModUnique(q * 64 + hi, 1024, q / 16, (q % 16) * 64 + hi);
  }

  /** The reduced addresses: the low four bits of one operand above the top six bits of the next. */
  lemma EffectiveAddresses(b: nat, c: nat, d: nat)
    requires c < 65536 && d < 1048576
    ensures var ins := Skewed(0, b, c, d);
      ins.b % MEMORY_SIZE == (b % 16) * 64 + c / 1024 &&
      ins.c % MEMORY_SIZE == (c % 16) * 64 + d / 16384 &&
      ins.d % MEMORY_SIZE == (d % 16) * 64
  {
    DivBelow(c, 1024, 64);
    DivBelow(d, 16384, 64);
    LateField(b, 16384, c / 1024);
    LateField(c, 1024, d / 16384);
    LateField(d, 16384, 0);
  }

  /**
   * What an assembled instruction does when run: an A operand above 5 is an
   * unknown opcode and the block is skipped; otherwise opcode A writes the one
   * cell (B mod 16) * 64 + C / 1024, and LOAD_CONST (A = 0) stores
   * (C mod 16) * 64 + D / 16384 there.
   */
  lemma SkewedExecutes(mem: seq<int>, a: nat, b: nat, c: nat, d: nat)
    requires ValidMemory(mem) && c < 65536 && d < 1048576
    ensures a > 5 ==> Execute(mem, Skewed(a, b, c, d)) == Err(UnknownOpcode(a))
    ensures a <= 5 ==>
      var r := Execute(mem, Skewed(a, b, c, d));
      var target := (b % 16) * 64 + c / 1024;
      r.Ok? && target < MEMORY_SIZE &&
      (forall i :: 0 <= i < MEMORY_SIZE && i != target ==> r.value[i] == mem[i]) &&
      (a == 0 ==> r.value == mem[target := (c % 16) * 64 + d / 16384])
  {
    var ins := Skewed(a, b, c, d);
    EffectiveAddresses(b, c, d);
    ExecuteFails(mem, ins);
    if a <= 5 {
      ExecuteWrites(mem, ins);
    }
  }

  /** A line that yields an instruction is a known mnemonic whose operands are integers that fit its layout. */
  lemma LineBinds(line: string)
    requires AssembleLine(line).Ok? && AssembleLine(line).value.Some?
    ensures !Skipped(line)
    ensures var parts := LineWords(line);
      var command, args := Upper(parts[0]), ParseOperands(parts[1..]);
      args.Ok? && command in COMMANDS && Fits(COMMANDS[command].fields, args.value) &&
      AssembleLine(line) == Ok(Some(BindOperands(command, args.value).value))
  {
    var parts := LineWords(line);
    AssembleWordsAccepts(parts);
  }

  /** A log entry's word decodes to its own field values, skewed. */
  lemma EntryDecodes(line: string)
    requires AssembleLine(line).Ok? && AssembleLine(line).value.Some?
    ensures var e := AssembleLine(line).value.value;
      var a, b, c, d := FieldValue(e.fields, A), FieldValue(e.fields, B), FieldValue(e.fields, C), FieldValue(e.fields, D);
      |e.binary| == WORD_BYTES &&
      0 <= a < 64 && 0 <= b < 1048576 && 0 <= c < 65536 && 0 <= d < 1048576 &&
      Decode(e.binary) == Skewed(a, b, c, d)
  {
    LineBinds(line);
    var parts := LineWords(line);
    var command, args := Upper(parts[0]), ParseOperands(parts[1..]);
    BoundEntryDecodes(command, args.value);
    HasFieldD();
  }

  /**
   * The binary file of a successful assembly is read back as exactly its
   * words, one block per log entry, and each block decodes to the entry's
   * fields skewed; the snapshot is what running those blocks leaves.
   */
  lemma AssembledProgram(lines: seq<string>)
    requires Assembly(lines).Ok?
    ensures var entries := Assembly(lines).value;
      var binary := Concat(Words(entries));
      Blocks(binary) == Words(entries) &&
      Snapshot(binary) == RunBlocks(InitialMemory(), Words(entries))[..SNAPSHOT_SIZE] &&
      forall i :: 0 <= i < |entries| ==>
        var f := entries[i].fields;
        0 <= FieldValue(f, A) < 64 && 0 <= FieldValue(f, B) < 1048576 &&
        0 <= FieldValue(f, C) < 65536 && 0 <= FieldValue(f, D) < 1048576 &&
        Decode(Blocks(binary)[i]) ==
          Skewed(FieldValue(f, A), FieldValue(f, B), FieldValue(f, C), FieldValue(f, D))
  {
    var entries := Assembly(lines).value;
    var words := Words(entries);
    AssemblyEntries(lines);
    BlocksOfWords(words);
    forall i | 0 <= i < |entries|
      ensures var f := entries[i].fields;
        0 <= FieldValue(f, A) < 64 && 0 <= FieldValue(f, B) < 1048576 &&
        0 <= FieldValue(f, C) < 65536 && 0 <= FieldValue(f, D) < 1048576 &&
        Decode(words[i]) == Skewed(FieldValue(f, A), FieldValue(f, B), FieldValue(f, C), FieldValue(f, D))
    {
      EntryDecodes(Kept(lines)[i]);
    }
  }

  lemma {:induction false} JoinEnds(words: seq<string>)
    requires words != [] && forall i :: 0 <= i < |words| ==> words[i] != []
    ensures var s := JoinWords(words);
      s != [] && s[0] == words[0][0] && s[|s| - 1] == words[|words| - 1][|words[|words| - 1]| - 1]
  {
    if |words| > 1 {
      var w, tail := words[0], words[1..];
      assert JoinWords(words) == w + " " + JoinWords(tail);
      JoinEnds(tail);
    } else {
      assert JoinWords(words) == words[0];
    }
  }

  /** A line written as words separated by single spaces is kept and splits back into those words, unless the first starts a comment. */
  lemma JoinedWords(words: seq<string>)
    requires words != [] && forall i :: 0 <= i < |words| ==> words[i] != [] && NoSpace(words[i])
    requires words[0][0] != '#'
    ensures !Skipped(JoinWords(words)) && LineWords(JoinWords(words)) == words
  {
    var s := JoinWords(words);
    JoinedStrip(words);
    assert AreWords(words);
    SplitJoin(words);
    KeptLine(s, words);
  }

  /** Words joined by single spaces start with the first word and are their own strip. */
  lemma JoinedStrip(words: seq<string>)
    requires words != [] && forall i :: 0 <= i < |words| ==> words[i] != [] && NoSpace(words[i])
    ensures var s := JoinWords(words);
      s != [] && s[0] == words[0][0] && Strip(s) == s
  {
    var first, last := words[0], words[|words| - 1];
    assert !IsSpace(first[0]) && !IsSpace(last[|last| - 1]) by {
      EdgeWords(words);
    }
    JoinEnds(words);
    StripNothing(JoinWords(words));
  }

  /** The first and the last word of non-empty words are themselves words. */
  lemma EdgeWords(words: seq<string>)
    requires words != [] && forall i :: 0 <= i < |words| ==> words[i] != [] && NoSpace(words[i])
    ensures var first, last := words[0], words[|words| - 1];
      first != [] && NoSpace(first) && last != [] && NoSpace(last)
  {
  }

  /** A line that is its own strip, starts with no '#' and splits into words is kept with those words. */
  lemma KeptLine(s: string, words: seq<string>)
    requires s != [] && Strip(s) == s && s[0] != '#' && SplitWords(s) == words
    ensures !Skipped(s) && LineWords(s) == words
  {
  }

  /** A line written as words separated by single spaces assembles as those words, unless the first starts a comment. */
  lemma JoinedLine(words: seq<string>)
    requires words != [] && forall i :: 0 <= i < |words| ==> words[i] != [] && NoSpace(words[i])
    requires words[0][0] != '#'
    ensures AssembleWords(words).Ok? ==> AssembleLine(JoinWords(words)) == Ok(Some(AssembleWords(words).value))
  {
    JoinedWords(words);
  }

  /** A mnemonic followed by integer words binds the mnemonic's upper-case form to their values. */
  lemma ConvertedWords(mnemonic: string, ops: seq<string>, values: seq<int>)
    requires Upper(mnemonic) in COMMANDS && ParseOperands(ops) == Ok(values)
    ensures AssembleWords([mnemonic] + ops) == BindOperands(Upper(mnemonic), values)
  {
    var parts := [mnemonic] + ops;
    assert parts[0] == mnemonic && parts[1..] == ops;
  }

  /** The numeral of a non-negative integer is a word int() reads back. */
  lemma NumeralWord(n: nat)
    ensures IntText(n) != [] && NoSpace(IntText(n)) && IntText(n)[0] != '#'
    ensures ParseInt(IntText(n)) == Some(n)
  {
    ParseIntText(n);
  }

  /** An upper-case mnemonic such as LOAD_CONST: capital letters and underscores. */
  lemma MnemonicWord(m: string)
    requires m != [] && forall i :: 0 <= i < |m| ==> 'A' <= m[i] <= 'Z' || m[i] == '_'
    ensures NoSpace(m) && IsAsciiUpper(m) && m[0] != '#'
  {
  }

  /** Operands 0, b and c fit the three-field layout of LOAD_CONST when b has 20 bits and c 16. */
  lemma LoadConstFits(b: nat, c: nat)
    requires b < 1048576 && c < 65536
    ensures Fits(THREE_FIELDS, [0, b, c])
  {
    HasFieldD();
  }

  /** A line of a known mnemonic and integer words that fit its layout assembles to the entry binding their values. */
  lemma OperandLine(m: string, ops: seq<string>, values: seq<int>)
    requires m != [] && NoSpace(m) && m[0] != '#'
    requires forall i :: 0 <= i < |ops| ==> ops[i] != [] && NoSpace(ops[i])
    requires Upper(m) in COMMANDS && ParseOperands(ops) == Ok(values) && Fits(COMMANDS[Upper(m)].fields, values)
    ensures var line := JoinWords([m] + ops);
      AssembleLine(line).Ok? && AssembleLine(line).value.Some? &&
      BindOperands(Upper(m), values) == Ok(AssembleLine(line).value.value)
  {
    var words := [m] + ops;
    ConvertedWords(m, ops, values);
    BindAccepts(Upper(m), values);
    forall i | 0 <= i < |words|
      ensures words[i] != [] && NoSpace(words[i])
    {
      if i > 0 {
        assert words[i] == ops[i - 1];
      }
    }
    JoinedLine(words);
  }

  /** The mnemonic LOAD_CONST as a word of a line. */
  lemma LoadConstWord(m: string)
    requires m == "LOAD_CONST"
    ensures m != [] && NoSpace(m) && m[0] != '#' && Upper(m) == m
    ensures m in COMMANDS && COMMANDS[m].fields == THREE_FIELDS
  {
    MnemonicWord(m);
    UpperIdempotent(m);
    LoadConstCommand();
  }

  lemma LoadConstCommand()
    ensures "LOAD_CONST" in COMMANDS && COMMANDS["LOAD_CONST"].fields == THREE_FIELDS
  {
    assert |"LOAD_CONST"| == 10 && "LOAD_CONST"[0] == 'L';
    assert "BITWISE_OR"[0] == 'B' && |"LOAD_MEM"| == 8;
  }

  /** Operand words, each the numeral of its value. */
  lemma NumeralOperands(ops: seq<string>, values: seq<nat>)
    requires |ops| == |values| && forall i :: 0 <= i < |ops| ==> ops[i] == IntText(values[i])
    ensures forall i :: 0 <= i < |ops| ==> ops[i] != [] && NoSpace(ops[i])
    ensures ParseOperands(ops) == Ok(values)
  {
    forall i | 0 <= i < |ops|
      ensures ops[i] != [] && NoSpace(ops[i]) && ParseInt(ops[i]) == Some(values[i] as int)
    {
      NumeralWord(values[i]);
    }
    ParseOperandsValues(ops, values);
  }

  /** A line "M 0 b c" of an upper-case three-field mnemonic M assembles to the entry M binds to 0, b, c. */
  lemma ThreeFieldLine(line: string, m: string, ops: seq<string>, b: nat, c: nat)
    requires m != [] && NoSpace(m) && m[0] != '#' && Upper(m) == m
    requires m in COMMANDS && COMMANDS[m].fields == THREE_FIELDS
    requires ops == [IntText(0), IntText(b), IntText(c)] && line == JoinWords([m] + ops)
    requires b < 1048576 && c < 65536
    ensures AssembleLine(line).Ok? && AssembleLine(line).value.Some? &&
      BindOperands(m, [0, b, c]) == Ok(AssembleLine(line).value.value)
  {
    LoadConstFits(b, c);
    NumeralOperands(ops, [0, b, c]);
    OperandLine(m, ops, [0, b, c]);
  }

  /** A block that decodes to opcode 0 with skewed operands b and c stores (c mod 16) * 64 into cell (b mod 16) * 64 + c / 1024. */
  lemma LoadConstRuns(mem: seq<int>, word: seq<byte>, b: nat, c: nat, target: nat, value: nat)
    requires ValidMemory(mem) && c < 65536
    requires |word| <= WORD_BYTES && Decode(word) == Skewed(0, b, c, 0)
    requires target == (b % 16) * 64 + c / 1024 && value == (c % 16) * 64
    ensures target < MEMORY_SIZE && Apply(mem, word) == mem[target := value]
  {
    SkewedExecutes(mem, 0, b, c, 0);
  }

  /** Two lines that each yield an instruction assemble to those two entries. */
  lemma TwoLines(lines: seq<string>, e1: LogEntry, e2: LogEntry)
    requires |lines| == 2 && AssembleLine(lines[0]) == Ok(Some(e1)) && AssembleLine(lines[1]) == Ok(Some(e2))
    ensures Assembly(lines) == Ok([e1, e2])
  {
    LineResultsTwo(lines);
    GatherTwo(LineResults(lines), e1, e2);
  }

  /** Two outcomes that each yield an instruction gather into those two entries. */
  lemma GatherTwo(results: seq<Result<Option<LogEntry>, AsmError>>, e1: LogEntry, e2: LogEntry)
    requires results == [Ok(Some(e1)), Ok(Some(e2))]
    ensures Gather(results) == Ok([e1, e2])
  {
    var none: seq<Result<Option<LogEntry>, AsmError>> := [];
    var tail: seq<Result<Option<LogEntry>, AsmError>> := [Ok(Some(e2))];
    GatherCons(e2, none, []);
    assert [Ok(Some(e2))] + none == tail && [e2] + [] == [e2];
    GatherCons(e1, tail, [e2]);
    assert results == [Ok(Some(e1))] + tail;
    assert [e1] + [e2] == [e1, e2];
  }

  /** An outcome that yields an instruction puts its entry in front of what the rest gathers into. */
  lemma GatherCons(e: LogEntry, rest: seq<Result<Option<LogEntry>, AsmError>>, entries: seq<LogEntry>)
    requires Gather(rest) == Ok(entries)
    ensures Gather([Ok(Some(e))] + rest) == Ok([e] + entries)
  {
    assert ([Ok(Some(e))] + rest)[1..] == rest;
  }

  lemma LineResultsTwo(lines: seq<string>)
    requires |lines| == 2
    ensures LineResults(lines) == [AssembleLine(lines[0]), AssembleLine(lines[1])]
  {
  }

  /** Two blocks concatenate to their sum. */
  lemma ConcatPair(x: seq<byte>, y: seq<byte>)
    ensures Concat([x, y]) == x + y
  {
    assert [x, y][1..] == [y] && [y][1..] == [];
    assert Concat([y]) == y + [];
  }

  /** Two whole words are read back as two blocks and run one after the other. */
  lemma RunTwoWords(mem: seq<int>, w1: seq<byte>, w2: seq<byte>)
    requires ValidMemory(mem) && |w1| == WORD_BYTES && |w2| == WORD_BYTES
    ensures RunBlocks(mem, Blocks(w1 + w2)) == Apply(Apply(mem, w1), w2)
  {
    var words := [w1, w2];
    ConcatPair(w1, w2);
    BlocksOfWords(words);
    var one: seq<seq<byte>> := [w2];
    assert words[1..] == one && one[1..] == [];
    var mem1 := Apply(mem, w1);
    assert RunBlocks(mem1, one) == RunBlocks(Apply(mem1, w2), []);
  }

  /** A memory whose first 256 cells are zero reports an all-zero snapshot. */
  lemma ZeroSnapshot(mem: seq<int>)
    requires ValidMemory(mem) && forall i :: 0 <= i < SNAPSHOT_SIZE ==> mem[i] == 0
    ensures mem[..SNAPSHOT_SIZE] == seq(SNAPSHOT_SIZE, _ => 0)
  {
  }

  /** Two blocks that decode as LOAD_CONST 0 10 42 and LOAD_CONST 0 20 99 do, run from a zeroed memory. */
  lemma TwoWordsRun(w1: seq<byte>, w2: seq<byte>)
    requires |w1| == WORD_BYTES && |w2| == WORD_BYTES
    requires Decode(w1) == Skewed(0, 10, 42, 0) && Decode(w2) == Skewed(0, 20, 99, 0)
    ensures RunBlocks(InitialMemory(), Blocks(w1 + w2)) == InitialMemory()[640 := 640][256 := 192]
  {
    var init := InitialMemory();
    RunTwoWords(init, w1, w2);
    LoadConstRuns(init, w1, 10, 42, 640, 640);
    LoadConstRuns(init[640 := 640], w2, 20, 99, 256, 192);
  }

  /** The entries of LOAD_CONST 0 10 42 and LOAD_CONST 0 20 99, run from a zeroed memory. */
  lemma TwoLoadConstEntries(m: string, e1: LogEntry, e2: LogEntry)
    requires m == "LOAD_CONST" && BindOperands(m, [0, 10, 42]) == Ok(e1) && BindOperands(m, [0, 20, 99]) == Ok(e2)
    ensures var binary := Concat(Words([e1, e2]));
      RunBlocks(InitialMemory(), Blocks(binary)) == InitialMemory()[640 := 640][256 := 192] &&
      Snapshot(binary) == seq(SNAPSHOT_SIZE, _ => 0)
  {
    LoadConstWord(m);
    LoadConstFits(10, 42);
    LoadConstFits(20, 99);
    HasFieldD();
    BoundEntryDecodes(m, [0, 10, 42]);
    BoundEntryDecodes(m, [0, 20, 99]);
    WordsTwo(e1, e2);
    ConcatPair(e1.binary, e2.binary);
    TwoWordsRun(e1.binary, e2.binary);
    TwoWritesSnapshot(Concat(Words([e1, e2])));
  }

  /** A run that leaves only cells 640 and 256 written reports an all-zero snapshot. */
  lemma TwoWritesSnapshot(binary: seq<byte>)
    requires RunBlocks(InitialMemory(), Blocks(binary)) == InitialMemory()[640 := 640][256 := 192]
    ensures Snapshot(binary) == seq(SNAPSHOT_SIZE, _ => 0)
  {
    ZeroSnapshot(InitialMemory()[640 := 640][256 := 192]);
  }

  lemma WordsTwo(e1: LogEntry, e2: LogEntry)
    ensures Words([e1, e2]) == [e1.binary, e2.binary]
  {
  }

  /** The two lines of the example as the numerals of their operands. */
  lemma ExampleText(lines: seq<string>)
    requires lines == ["LOAD_CONST 0 10 42", "LOAD_CONST 0 20 99"]
    ensures lines[0] == JoinWords(["LOAD_CONST"] + [IntText(0), IntText(10), IntText(42)])
    ensures lines[1] == JoinWords(["LOAD_CONST"] + [IntText(0), IntText(20), IntText(99)])
  {
    assert IntText(0) == "0" && IntText(10) == "10" && IntText(42) == "42";
    assert IntText(20) == "20" && IntText(99) == "99";
    assert ["LOAD_CONST"] + ["0", "10", "42"] == ["LOAD_CONST", "0", "10", "42"];
    assert ["LOAD_CONST"] + ["0", "20", "99"] == ["LOAD_CONST", "0", "20", "99"];
    assert JoinWords(["LOAD_CONST", "0", "10", "42"]) == "LOAD_CONST 0 10 42";
    assert JoinWords(["LOAD_CONST", "0", "20", "99"]) == "LOAD_CONST 0 20 99";
  }

  /**
   * The two-line program LOAD_CONST 0 10 42, LOAD_CONST 0 20 99 as the code
   * runs it: the first line stores 640 in cell 640 and the second 192 in cell
   * 256, so both writes miss the reported cells and the snapshot is all
   * zeros (cells 10 and 20 are not 42 and 99).
   */
  lemma TwoLoadConsts(lines: seq<string>)
    requires lines == ["LOAD_CONST 0 10 42", "LOAD_CONST 0 20 99"]
    ensures Assembly(lines).Ok? && |Assembly(lines).value| == 2
    ensures var binary := Concat(Words(Assembly(lines).value));
      RunBlocks(InitialMemory(), Blocks(binary)) == InitialMemory()[640 := 640][256 := 192] &&
      Snapshot(binary) == seq(SNAPSHOT_SIZE, _ => 0)
  {
    var m := "LOAD_CONST";
    ExampleText(lines);
    LoadConstWord(m);
    ThreeFieldLine(lines[0], m, [IntText(0), IntText(10), IntText(42)], 10, 42);
    ThreeFieldLine(lines[1], m, [IntText(0), IntText(20), IntText(99)], 20, 99);
    var e1, e2 := AssembleLine(lines[0]).value.value, AssembleLine(lines[1]).value.value;
    TwoLines(lines, e1, e2);
    TwoLoadConstEntries(m, e1, e2);
  }
}
