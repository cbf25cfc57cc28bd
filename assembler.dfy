/**
 * The line assembler of dz4/assembler_inteprator.py (assemble): each
 * source line that is not blank or a comment becomes one packed 9-byte
 * word and one log entry; the first failing line aborts the whole run
 * before anything is written.
 */
module Assembler {
  import opened Results
  import opened Bits
  import opened PyText
  import opened InstructionFormat
  import opened Interpreter

  /** The exceptions a line can raise, in the order the source can raise them. */
  datatype AsmError =
    | NotAnInteger(operand: string)      // int() rejects an operand
    | UnknownCommand(command: string)    // the mnemonic is not in the table
    | MissingOperand(index: nat)         // args[index] does not exist
    | FieldOutOfRange(error: PackError)  // pack_instruction rejects a value

  /** One log record: the upper-cased mnemonic, the field values and the packed word. */
  datatype LogEntry = LogEntry(command: string, fields: map<FieldName, int>, binary: seq<byte>)

  /** list(map(int, words)): every operand converted in order; the first that is not an integer raises. */
  function ParseOperands(words: seq<string>): (r: Result<seq<int>, AsmError>)
    ensures r.Ok? ==>
      |r.value| == |words| && forall i :: 0 <= i < |words| ==> ParseInt(words[i]) == Some(r.value[i])
    ensures r.Err? ==>
      exists i ::
        && 0 <= i < |words| && ParseInt(words[i]).None?
        && (forall j :: 0 <= j < i ==> ParseInt(words[j]).Some?)
        && r.error == NotAnInteger(words[i])
  {
    if words == [] then Ok([])
    else
      match ParseInt(words[0])
      case None => Err(NotAnInteger(words[0]))
      case Some(v) =>
        var rest :- ParseOperands(words[1..]);
        Ok([v] + rest)
  }

  /** Words that are all integers convert to exactly their values, in order. */
  lemma ParseOperandsValues(words: seq<string>, values: seq<int>)
    requires |words| == |values| && forall i :: 0 <= i < |words| ==> ParseInt(words[i]) == Some(values[i])
    ensures ParseOperands(words) == Ok(values)
  {
    var r := ParseOperands(words);
    assert forall i :: 0 <= i < |words| ==> ParseInt(words[i]).Some?;
    assert r.Ok?;
    assert forall i :: 0 <= i < |words| ==> r.value[i] == values[i];
    assert r.value == values;
  }

  /** Whether the line is skipped: empty or a comment once stripped. */
  predicate Skipped(line: string)
  {
    var s := Strip(line);
    s == [] || s[0] == '#'
  }

  /** The words of a kept line: mnemonic first, then the operands. */
  function LineWords(line: string): (r: seq<string>)
    requires !Skipped(line)
    ensures r != []
  {
    var s := Strip(line);
    StripSpec(line);
    SplitFirst(s);
    SplitWords(s)
  }

  /** How many operands a layout binds: A, B, C, and D when it has that field. */
  function Arity(fields: seq<FieldRange>): nat
  {
    if HasField(fields, D) then 4 else 3
  }

  /** Enough operands for the layout, each within its field's range (A 6 bits, B 20, C 16, D 20). */
  predicate Fits(fields: seq<FieldRange>, args: seq<int>)
  {
    |args| >= Arity(fields) &&
    0 <= args[0] < 64 && 0 <= args[1] < 1048576 && 0 <= args[2] < 65536 &&
    (HasField(fields, D) ==> 0 <= args[3] < 1048576)
  }

  /** The operands bound positionally to A, B, C (and D), then packed. */
  function BindOperands(command: string, args: seq<int>): Result<LogEntry, AsmError>
    requires command in COMMANDS
  {
    var spec := COMMANDS[command];
    CommandsStartWithA(command);
    if |args| < 3 || (HasField(spec.fields, D) && |args| < 4) then Err(MissingOperand(|args|))
    else
      var data := FieldData(spec.fields, args[0], args[1], args[2], if |args| > 3 then args[3] else 0);
      match Pack(spec.opcode, spec.fields, data)
      case Err(e) => Err(FieldOutOfRange(e))
      case Ok(word) => Ok(LogEntry(command, data, word))
  }

  /**
   * One instruction from its words: the operands are converted first, then
   * the mnemonic is looked up, then the operands are bound and packed.
   */
  function AssembleWords(parts: seq<string>): Result<LogEntry, AsmError>
    requires parts != []
  {
    var command := Upper(parts[0]);
    var args :- ParseOperands(parts[1..]);
    if command !in COMMANDS then Err(UnknownCommand(command)) else BindOperands(command, args)
  }

  /** One source line: nothing for a skipped line, otherwise its instruction. */
  function AssembleLine(line: string): Result<Option<LogEntry>, AsmError>
  {
    if Skipped(line) then Ok(None)
    else
      var entry :- AssembleWords(LineWords(line));
      Ok(Some(entry))
  }

  /** The loop's bookkeeping over the lines' outcomes: stop at the first error, else collect the entries in order. */
  function Gather(results: seq<Result<Option<LogEntry>, AsmError>>): Result<seq<LogEntry>, AsmError>
  {
    if results == [] then Ok([])
    else
      var first :- results[0];
      var rest :- Gather(results[1..]);
      Ok((if first.Some? then [first.value] else []) + rest)
  }

  function LineResults(lines: seq<string>): (r: seq<Result<Option<LogEntry>, AsmError>>)
    ensures |r| == |lines| && forall i :: 0 <= i < |lines| ==> r[i] == AssembleLine(lines[i])
  {
    seq(|lines|, i requires 0 <= i < |lines| => AssembleLine(lines[i]))
  }

  /** The whole source: the log entries of all lines in order, or the error of the first failing line. */
  function Assembly(lines: seq<string>): Result<seq<LogEntry>, AsmError>
  {
    Gather(LineResults(lines))
  }

  /** The packed words of a log, in order. */
  function Words(entries: seq<LogEntry>): (r: seq<seq<byte>>)
    ensures |r| == |entries|
  {
    seq(|entries|, i requires 0 <= i < |entries| => entries[i].binary)
  }

  /** The elements of xs whose flag is set, in order. */
  function Filter<T>(xs: seq<T>, keep: seq<bool>): (r: seq<T>)
    requires |keep| == |xs|
    ensures |r| <= |xs|
  {
    if xs == [] then [] else (if keep[0] then [xs[0]] else []) + Filter(xs[1..], keep[1..])
  }

  /** For each line, whether it is kept. */
  function KeepFlags(lines: seq<string>): seq<bool>
  {
    seq(|lines|, i requires 0 <= i < |lines| => !Skipped(lines[i]))
  }

  /** The lines that produce an instruction, in order. */
  function Kept(lines: seq<string>): seq<string>
  {
    Filter(lines, KeepFlags(lines))
  }


  /** Operands that fit are bound to the fields and packed into 9 bytes, whatever the command's opcode. */
  lemma BindAccepts(command: string, args: seq<int>)
    requires command in COMMANDS && Fits(COMMANDS[command].fields, args)
    ensures var r := BindOperands(command, args);
      var fields := COMMANDS[command].fields;
      var d := if HasField(fields, D) then args[3] else 0;
      r.Ok? && r.value.command == command &&
      r.value.fields == FieldData(fields, args[0], args[1], args[2], d) &&
      r.value.binary == ToBytes(ValueOf(WordLayout(args[0], args[1], args[2], d)), WORD_BYTES) &&
      |r.value.binary| == WORD_BYTES
  {
    var spec := COMMANDS[command];
    var fields := spec.fields;
    CommandsStartWithA(command);
    HasFieldD();
    var d := if HasField(fields, D) then args[3] else 0;
    var data := FieldData(fields, args[0], args[1], args[2], if |args| > 3 then args[3] else 0);
    var word := ToBytes(ValueOf(WordLayout(args[0], args[1], args[2], d)), WORD_BYTES);
    assert data == FieldData(fields, args[0], args[1], args[2], d);
    assert Pack(spec.opcode, fields, data) == Ok(word) && |word| == WORD_BYTES by {
      Pow2Constants();
      PackWord(spec.opcode, fields, args[0], args[1], args[2], d);
    }
  }

  /** Operands that do not fit are refused: too few of them first, otherwise a field out of range. */
  lemma BindRejects(command: string, args: seq<int>)
    requires command in COMMANDS && !Fits(COMMANDS[command].fields, args)
    ensures var r := BindOperands(command, args);
      r.Err? &&
      (|args| < Arity(COMMANDS[command].fields) ==> r.error == MissingOperand(|args|)) &&
      (|args| >= Arity(COMMANDS[command].fields) ==> r.error.FieldOutOfRange?)
  {
    var spec := COMMANDS[command];
    CommandsStartWithA(command);
    HasFieldD();
    Pow2Constants();
    if |args| >= Arity(spec.fields) {
      PackRejects(spec.opcode, spec.fields, args[0], args[1], args[2], if |args| > 3 then args[3] else 0);
    }
  }

  /**
   * A line's words assemble exactly when every operand is an integer, the
   * upper-cased mnemonic is in the table and the operands fit its layout;
   * a non-integer operand is reported before an unknown mnemonic.
   */
  lemma AssembleWordsAccepts(parts: seq<string>)
    requires parts != []
    ensures var r := AssembleWords(parts);
      var command, args := Upper(parts[0]), ParseOperands(parts[1..]);
      (r.Ok? <==> args.Ok? && command in COMMANDS && Fits(COMMANDS[command].fields, args.value)) &&
      (args.Err? ==> r == Err(args.error)) &&
      (args.Ok? && command !in COMMANDS ==> r == Err(UnknownCommand(command))) &&
      (r.Ok? ==> r.value.command == command && |r.value.binary| == WORD_BYTES)
  {
    var command, args := Upper(parts[0]), ParseOperands(parts[1..]);
    if args.Ok? && command in COMMANDS {
      if Fits(COMMANDS[command].fields, args.value) {
        BindAccepts(command, args.value);
      } else {
        BindRejects(command, args.value);
      }
    }
  }

  /** Converting operands followed by further integers: the same outcome for the first ones. */
  lemma {:induction false} ParseOperandsAppend(ops: seq<string>, extra: seq<string>)
    requires forall i :: 0 <= i < |extra| ==> ParseInt(extra[i]).Some?
    ensures var p, p' := ParseOperands(ops), ParseOperands(ops + extra);
      p.Ok? == p'.Ok? && (p.Ok? ==> p'.value[..|ops|] == p.value) && (p.Err? ==> p'.error == p.error)
  {
    if ops == [] {
      assert ops + extra == extra;
    } else {
      assert (ops + extra)[0] == ops[0] && (ops + extra)[1..] == ops[1..] + extra;
      ParseOperandsAppend(ops[1..], extra);
    }
  }

  /** Operands beyond the four a command can bind are converted but otherwise ignored. */
  lemma ExtraOperandsIgnored(parts: seq<string>, extra: seq<string>)
    requires |parts| > 4
    requires forall i :: 0 <= i < |extra| ==> ParseInt(extra[i]).Some?
    ensures AssembleWords(parts + extra) == AssembleWords(parts)
  {
    var ops := parts[1..];
    assert (parts + extra)[1..] == ops + extra && (parts + extra)[0] == parts[0];
    ParseOperandsAppend(ops, extra);
    var p, p' := ParseOperands(ops), ParseOperands(ops + extra);
    if p.Ok? {
      var a, a' := p.value, p'.value;
      assert a'[0] == a[0] && a'[1] == a[1] && a'[2] == a[2] && a'[3] == a[3];
    }
  }

  /**
   * The mnemonic's own opcode never reaches the word: two mnemonics with the
   * same layout and the same operands assemble to the same bytes.
   */
  lemma MnemonicOpcodeLost(name1: string, name2: string, args: seq<int>)
    requires name1 in COMMANDS && name2 in COMMANDS
    requires COMMANDS[name1].fields == COMMANDS[name2].fields
    ensures var r1, r2 := BindOperands(name1, args), BindOperands(name2, args);
      r1.Ok? == r2.Ok? && (r1.Ok? ==> r1.value.binary == r2.value.binary)
  {
    var spec1, spec2 := COMMANDS[name1], COMMANDS[name2];
    var fields := spec1.fields;
    assert ValidLayout(fields) && |fields| > 0 && fields[0] == FieldRange(A, 0, 5) by { CommandsStartWithA(name1); }
    if |args| >= 3 {
      var data := FieldData(fields, args[0], args[1], args[2], if |args| > 3 then args[3] else 0);
      assert Pack(spec1.opcode, fields, data) == Pack(spec2.opcode, fields, data) by {
        PackIgnoresOpcode(spec1.opcode, spec2.opcode, fields, data);
      }
    }
  }

  /** The loop stops at the first failing line: an error exactly when some line fails, and it is the first one's. */
  lemma {:induction false} GatherFails(results: seq<Result<Option<LogEntry>, AsmError>>)
    ensures Gather(results).Err? <==> exists i :: 0 <= i < |results| && results[i].Err?
    ensures Gather(results).Err? ==>
      exists i ::
        && 0 <= i < |results| && results[i].Err?
        && (forall j :: 0 <= j < i ==> results[j].Ok?)
        && Gather(results).error == results[i].error
  {
    if results != [] {
      var tail := results[1..];
      GatherFails(tail);
      if results[0].Ok? {
        if Gather(tail).Err? {
          var i :| 0 <= i < |tail| && tail[i].Err? &&
            (forall j :: 0 <= j < i ==> tail[j].Ok?) && Gather(tail).error == tail[i].error;
          assert results[i + 1] == tail[i];
          forall j | 0 <= j < i + 1
            ensures results[j].Ok?
          {
            if j > 0 {
              assert results[j] == tail[j - 1];
            }
          }
        } else {
          forall i | 0 <= i < |results|
            ensures results[i].Ok?
          {
            if i > 0 {
              assert results[i] == tail[i - 1];
            }
          }
        }
      }
    }
  }

  /** When no line fails, the entries are the instructions of the lines that yield one, in order. */
  lemma {:induction false} GatherEntries(results: seq<Result<Option<LogEntry>, AsmError>>, keep: seq<bool>)
    requires |keep| == |results|
    requires forall i :: 0 <= i < |results| ==> results[i].Ok? && (results[i].value.Some? <==> keep[i])
    ensures Gather(results).Ok?
    ensures var entries, kept := Gather(results).value, Filter(results, keep);
      |entries| == |kept| && forall i :: 0 <= i < |entries| ==> kept[i] == Ok(Some(entries[i]))
  {
    if results != [] {
      var tail, keep' := results[1..], keep[1..];
      GatherEntries(tail, keep');
      var rest, kept' := Gather(tail).value, Filter(tail, keep');
      if keep[0] {
        assert Gather(results).value == [results[0].value.value] + rest;
        assert Filter(results, keep) == [results[0]] + kept';
      } else {
        assert Gather(results).value == rest;
        assert Filter(results, keep) == kept';
      }
    }
  }

  /** Filtering commutes with applying f to every element. */
  lemma {:induction false} FilterMap<X, Y>(xs: seq<X>, ys: seq<Y>, keep: seq<bool>, f: X -> Y)
    requires |xs| == |ys| == |keep|
    requires forall i :: 0 <= i < |xs| ==> ys[i] == f(xs[i])
    ensures |Filter(ys, keep)| == |Filter(xs, keep)|
    ensures forall i :: 0 <= i < |Filter(xs, keep)| ==> Filter(ys, keep)[i] == f(Filter(xs, keep)[i])
  {
    if xs != [] {
      FilterMap(xs[1..], ys[1..], keep[1..], f);
      var fx, fy := Filter(xs[1..], keep[1..]), Filter(ys[1..], keep[1..]);
      if keep[0] {
        assert Filter(xs, keep) == [xs[0]] + fx && Filter(ys, keep) == [ys[0]] + fy;
      } else {
        assert Filter(xs, keep) == fx && Filter(ys, keep) == fy;
      }
    }
  }

  /** Assembly fails exactly when some line fails, with the first failing line's error, and then yields no entries. */
  lemma AssemblyFails(lines: seq<string>)
    ensures Assembly(lines).Err? <==> exists i :: 0 <= i < |lines| && LineResults(lines)[i].Err?
    ensures Assembly(lines).Err? ==>
      exists i ::
        && 0 <= i < |lines| && LineResults(lines)[i].Err?
        && (forall j :: 0 <= j < i ==> LineResults(lines)[j].Ok?)
        && Assembly(lines).error == LineResults(lines)[i].error
  {
    GatherFails(LineResults(lines));
  }

  /** A line yields no instruction exactly when it is skipped; an instruction it yields is a known command's 9-byte word. */
  lemma LineOutcome(line: string)
    requires AssembleLine(line).Ok?
    ensures AssembleLine(line).value.None? <==> Skipped(line)
    ensures AssembleLine(line).value.Some? ==>
      AssembleLine(line).value.value.command in COMMANDS &&
      |AssembleLine(line).value.value.binary| == WORD_BYTES
  {
    if !Skipped(line) {
      AssembleWordsAccepts(LineWords(line));
    }
  }

  /** A successful assembly has one entry per kept line, in source order, each a known command's 9-byte word. */
  lemma AssemblyEntries(lines: seq<string>)
    requires Assembly(lines).Ok?
    ensures var entries := Assembly(lines).value;
      |entries| == |Kept(lines)| &&
      forall i :: 0 <= i < |entries| ==>
        AssembleLine(Kept(lines)[i]) == Ok(Some(entries[i])) &&
        entries[i].command in COMMANDS && |entries[i].binary| == WORD_BYTES
  {
    var results, keep := LineResults(lines), KeepFlags(lines);
    GatherFails(results);
    forall i | 0 <= i < |lines|
      ensures results[i].Ok? && (results[i].value.Some? <==> keep[i])
    {
      LineOutcome(lines[i]);
    }
    GatherEntries(results, keep);
    FilterMap(lines, results, keep, AssembleLine);
    var entries := Assembly(lines).value;
    forall i | 0 <= i < |entries|
      ensures entries[i].command in COMMANDS && |entries[i].binary| == WORD_BYTES
    {
      LineOutcome(Kept(lines)[i]);
    }
  }

  /** One line of the assembler loop, packing in place with pack_instruction. */
  method TranslateLine(line: string) returns (r: Result<Option<LogEntry>, AsmError>)
    ensures r == AssembleLine(line)
  {
    var stripped := Strip(line);
    if stripped == [] || stripped[0] == '#' {
      return Ok(None);
    }
    var parts := LineWords(line);
    var command := Upper(parts[0]);
    var args := ParseOperands(parts[1..]);
    if args.Err? {
      return Err(args.error);
    }
    if command !in COMMANDS {
      return Err(UnknownCommand(command));
    }
    var opcode, fields := COMMANDS[command].opcode, COMMANDS[command].fields;
    var a := args.value;
    if |a| < 3 || (HasField(fields, D) && |a| < 4) {
      return Err(MissingOperand(|a|));
    }
    var data := FieldData(fields, a[0], a[1], a[2], if |a| > 3 then a[3] else 0);
    CommandsStartWithA(command);
    var instruction := PackInstruction(opcode, fields, data);
    if instruction.Err? {
      return Err(FieldOutOfRange(instruction.error));
    }
    r := Ok(Some(LogEntry(command, data, instruction.value)));
  }

  /** The done entries followed by whatever the remaining lines produce. */
  function Prepend(done: seq<LogEntry>, rest: Result<seq<LogEntry>, AsmError>): Result<seq<LogEntry>, AsmError>
  {
    match rest
    case Ok(entries) => Ok(done + entries)
    case Err(e) => Err(e)
  }

  /** The log entries one line's outcome contributes: its instruction, if any. */
  function Produced(outcome: Option<LogEntry>): seq<LogEntry>
  {
    if outcome.Some? then [outcome.value] else []
  }

  /** One turn of the loop: a failing line ends everything with its error; otherwise its instruction joins the done ones. */
  lemma GatherStep(done: seq<LogEntry>, results: seq<Result<Option<LogEntry>, AsmError>>, k: nat)
    requires k < |results|
    ensures results[k].Err? ==> Prepend(done, Gather(results[k..])) == Err(results[k].error)
    ensures results[k].Ok? ==>
      Prepend(done, Gather(results[k..])) == Prepend(done + Produced(results[k].value), Gather(results[k + 1..]))
  {
    var rest := results[k..];
    assert rest[0] == results[k] && rest[1..] == results[k + 1..];
    if results[k].Ok? && Gather(rest[1..]).Ok? {
      var first := Produced(results[k].value);
      assert done + (first + Gather(rest[1..]).value) == done + first + Gather(rest[1..]).value;
    }
  }

  /** The words of a log with one more entry. */
  lemma WordsAppend(log: seq<LogEntry>, entry: LogEntry)
    ensures Words(log + [entry]) == Words(log) + [entry.binary]
  {
  }

  /**
   * assemble: the loop over the lines appending to the instruction and log
   * lists; on success, the concatenated words (the binary file's contents)
   * and the log.
   */
  method Assemble(lines: seq<string>) returns (r: Result<(seq<byte>, seq<LogEntry>), AsmError>)
    ensures Assembly(lines).Ok? ==> r == Ok((Concat(Words(Assembly(lines).value)), Assembly(lines).value))
    ensures Assembly(lines).Err? ==> r == Err(Assembly(lines).error)
  {
    ghost var results := LineResults(lines);
    ghost var total := Assembly(lines);
    var instructions: seq<seq<byte>> := [];
    var log: seq<LogEntry> := [];
    var k := 0;
    assert results[k..] == results;
    assert total.Ok? ==> log + total.value == total.value;
    while k < |lines|
      invariant 0 <= k <= |lines|
      invariant total == Prepend(log, Gather(results[k..]))
      invariant instructions == Words(log)
    {
      var line := TranslateLine(lines[k]);
      assert results[k] == line;
      GatherStep(log, results, k);
      if line.Err? {
        return Err(line.error);
      }
      if line.value.Some? {
        var entry := line.value.value;
        WordsAppend(log, entry);
        assert Produced(line.value) == [entry];
        instructions := instructions + [entry.binary];
        log := log + [entry];
      } else {
        assert log + Produced(line.value) == log;
      }
      k := k + 1;
    }
    assert results[k..] == [];
    assert log + [] == log;
    r := Ok((Concat(instructions), log));
  }
}
