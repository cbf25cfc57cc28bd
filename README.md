# dz_conf core in Dafny

A Dafny model of four programs from the dz_conf coursework repository, with
proofs about each.

- **The assembler and virtual machine** (`dz4/assembler_inteprator.py`).
  - `assemble` turns each source line that is not blank or a comment into a
    72-bit instruction word. It packs the opcode and the fields A, B, C and D
    of a six-entry command table into a bit list, then writes the list as
    9 big-endian bytes. The first bad line aborts the whole run.
  - `interpret` reads the binary back nine bytes at a time. It unpacks the
    opcode and the remaining 66 bits, reduces the addresses modulo the
    1024-cell memory and performs one memory write per recognised opcode. An
    instruction that raises is reported and skipped.
  - When the whole stream has been read, `interpret` reports the first 256
    cells.
- **The configuration-language parser** (`dz3/translator.py`, class
  `ConfigParser`): a recursive-descent parser over a token list.
  - It reads `NAME := value` items.
  - Values are strings, numbers, booleans, `{ ... }` arrays,
    `table([ K = v, ... ])` tables, earlier names and postfix `!( ... )`
    expressions.
  - It keeps a context of the values assigned so far.
- **The npm dependency-graph builder** (`dz2/package-parser.js`): a
  depth-bounded walk from the root `package.json` through
  `node_modules/<name>/package.json`, with a visited set per root dependency.
- **The PlantUML generator** (`dz2/plantuml-gen.js`): one edge line per
  (package, dependency) pair inside a `digraph G { ... }` frame, the lines
  joined with `"\n"`.

Layout:

| file | module | what |
|---|---|---|
| `results.dfy` | `Results` | `Option`, `Result` and `Outcome` for the exceptions the programs raise |
| `dicts.dfy` | `Dicts` | insertion-ordered dictionaries (Python dicts, JavaScript objects) as association lists |
| `bits.dfy` | `Bits` | bit strings most significant bit first, big-endian bytes, `>>`, `int(s, 2)`, `to_bytes` and `from_bytes` |
| `pytext.dfy` | `PyText` | `str.strip()`, `str.split()`, `str.upper()` and `int()` on a word |
| `instruction_format.dfy` | `InstructionFormat` | the command table, `pack_instruction` (functions and an in-place array method), `unpack_instruction` and field extraction |
| `assembler.dfy` | `Assembler` | `assemble` as functions over the lines and as a method with a loop |
| `interpreter.dfy` | `Interpreter` | `interpret`: per-instruction execution, the block reader, the run over a memory array |
| `pipeline.dfy` | `Pipeline` | the assembler's output fed to the interpreter, as the main block does |
| `config_values.dfy` | `ConfigValues` | values of the configuration language, Python `+ - * /` on them, postfix evaluation |
| `config_parser.dfy` | `Translator` | the reading functions and the class `ConfigParser`, whose methods are proved equal to them |
| `config_properties.dfy` | `TranslatorProperties` | what the parser guarantees |
| `package_parser.dfy` | `PackageParser` | `parseDependencies` as functions and as the class `DependencyParser` that updates its graph and visited set |
| `plantuml.dfy` | `PlantUml` | `generatePlantUML` as a method and the shape of its text |

## What the assembler and interpreter do that a reader would not expect

The model follows the code. The lemmas below prove what the code does in each
of these cases.

- **Pack and unpack are not inverses.** Nothing in the code claims they are,
  but the assembler's log records the operands it packed, and the interpreter
  reads them back as if they were the fields of the word.
  - In the command table, field A has the bit range 0..5, the same bits as the
    opcode. `pack_instruction` writes the opcode first and then A over it, so
    the packed word never carries the mnemonic's opcode.
    - `InstructionFormat.PackIgnoresOpcode` proves this for any layout whose
      first field is 0..5.
    - `Assembler.MnemonicOpcodeLost` proves it for the table: two mnemonics
      with the same layout assemble the same operands to the same bytes.
  - `unpack_instruction` returns A as the opcode. Field extraction then reads
    A, B, C and D from the remaining 66 bits at the table's offsets, which is
    six bits later in the word than they were packed. So even with A = 0 the
    round trip does not hold.
    - `InstructionFormat.DecodePacked` gives the decoder's result in closed
      form (`Skewed`).
    - `Pipeline.SkewedExecutes` states which cell an assembled instruction
      writes.
- **The two-line program of the LOAD_CONST test does not store 42 and 99.**
  - dz4/test.py:37-43 writes `LOAD_CONST 0 10 42` then `LOAD_CONST 0 20 99`.
    Its comments and assertions expect 42 in cell 10 and 99 in cell 20. As the
    code runs it, the first line stores 640 in cell 640 and the second stores
    192 in cell 256. Both writes fall outside the 256 reported cells, so the
    snapshot is all zeros (`Pipeline.TwoLoadConsts`).
- **The bounds checks never fire.**
  - Each bounds check in `interpret` follows a reduction modulo 1024, so an
    instruction fails exactly when its opcode is above 5
    (`Interpreter.ExecuteFails`).

## Model

| member | source | states |
|---|---|---|
| Bits.BitsOf | dz4/assembler_inteprator.py:36-37 | the field written MSB first into `bit_length` bits has exactly that many bits |
| Bits.ValueOf | dz4/assembler_inteprator.py:78-80 | reading a bit string as a binary numeral gives a value below 2^length |
| Bits.ShrIsDiv | dz4/assembler_inteprator.py:23 | shifting right by k bits is division by 2^k |
| Bits.ValueOfBitsOf | dz4/assembler_inteprator.py:36-41 | writing v into w bits and reading the bits back as a numeral gives v mod 2^w |
| Bits.BitsOfValueOf | dz4/assembler_inteprator.py:78-80 | reading a bit string as a numeral and writing it back into as many bits gives the same string |
| Bits.ValueOfAppend | dz4/assembler_inteprator.py:40-41 | the numeral of x followed by y is value(x) * 2^len(y) + value(y) |
| Bits.BitsOfSplit | dz4/assembler_inteprator.py:36-37 | the w = hi + lo low bits of v are the hi bits above position lo, then the lo low bits |
| Bits.BitsOfAt | dz4/assembler_inteprator.py:36-37 | position i of the w-bit form of v holds bit w-1-i of v, the bit the inner loop writes there |
| Bits.BitsOfZero | dz4/assembler_inteprator.py:19 | the w-bit form of 0 is w zero bits, the list the packer starts from |
| Bits.BitsOfLowBits | dz4/assembler_inteprator.py:36-37 | the w-bit form depends only on v mod 2^w |
| Bits.ToBytes | dz4/assembler_inteprator.py:41 | `to_bytes(9, "big")` yields exactly the requested number of bytes |
| Bits.FromBytes | dz4/assembler_inteprator.py:85 | the big-endian value of k bytes is below 2^(8k) |
| Bits.FromBytesToBytes | dz4/assembler_inteprator.py:41 | `from_bytes` of `to_bytes(n, k)` gives back n for every n below 2^(8k) |
| Dicts.Keys | dz3/translator.py:46-55 | the keys in insertion order, one per entry |
| Dicts.PutLookup | dz3/translator.py:54-55 | after `d[key] = v`, d[key] is v and every other key reads as before |
| Dicts.PutKeys | dz3/translator.py:55 | `d[key] = v` keeps a present key in its place and appends a new key last |
| Dicts.PutDistinct | dz3/translator.py:153 | a dict built by assignments never holds a key twice |
| Dicts.LookupKeys | dz3/translator.py:54-55 | a key reads as present exactly when it is one of the keys |
| Dicts.PutAt | dz2/package-parser.js:24 | entry by entry: the key's entry holds the new value, other entries are unchanged, a new key comes last |
| PyText.StripLeft | dz4/assembler_inteprator.py:51 | the result is a suffix of s; what it drops is whitespace; it starts with non-whitespace or is empty |
| PyText.StripRight | dz4/assembler_inteprator.py:51 | the result is a prefix of s; what it drops is whitespace; it ends with non-whitespace or is empty |
| PyText.StripBounds | dz4/assembler_inteprator.py:51 | `strip()` is the slice s[i..j] with only whitespace before i and from j on |
| PyText.StripEnds | dz4/assembler_inteprator.py:51 | a stripped text neither starts nor ends with whitespace |
| PyText.StripSpec | dz4/assembler_inteprator.py:51 | `strip()` removes a whitespace prefix and a whitespace suffix and nothing else |
| PyText.StripNothing | dz4/assembler_inteprator.py:51 | a text that starts and ends with non-whitespace is its own strip |
| PyText.TakeWord | dz4/assembler_inteprator.py:54 | the leading word is a whitespace-free prefix that ends at whitespace or at the end of s |
| PyText.SplitWords | dz4/assembler_inteprator.py:54 | `split()` yields non-empty, whitespace-free words |
| PyText.SplitFirst | dz4/assembler_inteprator.py:54-55 | a text with no leading whitespace splits into words whose first is its leading word |
| PyText.SplitLeadingSpace | dz4/assembler_inteprator.py:54 | leading whitespace does not change the split |
| PyText.SplitAfterWord | dz4/assembler_inteprator.py:54 | a word, a space and more text split into that word, then the split of the rest |
| PyText.SplitOneWord | dz4/assembler_inteprator.py:54 | a single word splits into itself |
| PyText.SplitJoin | dz4/assembler_inteprator.py:54 | splitting words joined by single spaces gives the words back |
| PyText.UpperIdempotent | dz4/assembler_inteprator.py:55 | upper-casing a text with no lower-case ASCII letter leaves it unchanged |
| PyText.UpperAscii | dz4/assembler_inteprator.py:55 | among ASCII characters exactly the lower-case letters change, each to its capital |
| PyText.Decimal | dz4/assembler_inteprator.py:56 | the decimal numeral of n is a non-empty string of digits |
| PyText.DecimalValue | dz4/assembler_inteprator.py:56 | the numeral of n has the value n |
| PyText.ParseIntText | dz4/assembler_inteprator.py:56 | `int(str(n)) == n` for every integer n |
| PyText.ParseIntAccepts | dz4/assembler_inteprator.py:56 | a word `int()` accepts has a digit and holds only digits, underscores and a leading sign |
| InstructionFormat.Overwrite | dz4/assembler_inteprator.py:36-37 | writing a field keeps the word's length |
| InstructionFormat.OverwriteAt | dz4/assembler_inteprator.py:36-37 | after writing a field, positions inside its range come from the field and all others from the old word |
| InstructionFormat.FillFields | dz4/assembler_inteprator.py:26-37 | a successful fill leaves a 72-bit word |
| InstructionFormat.FillFieldsFails | dz4/assembler_inteprator.py:26-33 | filling fails exactly when some field's value is outside 0..2^width-1, with the first such field, its value and its maximum |
| InstructionFormat.FillFieldsErrorIgnoresBits | dz4/assembler_inteprator.py:26-33 | whether the fill fails, and its error, do not depend on the bits written so far |
| InstructionFormat.FillStep | dz4/assembler_inteprator.py:26-37 | a first field whose value fits is written, then the other fields follow |
| InstructionFormat.FillAppend | dz4/assembler_inteprator.py:26-37 | filling two runs of fields is filling the first, then the second over its result |
| InstructionFormat.FillSuffix | dz4/assembler_inteprator.py:26-37 | at field k the loop either fails with that field's range error or writes it and goes on with the rest |
| InstructionFormat.WordLayout | dz4/assembler_inteprator.py:9-14 | the packed form of operands a, b, c, d is a 72-bit word |
| InstructionFormat.HasFieldD | dz4/assembler_inteprator.py:9-14 | only the STORE_MEM and BITWISE_OR layout has a field D |
| InstructionFormat.LayoutsValid | dz4/assembler_inteprator.py:9-14 | every field of both layouts lies inside the 72-bit word |
| InstructionFormat.CommandsStartWithA | dz4/assembler_inteprator.py:8-16 | every command has one of the two layouts and an opcode in 0..5, and its first field is A over bits 0..5 |
| InstructionFormat.FieldDataValues | dz4/assembler_inteprator.py:61-63 | the data map gives A, B and C their operands, and D its operand only when the layout has D (0 otherwise) |
| InstructionFormat.PackBitsThree | dz4/assembler_inteprator.py:18-37 | the three-field layout packs A, B and C that fit into A, B, C and zeros, whatever the opcode |
| InstructionFormat.PackBitsFour | dz4/assembler_inteprator.py:18-37 | the four-field layout packs A, B, C and D that fit into A, B, C, D and zeros, whatever the opcode |
| InstructionFormat.PackBitsLayout | dz4/assembler_inteprator.py:18-37 | for either layout, fitting operands pack into the layout word, with D only for the four-field layout |
| InstructionFormat.ThreeWrites | dz4/assembler_inteprator.py:19-37 | writing the opcode, then A, B and C over zeros leaves the layout word with no trace of the opcode |
| InstructionFormat.FourthWrite | dz4/assembler_inteprator.py:36-37 | writing D over the three-field word gives the four-field word |
| InstructionFormat.PackWord | dz4/assembler_inteprator.py:18-41 | a successful pack is exactly 9 bytes, the big-endian form of the layout word, for any opcode |
| InstructionFormat.PackRejects | dz4/assembler_inteprator.py:29-33 | a value outside its field's range makes packing fail, for either layout |
| InstructionFormat.PackIgnoresOpcode | dz4/assembler_inteprator.py:21-37 | when the first field covers bits 0..5, the opcode argument does not affect the packed word |
| InstructionFormat.WriteField | dz4/assembler_inteprator.py:36-37 | the inner loop writes value MSB first into positions start..start+width-1 and changes nothing else |
| InstructionFormat.PackInstruction | dz4/assembler_inteprator.py:18-41 | the in-place packer returns exactly what the packing function gives, range errors included |
| InstructionFormat.Unpack | dz4/assembler_inteprator.py:83-88 | unpacking a block gives an opcode below 64 and 66 remaining bits |
| InstructionFormat.UnpackLayout | dz4/assembler_inteprator.py:83-88 | unpacking a packed word gives A as the opcode and word bits 6..71 as the rest |
| InstructionFormat.DecodedA | dz4/assembler_inteprator.py:104 | the A read back is the top six bits of the packed B |
| InstructionFormat.DecodedB | dz4/assembler_inteprator.py:105 | the B read back is the low 14 bits of packed B, then the top 6 bits of packed C |
| InstructionFormat.DecodedC | dz4/assembler_inteprator.py:106 | the C read back is the low 10 bits of packed C, then the top 6 bits of packed D |
| InstructionFormat.DecodedD | dz4/assembler_inteprator.py:107 | the D read back is the low 14 bits of packed D followed by six zero bits |
| InstructionFormat.DecodeWordLayout | dz4/assembler_inteprator.py:83-107 | decoding a packed word gives opcode A and the four fields each read six bits late |
| InstructionFormat.DecodePacked | dz4/assembler_inteprator.py:18-107 | packing fitting operands with any table opcode succeeds in 9 bytes, and decoding them gives A as the opcode and the skewed fields |
| Interpreter.BitOrAt | dz4/assembler_inteprator.py:135 | every bit of the bitwise OR of x and y is the disjunction of the operands' bits |
| Interpreter.BitXorAt | dz4/assembler_inteprator.py:149 | every bit of the bitwise XOR of x and y is the exclusive or of the operands' bits |
| Interpreter.ExecuteFails | dz4/assembler_inteprator.py:104-153 | an instruction fails exactly when its opcode is above 5, with UnknownOpcode; the bounds checks never fire |
| Interpreter.ExecuteWrites | dz4/assembler_inteprator.py:104-150 | opcodes 0..5 write only cell B mod 1024, by their rules (C; mem[C]; mem[C]+mem[D]; mem[C] OR mem[D]; mem[B]+mem[C]; mem[B] XOR mem[C]); every other cell and non-negativity are kept |
| Interpreter.Blocks | dz4/assembler_inteprator.py:97 | the stream is read in blocks of 1 to 9 bytes |
| Interpreter.ConcatBlocks | dz4/assembler_inteprator.py:97 | reading in blocks loses and reorders nothing |
| Interpreter.BlocksOfWords | dz4/assembler_inteprator.py:72-97 | a stream of whole 9-byte words is read back as exactly those words |
| Interpreter.Apply | dz4/assembler_inteprator.py:98-157 | one block leaves a valid 1024-cell, non-negative memory |
| Interpreter.RunBlocks | dz4/assembler_inteprator.py:97-157 | the loop over all blocks keeps the memory valid |
| Interpreter.InitialMemory | dz4/assembler_inteprator.py:93 | the initial memory is valid |
| Interpreter.Snapshot | dz4/assembler_inteprator.py:160 | the report has 256 non-negative cells |
| Interpreter.RunBlocksAppend | dz4/assembler_inteprator.py:97-157 | running a stream in two parts is running the first, then the second from the memory it left |
| Interpreter.SkipUnknownOpcode | dz4/assembler_inteprator.py:152-157 | a block with an unknown opcode is skipped: the run is the same as without it |
| Interpreter.RunFirstBlock | dz4/assembler_inteprator.py:97-98 | running from a position applies the block of up to nine bytes read there, then runs from its end |
| Interpreter.ExecuteIn | dz4/assembler_inteprator.py:104-157 | the dispatch on the memory array writes what Execute gives, or reports its error and leaves memory unchanged |
| Interpreter.Step | dz4/assembler_inteprator.py:98-157 | one loop iteration leaves the memory the block's Apply gives, and reports an error exactly when the instruction raises |
| Interpreter.Run | dz4/assembler_inteprator.py:92-160 | `interpret` over a byte stream returns the snapshot of the whole run |
| Assembler.ParseOperands | dz4/assembler_inteprator.py:56 | on success one integer per operand word, each `int()` of its word; otherwise the error names the first word `int()` rejects |
| Assembler.ParseOperandsValues | dz4/assembler_inteprator.py:56 | words that are all integers convert to exactly their values, in order |
| Assembler.ParseOperandsAppend | dz4/assembler_inteprator.py:56 | adding integer words after the operands does not change which word fails, or the values of the first ones |
| Assembler.LineWords | dz4/assembler_inteprator.py:51-54 | a kept line has at least one word, the mnemonic |
| Assembler.BindAccepts | dz4/assembler_inteprator.py:59-64 | operands that fit are bound to A, B, C (and D) and packed into the 9-byte layout word, recorded under the command |
| Assembler.BindRejects | dz4/assembler_inteprator.py:29-64 | operands that do not fit are refused: too few of them first, otherwise a field out of range |
| Assembler.AssembleWordsAccepts | dz4/assembler_inteprator.py:54-64 | a line's words assemble exactly when the operands are integers, the upper-cased mnemonic is known and the operands fit; a bad operand is reported before an unknown mnemonic |
| Assembler.ExtraOperandsIgnored | dz4/assembler_inteprator.py:56-63 | operands beyond the fourth are converted but otherwise ignored |
| Assembler.MnemonicOpcodeLost | dz4/assembler_inteprator.py:59-64 | two mnemonics with the same layout assemble the same operands to the same bytes |
| Assembler.LineOutcome | dz4/assembler_inteprator.py:51-70 | a line yields no instruction exactly when it is skipped; an instruction it yields is a known command's 9-byte word |
| Assembler.GatherFails | dz4/assembler_inteprator.py:50-70 | the loop fails exactly when some line fails, with the first failing line's error |
| Assembler.GatherEntries | dz4/assembler_inteprator.py:50-70 | when no line fails, the entries are the instructions of the lines that yield one, in order |
| Assembler.GatherStep | dz4/assembler_inteprator.py:50-70 | a failing line ends the loop with its error; otherwise its instruction joins the ones already done |
| Assembler.AssemblyFails | dz4/assembler_inteprator.py:49-70 | assembly fails exactly when some line fails, with the first failing line's error |
| Assembler.AssemblyEntries | dz4/assembler_inteprator.py:49-70 | a successful assembly has one entry per kept line, in order, each that line's instruction: a known command and a 9-byte word |
| Assembler.WordsAppend | dz4/assembler_inteprator.py:65-72 | appending an entry appends its word |
| Assembler.TranslateLine | dz4/assembler_inteprator.py:51-70 | the method for one line gives the outcome of the line function |
| Assembler.Assemble | dz4/assembler_inteprator.py:46-74 | `assemble` returns the concatenated words and the log of the whole source, or the first failing line's error |
| Pipeline.BoundEntryDecodes | dz4/assembler_inteprator.py:59-107 | the entry for fitting operands records them as its fields, and its word decodes to them skewed with A as the opcode |
| Pipeline.EffectiveAddresses | dz4/assembler_inteprator.py:104-107 | after reduction modulo 1024, each address is the low four bits of one operand above the top six bits of the next |
| Pipeline.SkewedExecutes | dz4/assembler_inteprator.py:104-153 | an assembled instruction with A above 5 is skipped; otherwise it writes only cell (B mod 16)*64 + C/1024, and for A = 0 the value (C mod 16)*64 + D/16384 |
| Pipeline.LineBinds | dz4/assembler_inteprator.py:51-64 | a line that yields an instruction has a known mnemonic whose integer operands fit, and binds them |
| Pipeline.EntryDecodes | dz4/assembler_inteprator.py:64-107 | a log entry's fields are in range and its word decodes to them skewed |
| Pipeline.AssembledProgram | dz4/assembler_inteprator.py:71-160 | the binary of a successful assembly is read back one block per entry, each decoding to its entry's fields skewed, and the snapshot is what running those blocks leaves |
| Pipeline.JoinedWords | dz4/assembler_inteprator.py:51-54 | a line of words separated by single spaces is kept and splits back into those words, unless the first starts a comment |
| Pipeline.JoinedLine | dz4/assembler_inteprator.py:51-64 | such a line assembles exactly as its words do |
| Pipeline.ConvertedWords | dz4/assembler_inteprator.py:55-64 | a known mnemonic with integer words binds its upper-case form to their values |
| Pipeline.NumeralWord | dz4/assembler_inteprator.py:56 | the numeral of n is a word `int()` reads back as n |
| Pipeline.OperandLine | dz4/assembler_inteprator.py:51-64 | a line of a known mnemonic and fitting integer words assembles to the entry that binds their values |
| Pipeline.ThreeFieldLine | dz4/assembler_inteprator.py:51-64 | a line `M 0 b c` of an upper-case three-field mnemonic assembles to the entry M binds to 0, b, c |
| Pipeline.LoadConstRuns | dz4/assembler_inteprator.py:110-114 | a block decoding to opcode 0 with skewed b and c stores (c mod 16)*64 in cell (b mod 16)*64 + c/1024 |
| Pipeline.TwoLines | dz4/assembler_inteprator.py:49-70 | two lines that each yield an instruction assemble to those two entries |
| Pipeline.RunTwoWords | dz4/assembler_inteprator.py:97-157 | two whole words are read back as two blocks and run one after the other |
| Pipeline.TwoWordsRun | dz4/assembler_inteprator.py:92-157 | the two decoded LOAD_CONST blocks write 640 into cell 640 and 192 into cell 256 of a zeroed memory |
| Pipeline.TwoLoadConstEntries | dz4/assembler_inteprator.py:64-160 | the entries of `LOAD_CONST 0 10 42` and `LOAD_CONST 0 20 99`, run, touch only cells 640 and 256 and report all zeros |
| Pipeline.TwoWritesSnapshot | dz4/assembler_inteprator.py:160 | a run that writes only cells 640 and 256 reports an all-zero snapshot |
| Pipeline.TwoLoadConsts | dz4/test.py:37-43 | the program of the LOAD_CONST test, put through the code of dz4/assembler_inteprator.py:46-160, assembles to two words, writes cells 640 and 256 only, and reports all zeros where the test expects 42 in cell 10 and 99 in cell 20 |
| ConfigValues.Repeat | dz3/translator.py:122 | `s * n` is empty when n is not positive |
| ConfigValues.RepeatLength | dz3/translator.py:122 | `s * n` holds n copies of s |
| ConfigValues.ArithmeticOnInts | dz3/translator.py:111-126 | + - * are integer arithmetic on ints, bools count as 0/1, strings concatenate and repeat, str - str or str + int is a TypeError, and / by 0 or false raises ZeroDivisionError while / on a str is a TypeError |
| ConfigValues.OperateInts | dz3/translator.py:111-122 | on two ints, + - * give the integer sum, difference and product |
| ConfigValues.EvalWordsCount | dz3/translator.py:106-128 | a successful evaluation reads only numbers, defined names and operators; the stack grows by the operands and shrinks by one per operator |
| ConfigValues.EvaluateCount | dz3/translator.py:103-131 | a well-formed postfix expression has exactly one more operand than operators |
| ConfigValues.NumeralOperand | dz3/translator.py:107-108 | a digit word pushes its decimal value |
| ConfigValues.BinaryWords | dz3/translator.py:106-122 | the words `x y op` on an empty stack leave op applied to x and y |
| ConfigValues.BinaryNumerals | dz3/translator.py:103-131 | `x y op` on two numerals evaluates to op on their values |
| Translator.ReadValue | dz3/translator.py:62-92 | a value that reads consumes at least one token and leaves a suffix of the tokens |
| Translator.ReadExpr | dz3/translator.py:94-101 | an expression that reads consumes its token |
| Translator.ReadArray | dz3/translator.py:133-142 | an array that reads consumes its tokens and leaves a suffix |
| Translator.ReadElement | dz3/translator.py:137-140 | an element consumes its value and the comma after it, if any |
| Translator.ReadElements | dz3/translator.py:136-141 | the array loop that succeeds consumes at least the closing brace |
| Translator.ReadTable | dz3/translator.py:144-158 | a table that reads consumes its tokens and leaves a suffix |
| Translator.ReadEntry | dz3/translator.py:150-155 | an entry consumes NAME, '=', its value and the comma after it, if any |
| Translator.ReadEntries | dz3/translator.py:149-157 | the table loop that succeeds consumes at least the closing tokens |
| Translator.EntryAtEnd | dz3/translator.py:154 | an entry whose value is the last token runs out of tokens |
| Translator.ConfigParser.constructor | dz3/translator.py:6-9 | a new parser has the tokens, cursor 0 and an empty context |
| Translator.ConfigParser.Parse | dz3/translator.py:45-60 | `parse` returns the dict the item reader gives from the cursor, leaves the context it gives and consumes every token, or returns its error |
| Translator.ConfigParser.ParseItem | dz3/translator.py:48-59 | one pass of parse's loop advances the cursor and agrees with the item reader, or fails with its error |
| Translator.ConfigParser.ParseValue | dz3/translator.py:62-92 | `parse_value` gives the value and cursor of the value reader and leaves the context unchanged |
| Translator.ConfigParser.ParseExpr | dz3/translator.py:94-101 | `parse_expr` gives the value and cursor of the expression reader |
| Translator.ConfigParser.EvaluateExpression | dz3/translator.py:103-131 | the stack loop gives the postfix evaluation of the text in the current context |
| Translator.ConfigParser.ParseArray | dz3/translator.py:133-142 | `parse_array` gives the list and cursor of the array reader |
| Translator.ConfigParser.ParseElement | dz3/translator.py:137-140 | the array loop body gives the element reader's value and cursor |
| Translator.ConfigParser.ParseTable | dz3/translator.py:144-158 | `parse_table` gives the dict and cursor of the table reader |
| Translator.ConfigParser.ParseEntry | dz3/translator.py:150-155 | the table loop body gives the entry reader's name, value and cursor |
| Translator.ConfigParser.ParseName | dz3/translator.py:160-165 | `parse_name` gives the NAME's text and moves the cursor by one, or fails without moving it |
| Translator.ConfigParser.Expect | dz3/translator.py:167-170 | `expect` succeeds on a token of the kind and skips it, or fails without moving the cursor |
| TranslatorProperties.ExpectOneToken | dz3/translator.py:160-170 | `expect` and `parse_name` succeed exactly on a token of the wanted kind and then skip exactly that token |
| TranslatorProperties.LiteralValues | dz3/translator.py:63-78 | a STRING `@"s"` reads as s; true and false read as booleans |
| TranslatorProperties.NameValue | dz3/translator.py:85-90 | a NAME in value position reads as its value in the context; an undefined one raises |
| TranslatorProperties.ItemShape | dz3/translator.py:48-59 | parse rejects an item not starting with a NAME, and a NAME without ':=' |
| TranslatorProperties.StoreMirrors | dz3/translator.py:54-55 | storing a value in both the result and the context keeps them holding the same names and values |
| TranslatorProperties.ItemsMirror | dz3/translator.py:45-60 | every item stores its value in both, so the result and the context stay in agreement |
| TranslatorProperties.ConfigMirrorsContext | dz3/translator.py:45-60 | after parse on a fresh parser, the result and the final context agree name by name, with no repeated name |
| TranslatorProperties.ItemStep | dz3/translator.py:49-55 | the item `NAME := value` binds the name and continues after the value |
| TranslatorProperties.ReassignReplaces | dz3/translator.py:54-55 | a later assignment replaces a name's earlier value and keeps the name's first position |
| TranslatorProperties.ForwardReferenceFails | dz3/translator.py:85-90 | a name used before any item defines it raises, even if a later item defines it |
| TranslatorProperties.ValueLocal | dz3/translator.py:62-92 | reading a value looks only at the tokens it consumes |
| TranslatorProperties.ArrayLocal | dz3/translator.py:133-142 | reading an array looks only at the tokens it consumes |
| TranslatorProperties.CommaLocal | dz3/translator.py:139-140 | the optional comma after an element is looked for among that element's tokens, whatever follows |
| TranslatorProperties.ElementLocal | dz3/translator.py:137-140 | an element reads the same before any remainder |
| TranslatorProperties.ElementsAfter | dz3/translator.py:136-140 | the array loop continues after an element with it appended |
| TranslatorProperties.ElementsLocal | dz3/translator.py:136-141 | the array loop looks only at the tokens it consumes |
| TranslatorProperties.ElementsLocalStep | dz3/translator.py:136-141 | the same when the tokens start with an element |
| TranslatorProperties.TableLocal | dz3/translator.py:144-158 | reading a table looks only at the tokens it consumes |
| TranslatorProperties.EntryLocal | dz3/translator.py:150-155 | a table entry reads the same before any remainder |
| TranslatorProperties.EntriesAfter | dz3/translator.py:149-155 | the table loop continues after an entry with it stored |
| TranslatorProperties.EntriesLocal | dz3/translator.py:149-157 | the table loop looks only at the tokens it consumes |
| TranslatorProperties.EntriesLocalStep | dz3/translator.py:149-157 | the same when the tokens start with an entry |
| TranslatorProperties.CommaOptional | dz3/translator.py:136-141 | a comma after an array element may be left out, before another element and before the closing brace |
| TranslatorProperties.EntriesDistinct | dz3/translator.py:148-153 | a table built entry by entry is a table with no key twice |
| TranslatorProperties.EntryStepOf | dz3/translator.py:150-155 | the entry `NAME = value` stores the value under the name and continues after the optional comma |
| TranslatorProperties.TableOpen | dz3/translator.py:145-147 | `table ( [` opens a table whose entries follow |
| TranslatorProperties.TableClose | dz3/translator.py:149-157 | `] )` closes a table with the entries read so far |
| TranslatorProperties.DuplicateEntries | dz3/translator.py:153 | the entries `k = true, k = false` leave one key holding false |
| TranslatorProperties.DuplicateKeyKeepsLast | dz3/translator.py:144-158 | `table([ k = true, k = false ])` reads as the table with k holding false |
| PackageParser.DependencyParser.constructor | dz2/package-parser.js:10-11 | a new walk has the packages, the depth bound, an empty graph and an empty visited set |
| PackageParser.DependencyParser.ParseRecursive | dz2/package-parser.js:13-29 | `parseRecursive` leaves the graph and visited set the walk function gives |
| PackageParser.ParseDependencies | dz2/package-parser.js:10-47 | `parseDependencies` returns the graph the walk functions give, or the missing-manifest error |
| PackageParser.PutGrows | dz2/package-parser.js:24 | `graph[name] = deps` for an installed package only adds or replaces that package's own entry |
| PackageParser.GrowsTrans | dz2/package-parser.js:13-29 | growth by module entries composes |
| PackageParser.VisitGrows | dz2/package-parser.js:13-29 | the walk from one name only writes module entries, keeps key order and distinctness, and only adds to visited |
| PackageParser.VisitAllGrows | dz2/package-parser.js:26-28 | the same for the loop over a package's dependencies |
| PackageParser.RootsGrows | dz2/package-parser.js:42-44 | the same for the loop over the root dependencies |
| PackageParser.DependenciesShape | dz2/package-parser.js:31-46 | it throws exactly when the root manifest is missing; otherwise the root's entry is first, no key repeats, every entry is the root's or an installed package's own dependencies, and the root keeps its entry unless an installed package of its name overwrites it |
| PackageParser.ShallowGraph | dz2/package-parser.js:40-44 | with a depth bound below 1 the graph is the root entry alone |
| PackageParser.EnteredReach | dz2/package-parser.js:13-27 | parseRecursive enters only names within maxDepth - depth dependency edges of the name it starts from, and only at a depth within the bound |
| PackageParser.EnteredAllReach | dz2/package-parser.js:26-27 | the dependency loop enters only names within maxDepth - depth edges of one of the dependencies it loops over |
| PackageParser.VisitKeys | dz2/package-parser.js:24 | a walk writes graph keys only for the names it enters |
| PackageParser.VisitAllKeys | dz2/package-parser.js:26-27 | the dependency loop writes graph keys only for the names it enters |
| PackageParser.RootsReach | dz2/package-parser.js:42-44 | the root loop adds only keys within maxDepth - 1 edges of some root dependency |
| PackageParser.DependenciesWithinDepth | dz2/package-parser.js:14-44 | every key of the graph other than the root's name is an installed package at depth at most maxDepth: within maxDepth - 1 dependency edges of a root dependency |
| PackageParser.RootsShallow | dz2/package-parser.js:42-44 | with a depth bound below 1 the root loop changes nothing |
| PackageParser.MissingPackage | dz2/package-parser.js:16-19 | a name without a package.json is marked visited and adds no entry |
| PackageParser.EnteredOnce | dz2/package-parser.js:14-16 | the names the walk enters are exactly the ones it adds to visited, none entered twice |
| PackageParser.EnteredAllOnce | dz2/package-parser.js:26-28 | the same for the loop over a package's dependencies |
| PlantUml.GeneratePlantUML | dz2/plantuml-gen.js:6-17 | the method returns the diagram text |
| PlantUml.NodeLinesAt | dz2/plantuml-gen.js:10-12 | one line per dependency of a package, each naming the package and that dependency |
| PlantUml.EdgeLinesAppend | dz2/plantuml-gen.js:9-13 | the edge lines of two runs of entries are those of the first, then the second |
| PlantUml.EdgeLinesCount | dz2/plantuml-gen.js:9-13 | there are as many edge lines as (package, dependency) pairs |
| PlantUml.EdgeLineAt | dz2/plantuml-gen.js:9-13 | the line for the j-th dependency of the i-th entry comes after all lines of earlier entries and dependencies |
| PlantUml.NoDependenciesNoLine | dz2/plantuml-gen.js:10-12 | a package without dependencies contributes no line |
| PlantUml.DiagramFrame | dz2/plantuml-gen.js:7-15 | the diagram opens with `@startuml` and `digraph G {`, closes with `}` and `@enduml`, and has four lines more than edges |
| PlantUml.SplitJoin | dz2/plantuml-gen.js:16 | splitting the joined lines at newlines gives them back when no line holds a newline |
| PlantUml.JoinEndsWithLast | dz2/plantuml-gen.js:16 | the joined text ends with the last line |
| PlantUml.EdgeLinesNoNewline | dz2/plantuml-gen.js:11 | an edge line holds a newline only if its package or dependency name does |
| PlantUml.DiagramText | dz2/plantuml-gen.js:6-17 | the text splits back into the diagram's lines when no name holds a newline, and ends with `@enduml` and no newline after it |

## Left out

- File I/O is not modelled. The assembler's source is a sequence of lines,
  its binary file a byte sequence and its log a sequence of entries. The
  interpreter's input is a byte sequence and its result the snapshot. The
  JSON and hex output of both is not modelled. The `__main__` block
  assembles `program.txt` and then interprets the result. That sequence is
  modelled on given lines (`Pipeline.AssembledProgram`), and applied to the
  two lines of dz4/test.py:37-38 in `Pipeline.TwoLoadConsts`.
- The interpreter's `print` diagnostics are not modelled, nor is the unused
  `memory_range` parameter.
- `int()` on operands accepts ASCII digits, a sign and single underscores
  between digits. Surrounding whitespace cannot occur after `split()`.
  Non-ASCII Unicode digits, which Python's `int()` also accepts, are not
  modelled.
- ConfigValues.IsDigitWord and Translator.Atom accept ASCII digits `0`-`9`
  only. Python's `isdigit()` and `int()` (dz3/translator.py:70 and 107-108)
  also accept other Unicode decimal digits, and the tokenizer lets them
  through (the NUMBER pattern `\d+` and the EXPR pattern). So a NUMBER token
  such as `٣` is read as a `FloatResult` error, and an expression operand
  `٣` as a `BadOperand` error, where Python reads 3. Characters such as `²`,
  for which `isdigit()` is true but `int()` raises, are not modelled either.
- `str.upper()` is exact for ASCII. Outside ASCII, only the characters whose
  upper-case form is made of ASCII letters are mapped; other characters are
  kept unchanged.
- ConfigParser's tokenizer (`tokenize`, the regular expressions, comment
  removal, the MISMATCH error) is not part of this model. The parser takes
  the token list as its input.
- Floats are not modelled. A NUMBER token with a fractional part, and `/` in
  an expression with a non-zero numeric divisor, give the error
  `FloatResult` where Python would produce a float. A zero divisor (`0` or
  `false`) gives `ZeroDivision`, as Python raises ZeroDivisionError.
- The CLI `main` of translator.py and its YAML output are not modelled.
- `Translator.ConfigParser.ParseItem`, `ParseElement` and `ParseEntry` are
  the bodies of the source's loops taken out as methods, and
  `Interpreter.ExecuteIn` is the body of the interpreter's loop after
  decoding. The loops call them once per pass.
- Translator.ConfigParser.ParseValue: after an error the cursor position is
  not stated. The same holds for ParseExpr, ParseArray, ParseElement,
  ParseTable, ParseEntry, ParseItem and Parse. Once the Python parser
  raises, it is abandoned, so nothing observes the cursor.
- Translator.ConfigParser.constructor takes the token list: the source's
  constructor runs the tokenizer on the input text first.
- PackageParser: maxDepth is an integer. In JavaScript it is a number: a
  fractional depth behaves as its floor, and NaN or Infinity (which the
  command-line number option of dz2/index.js can pass) remove the depth
  bound, leaving only the visited sets to end the walk. That is not
  modelled.
- PackageParser.DependenciesWithinDepth states only that every key lies
  within the depth bound. It does not state which packages within the bound
  appear. A name is marked visited when it is first entered, whatever its
  depth. A package first entered at a greater depth is therefore skipped when
  it is reached again at a smaller one, and its own dependencies may be left
  out even though they lie within the bound.
- PackageParser: the filesystem is given as data.
  - `fs.existsSync`, `path.join` and `JSON.parse` are replaced by an optional
    root manifest and a map from installed package names to their dependency
    keys.
  - A malformed package.json and duplicate JSON keys are not modelled.
  - A root manifest without `"name"` (which gives the key `"undefined"` in
    JavaScript) is not modelled: the name is a string.
  - JavaScript lists integer-like object keys first in numeric order; this is
    not modelled. The graph keeps plain insertion order.
- dz2/index.js (the command-line front end) and the test files are not part
  of this model.
