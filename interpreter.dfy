/**
 * The virtual machine of dz4/assembler_inteprator.py (interpret): a
 * 1024-cell memory of unbounded integers, a binary stream consumed in
 * 9-byte blocks, one memory write per recognised opcode, and
 * skip-and-continue on an unknown opcode.
 */
module Interpreter {
  import opened Results
  import opened Bits
  import opened InstructionFormat

  const MEMORY_SIZE: nat := 1024
  const SNAPSHOT_SIZE: nat := 256

  /** Python's | on non-negative integers. */
  function BitOr(x: nat, y: nat): nat
    decreases x + y
  {
    if x == 0 && y == 0 then 0
    else 2 * BitOr(x / 2, y / 2) + (if x % 2 == 1 || y % 2 == 1 then 1 else 0)
  }

  /** Python's ^ on non-negative integers. */
  function BitXor(x: nat, y: nat): nat
    decreases x + y
  {
    if x == 0 && y == 0 then 0
    else 2 * BitXor(x / 2, y / 2) + (if (x % 2 == 1) != (y % 2 == 1) then 1 else 0)
  }

  /** Every bit of x | y is the disjunction of the operands' bits. */
  lemma {:induction false} BitOrAt(x: nat, y: nat, k: nat)
    ensures Bit(BitOr(x, y), k) == (Bit(x, k) || Bit(y, k))
  {
    var r := BitOr(x, y);
    assert r == 2 * BitOr(x / 2, y / 2) + (if x % 2 == 1 || y % 2 == 1 then 1 else 0);
    if k > 0 {
      BitOrAt(x / 2, y / 2, k - 1);
      assert r / 2 == BitOr(x / 2, y / 2);
    }
  }

  /** Every bit of x ^ y is the exclusive or of the operands' bits. */
  lemma {:induction false} BitXorAt(x: nat, y: nat, k: nat)
    ensures Bit(BitXor(x, y), k) == (Bit(x, k) != Bit(y, k))
  {
    var r := BitXor(x, y);
    assert r == 2 * BitXor(x / 2, y / 2) + (if (x % 2 == 1) != (y % 2 == 1) then 1 else 0);
    if k > 0 {
      BitXorAt(x / 2, y / 2, k - 1);
      assert r / 2 == BitXor(x / 2, y / 2);
    }
  }

  predicate NonNegative(mem: seq<int>)
  {
    forall i :: 0 <= i < |mem| ==> mem[i] >= 0
  }

  /** A memory the interpreter can hold: 1024 cells, none negative. */
  predicate ValidMemory(mem: seq<int>)
  {
    |mem| == MEMORY_SIZE && NonNegative(mem)
  }

  /** The errors the try block can raise for one instruction. */
  datatype ExecError = UnknownOpcode(opcode: nat) | AddressOutOfBounds

  /**
   * The body of the try block for one decoded instruction: B, C and (for
   * opcodes 2 and 3) D are reduced modulo the memory size, then the opcode
   * selects one write to memory[b].
   */
  function Execute(mem: seq<int>, ins: Decoded): Result<seq<int>, ExecError>
    requires ValidMemory(mem)
  {
    var size := |mem|;
    var b := ins.b % size;
    var c := ins.c % size;
    if ins.opcode == 0 then
      if b >= size then Err(AddressOutOfBounds) else Ok(mem[b := c])
    else if ins.opcode == 1 then
      if b >= size || c >= size then Err(AddressOutOfBounds) else Ok(mem[b := mem[c]])
    else if ins.opcode == 2 then
      var d := ins.d % size;
      if b >= size || c >= size || d >= size then Err(AddressOutOfBounds)
      else Ok(mem[b := mem[c] + mem[d]])
    else if ins.opcode == 3 then
      var d := ins.d % size;
      if b >= size || c >= size || d >= size then Err(AddressOutOfBounds)
      else Ok(mem[b := BitOr(mem[c], mem[d])])
    else if ins.opcode == 4 then
      if b >= size || c >= size then Err(AddressOutOfBounds) else Ok(mem[b := mem[b] + mem[c]])
    else if ins.opcode == 5 then
      if b >= size || c >= size then Err(AddressOutOfBounds) else Ok(mem[b := BitXor(mem[b], mem[c])])
    else
      Err(UnknownOpcode(ins.opcode))
  }

  /** An instruction fails exactly when its opcode is outside 0..5: the bounds checks can never fire. */
  lemma ExecuteFails(mem: seq<int>, ins: Decoded)
    requires ValidMemory(mem)
    ensures Execute(mem, ins).Err? <==> ins.opcode > 5
    ensures Execute(mem, ins).Err? ==> Execute(mem, ins).error == UnknownOpcode(ins.opcode)
  {
  }

  /**
   * A recognised opcode writes exactly one cell, memory[B mod 1024], by its
   * rule; every other cell keeps its value and no cell becomes negative.
   */
  lemma ExecuteWrites(mem: seq<int>, ins: Decoded)
    requires ValidMemory(mem) && ins.opcode <= 5
    ensures var r := Execute(mem, ins);
      var b, c, d := ins.b % MEMORY_SIZE, ins.c % MEMORY_SIZE, ins.d % MEMORY_SIZE;
      r.Ok? && ValidMemory(r.value) &&
      (forall i :: 0 <= i < MEMORY_SIZE && i != b ==> r.value[i] == mem[i]) &&
      (ins.opcode == 0 ==> r.value[b] == c && r.value[b] < MEMORY_SIZE) &&
      (ins.opcode == 1 ==> r.value[b] == mem[c]) &&
      (ins.opcode == 2 ==> r.value[b] == mem[c] + mem[d]) &&
      (ins.opcode == 3 ==> r.value[b] == BitOr(mem[c], mem[d])) &&
      (ins.opcode == 4 ==> r.value[b] == mem[b] + mem[c]) &&
      (ins.opcode == 5 ==> r.value[b] == BitXor(mem[b], mem[c]))
  {
  }

  /** The blocks binary_file.read(9) returns, in order: 9 bytes each, the last one possibly shorter. */
  function Blocks(binary: seq<byte>): (r: seq<seq<byte>>)
    ensures forall i :: 0 <= i < |r| ==> 1 <= |r[i]| <= WORD_BYTES
    decreases |binary|
  {
    if binary == [] then []
    else if |binary| <= WORD_BYTES then [binary]
    else [binary[..WORD_BYTES]] + Blocks(binary[WORD_BYTES..])
  }

  function Concat(blocks: seq<seq<byte>>): seq<byte>
  {
    if blocks == [] then [] else blocks[0] + Concat(blocks[1..])
  }

  /** Reading in blocks loses and reorders nothing. */
  lemma {:induction false} ConcatBlocks(binary: seq<byte>)
    ensures Concat(Blocks(binary)) == binary
    decreases |binary|
  {
    if |binary| > WORD_BYTES {
      ConcatBlocks(binary[WORD_BYTES..]);
      assert binary == binary[..WORD_BYTES] + binary[WORD_BYTES..];
    }
  }

  /** A stream of whole 9-byte words is read back as exactly those words. */
  lemma {:induction false} BlocksOfWords(words: seq<seq<byte>>)
    requires forall i :: 0 <= i < |words| ==> |words[i]| == WORD_BYTES
    ensures Blocks(Concat(words)) == words
  {
    if words != [] {
      BlocksOfWords(words[1..]);
      var rest := Concat(words[1..]);
      assert Concat(words) == words[0] + rest;
      if rest == [] {
        assert Concat(words) == words[0];
        assert words == [words[0]];
      } else {
        assert Concat(words)[..WORD_BYTES] == words[0];
        assert Concat(words)[WORD_BYTES..] == rest;
      }
    }
  }

  /** The memory after one block: the instruction's write, or no change when it raises. */
  function Apply(mem: seq<int>, block: seq<byte>): (r: seq<int>)
    requires ValidMemory(mem) && |block| <= WORD_BYTES
    ensures ValidMemory(r)
  {
    match Execute(mem, Decode(block))
    case Ok(mem') => mem'
    case Err(_) => mem
  }

  /** The interpreter's loop: each block is decoded and executed; a failing one leaves memory as it was. */
  function RunBlocks(mem: seq<int>, blocks: seq<seq<byte>>): (r: seq<int>)
    requires ValidMemory(mem)
    requires forall i :: 0 <= i < |blocks| ==> |blocks[i]| <= WORD_BYTES
    ensures ValidMemory(r)
    decreases |blocks|
  {
    if blocks == [] then mem else RunBlocks(Apply(mem, blocks[0]), blocks[1..])
  }

  /** The memory interpret starts with: 1024 zero cells. */
  function InitialMemory(): (r: seq<int>)
    ensures ValidMemory(r)
  {
    seq(MEMORY_SIZE, _ => 0)
  }

  /** The result interpret reports: the first 256 cells once the whole stream is consumed. */
  function Snapshot(binary: seq<byte>): (r: seq<int>)
    ensures |r| == SNAPSHOT_SIZE && NonNegative(r)
  {
    RunBlocks(InitialMemory(), Blocks(binary))[..SNAPSHOT_SIZE]
  }

  /** Running a stream in two parts is running the first part, then the second from the memory it left. */
  lemma {:induction false} RunBlocksAppend(mem: seq<int>, x: seq<seq<byte>>, y: seq<seq<byte>>)
    requires ValidMemory(mem)
    requires forall i :: 0 <= i < |x| ==> |x[i]| <= WORD_BYTES
    requires forall i :: 0 <= i < |y| ==> |y[i]| <= WORD_BYTES
    ensures RunBlocks(mem, x + y) == RunBlocks(RunBlocks(mem, x), y)
    decreases |x|
  {
    if x != [] {
      assert (x + y)[0] == x[0] && (x + y)[1..] == x[1..] + y;
      RunBlocksAppend(Apply(mem, x[0]), x[1..], y);
    } else {
      assert x + y == y;
    }
  }

  /** A block with an unknown opcode is reported and skipped: the run goes on as if it were absent. */
  lemma SkipUnknownOpcode(mem: seq<int>, before: seq<seq<byte>>, block: seq<byte>, after: seq<seq<byte>>)
    requires ValidMemory(mem) && |block| <= WORD_BYTES && Decode(block).opcode > 5
    requires forall i :: 0 <= i < |before| ==> |before[i]| <= WORD_BYTES
    requires forall i :: 0 <= i < |after| ==> |after[i]| <= WORD_BYTES
    ensures RunBlocks(mem, before + [block] + after) == RunBlocks(mem, before + after)
  {
    var m := RunBlocks(mem, before);
    RunBlocksAppend(mem, before, [block] + after);
    RunBlocksAppend(mem, before, after);
    assert before + [block] + after == before + ([block] + after);
    ExecuteFails(m, Decode(block));
    assert ([block] + after)[1..] == after;
  }

  /** Running the stream from pos: apply the block read there (up to nine bytes), then run from its end. */
  lemma RunFirstBlock(mem: seq<int>, binary: seq<byte>, pos: nat, end: nat, mem': seq<int>)
    requires ValidMemory(mem) && pos < |binary|
    requires end == if |binary| - pos < WORD_BYTES then |binary| else pos + WORD_BYTES
    requires mem' == Apply(mem, binary[pos..end])
    ensures RunBlocks(mem, Blocks(binary[pos..])) == RunBlocks(mem', Blocks(binary[end..]))
  {
    var rest := binary[pos..];
    assert rest[..end - pos] == binary[pos..end] && rest[end - pos..] == binary[end..];
    if |rest| <= WORD_BYTES {
      assert rest[..end - pos] == rest && rest[end - pos..] == [];
    }
  }

  /**
   * One iteration of interpret's loop on the 1024-cell memory: decode the
   * block, then execute the instruction.
   */
  method Step(memory: array<int>, block: seq<byte>) returns (error: Option<ExecError>)
    requires ValidMemory(memory[..]) && |block| <= WORD_BYTES
    modifies memory
    ensures memory[..] == Apply(old(memory[..]), block)
    ensures var r := Execute(old(memory[..]), Decode(block));
      error == if r.Ok? then None else Some(r.error)
  {
    var ins := Decode(block);
    error := ExecuteIn(memory, ins);
  }

  /**
   * The body of interpret's loop after decoding: reduce the addresses,
   * dispatch on the opcode and write one cell, or report the error and
   * leave memory alone.
   */
  method ExecuteIn(memory: array<int>, ins: Decoded) returns (error: Option<ExecError>)
    requires ValidMemory(memory[..])
    modifies memory
    ensures var r := Execute(old(memory[..]), ins);
      && memory[..] == (if r.Ok? then r.value else old(memory[..]))
      && error == (if r.Ok? then None else Some(r.error))
  {
    ghost var before := memory[..];
    var size := memory.Length;
    var b := ins.b % size;
    var c := ins.c % size;
    error := None;
    if ins.opcode == 0 {
      if b >= size {
        return Some(AddressOutOfBounds);
      }
      memory[b] := c;
      assert memory[..] == before[b := c];
    } else if ins.opcode == 1 {
      if b >= size || c >= size {
        return Some(AddressOutOfBounds);
      }
      memory[b] := memory[c];
      assert memory[..] == before[b := before[c]];
    } else if ins.opcode == 2 {
      var d := ins.d % size;
      if b >= size || c >= size || d >= size {
        return Some(AddressOutOfBounds);
      }
      memory[b] := memory[c] + memory[d];
      assert memory[..] == before[b := before[c] + before[d]];
    } else if ins.opcode == 3 {
      var d := ins.d % size;
      if b >= size || c >= size || d >= size {
        return Some(AddressOutOfBounds);
      }
      memory[b] := BitOr(memory[c], memory[d]);
      assert memory[..] == before[b := BitOr(before[c], before[d])];
    } else if ins.opcode == 4 {
      if b >= size || c >= size {
        return Some(AddressOutOfBounds);
      }
      memory[b] := memory[b] + memory[c];
      assert memory[..] == before[b := before[b] + before[c]];
    } else if ins.opcode == 5 {
      if b >= size || c >= size {
        return Some(AddressOutOfBounds);
      }
      memory[b] := BitXor(memory[b], memory[c]);
      assert memory[..] == before[b := BitXor(before[b], before[c])];
    } else {
      error := Some(UnknownOpcode(ins.opcode));
    }
  }

  /** interpret: run the whole stream block by block on a zeroed memory and report its first 256 cells. */
  method Run(binary: seq<byte>) returns (snapshot: seq<int>)
    ensures snapshot == Snapshot(binary)
  {
    var memory := new int[MEMORY_SIZE](_ => 0);
    assert memory[..] == InitialMemory();
    var pos := 0;
    while pos < |binary|
      invariant 0 <= pos <= |binary|
      invariant ValidMemory(memory[..])
      invariant RunBlocks(memory[..], Blocks(binary[pos..])) == RunBlocks(InitialMemory(), Blocks(binary))
      decreases |binary| - pos
    {
      var end := if |binary| - pos < WORD_BYTES then |binary| else pos + WORD_BYTES;
      ghost var before := memory[..];
      var error := Step(memory, binary[pos..end]);
      RunFirstBlock(before, binary, pos, end, memory[..]);
      pos := end;
    }
    snapshot := memory[..SNAPSHOT_SIZE];
  }
}
