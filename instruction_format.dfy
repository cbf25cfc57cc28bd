/**
 * The 72-bit instruction word of the assembler and virtual machine
 * (dz4/assembler_inteprator.py): the opcode table, the bit-field packer
 * and the unpacker the interpreter uses.
 *
 * Bit positions are counted from the most significant end of the word,
 * bit 0 first, as in the source's bit list.
 */
module InstructionFormat {
  import opened Results
  import opened Bits

  const WORD_BITS: nat := 72
  const WORD_BYTES: nat := 9

  datatype FieldName = A | B | C | D

  /** A named field and its INCLUSIVE bit range [start, end] in the word. */
  datatype FieldRange = FieldRange(name: FieldName, start: nat, end: nat)
  {
    function Width(): nat
      requires start <= end
    {
      end - start + 1
    }
  }

  datatype CommandSpec = CommandSpec(opcode: nat, fields: seq<FieldRange>)

  /** The field layout of LOAD_CONST, LOAD_MEM, ADD and XOR. */
  const THREE_FIELDS: seq<FieldRange> :=
    [FieldRange(A, 0, 5), FieldRange(B, 6, 25), FieldRange(C, 26, 41)]

  /** The field layout of STORE_MEM and BITWISE_OR. */
  const FOUR_FIELDS: seq<FieldRange> := THREE_FIELDS + [FieldRange(D, 42, 61)]

  /** The opcode table, keyed by upper-case mnemonic. */
  const COMMANDS: map<string, CommandSpec> := map[
    "LOAD_CONST" := CommandSpec(0, THREE_FIELDS),
    "LOAD_MEM" := CommandSpec(1, THREE_FIELDS),
    "STORE_MEM" := CommandSpec(2, FOUR_FIELDS),
    "BITWISE_OR" := CommandSpec(3, FOUR_FIELDS),
    "ADD" := CommandSpec(4, THREE_FIELDS),
    "XOR" := CommandSpec(5, THREE_FIELDS)
  ]

  /** Every range lies inside the word and is non-empty. */
  predicate ValidLayout(fields: seq<FieldRange>)
  {
    forall i :: 0 <= i < |fields| ==> fields[i].start <= fields[i].end < WORD_BITS
  }

  /** The packer's only error: a field value outside 0 .. 2^width - 1. */
  datatype PackError = OutOfRange(field: FieldName, value: int, maxValue: nat)

  /** The value supplied for a field, 0 when none is supplied (data.get(name, 0)). */
  function FieldValue(data: map<FieldName, int>, name: FieldName): int
  {
    if name in data then data[name] else 0
  }

  function MaxValue(f: FieldRange): nat
    requires f.start <= f.end
  {
    Pow2(f.Width()) - 1
  }

  predicate InRange(f: FieldRange, value: int)
    requires f.start <= f.end
  {
    0 <= value <= MaxValue(f)
  }

  /** bits with positions start .. start + |chunk| - 1 replaced by chunk. */
  function Overwrite(bits: seq<bool>, start: nat, chunk: seq<bool>): (r: seq<bool>)
    requires start + |chunk| <= |bits|
    ensures |r| == |bits|
  {
    bits[..start] + chunk + bits[start + |chunk|..]
  }

  /** Position j of an overwritten bit string comes from the chunk inside its range and from the old string outside. */
  lemma OverwriteAt(bits: seq<bool>, start: nat, chunk: seq<bool>)
    requires start + |chunk| <= |bits|
    ensures forall j :: 0 <= j < |bits| ==>
      Overwrite(bits, start, chunk)[j] == if start <= j < start + |chunk| then chunk[j - start] else bits[j]
  {
  }

  /** Writes each field, in table order, MSB first into its range; fails at the first value out of range. */
  function FillFields(bits: seq<bool>, fields: seq<FieldRange>, data: map<FieldName, int>): (r: Result<seq<bool>, PackError>)
    requires |bits| == WORD_BITS && ValidLayout(fields)
    ensures r.Ok? ==> |r.value| == WORD_BITS
    decreases |fields|
  {
    if fields == [] then Ok(bits)
    else
      var f := fields[0];
      var value := FieldValue(data, f.name);
      if !InRange(f, value) then Err(OutOfRange(f.name, value, MaxValue(f)))
      else FillFields(Overwrite(bits, f.start, BitsOf(value, f.Width())), fields[1..], data)
  }

  /** The 72-bit list pack_instruction builds: the opcode in bits 0..5, then every field. */
  function PackBits(opcode: nat, fields: seq<FieldRange>, data: map<FieldName, int>): Result<seq<bool>, PackError>
    requires ValidLayout(fields)
  {
    FillFields(Overwrite(Zeros(WORD_BITS), 0, BitsOf(opcode, 6)), fields, data)
  }

  /** pack_instruction: the bit list read as a binary numeral, as 9 big-endian bytes. */
  function Pack(opcode: nat, fields: seq<FieldRange>, data: map<FieldName, int>): Result<seq<byte>, PackError>
    requires ValidLayout(fields)
  {
    var bits :- PackBits(opcode, fields, data);
    Ok(ToBytes(ValueOf(bits), WORD_BYTES))
  }

  /** Packing fails exactly when some field's value is out of range, and reports the first such field. */
  lemma {:induction false} FillFieldsFails(bits: seq<bool>, fields: seq<FieldRange>, data: map<FieldName, int>)
    requires |bits| == WORD_BITS && ValidLayout(fields)
    ensures FillFields(bits, fields, data).Err? <==>
      exists i :: 0 <= i < |fields| && !InRange(fields[i], FieldValue(data, fields[i].name))
    ensures FillFields(bits, fields, data).Err? ==>
      exists i :: 0 <= i < |fields| && !InRange(fields[i], FieldValue(data, fields[i].name)) &&
        (forall j :: 0 <= j < i ==> InRange(fields[j], FieldValue(data, fields[j].name))) &&
        FillFields(bits, fields, data).error ==
          OutOfRange(fields[i].name, FieldValue(data, fields[i].name), MaxValue(fields[i]))
    decreases |fields|
  {
    if fields != [] {
      var f := fields[0];
      var value := FieldValue(data, f.name);
      if InRange(f, value) {
        var bits' := Overwrite(bits, f.start, BitsOf(value, f.Width()));
        FillFieldsFails(bits', fields[1..], data);
        if FillFields(bits, fields, data).Err? {
          var i :| 0 <= i < |fields| - 1 && !InRange(fields[1..][i], FieldValue(data, fields[1..][i].name)) &&
            (forall j :: 0 <= j < i ==> InRange(fields[1..][j], FieldValue(data, fields[1..][j].name))) &&
            FillFields(bits', fields[1..], data).error ==
              OutOfRange(fields[1..][i].name, FieldValue(data, fields[1..][i].name), MaxValue(fields[1..][i]));
          assert !InRange(fields[i + 1], FieldValue(data, fields[i + 1].name));
        } else {
          forall i | 0 <= i < |fields|
            ensures InRange(fields[i], FieldValue(data, fields[i].name))
          {
            if i > 0 {
              assert fields[i] == fields[1..][i - 1];
            }
          }
        }
      } else {
        assert !InRange(fields[0], FieldValue(data, fields[0].name));
      }
    }
  }

  /**
   * The word a well-formed instruction packs to: A in bits 0..5, B in 6..25,
   * C in 26..41, D in 42..61 and zeros in 62..71.  The opcode does not appear.
   */
  function WordLayout(a: nat, b: nat, c: nat, d: nat): (r: seq<bool>)
    ensures |r| == WORD_BITS
  {
    BitsOf(a, 6) + BitsOf(b, 20) + BitsOf(c, 16) + BitsOf(d, 20) + Zeros(10)
  }

  /** Whether the layout has a field of this name ("D" in fields). */
  predicate HasField(fields: seq<FieldRange>, name: FieldName)
  {
    exists i :: 0 <= i < |fields| && fields[i].name == name
  }

  /** Only the four-field layout has a field D. */
  lemma HasFieldD()
    ensures !HasField(THREE_FIELDS, D) && HasField(FOUR_FIELDS, D)
  {
    assert FOUR_FIELDS[3].name == D;
  }

  /** The data map the assembler builds: A, B and C, and D when the layout has that field. */
  function FieldData(fields: seq<FieldRange>, a: int, b: int, c: int, d: int): map<FieldName, int>
  {
    if HasField(fields, D) then map[A := a, B := b, C := c, D := d]
    else map[A := a, B := b, C := c]
  }

  /** One step of FillFields: a first field f whose value fits is written, then the rest follow. */
  lemma FillStep(bits: seq<bool>, fields: seq<FieldRange>, data: map<FieldName, int>, f: FieldRange, width: nat, value: nat)
    requires |bits| == WORD_BITS && ValidLayout(fields) && fields != [] && fields[0] == f
    requires width == f.end - f.start + 1 && FieldValue(data, f.name) == value && value < Pow2(width)
    ensures FillFields(bits, fields, data) == FillFields(Overwrite(bits, f.start, BitsOf(value, width)), fields[1..], data)
  {
  }

  /** The three-field layout packs A, B and C into WordLayout(a, b, c, 0). */
  lemma PackBitsThree(opcode: nat, data: map<FieldName, int>, a: nat, b: nat, c: nat)
    requires FieldValue(data, A) == a && FieldValue(data, B) == b && FieldValue(data, C) == c
    requires a < 64 && b < 1048576 && c < 65536
    ensures PackBits(opcode, THREE_FIELDS, data) == Ok(WordLayout(a, b, c, 0))
  {
    Pow2Constants();
    var fa, fb, fc := FieldRange(A, 0, 5), FieldRange(B, 6, 25), FieldRange(C, 26, 41);
    var f := THREE_FIELDS;
    assert f == [fa, fb, fc] && f[1..] == [fb, fc] && f[2..] == [fc] && f[3..] == [];
    var bits0 := Overwrite(Zeros(WORD_BITS), 0, BitsOf(opcode, 6));
    var bits1 := Overwrite(bits0, 0, BitsOf(a, 6));
    var bits2 := Overwrite(bits1, 6, BitsOf(b, 20));
    FillStep(bits0, f, data, fa, 6, a);
    FillStep(bits1, f[1..], data, fb, 20, b);
    FillStep(bits2, f[2..], data, fc, 16, c);
    ThreeWrites(opcode, a, b, c);
  }

  /** Both layouts keep every field inside the 72-bit word. */
  lemma LayoutsValid()
    ensures ValidLayout(THREE_FIELDS) && ValidLayout(FOUR_FIELDS)
  {
    var f := FOUR_FIELDS;
    assert f == [FieldRange(A, 0, 5), FieldRange(B, 6, 25), FieldRange(C, 26, 41), FieldRange(D, 42, 61)];
    assert THREE_FIELDS == f[..3];
  }

  /** Filling two runs of fields is filling the first, then the second over the result. */
  lemma {:induction false} FillAppend(bits: seq<bool>, f1: seq<FieldRange>, f2: seq<FieldRange>, data: map<FieldName, int>, mid: seq<bool>)
    requires |bits| == WORD_BITS && ValidLayout(f1) && ValidLayout(f2)
    requires FillFields(bits, f1, data) == Ok(mid)
    ensures ValidLayout(f1 + f2) && |mid| == WORD_BITS
    ensures FillFields(bits, f1 + f2, data) == FillFields(mid, f2, data)
    decreases |f1|
  {
    if f1 == [] {
      assert f1 + f2 == f2;
    } else {
      var f := f1[0];
      var next := Overwrite(bits, f.start, BitsOf(FieldValue(data, f.name), f.Width()));
      FillAppend(next, f1[1..], f2, data, mid);
      assert (f1 + f2)[0] == f && (f1 + f2)[1..] == f1[1..] + f2;
    }
  }

  /** The four-field layout packs A, B, C and D into WordLayout(a, b, c, d). */
  lemma PackBitsFour(opcode: nat, data: map<FieldName, int>, a: nat, b: nat, c: nat, d: nat)
    requires FieldValue(data, A) == a && FieldValue(data, B) == b && FieldValue(data, C) == c && FieldValue(data, D) == d
    requires a < 64 && b < 1048576 && c < 65536 && d < 1048576
    ensures PackBits(opcode, FOUR_FIELDS, data) == Ok(WordLayout(a, b, c, d))
  {
    var fd := FieldRange(D, 42, 61);
    var three := WordLayout(a, b, c, 0);
    var bits0 := Overwrite(Zeros(WORD_BITS), 0, BitsOf(opcode, 6));
    LayoutsValid();
    assert FillFields(bits0, THREE_FIELDS, data) == Ok(three) by { PackBitsThree(opcode, data, a, b, c); }
    assert ValidLayout([fd]);
    FillAppend(bits0, THREE_FIELDS, [fd], data, three);
    assert FillFields(three, [fd], data) == Ok(WordLayout(a, b, c, d)) by {
      Pow2Constants();
      FillStep(three, [fd], data, fd, 20, d);
      assert [fd][1..] == [];
      FourthWrite(three, a, b, c, d);
    }
  }

  /** The data map gives each field its operand, and D is 0 for a layout without it. */
  lemma FieldDataValues(fields: seq<FieldRange>, a: int, b: int, c: int, d: int)
    ensures var data := FieldData(fields, a, b, c, d);
      FieldValue(data, A) == a && FieldValue(data, B) == b && FieldValue(data, C) == c &&
      FieldValue(data, D) == if HasField(fields, D) then d else 0
  {
  }

  /**
   * Field A is written after the opcode over the same bits 0..5, so whatever the
   * opcode, a packed word carries A in its top six bits; a three-field command
   * leaves bits 42..71 zero and a four-field command bits 62..71.
   */
  lemma PackBitsLayout(opcode: nat, fields: seq<FieldRange>, a: nat, b: nat, c: nat, d: nat)
    requires fields == THREE_FIELDS || fields == FOUR_FIELDS
    requires a < Pow2(6) && b < Pow2(20) && c < Pow2(16) && d < Pow2(20)
    ensures PackBits(opcode, fields, FieldData(fields, a, b, c, d)) ==
      Ok(WordLayout(a, b, c, if fields == FOUR_FIELDS then d else 0))
  {
    HasFieldD();
    Pow2Constants();
    var data := FieldData(fields, a, b, c, d);
    FieldDataValues(fields, a, b, c, d);
    if fields == FOUR_FIELDS {
      PackBitsFour(opcode, data, a, b, c, d);
    } else {
      assert fields == THREE_FIELDS && |THREE_FIELDS| != |FOUR_FIELDS|;
      PackBitsThree(opcode, data, a, b, c);
    }
  }

  /** Writing the opcode, then A, B and C over zeros leaves WordLayout(a, b, c, 0). */
  lemma ThreeWrites(opcode: nat, a: nat, b: nat, c: nat)
    ensures Overwrite(Overwrite(Overwrite(Overwrite(Zeros(WORD_BITS), 0, BitsOf(opcode, 6)), 0, BitsOf(a, 6)), 6, BitsOf(b, 20)), 26, BitsOf(c, 16))
      == WordLayout(a, b, c, 0)
  {
    var ba, bb, bc := BitsOf(a, 6), BitsOf(b, 20), BitsOf(c, 16);
    var s1 := Overwrite(Zeros(WORD_BITS), 0, BitsOf(opcode, 6));
    var s2 := Overwrite(s1, 0, ba);
    assert s2 == ba + Zeros(66) by {
      assert s1[6..] == Zeros(66);
    }
    var s3 := Overwrite(s2, 6, bb);
    assert s3 == ba + bb + Zeros(46) by {
      assert s2[..6] == ba && s2[26..] == Zeros(46);
    }
    assert Overwrite(s3, 26, bc) == ba + bb + bc + Zeros(30) by {
      assert s3[..26] == ba + bb && s3[42..] == Zeros(30);
    }
    assert WordLayout(a, b, c, 0) == ba + bb + bc + Zeros(30) by {
      BitsOfZero(20);
      assert Zeros(20) + Zeros(10) == Zeros(30);
    }
  }

  /** Writing D over WordLayout(a, b, c, 0) gives WordLayout(a, b, c, d). */
  lemma FourthWrite(bits: seq<bool>, a: nat, b: nat, c: nat, d: nat)
    requires bits == WordLayout(a, b, c, 0)
    ensures Overwrite(bits, 42, BitsOf(d, 20)) == WordLayout(a, b, c, d)
  {
  }

  /** A successful pack is exactly 9 bytes, the big-endian form of WordLayout, whatever the opcode. */
  lemma PackWord(opcode: nat, fields: seq<FieldRange>, a: nat, b: nat, c: nat, d: nat)
    requires fields == THREE_FIELDS || fields == FOUR_FIELDS
    requires a < Pow2(6) && b < Pow2(20) && c < Pow2(16) && d < Pow2(20)
    ensures Pack(opcode, fields, FieldData(fields, a, b, c, d)) ==
      Ok(ToBytes(ValueOf(WordLayout(a, b, c, if fields == FOUR_FIELDS then d else 0)), WORD_BYTES))
    ensures |Pack(opcode, fields, FieldData(fields, a, b, c, d)).value| == WORD_BYTES
  {
    PackBitsLayout(opcode, fields, a, b, c, d);
  }

  /** The fields of one block as the interpreter reads them, before any reduction modulo the memory size. */
  datatype Decoded = Decoded(opcode: nat, a: nat, b: nat, c: nat, d: nat)

  /** extract_bits: the inclusive slice [start, end] of a bit string read as a binary numeral. */
  function ExtractBits(bits: seq<bool>, start: nat, end: nat): nat
    requires start <= end < |bits|
  {
    ValueOf(bits[start..end + 1])
  }

  /**
   * unpack_instruction: the block's big-endian value as a binary numeral
   * zero-filled to 72 digits (a block has at most 9 bytes, so its value has
   * at most 72 digits); digits 0..5 are the opcode, the other 66 are returned.
   */
  function Unpack(block: seq<byte>): (r: (nat, seq<bool>))
    requires |block| <= WORD_BYTES
    ensures r.0 < 64 && |r.1| == WORD_BITS - 6
  {
    var bits := BitsOf(FromBytes(block), WORD_BITS);
    assert Pow2(6) == 64;
    (ValueOf(bits[..6]), bits[6..])
  }

  /**
   * The interpreter's field extraction: A, B, C and D are read from the
   * remaining 66 bits at the offsets of the packing table, that is, six bits
   * later in the word than they were packed.
   */
  function Decode(block: seq<byte>): Decoded
    requires |block| <= WORD_BYTES
  {
    var (opcode, rest) := Unpack(block);
    Decoded(opcode, ExtractBits(rest, 0, 5), ExtractBits(rest, 6, 25),
            ExtractBits(rest, 26, 41), ExtractBits(rest, 42, 61))
  }

  /**
   * The instruction the decoder reads from a word packed with operands a, b,
   * c and d: A as the opcode, then each field read six bits late, so that it
   * takes the low bits of one operand and the top six bits of the next.
   */
  function Skewed(a: nat, b: nat, c: nat, d: nat): Decoded
  {
    Decoded(a, b / 16384, (b % 16384) * 64 + c / 1024, (c % 1024) * 64 + d / 16384, (d % 16384) * 64)
  }

  lemma Pow2Constants()
    ensures Pow2(6) == 64 && Pow2(10) == 1024 && Pow2(14) == 16384
    ensures Pow2(16) == 65536 && Pow2(20) == 1048576
  {
  }

  /** A slice of a concatenation that covers exactly its middle part. */
  lemma SliceMiddle<T>(p: seq<T>, m: seq<T>, s: seq<T>)
    ensures (p + m + s)[|p|..|p| + |m|] == m
  {
  }

  /** The slice of p + x + y + s after p and before s is x + y. */
  lemma SliceOfFour<T>(p: seq<T>, x: seq<T>, y: seq<T>, s: seq<T>)
    ensures (p + x + y + s)[|p|..|p| + |x| + |y|] == x + y
  {
    var w, m := p + x + y + s, x + y;
    assert w == p + (m + s);
    assert w[|p|..] == m + s;
    assert (m + s)[..|m|] == m;
    assert w[|p|..|p| + |m|] == w[|p|..][..|m|];
  }

  /** A word in WordLayout form, split at every boundary the decoder reads across. */
  lemma WordChunks(a: nat, b: nat, c: nat, d: nat)
    ensures WordLayout(a, b, c, d) ==
      BitsOf(a, 6) + BitsOf(Shr(b, 14), 6) + BitsOf(b, 14) + BitsOf(Shr(c, 10), 6)
      + BitsOf(c, 10) + BitsOf(Shr(d, 14), 6) + BitsOf(d, 14) + Zeros(10)
  {
    BitsOfSplit(b, 6, 14);
    BitsOfSplit(c, 6, 10);
    BitsOfSplit(d, 6, 14);
  }

  /** Reading bits [lo, lo + |x| + |y|) of p + x + y + s gives the numeral x followed by y. */
  lemma ReadAcross(p: seq<bool>, x: seq<bool>, y: seq<bool>, s: seq<bool>)
    ensures ValueOf((p + x + y + s)[|p|..|p| + |x| + |y|]) == ValueOf(x) * Pow2(|y|) + ValueOf(y)
  {
    SliceOfFour(p, x, y, s);
    ValueOfAppend(x, y);
  }

  /** The six-bit value above bit position lo of a (lo + 6)-bit value. */
  lemma TopSix(v: nat, lo: nat)
    requires v < Pow2(lo + 6)
    ensures ValueOf(BitsOf(Shr(v, lo), 6)) == v / Pow2(lo)
  {
    var top := Shr(v, lo);
    ShrIsDiv(v, lo);
    Pow2Add(lo, 6);
    DivBelow(v, Pow2(lo), Pow2(6));
    ValueOfBitsOf(top, 6);
    DivModUnique(top, Pow2(6), 0, top);
  }

  /** Unpacking a packed word gives A as the opcode and word bits 6..71 as the rest. */
  lemma UnpackLayout(a: nat, b: nat, c: nat, d: nat)
    requires a < Pow2(6)
    ensures Unpack(ToBytes(ValueOf(WordLayout(a, b, c, d)), WORD_BYTES)) == (a, WordLayout(a, b, c, d)[6..])
  {
    var w := WordLayout(a, b, c, d);
    var block := ToBytes(ValueOf(w), WORD_BYTES);
    assert FromBytes(block) == ValueOf(w) by {
      FromBytesToBytes(ValueOf(w), WORD_BYTES);
    }
    assert BitsOf(FromBytes(block), WORD_BITS) == w by {
      BitsOfValueOf(w);
    }
    assert ValueOf(w[..6]) == a by {
      assert w[..6] == BitsOf(a, 6);
      ValueOfBitsOf(a, 6);
      DivModUnique(a, Pow2(6), 0, a);
    }
  }

  lemma DecodedA(a: nat, b: nat, c: nat, d: nat)
    requires b < Pow2(20)
    ensures ExtractBits(WordLayout(a, b, c, d)[6..], 0, 5) == b / 16384
  {
    Pow2Constants();
    WordChunks(a, b, c, d);
    var w := WordLayout(a, b, c, d);
    assert w[6..][0..6] == BitsOf(Shr(b, 14), 6);
    TopSix(b, 14);
  }

  lemma DecodedB(a: nat, b: nat, c: nat, d: nat)
    requires c < Pow2(16)
    ensures ExtractBits(WordLayout(a, b, c, d)[6..], 6, 25) == (b % 16384) * 64 + c / 1024
  {
    Pow2Constants();
    WordChunks(a, b, c, d);
    var w := WordLayout(a, b, c, d);
    var p := BitsOf(a, 6) + BitsOf(Shr(b, 14), 6);
    var x, y := BitsOf(b, 14), BitsOf(Shr(c, 10), 6);
    var s := BitsOf(c, 10) + BitsOf(Shr(d, 14), 6) + BitsOf(d, 14) + Zeros(10);
    assert w == p + x + y + s;
    assert w[6..][6..26] == (p + x + y + s)[12..32];
    ReadAcross(p, x, y, s);
    ValueOfBitsOf(b, 14);
    TopSix(c, 10);
  }

  lemma DecodedC(a: nat, b: nat, c: nat, d: nat)
    requires d < Pow2(20)
    ensures ExtractBits(WordLayout(a, b, c, d)[6..], 26, 41) == (c % 1024) * 64 + d / 16384
  {
    Pow2Constants();
    WordChunks(a, b, c, d);
    var w := WordLayout(a, b, c, d);
    var p := BitsOf(a, 6) + BitsOf(Shr(b, 14), 6) + BitsOf(b, 14) + BitsOf(Shr(c, 10), 6);
    var x, y := BitsOf(c, 10), BitsOf(Shr(d, 14), 6);
    var s := BitsOf(d, 14) + Zeros(10);
    assert w == p + x + y + s;
    assert w[6..][26..42] == (p + x + y + s)[32..48];
    ReadAcross(p, x, y, s);
    ValueOfBitsOf(c, 10);
    TopSix(d, 14);
  }

  lemma DecodedD(a: nat, b: nat, c: nat, d: nat)
    ensures ExtractBits(WordLayout(a, b, c, d)[6..], 42, 61) == (d % 16384) * 64
  {
    Pow2Constants();
    WordChunks(a, b, c, d);
    var w := WordLayout(a, b, c, d);
    var p := BitsOf(a, 6) + BitsOf(Shr(b, 14), 6) + BitsOf(b, 14) + BitsOf(Shr(c, 10), 6)
      + BitsOf(c, 10) + BitsOf(Shr(d, 14), 6);
    var x, y, s := BitsOf(d, 14), Zeros(6), Zeros(4);
    assert w == p + x + y + s;
    assert w[6..][42..62] == (p + x + y + s)[48..68];
    ReadAcross(p, x, y, s);
    ValueOfBitsOf(d, 14);
    BitsOfZero(6);
    ValueOfBitsOf(0, 6);
  }

  /**
   * Decoding a packed word does not give back its fields: the decoded opcode is
   * A, and a, b, c, d are read six bits late, straddling the packed fields.
   */
  lemma DecodeWordLayout(a: nat, b: nat, c: nat, d: nat)
    requires a < Pow2(6) && b < Pow2(20) && c < Pow2(16) && d < Pow2(20)
    ensures Decode(ToBytes(ValueOf(WordLayout(a, b, c, d)), WORD_BYTES)) == Skewed(a, b, c, d)
  {
    UnpackLayout(a, b, c, d);
    DecodedA(a, b, c, d);
    DecodedB(a, b, c, d);
    DecodedC(a, b, c, d);
    DecodedD(a, b, c, d);
  }

  /** Decoding what the packer produced for a layout of the table, in closed form. */
  lemma DecodePacked(opcode: nat, fields: seq<FieldRange>, a: nat, b: nat, c: nat, d: nat)
    requires fields == THREE_FIELDS || fields == FOUR_FIELDS
    requires a < 64 && b < 1048576 && c < 65536 && d < 1048576
    ensures var d' := if fields == FOUR_FIELDS then d else 0;
      var packed := Pack(opcode, fields, FieldData(fields, a, b, c, d));
      packed.Ok? && |packed.value| == WORD_BYTES &&
      Decode(packed.value) == Skewed(a, b, c, d')
  {
    Pow2Constants();
    var d' := if fields == FOUR_FIELDS then d else 0;
    PackWord(opcode, fields, a, b, c, d);
    DecodeWordLayout(a, b, c, d');
  }

  /** A value outside its field's range makes packing fail, for either layout of the table. */
  lemma PackRejects(opcode: nat, fields: seq<FieldRange>, a: int, b: int, c: int, d: int)
    requires fields == THREE_FIELDS || fields == FOUR_FIELDS
    requires !(0 <= a < 64 && 0 <= b < 1048576 && 0 <= c < 65536 && (fields == FOUR_FIELDS ==> 0 <= d < 1048576))
    ensures Pack(opcode, fields, FieldData(fields, a, b, c, d)).Err?
  {
    HasFieldD();
    Pow2Constants();
    var data := FieldData(fields, a, b, c, d);
    assert FieldValue(data, A) == a && FieldValue(data, B) == b && FieldValue(data, C) == c;
    FillFieldsFails(Overwrite(Zeros(WORD_BITS), 0, BitsOf(opcode, 6)), fields, data);
    assert fields[0] == FieldRange(A, 0, 5) && fields[1] == FieldRange(B, 6, 25) && fields[2] == FieldRange(C, 26, 41);
    if !(0 <= a < 64) {
      assert !InRange(fields[0], FieldValue(data, fields[0].name));
    } else if !(0 <= b < 1048576) {
      assert !InRange(fields[1], FieldValue(data, fields[1].name));
    } else if !(0 <= c < 65536) {
      assert !InRange(fields[2], FieldValue(data, fields[2].name));
    } else {
      assert fields[3] == FieldRange(D, 42, 61) && FieldValue(data, D) == d;
      assert !InRange(fields[3], FieldValue(data, fields[3].name));
    }
  }

  /** Whether a field list fails does not depend on the bits it is written over, nor does its error. */
  lemma {:induction false} FillFieldsErrorIgnoresBits(bits1: seq<bool>, bits2: seq<bool>, fields: seq<FieldRange>, data: map<FieldName, int>)
    requires |bits1| == WORD_BITS && |bits2| == WORD_BITS && ValidLayout(fields)
    requires FillFields(bits1, fields, data).Err?
    ensures FillFields(bits2, fields, data) == FillFields(bits1, fields, data)
    decreases |fields|
  {
    var f := fields[0];
    var value := FieldValue(data, f.name);
    if InRange(f, value) {
      FillFieldsErrorIgnoresBits(Overwrite(bits1, f.start, BitsOf(value, f.Width())),
        Overwrite(bits2, f.start, BitsOf(value, f.Width())), fields[1..], data);
    }
  }

  /**
   * When the first field covers exactly the opcode's bits 0..5 the opcode
   * argument has no effect on the packed word, since the field is written after it.
   */
  lemma PackIgnoresOpcode(opcode1: nat, opcode2: nat, fields: seq<FieldRange>, data: map<FieldName, int>)
    requires ValidLayout(fields) && |fields| > 0 && fields[0].start == 0 && fields[0].end == 5
    ensures Pack(opcode1, fields, data) == Pack(opcode2, fields, data)
  {
    var bits1 := Overwrite(Zeros(WORD_BITS), 0, BitsOf(opcode1, 6));
    var bits2 := Overwrite(Zeros(WORD_BITS), 0, BitsOf(opcode2, 6));
    var value := FieldValue(data, fields[0].name);
    if InRange(fields[0], value) {
      assert Overwrite(bits1, 0, BitsOf(value, 6)) == Overwrite(bits2, 0, BitsOf(value, 6));
    } else {
      assert FillFields(bits1, fields, data) == FillFields(bits2, fields, data);
    }
  }

  /** Every command of the table has one of the two layouts, an opcode in 0..5, and writes field A over the opcode's bits. */
  lemma CommandsStartWithA(name: string)
    requires name in COMMANDS
    ensures var fields := COMMANDS[name].fields;
      (fields == THREE_FIELDS || fields == FOUR_FIELDS) && COMMANDS[name].opcode <= 5 &&
      ValidLayout(fields) && |fields| > 0 && fields[0] == FieldRange(A, 0, 5)
  {
  }

  /** The inner loop of pack_instruction: value written MSB first into bits start .. start + width - 1. */
  method WriteField(bits: array<bool>, start: nat, value: nat, width: nat)
    requires start + width <= bits.Length
    modifies bits
    ensures bits[..] == Overwrite(old(bits[..]), start, BitsOf(value, width))
  {
    for i := 0 to width
      invariant forall j :: 0 <= j < bits.Length ==>
        bits[j] == if start <= j < start + i then BitsOf(value, width)[j - start] else old(bits[j])
    {
      BitsOfAt(value, width, i);
      bits[start + i] := Bit(value, width - i - 1);
    }
  }

  /** The step of pack_instruction's loop at field k: fail on its value, or write it and go on with the fields after it. */
  lemma FillSuffix(bits: seq<bool>, fields: seq<FieldRange>, k: nat, data: map<FieldName, int>)
    requires |bits| == WORD_BITS && ValidLayout(fields) && k < |fields|
    ensures ValidLayout(fields[k..]) && ValidLayout(fields[k + 1..])
    ensures var f := fields[k];
      var value := FieldValue(data, f.name);
      FillFields(bits, fields[k..], data) ==
        if InRange(f, value) then FillFields(Overwrite(bits, f.start, BitsOf(value, f.Width())), fields[k + 1..], data)
        else Err(OutOfRange(f.name, value, MaxValue(f)))
  {
    assert fields[k..][0] == fields[k] && fields[k..][1..] == fields[k + 1..];
  }

  /** pack_instruction, filling a 72-element bit array in place: the opcode first, then each field. */
  method PackInstruction(opcode: nat, fields: seq<FieldRange>, data: map<FieldName, int>)
    returns (r: Result<seq<byte>, PackError>)
    requires ValidLayout(fields)
    ensures r == Pack(opcode, fields, data)
  {
    var bits := new bool[WORD_BITS](_ => false);
    assert bits[..] == Zeros(WORD_BITS);
    WriteField(bits, 0, opcode, 6);
    var k := 0;
    while k < |fields|
      invariant 0 <= k <= |fields| && bits.Length == WORD_BITS && ValidLayout(fields[k..])
      invariant FillFields(bits[..], fields[k..], data) == PackBits(opcode, fields, data)
    {
      var f := fields[k];
      var value := FieldValue(data, f.name);
      var width := f.Width();
      var maxValue := MaxValue(f);
      ghost var before := bits[..];
      FillSuffix(before, fields, k, data);
      if value < 0 || value > maxValue {
        return Err(OutOfRange(f.name, value, maxValue));
      }
      WriteField(bits, f.start, value, width);
      k := k + 1;
    }
    assert fields[k..] == [];
    r := Ok(ToBytes(ValueOf(bits[..]), WORD_BYTES));
  }
}
