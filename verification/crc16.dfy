/** CRC-16/BUYPASS: width 16, polynomial 0x8005, initial value 0, no input or
    output reflection, no final xor.

    Two definitions are given and proved equal: the table-driven one that the
    protocol uses (a 256-entry table, one lookup per byte), and the
    bit-by-bit shift register of the CRC catalogue. The class `Crc16Buypass`
    builds the table with the nested loops of the C# table builder and folds
    it over a byte sequence. All arithmetic is on `bv16`, which is exactly the
    truncation to 16 bits that the `ushort` casts of the implementation
    perform. */
module Crc16 {

  const Polynomial: bv16 := 0x8005

  /** The 16-bit shift register. Facts about whole registers are stated on
      this wrapper, facts about single bits on `bits`. */
  datatype Register = Register(bits: bv16)

  /** One clock of the MSB-first shift register: shift left, and feed the
      polynomial back when the bit shifted out was set. `0 - (bits >> 15)`
      is all ones exactly when the top bit is set, so the feedback is a mask
      rather than a branch; `ClockCases` states the two branches. */
  function Clock(r: Register): Register
  {
    Register((r.bits << 1) ^ (Polynomial & (0 - (r.bits >> 15))))
  }

  /** Bitwise xor of two registers. */
  function Mix(a: Register, b: Register): Register
  {
    Register(a.bits ^ b.bits)
  }

  function Clock4(r: Register): Register
  {
    Clock(Clock(Clock(Clock(r))))
  }

  /** The eight clocks that consume one byte. */
  function Clock8(r: Register): Register
  {
    Clock4(Clock4(r))
  }

  /** Entry `i` of the lookup table: eight clocks of the register loaded with
      `i` in its high byte. */
  function TableEntry(i: bv8): bv16
  {
    Clock8(Register((i as bv16) << 8)).bits
  }

  /** The table slot read for input byte `b`: the register's high byte xor
      the input byte. */
  function TableIndex(crc: bv16, b: bv8): bv8
  {
    (((crc >> 8) ^ (b as bv16)) & 0xFF) as bv8
  }

  /** Table-driven update for one input byte: the register shifted by a byte,
      xor the table entry. */
  function TableUpdate(crc: bv16, b: bv8): bv16
  {
    (crc << 8) ^ TableEntry(TableIndex(crc, b))
  }

  /** The table-driven checksum, folded from the left starting at 0. */
  function Checksum(bytes: seq<bv8>): bv16
    decreases |bytes|
  {
    if bytes == [] then 0
    else TableUpdate(Checksum(bytes[..|bytes| - 1]), bytes[|bytes| - 1])
  }

  /** Catalogue (bit-by-bit) update: xor the byte into the high half of the
      register, then clock it eight times. */
  function BitwiseUpdate(crc: bv16, b: bv8): bv16
  {
    Clock8(Register(crc ^ ((b as bv16) << 8))).bits
  }

  /** The catalogue definition of CRC-16/BUYPASS. */
  function BitwiseCrc(bytes: seq<bv8>): bv16
    decreases |bytes|
  {
    if bytes == [] then 0
    else BitwiseUpdate(BitwiseCrc(bytes[..|bytes| - 1]), bytes[|bytes| - 1])
  }

  // ---------------------------------------------------------------------
  // The clock

  /** The mask form is the textbook branch: feed the polynomial back exactly
      when the top bit is set. */
  lemma ClockCases(r: Register)
    ensures r.bits & 0x8000 != 0 ==> Clock(r).bits == (r.bits << 1) ^ 0x8005
    ensures r.bits & 0x8000 == 0 ==> Clock(r).bits == r.bits << 1
  {
  }

  /** The clock is linear over GF(2). */
  lemma ClockMix(a: Register, b: Register)
    ensures Clock(Mix(a, b)) == Mix(Clock(a), Clock(b))
  {
  }

  lemma Clock4Mix(a: Register, b: Register)
    ensures Clock4(Mix(a, b)) == Mix(Clock4(a), Clock4(b))
  {
    ClockMix(a, b);
    ClockMix(Clock(a), Clock(b));
    ClockMix(Clock(Clock(a)), Clock(Clock(b)));
    ClockMix(Clock(Clock(Clock(a))), Clock(Clock(Clock(b))));
  }

  /** ... and so are the eight clocks of a byte. */
  lemma Clock8Mix(a: Register, b: Register)
    ensures Clock8(Mix(a, b)) == Mix(Clock8(a), Clock8(b))
  {
    Clock4Mix(a, b);
    Clock4Mix(Clock4(a), Clock4(b));
  }

  /** With the top bit clear the clock only shifts. */
  lemma ClockShifts(x: bv16)
    requires x & 0x8000 == 0
    ensures Clock(Register(x)) == Register(x << 1)
  {
  }

  /** The low byte of the register never reaches the top bit within eight
      clocks, so it is only shifted into the high byte. */
  lemma Clock8LowByte(crc: bv16)
    ensures Clock8(Register(crc & 0xFF)) == Register(crc << 8)
  {
    hide Clock;
    var x := crc & 0xFF;
    ClockShifts(x); x := x << 1;
    ClockShifts(x); x := x << 1;
    ClockShifts(x); x := x << 1;
    ClockShifts(x); x := x << 1;
    ClockShifts(x); x := x << 1;
    ClockShifts(x); x := x << 1;
    ClockShifts(x); x := x << 1;
    ClockShifts(x);
  }

  // ---------------------------------------------------------------------
  // Table-driven step == bit-by-bit step

  /** The table slot moved back into the high byte of the register. */
  function IndexHigh(crc: bv16, b: bv8): bv16
  {
    (TableIndex(crc, b) as bv16) << 8
  }

  /** The register after the byte is xored in, split into its low byte and
      the table slot in the high byte. */
  lemma SplitRegister(crc: bv16, b: bv8)
    ensures Register(crc ^ ((b as bv16) << 8))
         == Mix(Register(crc & 0xFF), Register(IndexHigh(crc, b)))
  {
  }

  /** The common form of both updates: the shifted register xor the clocked
      table slot. */
  function Recombined(crc: bv16, b: bv8): Register
  {
    Mix(Register(crc << 8), Clock8(Register(IndexHigh(crc, b))))
  }

  lemma BitwiseRecombined(crc: bv16, b: bv8)
    ensures BitwiseUpdate(crc, b) == Recombined(crc, b).bits
  {
    SplitRegister(crc, b);
    Clock8Mix(Register(crc & 0xFF), Register(IndexHigh(crc, b)));
    Clock8LowByte(crc);
  }

  lemma TableRecombined(crc: bv16, b: bv8)
    ensures TableUpdate(crc, b) == Recombined(crc, b).bits
  {
    hide Clock8;
  }

  /** One table-driven step equals one catalogue step, for every register
      value and every input byte. */
  lemma TableUpdateIsBitwise(crc: bv16, b: bv8)
    ensures TableUpdate(crc, b) == BitwiseUpdate(crc, b)
  {
    BitwiseRecombined(crc, b);
    TableRecombined(crc, b);
  }

  /** The table-driven checksum is CRC-16/BUYPASS as the catalogue defines it. */
  lemma {:induction false} ChecksumIsBitwise(bytes: seq<bv8>)
    ensures Checksum(bytes) == BitwiseCrc(bytes)
    decreases |bytes|
  {
    if bytes != [] {
      ChecksumIsBitwise(bytes[..|bytes| - 1]);
      TableUpdateIsBitwise(Checksum(bytes[..|bytes| - 1]), bytes[|bytes| - 1]);
    }
  }

  /** One more byte of a prefix: the checksum of `bytes[..n]` from that of
      `bytes[..n - 1]`. */
  lemma ChecksumPrefix(bytes: seq<bv8>, n: nat, before: bv16, after: bv16)
    requires 0 < n <= |bytes|
    requires Checksum(bytes[..n - 1]) == before
    requires TableUpdate(before, bytes[n - 1]) == after
    ensures Checksum(bytes[..n]) == after
  {
    assert bytes[..n][..n - 1] == bytes[..n - 1];
  }

  /** The catalogue check value: CRC-16/BUYPASS of ASCII "123456789" is 0xFEE8. */
  lemma CheckValue()
    ensures Checksum([0x31, 0x32, 0x33, 0x34, 0x35, 0x36, 0x37, 0x38, 0x39]) == 0xFEE8
    ensures BitwiseCrc([0x31, 0x32, 0x33, 0x34, 0x35, 0x36, 0x37, 0x38, 0x39]) == 0xFEE8
  {
    var s: seq<bv8> := [0x31, 0x32, 0x33, 0x34, 0x35, 0x36, 0x37, 0x38, 0x39];
    assert s[..0] == [];
    ChecksumPrefix(s, 1, 0x0000, 0x80A5);
    ChecksumPrefix(s, 2, 0x80A5, 0xA6AC);
    ChecksumPrefix(s, 3, 0xA6AC, 0xAF7E);
    ChecksumPrefix(s, 4, 0xAF7E, 0xFD59);
    ChecksumPrefix(s, 5, 0xFD59, 0xDBB3);
    ChecksumPrefix(s, 6, 0xDBB3, 0xB16E);
    ChecksumPrefix(s, 7, 0xB16E, 0xED17);
    ChecksumPrefix(s, 8, 0xED17, 0x95FD);
    ChecksumPrefix(s, 9, 0x95FD, 0xFEE8);
    assert s[..9] == s;
    ChecksumIsBitwise(s);
  }

  // ---------------------------------------------------------------------
  // The table-building loop

  /** One pass of the inner table loop on the pair `(value, temp)`: clock
      `value`, feeding back when the top bit of `value ^ temp` is set, and
      shift the remaining index bits in `temp`. */
  function SlotStep(p: (bv16, bv16)): (bv16, bv16)
  {
    (if (p.0 ^ p.1) & 0x8000 != 0 then (p.0 << 1) ^ Polynomial else p.0 << 1, p.1 << 1)
  }

  /** The inner loop's `(value, temp)` after `j` passes for table index `i`. */
  function Slot(i: bv16, j: nat): (bv16, bv16)
    decreases j
  {
    if j == 0 then (0, i << 8) else SlotStep(Slot(i, j - 1))
  }

  /** `value ^ temp` as a register. */
  function Merged(p: (bv16, bv16)): Register
  {
    Register(p.0 ^ p.1)
  }

  /** `value ^ temp` is the shift register: one pass clocks it once. */
  lemma SlotStepClocks(p: (bv16, bv16))
    ensures Merged(SlotStep(p)) == Clock(Merged(p))
  {
  }

  lemma SlotEight(i: bv16)
    ensures Slot(i, 8)
         == SlotStep(SlotStep(SlotStep(SlotStep(SlotStep(SlotStep(SlotStep(SlotStep((0, i << 8)))))))))
  {
    hide SlotStep;
  }

  lemma SlotClocked(i: bv16)
    ensures Merged(Slot(i, 8)) == Clock8(Merged((0, i << 8)))
  {
    SlotEight(i);
    hide SlotStep, Clock, Merged;
    var p := (0, i << 8);
    SlotStepClocks(p); p := SlotStep(p);
    SlotStepClocks(p); p := SlotStep(p);
    SlotStepClocks(p); p := SlotStep(p);
    SlotStepClocks(p); p := SlotStep(p);
    SlotStepClocks(p); p := SlotStep(p);
    SlotStepClocks(p); p := SlotStep(p);
    SlotStepClocks(p); p := SlotStep(p);
    SlotStepClocks(p);
  }

  /** After eight passes every index bit has left `temp`. */
  lemma SlotTempCleared(i: bv16)
    ensures Slot(i, 8).1 == 0
  {
    SlotEight(i);
  }

  /** Eight passes of the inner loop leave table entry `i` in `value`. */
  lemma SlotIsTableEntry(i: bv16)
    requires i < 256
    ensures Slot(i, 8).0 == TableEntry(i as bv8)
  {
    SlotClocked(i);
    SlotTempCleared(i);
  }

  // ---------------------------------------------------------------------

  /** The checksum's lookup table, filled once and read-only afterwards. */
  class Crc16Buypass {
    const table: array<bv16>

    ghost predicate Valid()
      reads this, table
    {
      table.Length == 256 &&
      forall b: bv8 :: table[b as int] == TableEntry(b)
    }

    /** The inner loop of the table fill for index `i`: runs the shift
        register on `value`, with `temp` carrying the index bits that are
        still to be fed in. */
    static method TableSlot(i: bv16) returns (value: bv16)
      requires i < 256
      ensures value == TableEntry(i as bv8)
    {
      value := 0;
      var temp: bv16 := i << 8;
      var j := 0;
      while j < 8
        invariant 0 <= j <= 8
        invariant (value, temp) == Slot(i, j)
      {
        if (value ^ temp) & 0x8000 != 0 {
          value := (value << 1) ^ Polynomial;
        } else {
          value := value << 1;
        }
        temp := temp << 1;
        j := j + 1;
      }
      hide Slot, SlotStep;
      SlotIsTableEntry(i);
    }

    /** Fills the table, one slot per index from 0 to 255. */
    constructor ()
      ensures Valid()
    {
      hide TableEntry;
      var t := new bv16[256];
      var i: bv16 := 0;
      while i < 256
        invariant i <= 256
        invariant forall b: bv8 :: b as bv16 < i ==> t[b as int] == TableEntry(b)
        decreases 256 - i
      {
        var value := TableSlot(i);
        t[i as int] := value;
        i := i + 1;
      }
      table := t;
    }

    /** Folds the table over `bytes`, starting from 0: the result is the
        CRC-16/BUYPASS of `bytes`. */
    method ComputeChecksum(bytes: seq<bv8>) returns (crc: bv16)
      requires Valid()
      ensures crc == Checksum(bytes)
      ensures crc == BitwiseCrc(bytes)
    {
      crc := 0;
      for k := 0 to |bytes|
        invariant crc == Checksum(bytes[..k])
      {
        var b := bytes[k];
        assert bytes[..k + 1][..k] == bytes[..k];
        crc := (crc << 8) ^ table[((((crc >> 8) ^ (b as bv16)) & 0xFF) as bv8) as int];
      }
      assert bytes[..|bytes|] == bytes;
      ChecksumIsBitwise(bytes);
    }
  }
}
