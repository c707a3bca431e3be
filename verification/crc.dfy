/**
 The Packet Error Code of section 5.4 of SMBus 2.0, as both ends of the serial link compute it:
 a CRC-8 with polynomial x^8 + x^2 + x + 1, initial value 0, no reflection and no final XOR.
 The master's crc.c and the client's crc.c hold the same algorithm and the same table.
 */
module Crc8 {
  import opened Bytes

  /** The lookup table as the source lays it out: sixteen rows of sixteen entries. */
  const ROWS: seq<seq<bv8>> := [
    [0x00, 0x07, 0x0E, 0x09, 0x1C, 0x1B, 0x12, 0x15, 0x38, 0x3F, 0x36, 0x31, 0x24, 0x23, 0x2A, 0x2D],
    [0x70, 0x77, 0x7E, 0x79, 0x6C, 0x6B, 0x62, 0x65, 0x48, 0x4F, 0x46, 0x41, 0x54, 0x53, 0x5A, 0x5D],
    [0xE0, 0xE7, 0xEE, 0xE9, 0xFC, 0xFB, 0xF2, 0xF5, 0xD8, 0xDF, 0xD6, 0xD1, 0xC4, 0xC3, 0xCA, 0xCD],
    [0x90, 0x97, 0x9E, 0x99, 0x8C, 0x8B, 0x82, 0x85, 0xA8, 0xAF, 0xA6, 0xA1, 0xB4, 0xB3, 0xBA, 0xBD],
    [0xC7, 0xC0, 0xC9, 0xCE, 0xDB, 0xDC, 0xD5, 0xD2, 0xFF, 0xF8, 0xF1, 0xF6, 0xE3, 0xE4, 0xED, 0xEA],
    [0xB7, 0xB0, 0xB9, 0xBE, 0xAB, 0xAC, 0xA5, 0xA2, 0x8F, 0x88, 0x81, 0x86, 0x93, 0x94, 0x9D, 0x9A],
    [0x27, 0x20, 0x29, 0x2E, 0x3B, 0x3C, 0x35, 0x32, 0x1F, 0x18, 0x11, 0x16, 0x03, 0x04, 0x0D, 0x0A],
    [0x57, 0x50, 0x59, 0x5E, 0x4B, 0x4C, 0x45, 0x42, 0x6F, 0x68, 0x61, 0x66, 0x73, 0x74, 0x7D, 0x7A],
    [0x89, 0x8E, 0x87, 0x80, 0x95, 0x92, 0x9B, 0x9C, 0xB1, 0xB6, 0xBF, 0xB8, 0xAD, 0xAA, 0xA3, 0xA4],
    [0xF9, 0xFE, 0xF7, 0xF0, 0xE5, 0xE2, 0xEB, 0xEC, 0xC1, 0xC6, 0xCF, 0xC8, 0xDD, 0xDA, 0xD3, 0xD4],
    [0x69, 0x6E, 0x67, 0x60, 0x75, 0x72, 0x7B, 0x7C, 0x51, 0x56, 0x5F, 0x58, 0x4D, 0x4A, 0x43, 0x44],
    [0x19, 0x1E, 0x17, 0x10, 0x05, 0x02, 0x0B, 0x0C, 0x21, 0x26, 0x2F, 0x28, 0x3D, 0x3A, 0x33, 0x34],
    [0x4E, 0x49, 0x40, 0x47, 0x52, 0x55, 0x5C, 0x5B, 0x76, 0x71, 0x78, 0x7F, 0x6A, 0x6D, 0x64, 0x63],
    [0x3E, 0x39, 0x30, 0x37, 0x22, 0x25, 0x2C, 0x2B, 0x06, 0x01, 0x08, 0x0F, 0x1A, 0x1D, 0x14, 0x13],
    [0xAE, 0xA9, 0xA0, 0xA7, 0xB2, 0xB5, 0xBC, 0xBB, 0x96, 0x91, 0x98, 0x9F, 0x8A, 0x8D, 0x84, 0x83],
    [0xDE, 0xD9, 0xD0, 0xD7, 0xC2, 0xC5, 0xCC, 0xCB, 0xE6, 0xE1, 0xE8, 0xEF, 0xFA, 0xFD, 0xF4, 0xF3]
  ]

  function Flat(rows: seq<seq<bv8>>): seq<bv8> {
    if rows == [] then [] else rows[0] + Flat(rows[1..])
  }

  const TABLE: seq<bv8> := Flat(ROWS)

  lemma {:induction false} FlatIndex(rows: seq<seq<bv8>>, k: nat, j: nat)
    requires forall r :: 0 <= r < |rows| ==> |rows[r]| == 16
    requires k < |rows| && j < 16
    ensures |Flat(rows)| == 16 * |rows|
    ensures Flat(rows)[16 * k + j] == rows[k][j]
  {
    if |rows| > 1 {
      FlatIndex(rows[1..], if k == 0 then 0 else k - 1, j);
    } else {
      assert Flat(rows[1..]) == [];
    }
  }

  lemma RowSizes()
    ensures |ROWS| == 16
    ensures forall r :: 0 <= r < 16 ==> |ROWS[r]| == 16
  {
  }

  lemma TableSize()
    ensures |TABLE| == 256
  {
    RowSizes();
    FlatIndex(ROWS, 0, 0);
  }

  /** One byte of the division as the source computes it: the table, indexed by the accumulator XOR the byte. */
  function TableRound(crc: bv8, b: bv8): bv8 {
    TableSize();
    TABLE[(crc ^ b) as int]
  }

  // ----- The division

  /** Multiplication by x modulo the polynomial: the bit shifted out comes back at x^2, x and 1. */
  function Step(c: bv8): bv8 {
    (c << 1) ^ (c >> 7) ^ ((c >> 7) << 1) ^ ((c >> 7) << 2)
  }

  function StepN(n: nat, c: bv8): bv8 {
    if n == 0 then c else Step(StepN(n - 1, c))
  }

  /** One byte of the division: eight steps, one for each bit. */
  function DivisionRound(crc: bv8, b: bv8): bv8 {
    StepN(8, crc ^ b)
  }

  /** The accumulator after the division of `data`, from `CRC_INIT` = 0. */
  function Crc(data: seq<bv8>): bv8 {
    if data == [] then 0
    else DivisionRound(Crc(data[..|data| - 1]), data[|data| - 1])
  }

  function AsBits(data: seq<byte>): (r: seq<bv8>)
    ensures |r| == |data|
  {
    seq(|data|, i requires 0 <= i < |data| => data[i] as bv8)
  }

  /** The checksum of a byte sequence. */
  function Checksum(data: seq<byte>): byte {
    Crc(AsBits(data)) as int
  }

  lemma CrcSnoc(data: seq<byte>, b: byte)
    ensures Crc(AsBits(data + [b])) == DivisionRound(Crc(AsBits(data)), b as bv8)
  {
    hide DivisionRound;
    assert AsBits(data + [b])[..|data|] == AsBits(data);
  }

  /** `crc`: a null pointer yields 0. */
  method ComputeCrc(data: array?<byte>, size: byte) returns (crc: byte)
    requires data != null ==> size <= data.Length
    ensures crc == if data == null then 0 else Checksum(data[..size])
  {
    hide DivisionRound, TableRound;
    if data == null {
      return 0;
    }
    var acc: bv8 := 0;
    for i := 0 to size
      invariant acc == Crc(AsBits(data[..i]))
    {
      assert data[..i + 1] == data[..i] + [data[i]];
      CrcSnoc(data[..i], data[i]);
      RoundIsDivision(acc, data[i] as bv8);
      acc := TableRound(acc, data[i] as bv8);
    }
    crc := acc as int;
  }

  /** `crc_check`: a null pointer yields the complement of 0. */
  method CrcCheck(data: array?<byte>, size: byte) returns (remainder: byte)
    requires data != null ==> size <= data.Length
    ensures remainder == if data == null then 0xFF else Checksum(data[..size])
  {
    hide DivisionRound, TableRound;
    if data == null {
      return 0xFF;
    }
    var acc: bv8 := 0;
    for i := 0 to size
      invariant acc == Crc(AsBits(data[..i]))
    {
      assert data[..i + 1] == data[..i] + [data[i]];
      CrcSnoc(data[..i], data[i]);
      RoundIsDivision(acc, data[i] as bv8);
      acc := TableRound(acc, data[i] as bv8);
    }
    remainder := acc as int;
  }

  // ----- The table divides

  lemma StepIsConditionalXor(c: bv8)
    ensures Step(c) == if c & 0x80 != 0 then (c << 1) ^ 0x07 else c << 1
  {
    assert c & 0x80 != 0 ==> c >> 7 == 1;
    assert c & 0x80 == 0 ==> c >> 7 == 0;
  }

  /**
   Multiplication by x^8, which is x^2 + x + 1 modulo the polynomial: three shifted copies of the
   register, and three of the two bits that overflow.
   */
  function TimesX8(c: bv8): bv8 {
    var t := (c >> 7) ^ (c >> 6);
    c ^ (c << 1) ^ (c << 2) ^ t ^ (t << 1) ^ (t << 2)
  }

  lemma TimesX8IsEightSteps(c: bv8)
    ensures StepN(8, c) == TimesX8(c)
  {
    assert StepN(1, c) == Step(c);
    assert StepN(2, c) == Step(Step(c));
    assert StepN(4, c) == Step(Step(StepN(2, c)));
    assert StepN(6, c) == Step(Step(StepN(4, c)));
  }

  /** The eight-step loop that the source compiles when its table does not fit the polynomial. */
  method BitwiseRound(crc: bv8, b: bv8) returns (r: bv8)
    ensures r == TableRound(crc, b)
  {
    hide Step, TableRound;
    r := crc ^ b;
    for k := 0 to 8
      invariant r == StepN(k, crc ^ b)
    {
      StepIsConditionalXor(r);
      if r & 0x80 != 0 {
        r := (r << 1) ^ 0x07;
      } else {
        r := r << 1;
      }
    }
    RoundIsDivision(crc, b);
  }

  lemma StepLinear(a: bv8, b: bv8)
    ensures Step(a ^ b) == Step(a) ^ Step(b)
  {
  }

  /** A row of the table is its first entry XORed into the first row. */
  predicate RowOf(row: seq<bv8>, head: bv8) {
    && |row| == 16
    && row[0] == head && row[1] == head ^ 0x07
    && row[2] == head ^ 0x0E && row[3] == head ^ 0x09
    && row[4] == head ^ 0x1C && row[5] == head ^ 0x1B
    && row[6] == head ^ 0x12 && row[7] == head ^ 0x15
    && row[8] == head ^ 0x38 && row[9] == head ^ 0x3F
    && row[10] == head ^ 0x36 && row[11] == head ^ 0x31
    && row[12] == head ^ 0x24 && row[13] == head ^ 0x23
    && row[14] == head ^ 0x2A && row[15] == head ^ 0x2D
  }

  lemma RowsLow(h: bv8)
    requires h < 8
    ensures RowOf(ROWS[h as int], TimesX8(h << 4))
  {
    if h == 0 {} else if h == 1 {} else if h == 2 {} else if h == 3 {}
    else if h == 4 {} else if h == 5 {} else if h == 6 {} else { assert h == 7; }
  }

  lemma RowsHigh(h: bv8)
    requires 8 <= h < 16
    ensures RowOf(ROWS[h as int], TimesX8(h << 4))
  {
    if h == 8 {} else if h == 9 {} else if h == 10 {} else if h == 11 {}
    else if h == 12 {} else if h == 13 {} else if h == 14 {} else { assert h == 15; }
  }

  lemma RowEntry(row: seq<bv8>, head: bv8, l: bv8)
    requires RowOf(row, head)
    requires l < 16
    ensures row[l as int] == head ^ TimesX8(l)
  {
    if l < 8 { RowEntryLow(row, head, l); } else { RowEntryHigh(row, head, l); }
  }

  lemma RowEntryLow(row: seq<bv8>, head: bv8, l: bv8)
    requires RowOf(row, head)
    requires l < 8
    ensures row[l as int] == head ^ TimesX8(l)
  {
    if l == 0 {} else if l == 1 {} else if l == 2 {} else if l == 3 {}
    else if l == 4 {} else if l == 5 {} else if l == 6 {} else { assert l == 7; }
  }

  lemma RowEntryHigh(row: seq<bv8>, head: bv8, l: bv8)
    requires RowOf(row, head)
    requires 8 <= l < 16
    ensures row[l as int] == head ^ TimesX8(l)
  {
    if l == 8 {} else if l == 9 {} else if l == 10 {} else if l == 11 {}
    else if l == 12 {} else if l == 13 {} else if l == 14 {} else { assert l == 15; }
  }

  lemma Nibbles(x: bv8)
    ensures x as int == 16 * ((x >> 4) as int) + (x & 0x0F) as int
    ensures x >> 4 < 16 && x & 0x0F < 16
    ensures TimesX8(x) == TimesX8((x >> 4) << 4) ^ TimesX8(x & 0x0F)
  {
  }

  lemma FlatAt(rows: seq<seq<bv8>>, x: bv8)
    requires |rows| == 16 && forall k :: 0 <= k < 16 ==> |rows[k]| == 16
    ensures |Flat(rows)| == 256
    ensures x >> 4 < 16 && x & 0x0F < 16
    ensures Flat(rows)[x as int] == rows[(x >> 4) as int][(x & 0x0F) as int]
  {
    Nibbles(x);
    FlatIndex(rows, (x >> 4) as int, (x & 0x0F) as int);
  }

  /** Row h holds the products of 16h .. 16h + 15 by x^8. */
  predicate RowDivides(rows: seq<seq<bv8>>, h: bv8) {
    |rows| == 16 && (h < 16 ==> RowOf(rows[h as int], TimesX8(h << 4)))
  }

  lemma RowsDivide()
    ensures forall h: bv8 :: RowDivides(ROWS, h)
  {
    RowSizes();
    forall h: bv8
      ensures RowDivides(ROWS, h)
    {
      if h < 8 { RowsLow(h); } else if h < 16 { RowsHigh(h); }
    }
  }

  lemma FlatIsDivision(rows: seq<seq<bv8>>, x: bv8)
    requires |rows| == 16 && forall k :: 0 <= k < 16 ==> |rows[k]| == 16
    requires forall h: bv8 :: RowDivides(rows, h)
    ensures |Flat(rows)| == 256
    ensures Flat(rows)[x as int] == TimesX8(x)
  {
    FlatAt(rows, x);
    assert RowDivides(rows, x >> 4);
    RowEntry(rows[(x >> 4) as int], TimesX8((x >> 4) << 4), x & 0x0F);
    Nibbles(x);
  }

  /** Every entry of the table is its index multiplied by x^8 modulo the polynomial. */
  lemma TableIsDivision(x: bv8)
    ensures |TABLE| == 256
    ensures TABLE[x as int] == TimesX8(x)
  {
    RowSizes();
    RowsDivide();
    FlatIsDivision(ROWS, x);
  }

  lemma RoundIsDivision(crc: bv8, b: bv8)
    ensures TableRound(crc, b) == DivisionRound(crc, b)
  {
    TableIsDivision(crc ^ b);
    TimesX8IsEightSteps(crc ^ b);
  }
}
