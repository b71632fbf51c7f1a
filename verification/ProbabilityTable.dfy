/** The probability estimation state machine shared by both arithmetic coders
    (jaricom.c; T.81 Table D.3), and the one-byte statistics bins that index it. */
module ProbabilityTable {
  import opened Bytes

  const ROWS: nat := 114

  type RowIndex = i: nat | i < ROWS
  type Estimate = q: nat | 0 < q <= 0x5b12 witness 1

  datatype Row = Row(qe: Estimate, nextLps: RowIndex, nextMps: RowIndex, switchMps: bool)

  // Rows of the table, from the given one on.

  function RowsFrom0(i: nat): Row
  {
    match i
    case 0 => Row(0x5a1d, 1, 1, true)
    case 1 => Row(0x2586, 14, 2, false)
    case 2 => Row(0x1114, 16, 3, false)
    case 3 => Row(0x080b, 18, 4, false)
    case 4 => Row(0x03d8, 20, 5, false)
    case 5 => Row(0x01da, 23, 6, false)
    case 6 => Row(0x00e5, 25, 7, false)
    case 7 => Row(0x006f, 28, 8, false)
    case 8 => Row(0x0036, 30, 9, false)
    case 9 => Row(0x001a, 33, 10, false)
    case 10 => Row(0x000d, 35, 11, false)
    case 11 => Row(0x0006, 9, 12, false)
    case 12 => Row(0x0003, 10, 13, false)
    case 13 => Row(0x0001, 12, 13, false)
    case 14 => Row(0x5a7f, 15, 15, true)
    case _ => Row(0x3f25, 36, 16, false)
  }

  function RowsFrom16(i: nat): Row
  {
    match i
    case 16 => Row(0x2cf2, 38, 17, false)
    case 17 => Row(0x207c, 39, 18, false)
    case 18 => Row(0x17b9, 40, 19, false)
    case 19 => Row(0x1182, 42, 20, false)
    case 20 => Row(0x0cef, 43, 21, false)
    case 21 => Row(0x09a1, 45, 22, false)
    case 22 => Row(0x072f, 46, 23, false)
    case 23 => Row(0x055c, 48, 24, false)
    case 24 => Row(0x0406, 49, 25, false)
    case 25 => Row(0x0303, 51, 26, false)
    case 26 => Row(0x0240, 52, 27, false)
    case 27 => Row(0x01b1, 54, 28, false)
    case 28 => Row(0x0144, 56, 29, false)
    case 29 => Row(0x00f5, 57, 30, false)
    case 30 => Row(0x00b7, 59, 31, false)
    case _ => Row(0x008a, 60, 32, false)
  }

  function RowsFrom32(i: nat): Row
  {
    match i
    case 32 => Row(0x0068, 62, 33, false)
    case 33 => Row(0x004e, 63, 34, false)
    case 34 => Row(0x003b, 32, 35, false)
    case 35 => Row(0x002c, 33, 9, false)
    case 36 => Row(0x5ae1, 37, 37, true)
    case 37 => Row(0x484c, 64, 38, false)
    case 38 => Row(0x3a0d, 65, 39, false)
    case 39 => Row(0x2ef1, 67, 40, false)
    case 40 => Row(0x261f, 68, 41, false)
    case 41 => Row(0x1f33, 69, 42, false)
    case 42 => Row(0x19a8, 70, 43, false)
    case 43 => Row(0x1518, 72, 44, false)
    case 44 => Row(0x1177, 73, 45, false)
    case 45 => Row(0x0e74, 74, 46, false)
    case 46 => Row(0x0bfb, 75, 47, false)
    case _ => Row(0x09f8, 77, 48, false)
  }

  function RowsFrom48(i: nat): Row
  {
    match i
    case 48 => Row(0x0861, 78, 49, false)
    case 49 => Row(0x0706, 79, 50, false)
    case 50 => Row(0x05cd, 48, 51, false)
    case 51 => Row(0x04de, 50, 52, false)
    case 52 => Row(0x040f, 50, 53, false)
    case 53 => Row(0x0363, 51, 54, false)
    case 54 => Row(0x02d4, 52, 55, false)
    case 55 => Row(0x025c, 53, 56, false)
    case 56 => Row(0x01f8, 54, 57, false)
    case 57 => Row(0x01a4, 55, 58, false)
    case 58 => Row(0x0160, 56, 59, false)
    case 59 => Row(0x0125, 57, 60, false)
    case 60 => Row(0x00f6, 58, 61, false)
    case 61 => Row(0x00cb, 59, 62, false)
    case 62 => Row(0x00ab, 61, 63, false)
    case _ => Row(0x008f, 61, 32, false)
  }

  function RowsFrom64(i: nat): Row
  {
    match i
    case 64 => Row(0x5b12, 65, 65, true)
    case 65 => Row(0x4d04, 80, 66, false)
    case 66 => Row(0x412c, 81, 67, false)
    case 67 => Row(0x37d8, 82, 68, false)
    case 68 => Row(0x2fe8, 83, 69, false)
    case 69 => Row(0x293c, 84, 70, false)
    case 70 => Row(0x2379, 86, 71, false)
    case 71 => Row(0x1edf, 87, 72, false)
    case 72 => Row(0x1aa9, 87, 73, false)
    case 73 => Row(0x174e, 72, 74, false)
    case 74 => Row(0x1424, 72, 75, false)
    case 75 => Row(0x119c, 74, 76, false)
    case 76 => Row(0x0f6b, 74, 77, false)
    case 77 => Row(0x0d51, 75, 78, false)
    case 78 => Row(0x0bb6, 77, 79, false)
    case _ => Row(0x0a40, 77, 48, false)
  }

  function RowsFrom80(i: nat): Row
  {
    match i
    case 80 => Row(0x5832, 80, 81, true)
    case 81 => Row(0x4d1c, 88, 82, false)
    case 82 => Row(0x438e, 89, 83, false)
    case 83 => Row(0x3bdd, 90, 84, false)
    case 84 => Row(0x34ee, 91, 85, false)
    case 85 => Row(0x2eae, 92, 86, false)
    case 86 => Row(0x299a, 93, 87, false)
    case 87 => Row(0x2516, 86, 71, false)
    case 88 => Row(0x5570, 88, 89, true)
    case 89 => Row(0x4ca9, 95, 90, false)
    case 90 => Row(0x44d9, 96, 91, false)
    case 91 => Row(0x3e22, 97, 92, false)
    case 92 => Row(0x3824, 99, 93, false)
    case 93 => Row(0x32b4, 99, 94, false)
    case 94 => Row(0x2e17, 93, 86, false)
    case _ => Row(0x56a8, 95, 96, true)
  }

  function RowsFrom96(i: nat): Row
  {
    match i
    case 96 => Row(0x4f46, 101, 97, false)
    case 97 => Row(0x47e5, 102, 98, false)
    case 98 => Row(0x41cf, 103, 99, false)
    case 99 => Row(0x3c3d, 104, 100, false)
    case 100 => Row(0x375e, 99, 93, false)
    case 101 => Row(0x5231, 105, 102, false)
    case 102 => Row(0x4c0f, 106, 103, false)
    case 103 => Row(0x4639, 107, 104, false)
    case 104 => Row(0x415e, 103, 99, false)
    case 105 => Row(0x5627, 105, 106, true)
    case 106 => Row(0x50e7, 108, 107, false)
    case 107 => Row(0x4b85, 109, 103, false)
    case 108 => Row(0x5597, 110, 109, false)
    case 109 => Row(0x504f, 111, 107, false)
    case 110 => Row(0x5a10, 110, 111, true)
    case _ => Row(0x5522, 112, 109, false)
  }

  function RowsFrom112(i: nat): Row
  {
    match i
    case 112 => Row(0x59eb, 112, 111, true)
    case _ => Row(0x5a1d, 113, 113, false)
  }

  /** Row `i` of the table.  The last row, 113, keeps the estimate fixed at 0.5. */
  function RowAt(i: RowIndex): Row
  {
    match i / 16
    case 0 => RowsFrom0(i)
    case 1 => RowsFrom16(i)
    case 2 => RowsFrom32(i)
    case 3 => RowsFrom48(i)
    case 4 => RowsFrom64(i)
    case 5 => RowsFrom80(i)
    case 6 => RowsFrom96(i)
    case _ => RowsFrom112(i)
  }

  lemma LastRow()
    ensures RowAt(ROWS - 1) == Row(0x5a1d, 113, 113, false)
  {
  }

  /** A statistics bin: the sense of the more probable symbol in the top bit,
      the table index below it. */
  predicate IsBin(sv: int)
  {
    0 <= sv < 256 && sv % 128 < ROWS
  }

  function Mps(sv: byte): (bit: nat)
    ensures bit < 2
  {
    sv / 128
  }

  function RowOf(sv: byte): Row
    requires IsBin(sv)
  {
    RowAt(sv % 128)
  }

  function Qe(sv: byte): (qe: nat)
    requires IsBin(sv)
    ensures 0 < qe <= 0x5b12
  {
    RowOf(sv).qe
  }

  /** The state of a bin: the sense of the more probable symbol above the index of the row. */
  function Joined(mps: nat, i: RowIndex): (sv: byte)
    requires mps < 2
    ensures IsBin(sv) && Mps(sv) == mps
  {
    mps * 128 + i
  }

  /** Estimate_after_LPS: may also switch the sense of the more probable symbol. */
  function AfterLps(sv: byte): (next: byte)
    requires IsBin(sv)
    ensures IsBin(next)
    ensures Mps(next) == (if RowOf(sv).switchMps then 1 - Mps(sv) else Mps(sv))
  {
    var row := RowOf(sv);
    Joined(if row.switchMps then 1 - Mps(sv) else Mps(sv), row.nextLps)
  }

  /** Estimate_after_MPS. */
  function AfterMps(sv: byte): (next: byte)
    requires IsBin(sv)
    ensures IsBin(next) && Mps(next) == Mps(sv)
  {
    Joined(Mps(sv), RowOf(sv).nextMps)
  }
}
