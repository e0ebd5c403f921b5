/** The table of frequent key bytes in common.go, which lets a one-transition state drop its byte. */
module CommonInputs {
  import opened Keys

  const MAX_COMMON: nat := 63

  /** `commonInputs`, sixteen bytes a row: how frequent each byte is, 0 for the most frequent. */
  function CommonInput(b: Byte): Byte {
    match b / 16
    case 0 => b + 84
    case 1 => b + 84
    case 2 => [116, 80, 117, 118, 79, 39, 30, 81, 75, 74, 82, 57, 66, 16, 12, 2][b % 16]
    case 3 => [19, 20, 21, 27, 32, 29, 35, 36, 37, 34, 24, 73, 119, 23, 120, 40][b % 16]
    case 4 => [83, 44, 48, 42, 43, 49, 46, 62, 61, 47, 69, 68, 58, 56, 55, 59][b % 16]
    case 5 => [51, 72, 54, 45, 52, 64, 65, 63, 71, 67, 70, 77, 121, 78, 122, 31][b % 16]
    case 6 => [123, 4, 25, 9, 17, 1, 26, 22, 13, 7, 50, 38, 14, 15, 10, 3][b % 16]
    case 7 => [8, 60, 6, 5, 0, 18, 33, 11, 41, 28, 53, 124, 125, 126, 76, 127][b % 16]
    case _ => b
  }

  /** `commonInputsInv`. */
  function CommonInputInv(r: Byte): Byte {
    match r / 16
    case 0 => [116, 101, 47, 111, 97, 115, 114, 105, 112, 99, 110, 119, 46, 104, 108, 109][r % 16]
    case 1 => [45, 100, 117, 48, 49, 50, 103, 61, 58, 98, 102, 51, 121, 53, 38, 95][r % 16]
    case 2 => [52, 118, 57, 54, 55, 56, 107, 37, 63, 120, 67, 68, 65, 83, 70, 73][r % 16]
    case 3 => [66, 69, 106, 80, 84, 122, 82, 78, 77, 43, 76, 79, 113, 72, 71, 87][r % 16]
    case 4 => [85, 86, 44, 89, 75, 74, 90, 88, 81, 59, 41, 40, 126, 91, 93, 36][r % 16]
    case 5 => [33, 39, 42, 64, 0, 1, 2, 3, 4, 5, 6, 7, 8, 9, 10, 11][r % 16]
    case 6 => r - 84
    case 7 => [28, 29, 30, 31, 32, 34, 35, 60, 62, 92, 94, 96, 123, 124, 125, 127][r % 16]
    case _ => r
  }


  lemma InverseRow2(b: Byte)
    requires b / 16 == 2
    ensures CommonInputInv(CommonInput(b)) == b
  {
  }

  lemma InverseRow3(b: Byte)
    requires b / 16 == 3
    ensures CommonInputInv(CommonInput(b)) == b
  {
  }

  lemma InverseRow4(b: Byte)
    requires b / 16 == 4
    ensures CommonInputInv(CommonInput(b)) == b
  {
  }

  lemma InverseRow5(b: Byte)
    requires b / 16 == 5
    ensures CommonInputInv(CommonInput(b)) == b
  {
  }

  lemma InverseRow6(b: Byte)
    requires b / 16 == 6
    ensures CommonInputInv(CommonInput(b)) == b
  {
  }

  lemma InverseRow7(b: Byte)
    requires b / 16 == 7
    ensures CommonInputInv(CommonInput(b)) == b
  {
  }

  /** The second table undoes the first. */
  lemma SecondUndoesFirst(b: Byte)
    ensures CommonInputInv(CommonInput(b)) == b
  {
    match b / 16
    case 2 => InverseRow2(b);
    case 3 => InverseRow3(b);
    case 4 => InverseRow4(b);
    case 5 => InverseRow5(b);
    case 6 => InverseRow6(b);
    case 7 => InverseRow7(b);
    case _ =>
  }

  function BytesUpTo(n: nat): (s: set<Byte>)
    requires n <= 256
    ensures |s| == n && forall b: Byte :: b in s <==> b < n
  {
    if n == 0 then {} else
      var s := BytesUpTo(n - 1);
      assert (n - 1) !in s;
      s + {n - 1}
  }

  /** The first table's entries up to n, all of them different. */
  function FirstEntries(n: nat): (s: set<Byte>)
    requires n <= 256
    ensures |s| == n && forall r: Byte :: r in s <==> exists b: Byte :: b < n && CommonInput(b) == r
  {
    hide CommonInput, CommonInputInv;
    if n == 0 then {} else
      var s := FirstEntries(n - 1);
      SecondUndoesFirst(n - 1);
      assert CommonInput(n - 1) !in s by {
        if CommonInput(n - 1) in s {
          var b: Byte :| b < n - 1 && CommonInput(b) == CommonInput(n - 1);
          SecondUndoesFirst(b);
        }
      }
      s + {CommonInput(n - 1)}
  }

  /** As many different entries as there are bytes are all the bytes. */
  lemma EveryEntry(n: nat, r: Byte) returns (b: Byte)
    requires n == 256
    ensures CommonInput(b) == r
  {
    hide CommonInput, BytesUpTo, FirstEntries;
    var all, entries := BytesUpTo(n), FirstEntries(n);
    assert all == entries + (all - entries);
    assert all - entries == {};
    assert r in entries;
    b :| b < n && CommonInput(b) == r;
  }

  /** The tables are inverse permutations: each undoes the other. */
  lemma TablesInverse(b: Byte)
    ensures CommonInputInv(CommonInput(b)) == b && CommonInput(CommonInputInv(b)) == b
  {
    hide CommonInput, CommonInputInv;
    SecondUndoesFirst(b);
    var a := EveryEntry(256, b);
    SecondUndoesFirst(a);
  }

  function DecodeCommon(e: Byte): Byte
    requires e > 0
  {
    CommonInputInv(e - 1)
  }

  /** The code for a place in the table: the place counted from 1, or 0 when it needs more than six bits. */
  function PlaceCode(place: Byte): (e: Byte)
    ensures e <= MAX_COMMON
    ensures e != 0 ==> e - 1 == place
  {
    var val := (place + 1) % 256;
    if val > MAX_COMMON then 0 else val
  }

  /** The six-bit code of a frequent byte; 0 when the byte has none. */
  function EncodeCommon(b: Byte): (e: Byte)
    ensures e <= MAX_COMMON
  {
    PlaceCode(CommonInput(b))
  }

  lemma CommonRoundTrip(b: Byte)
    requires EncodeCommon(b) != 0
    ensures DecodeCommon(EncodeCommon(b)) == b
  {
    SecondUndoesFirst(b);
  }
}
