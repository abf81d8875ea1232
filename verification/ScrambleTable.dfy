/** The scramble table of source/core/Cryptography.cpp, and the proof that it is a permutation
    of the byte values that keeps 0. */
module ScrambleTable {

  import opened Basics

  /** Value number k of a row of sixteen. */
  function Pick(k: int, v0: Byte, v1: Byte, v2: Byte, v3: Byte, v4: Byte, v5: Byte, v6: Byte, v7: Byte,
                v8: Byte, v9: Byte, v10: Byte, v11: Byte, v12: Byte, v13: Byte, v14: Byte, v15: Byte): Byte {
    if k < 4 then (if k == 0 then v0 else if k == 1 then v1 else if k == 2 then v2 else v3)
    else if k < 8 then (if k == 4 then v4 else if k == 5 then v5 else if k == 6 then v6 else v7)
    else if k < 12 then (if k == 8 then v8 else if k == 9 then v9 else if k == 10 then v10 else v11)
    else (if k == 12 then v12 else if k == 13 then v13 else if k == 14 then v14 else v15)
  }

  /** SScrambleTable, sixteen values a row. */
  function ScrambleAt(i: Byte): Byte {
    match i / 16
    case 0 => Pick(i % 16, 0, 223, 235, 233, 240, 185, 88, 102, 22, 130, 27, 53, 79, 125, 66, 201)
    case 1 => Pick(i % 16, 90, 71, 51, 60, 134, 104, 172, 244, 139, 84, 91, 12, 123, 155, 237, 151)
    case 2 => Pick(i % 16, 192, 6, 87, 32, 211, 38, 149, 75, 164, 145, 52, 200, 224, 226, 156, 50)
    case 3 => Pick(i % 16, 136, 190, 232, 63, 129, 209, 181, 120, 28, 99, 168, 94, 198, 40, 238, 112)
    case 4 => Pick(i % 16, 55, 217, 124, 62, 227, 30, 36, 242, 208, 138, 174, 231, 26, 54, 214, 148)
    case 5 => Pick(i % 16, 37, 157, 19, 137, 187, 111, 228, 39, 110, 17, 197, 229, 118, 246, 153, 80)
    case 6 => Pick(i % 16, 21, 128, 69, 117, 234, 35, 58, 67, 92, 7, 132, 189, 5, 103, 10, 15)
    case 7 => Pick(i % 16, 252, 195, 70, 147, 241, 202, 107, 49, 20, 251, 133, 76, 204, 73, 203, 135)
    case 8 => Pick(i % 16, 184, 78, 194, 183, 1, 121, 109, 11, 143, 144, 171, 161, 48, 205, 245, 46)
    case 9 => Pick(i % 16, 31, 72, 169, 131, 239, 160, 25, 207, 218, 146, 43, 140, 127, 255, 81, 98)
    case 10 => Pick(i % 16, 42, 115, 173, 142, 114, 13, 2, 219, 57, 56, 24, 126, 3, 230, 47, 215)
    case 11 => Pick(i % 16, 9, 44, 159, 33, 249, 18, 93, 95, 29, 113, 220, 89, 97, 182, 248, 64)
    case 12 => Pick(i % 16, 68, 34, 4, 82, 74, 196, 213, 165, 179, 250, 108, 254, 59, 14, 236, 175)
    case 13 => Pick(i % 16, 85, 199, 83, 106, 77, 178, 167, 225, 45, 247, 163, 158, 8, 221, 61, 191)
    case 14 => Pick(i % 16, 119, 16, 253, 105, 186, 23, 170, 100, 216, 65, 162, 122, 150, 176, 154, 193)
    case _ => Pick(i % 16, 206, 222, 188, 152, 210, 243, 96, 41, 86, 180, 101, 177, 166, 141, 212, 116)
  }

  /** Where each value stands in the table: the witness for the permutation. */
  function PositionOf(i: Byte): Byte {
    match i / 16
    case 0 => Pick(i % 16, 0, 132, 166, 172, 194, 108, 33, 105, 220, 176, 110, 135, 27, 165, 205, 111)
    case 1 => Pick(i % 16, 225, 89, 181, 82, 120, 96, 8, 229, 170, 150, 76, 10, 56, 184, 69, 144)
    case 2 => Pick(i % 16, 35, 179, 193, 101, 70, 80, 37, 87, 61, 247, 160, 154, 177, 216, 143, 174)
    case 3 => Pick(i % 16, 140, 119, 47, 18, 42, 11, 77, 64, 169, 168, 102, 204, 19, 222, 67, 51)
    case 4 => Pick(i % 16, 191, 233, 14, 103, 192, 98, 114, 17, 145, 125, 196, 39, 123, 212, 129, 12)
    case 5 => Pick(i % 16, 95, 158, 195, 210, 25, 208, 248, 34, 6, 187, 16, 26, 104, 182, 59, 183)
    case 6 => Pick(i % 16, 246, 188, 159, 57, 231, 250, 7, 109, 21, 227, 211, 118, 202, 134, 88, 85)
    case 7 => Pick(i % 16, 63, 185, 164, 161, 255, 99, 92, 224, 55, 133, 235, 28, 66, 13, 171, 156)
    case 8 => Pick(i % 16, 97, 52, 9, 147, 106, 122, 20, 127, 48, 83, 73, 24, 155, 253, 163, 136)
    case 9 => Pick(i % 16, 137, 41, 153, 115, 79, 38, 236, 31, 243, 94, 238, 29, 46, 81, 219, 178)
    case 10 => Pick(i % 16, 149, 139, 234, 218, 40, 199, 252, 214, 58, 146, 230, 138, 22, 162, 74, 207)
    case 11 => Pick(i % 16, 237, 251, 213, 200, 249, 54, 189, 131, 128, 5, 228, 84, 242, 107, 49, 223)
    case 12 => Pick(i % 16, 32, 239, 130, 113, 197, 90, 60, 209, 43, 15, 117, 126, 124, 141, 240, 151)
    case 13 => Pick(i % 16, 72, 53, 244, 36, 254, 198, 78, 175, 232, 65, 152, 167, 186, 221, 241, 1)
    case 14 => Pick(i % 16, 44, 215, 45, 68, 86, 91, 173, 75, 50, 3, 100, 2, 206, 30, 62, 148)
    case _ => Pick(i % 16, 4, 116, 71, 245, 23, 142, 93, 217, 190, 180, 201, 121, 112, 226, 203, 157)
  }

  function Table(): (t: seq<Byte>)
    ensures |t| == 256
  {
    seq(256, i requires 0 <= i < 256 => ScrambleAt(i))
  }

  // Row by row, every value of the table is found at its own position.

  lemma Row0(i: Byte)
    requires 0 <= i < 16
    ensures PositionOf(ScrambleAt(i)) == i
  {
  }

  lemma Row1(i: Byte)
    requires 16 <= i < 32
    ensures PositionOf(ScrambleAt(i)) == i
  {
  }

  lemma Row2(i: Byte)
    requires 32 <= i < 48
    ensures PositionOf(ScrambleAt(i)) == i
  {
  }

  lemma Row3(i: Byte)
    requires 48 <= i < 64
    ensures PositionOf(ScrambleAt(i)) == i
  {
  }

  lemma Row4(i: Byte)
    requires 64 <= i < 80
    ensures PositionOf(ScrambleAt(i)) == i
  {
  }

  lemma Row5(i: Byte)
    requires 80 <= i < 96
    ensures PositionOf(ScrambleAt(i)) == i
  {
  }

  lemma Row6(i: Byte)
    requires 96 <= i < 112
    ensures PositionOf(ScrambleAt(i)) == i
  {
  }

  lemma Row7(i: Byte)
    requires 112 <= i < 128
    ensures PositionOf(ScrambleAt(i)) == i
  {
  }

  lemma Row8(i: Byte)
    requires 128 <= i < 144
    ensures PositionOf(ScrambleAt(i)) == i
  {
  }

  lemma Row9(i: Byte)
    requires 144 <= i < 160
    ensures PositionOf(ScrambleAt(i)) == i
  {
  }

  lemma Row10(i: Byte)
    requires 160 <= i < 176
    ensures PositionOf(ScrambleAt(i)) == i
  {
  }

  lemma Row11(i: Byte)
    requires 176 <= i < 192
    ensures PositionOf(ScrambleAt(i)) == i
  {
  }

  lemma Row12(i: Byte)
    requires 192 <= i < 208
    ensures PositionOf(ScrambleAt(i)) == i
  {
  }

  lemma Row13(i: Byte)
    requires 208 <= i < 224
    ensures PositionOf(ScrambleAt(i)) == i
  {
  }

  lemma Row14(i: Byte)
    requires 224 <= i < 240
    ensures PositionOf(ScrambleAt(i)) == i
  {
  }

  lemma Row15(i: Byte)
    requires 240 <= i < 256
    ensures PositionOf(ScrambleAt(i)) == i
  {
  }

  lemma PositionOfScrambled(i: Byte)
    ensures PositionOf(ScrambleAt(i)) == i
  {
    match i / 16
    case 0 => Row0(i);
    case 1 => Row1(i);
    case 2 => Row2(i);
    case 3 => Row3(i);
    case 4 => Row4(i);
    case 5 => Row5(i);
    case 6 => Row6(i);
    case 7 => Row7(i);
    case 8 => Row8(i);
    case 9 => Row9(i);
    case 10 => Row10(i);
    case 11 => Row11(i);
    case 12 => Row12(i);
    case 13 => Row13(i);
    case 14 => Row14(i);
    case _ => Row15(i);
  }

  ghost predicate IsPermutationKeepingZero(t: seq<Byte>) {
    && |t| == 256 && t[0] == 0
    && forall i, j | 0 <= i < j < 256 :: t[i] != t[j]
  }

  /** The table is a permutation of 0..255 and maps 0, and so nothing else, to 0. */
  lemma TableIsPermutation()
    ensures IsPermutationKeepingZero(Table())
  {
    assert ScrambleAt(0) == 0;
    forall i, j | 0 <= i < j < 256
      ensures Table()[i] != Table()[j]
    {
      PositionOfScrambled(i);
      PositionOfScrambled(j);
    }
  }
}
