/** In-place end-of-line conversion: TFileBuffer of source/core/FileBuffer.cpp. */
module FileBuffer {
  import opened Basics

  const LF: Byte := 10
  const CR: Byte := 13
  const CTRL_Z: Byte := 0x1A
  const BOM: seq<Byte> := [0xEF, 0xBB, 0xBF]

  /** An end-of-line string: one or two nonzero characters. */
  type Eol = e: seq<Byte> | 1 <= |e| <= 2 && forall i | 0 <= i < |e| :: e[i] != 0 witness [10]

  /** eol[1], which is the terminator for a string of one character. */
  function Second(e: Eol): Byte {
    if |e| == 2 then e[1] else 0
  }

  // ----- What conversion from a one-character end of line computes -----

  /** The rest of a buffer once the first position is passed. */
  function Scan(t: seq<Byte>, s: Byte, d: Eol): seq<Byte> {
    if t == [] then []
    else if |t| >= 2 && t[0] == d[0] && t[1] == Second(d) then t[..2] + Scan(t[2..], s, d)
    else if |t| == 1 && t[0] == d[0] && |d| == 2 then d
    else if t[0] == s then d + Scan(t[1..], s, d)
    else [t[0]] + Scan(t[1..], s, d)
  }

  /** Whether the scan ended by completing a half destination end of line. */
  function ScanToken(t: seq<Byte>, s: Byte, d: Eol): bool {
    if t == [] then false
    else if |t| >= 2 && t[0] == d[0] && t[1] == Second(d) then ScanToken(t[2..], s, d)
    else if |t| == 1 && t[0] == d[0] && |d| == 2 then true
    else ScanToken(t[1..], s, d)
  }

  /** The first position strips the character by which the buffer before was completed; the
      character that slides into its place is passed over unexamined. */
  predicate StripsFirst(t: seq<Byte>, d: Eol, prevToken: bool) {
    && prevToken && t != [] && t[0] == Second(d)
    && !(|t| >= 2 && t[0] == d[0] && t[1] == Second(d))
  }

  function OneToAny(t: seq<Byte>, s: Byte, d: Eol, prevToken: bool): seq<Byte> {
    if StripsFirst(t, d, prevToken) then
      (if |t| == 1 then [] else [t[1]] + Scan(t[2..], s, d))
    else Scan(t, s, d)
  }

  function OneToAnyToken(t: seq<Byte>, s: Byte, d: Eol, prevToken: bool): bool {
    if StripsFirst(t, d, prevToken) then |t| >= 2 && ScanToken(t[2..], s, d) else ScanToken(t, s, d)
  }

  // ----- What conversion from a two-character end of line computes -----

  function TwoToAny(t: seq<Byte>, s: Eol, d: Eol): seq<Byte>
    requires |s| == 2
  {
    if t == [] then []
    else if |t| == 1 then (if t[0] == s[0] then [] else t)
    else if t[0] == s[0] && t[1] == s[1] then d + TwoToAny(t[2..], s, d)
    else [t[0]] + TwoToAny(t[1..], s, d)
  }

  // ----- The whole of Convert -----

  /** The buffer after the two optional removals. */
  function Stripped(t: seq<Byte>, removeBom: bool, removeCtrlZ: bool): seq<Byte> {
    var u := if removeBom && |t| >= 3 && t[..3] == BOM then t[3..] else t;
    if removeCtrlZ && |u| > 0 && u[|u| - 1] == CTRL_Z then u[..|u| - 1] else u
  }

  function Converted(t: seq<Byte>, s: Eol, d: Eol, token: bool): seq<Byte> {
    if s == d then t else if |s| == 1 then OneToAny(t, s[0], d, token) else TwoToAny(t, s, d)
  }

  function ConvertedToken(t: seq<Byte>, s: Eol, d: Eol, token: bool): bool {
    if s == d || |s| == 2 then token else OneToAnyToken(t, s[0], d, token)
  }

  class TFileBuffer {
    /** Memory and Size together. */
    var data: seq<Byte>

    constructor (contents: seq<Byte>)
      ensures data == contents
    {
      data := contents;
    }

    method Insert(index: nat, buf: seq<Byte>)
      requires index <= |data|
      modifies this
      ensures data == old(data)[..index] + buf + old(data)[index..]
    {
      data := data[..index] + buf + data[index..];
    }

    method Delete(index: nat, len: nat)
      requires index + len <= |data|
      modifies this
      ensures data == old(data)[..index] + old(data)[index + len..]
    {
      data := data[..index] + data[index + len..];
    }

    /** The two removals at the start of Convert. */
    method Strip(removeBom: bool, removeCtrlZ: bool)
      modifies this
      ensures data == Stripped(old(data), removeBom, removeCtrlZ)
    {
      if removeBom && |data| >= 3 && data[..3] == BOM {
        Delete(0, 3);
      }
      if removeCtrlZ && |data| > 0 && data[|data| - 1] == CTRL_Z {
        Delete(|data| - 1, 1);
      }
    }

    /** The character at index0 replaced by an end of line; index is its last character. */
    method PutEol(index0: nat, d: Eol) returns (index: nat)
      requires index0 < |data|
      modifies this
      ensures data == old(data)[..index0] + d + old(data)[index0 + 1..] && index + 1 == index0 + |d|
    {
      index := index0;
      data := data[index := d[0]];
      if Second(d) != 0 {
        Insert(index + 1, [Second(d)]);
        index := index + 1;
      }
    }

    /** One round of the loop for a one-character source, standing behind the finished part
        done and before rest. It finishes x more and leaves rest'. The pointer that Convert moves
        is always data + index, so only the index is kept. */
    method OneToAnyStep(s: Byte, d: Eol, prevToken: bool, index0: nat, token0: bool,
                        ghost done: seq<Byte>, ghost rest: seq<Byte>)
      returns (index: nat, token: bool, ghost x: seq<Byte>, ghost rest': seq<Byte>)
      requires data == done + rest && index0 == |done| && rest != []
      modifies this
      ensures data == done + x + rest' && |rest'| < |rest|
      ensures index == |done + x| || (index > |data| && rest' == [])
      ensures index > 0
      ensures var first := prevToken && done == [];
              && OneToAny(rest, s, d, first) == x + Scan(rest', s, d)
              && ((token || ScanToken(rest', s, d)) <==> (token0 || OneToAnyToken(rest, s, d, first)))
    {
      index, token := index0, token0;
      if index < |data| - 1 && data[index] == d[0] && data[index + 1] == Second(d) {
        index := index + 1;
        x, rest' := rest[..2], rest[2..];
      } else if index == 0 && prevToken && data[index] == Second(d) {
        Delete(index, 1);
        x, rest' := if |rest| == 1 then [] else [rest[1]], if |rest| == 1 then [] else rest[2..];
      } else if data[index] == d[0] && index == |data| - 1 && Second(d) != 0 {
        token := true;
        Insert(index + 1, [Second(d)]);
        index := index + 1;
        x, rest' := d, [];
      } else if data[index] == s {
        index := PutEol(index, d);
        x, rest' := d, rest[1..];
      } else {
        x, rest' := [rest[0]], rest[1..];
      }
      index := index + 1;
    }

    /** The branch of Convert for a one-character source. */
    method ConvertOneToAny(s: Byte, d: Eol, prevToken: bool) returns (token: bool)
      modifies this
      ensures data == OneToAny(old(data), s, d, prevToken)
      ensures token == OneToAnyToken(old(data), s, d, prevToken)
    {
      token := false;
      var index := 0;
      ghost var done, rest, goal := [], data, OneToAny(data, s, d, prevToken);
      while index < |data|
        invariant data == done + rest && (index == |done| || (index > |data| && rest == []))
        invariant goal == done + OneToAny(rest, s, d, prevToken && index == 0)
        invariant (token || OneToAnyToken(rest, s, d, prevToken && index == 0))
                  <==> OneToAnyToken(old(data), s, d, prevToken)
        decreases |rest|
      {
        ghost var x, rest';
        index, token, x, rest' := OneToAnyStep(s, d, prevToken, index, token, done, rest);
        Associate(done, x, Scan(rest', s, d));
        done, rest := done + x, rest';
      }
    }

    /** One round of the loop for a two-character source. */
    method TwoToAnyStep(s: Eol, d: Eol, index0: nat, ghost done: seq<Byte>, ghost rest: seq<Byte>)
      returns (index: nat, ghost x: seq<Byte>, ghost rest': seq<Byte>)
      requires |s| == 2 && data == done + rest && index0 == |done| && |rest| >= 2
      modifies this
      ensures data == done + x + rest' && |rest'| < |rest| && index == |done + x|
      ensures TwoToAny(rest, s, d) == x + TwoToAny(rest', s, d)
    {
      index := index0;
      if data[index] == s[0] && data[index + 1] == s[1] {
        data := data[index := d[0]];
        if Second(d) != 0 {
          data := data[index + 1 := Second(d)];
          index := index + 1;
        } else {
          Delete(index + 1, 1);
        }
        x, rest' := d, rest[2..];
      } else {
        x, rest' := [rest[0]], rest[1..];
      }
      index := index + 1;
    }

    /** The branch of Convert for a two-character source. */
    method ConvertTwoToAny(s: Eol, d: Eol)
      requires |s| == 2
      modifies this
      ensures data == TwoToAny(old(data), s, d)
    {
      var index := 0;
      ghost var done, rest, goal := [], data, TwoToAny(data, s, d);
      while index < |data| - 1
        invariant data == done + rest && index == |done|
        invariant goal == done + TwoToAny(rest, s, d)
        decreases |rest|
      {
        ghost var x, rest';
        index, x, rest' := TwoToAnyStep(s, d, index, done, rest);
        Associate(done, x, TwoToAny(rest', s, d));
        done, rest := done + x, rest';
      }
      if index < |data| && data[index] == s[0] {
        Delete(index, 1);
      }
    }

    /** Convert */
    method Convert(s: Eol, d: Eol, removeBom: bool, removeCtrlZ: bool, token0: bool) returns (token: bool)
      modifies this
      ensures data == Converted(Stripped(old(data), removeBom, removeCtrlZ), s, d, token0)
      ensures token == ConvertedToken(Stripped(old(data), removeBom, removeCtrlZ), s, d, token0)
    {
      token := token0;
      Strip(removeBom, removeCtrlZ);
      if s == d {
        return;
      }
      if |s| == 1 {
        token := ConvertOneToAny(s[0], d, token0);
      } else {
        ConvertTwoToAny(s, d);
      }
    }
  }
}
