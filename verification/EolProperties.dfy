/** What end-of-line conversion is for: laws of the functions that TFileBuffer.Convert was
    proved to compute. */
module EolProperties {
  import opened Basics
  import opened FileBuffer

  const CRLF: Eol := [13, 10]
  const LF_ONLY: Eol := [10]

  /** One buffer, LF to CRLF, no token pending. */
  function ToCrlf(t: seq<Byte>): seq<Byte> {
    Scan(t, LF, CRLF)
  }

  /** One buffer, CRLF to LF. */
  function ToLf(t: seq<Byte>): seq<Byte> {
    TwoToAny(t, CRLF, LF_ONLY)
  }

  // ----- LF to CRLF is a transducer over single bytes -----

  /** Byte by byte, remembering only whether the byte before was a CR: a bare LF becomes CRLF,
      a CR at the very end becomes CRLF, everything else stays. */
  function Expand(t: seq<Byte>, afterCr: bool): seq<Byte> {
    if t == [] then []
    else if t[0] == LF && !afterCr then CRLF + Expand(t[1..], false)
    else if t == [CR] then CRLF
    else [t[0]] + Expand(t[1..], t[0] == CR)
  }

  lemma {:induction false} ToCrlfIsExpand(t: seq<Byte>)
    ensures ToCrlf(t) == Expand(t, false)
  {
    if t == [] {
    } else if |t| >= 2 && t[0] == CR && t[1] == LF {
      ToCrlfIsExpand(t[2..]);
      ExpandCrlf(t);
    } else if t == [CR] {
    } else if t[0] == LF {
      ToCrlfIsExpand(t[1..]);
    } else {
      ToCrlfIsExpand(t[1..]);
      if t[0] == CR {
        AfterCrMattersForLf(t[1..]);
      }
      assert Expand(t, false) == [t[0]] + Expand(t[1..], false);
    }
  }

  lemma ExpandCrlf(t: seq<Byte>)
    requires |t| >= 2 && t[0] == CR && t[1] == LF
    ensures Expand(t, false) == CRLF + Expand(t[2..], false)
  {
    ExpandLf(t[1..], t[2..]);
    Associate([CR], [LF], Expand(t[2..], false));
    assert [CR] + [LF] == CRLF;
  }

  lemma ExpandLf(t: seq<Byte>, rest: seq<Byte>)
    requires t == [LF] + rest
    ensures Expand(t, true) == [LF] + Expand(rest, false)
  {
    assert t[1..] == rest;
  }

  /** Only a leading LF is told apart by what stood before it. */
  lemma AfterCrMattersForLf(t: seq<Byte>)
    requires t != [] && t[0] != LF
    ensures Expand(t, true) == Expand(t, false)
  {
  }

  /** What is already converted stays as it is; for any source byte, and any two-character
      destination of two different bytes. */
  lemma {:induction false} ScanIdempotent(t: seq<Byte>, s: Byte, d: Eol)
    requires |d| == 2 && d[0] != d[1]
    ensures Scan(Scan(t, s, d), s, d) == Scan(t, s, d)
    ensures t != [] ==> Scan(t, s, d) != [] && Scan(t, s, d)[0] == if t[0] == s then d[0] else t[0]
  {
    if t == [] {
    } else if |t| >= 2 && t[0] == d[0] && t[1] == d[1] {
      ScanIdempotent(t[2..], s, d);
      ScanOfEol(Scan(t[2..], s, d), s, d);
      assert t[..2] == d;
    } else if |t| == 1 && t[0] == d[0] {
      ScanOfEol([], s, d);
      assert d + [] == d;
    } else if t[0] == s {
      ScanIdempotent(t[1..], s, d);
      ScanOfEol(Scan(t[1..], s, d), s, d);
    } else {
      ScanIdempotent(t[1..], s, d);
      var rest := Scan(t[1..], s, d);
      assert ([t[0]] + rest)[1..] == rest;
    }
  }

  lemma ScanOfEol(u: seq<Byte>, s: Byte, d: Eol)
    requires |d| == 2
    ensures Scan(d + u, s, d) == d + Scan(u, s, d)
  {
    assert (d + u)[..2] == d && (d + u)[2..] == u;
  }

  // ----- When a cut into two buffers does not show -----

  predicate EndsInCr(t: seq<Byte>) {
    t != [] && t[|t| - 1] == CR
  }

  /** The first byte of u is passed on unchanged and has no part in what follows. */
  predicate StandsAlone(u: seq<Byte>) {
    u != [] && u[0] != LF && !(u[0] == CR && (|u| == 1 || u[1] == LF))
  }

  /** Two buffers converted one after the other, the token carried over. */
  function TwoBuffers(a: seq<Byte>, b: seq<Byte>): seq<Byte> {
    OneToAny(a, LF, CRLF, false) + OneToAny(b, LF, CRLF, OneToAnyToken(a, LF, CRLF, false))
  }

  /** The condition under which the cut does not show. After a CR at the end of the first
      buffer, the second has to start with the LF that belongs to it, and the byte behind that
      LF, which the loop passes over, has to need no attention. */
  predicate CutHidden(a: seq<Byte>, b: seq<Byte>) {
    b == [] || !EndsInCr(a) || (b[0] == LF && (|b| == 1 || StandsAlone(b[1..])))
  }

  /** What the scan finishes at the first position of a text of at least two bytes. */
  function Head(t: seq<Byte>): seq<Byte>
    requires t != []
  {
    if (|t| >= 2 && t[0] == CR && t[1] == LF) || t[0] == LF then CRLF else t[..1]
  }

  /** How many bytes that takes. */
  function HeadSize(t: seq<Byte>): (n: nat)
    requires t != []
    ensures 1 <= n <= |t|
  {
    if |t| >= 2 && t[0] == CR && t[1] == LF then 2 else 1
  }

  lemma ScanHead(t: seq<Byte>)
    requires t != [] && t != [CR]
    ensures ToCrlf(t) == Head(t) + ToCrlf(t[HeadSize(t)..])
    ensures ScanToken(t, LF, CRLF) == ScanToken(t[HeadSize(t)..], LF, CRLF)
  {
  }

  /** More text behind does not change what happens at the front. */
  lemma HeadOfJoined(a: seq<Byte>, b: seq<Byte>)
    requires a != [] && a != [CR]
    ensures Head(a + b) == Head(a) && HeadSize(a + b) == HeadSize(a)
    ensures (a + b)[HeadSize(a)..] == a[HeadSize(a)..] + b
    ensures ToCrlf(a + b) == Head(a) + ToCrlf(a[HeadSize(a)..] + b)
    ensures EndsInCr(a) <==> EndsInCr(a[HeadSize(a)..])
  {
    ScanHead(a + b);
    assert (a + b)[0] == a[0];
    assert |a| >= 2 ==> (a + b)[1] == a[1];
  }

  lemma {:induction false} ScanSplits(a: seq<Byte>, b: seq<Byte>)
    requires !EndsInCr(a)
    ensures ToCrlf(a + b) == ToCrlf(a) + ToCrlf(b) && !ScanToken(a, LF, CRLF)
  {
    if a == [] {
      assert a + b == b;
    } else {
      var rest := a[HeadSize(a)..];
      ScanHead(a);
      HeadOfJoined(a, b);
      ScanSplits(rest, b);
      Associate(Head(a), ToCrlf(rest), ToCrlf(b));
    }
  }

  /** The converted text that ends in CR, without its completed end of line. */
  function Open(a: seq<Byte>): seq<Byte> {
    if a == [] || a == [CR] then [] else Head(a) + Open(a[HeadSize(a)..])
  }

  /** What a text that ends in CR becomes with b behind it: an LF there takes the place of the
      one that completes it, and anything else undoes the completion. */
  function Closed(a: seq<Byte>, b: seq<Byte>): seq<Byte> {
    if b == [] then Open(a) + CRLF
    else if b[0] == LF then Open(a) + (CRLF + ToCrlf(b[1..]))
    else Open(a) + ([CR] + ToCrlf(b))
  }

  lemma {:induction false} ScanOpenEnd(a: seq<Byte>, b: seq<Byte>)
    requires EndsInCr(a)
    ensures ToCrlf(a + b) == Closed(a, b) && ScanToken(a, LF, CRLF)
  {
    if a == [CR] {
      assert b == [] ==> a + b == a;
      assert b != [] ==> (a + b)[2..] == b[1..] && (a + b)[1..] == b && (a + b)[1] == b[0];
    } else {
      var rest := a[HeadSize(a)..];
      ScanHead(a);
      HeadOfJoined(a, b);
      ScanOpenEnd(rest, b);
      var closing := if b == [] then CRLF else if b[0] == LF then CRLF + ToCrlf(b[1..]) else [CR] + ToCrlf(b);
      Associate(Head(a), Open(rest), closing);
    }
  }

  lemma PassedOver(u: seq<Byte>)
    requires u != []
    ensures ToCrlf(u) == [u[0]] + ToCrlf(u[1..]) <==> StandsAlone(u)
  {
    if u[0] == LF {
      assert ToCrlf(u)[0] == CR;
    } else if u == [CR] {
      assert ToCrlf(u) == CRLF;
    } else if u[0] == CR && u[1] == LF {
      assert ToCrlf(u)[1] == LF;
      assert ToCrlf(u[1..])[0] == CR;
    }
  }

  lemma SamePrefix(k: seq<Byte>, x: seq<Byte>, y: seq<Byte>)
    ensures k + x == k + y <==> x == y
  {
    if k + x == k + y {
      assert (k + x)[|k|..] == x && (k + y)[|k|..] == y;
    }
  }

  /** Converting two buffers gives what converting them joined gives, exactly under CutHidden. */
  lemma CutShows(a: seq<Byte>, b: seq<Byte>)
    ensures TwoBuffers(a, b) == ToCrlf(a + b) <==> CutHidden(a, b)
  {
    if !EndsInCr(a) {
      ScanSplits(a, b);
    } else if b == [] {
      assert a + b == a;
      assert ToCrlf(a) + [] == ToCrlf(a);
    } else {
      ScanOpenEnd(a, []);
      ScanOpenEnd(a, b);
      assert a + [] == a;
      if b[0] == LF {
        CutBeforeLf(a, b);
      } else {
        assert OneToAny(b, LF, CRLF, true) == ToCrlf(b);
        assert |TwoBuffers(a, b)| == |ToCrlf(a + b)| + 1;
      }
    }
  }

  lemma CutBeforeLf(a: seq<Byte>, b: seq<Byte>)
    requires EndsInCr(a) && b != [] && b[0] == LF
    requires ToCrlf(a) == Closed(a, []) && ScanToken(a, LF, CRLF) && ToCrlf(a + b) == Closed(a, b)
    ensures TwoBuffers(a, b) == ToCrlf(a + b) <==> |b| == 1 || StandsAlone(b[1..])
  {
    var second := OneToAny(b, LF, CRLF, true);
    assert second == if |b| == 1 then [] else [b[1]] + ToCrlf(b[2..]);
    Associate(Open(a), CRLF, ToCrlf(b[1..]));
    SamePrefix(Open(a) + CRLF, second, ToCrlf(b[1..]));
    if |b| > 1 {
      assert b[1..][1..] == b[2..];
      PassedOver(b[1..]);
    }
  }

  // ----- When cuts into any number of buffers do not show -----

  /** Buffers converted one after the other, the token carried from each to the next. */
  function Forth(buffers: seq<seq<Byte>>, token: bool): seq<Byte> {
    if buffers == [] then []
    else OneToAny(buffers[0], LF, CRLF, token) + Forth(buffers[1..], OneToAnyToken(buffers[0], LF, CRLF, token))
  }

  /** The condition under which no cut shows: CutHidden at every cut behind a CR, where the byte
      that is passed over may be followed by the next buffers, and where conversion goes on
      behind it. */
  predicate CutsHidden(buffers: seq<seq<Byte>>)
    decreases |buffers|
  {
    if |buffers| < 2 then true
    else if !EndsInCr(buffers[0]) then CutsHidden(buffers[1..])
    else
      var b := buffers[1];
      && b != [] && b[0] == LF
      && if |b| == 1 then CutsHidden(buffers[2..])
         else StandsAlone(b[1..] + Flatten(buffers[2..])) && CutsHidden([b[2..]] + buffers[2..])
  }

  /** Conversion never starts with a LF. */
  lemma {:induction false} ForthStarts(buffers: seq<seq<Byte>>)
    ensures var out := Forth(buffers, false); out == [] || out[0] != LF
  {
    if buffers != [] {
      ForthStarts(buffers[1..]);
    }
  }

  /** Behind a CR that was completed, the LF is dropped and the byte behind it is passed over. */
  lemma ForthBehindCr(b: seq<Byte>, rest: seq<seq<Byte>>)
    requires b != [] && b[0] == LF
    ensures Forth([b] + rest, true) == if |b| == 1 then Forth(rest, false) else [b[1]] + Forth([b[2..]] + rest, false)
  {
    assert ([b] + rest)[1..] == rest;
    if |b| == 1 {
      AddNothing(Forth(rest, false));
    } else {
      var d := b[2..];
      assert ([d] + rest)[1..] == rest;
      Associate([b[1]], Scan(d, LF, CRLF), Forth(rest, ScanToken(d, LF, CRLF)));
    }
  }

  /** What is put in front of a correct conversion is correct exactly if it stands alone. */
  lemma PassedInFront(x: Byte, w: seq<Byte>, out: seq<Byte>)
    requires out == [] || out[0] != LF
    requires w == [] ==> out == []
    ensures [x] + out == ToCrlf([x] + w) <==> StandsAlone([x] + w) && out == ToCrlf(w)
  {
    var u := [x] + w;
    assert u[1..] == w;
    PassedOver(u);
    SamePrefix([x], out, ToCrlf(w));
    if u[0] == LF {
      assert ToCrlf(u)[0] == CR;
    } else if u == [CR] {
      assert ToCrlf(u) == CRLF;
    } else if u[0] == CR && u[1] == LF {
      assert ToCrlf(u)[1] == LF;
      assert out != [] ==> ([x] + out)[1] == out[0];
    }
  }

  lemma {:induction false} ForthOfNothing(buffers: seq<seq<Byte>>)
    requires Flatten(buffers) == []
    ensures Forth(buffers, false) == []
  {
    if buffers != [] {
      ForthOfNothing(buffers[1..]);
    }
  }

  /** Converting buffers one after the other gives what converting them joined gives, exactly
      under CutsHidden. Only the first buffer may be empty; no caller converts an empty one. */
  lemma {:induction false} CutsShow(buffers: seq<seq<Byte>>)
    requires forall i | 1 <= i < |buffers| :: buffers[i] != []
    ensures Forth(buffers, false) == ToCrlf(Flatten(buffers)) <==> CutsHidden(buffers)
    decreases |buffers|
  {
    if |buffers| == 1 {
      assert buffers[1..] == [];
      AddNothing(buffers[0]);
      AddNothing(ToCrlf(buffers[0]));
    } else if |buffers| > 1 {
      var a, rest := buffers[0], buffers[1..];
      if !EndsInCr(a) {
        ScanSplits(a, Flatten(rest));
        CutsShow(rest);
        SamePrefix(ToCrlf(a), Forth(rest, false), ToCrlf(Flatten(rest)));
      } else {
        CutsShowBehindCr(a, buffers[1], buffers[2..]);
        assert rest == [buffers[1]] + buffers[2..];
        if buffers[1][0] == LF {
          if |buffers[1]| == 1 {
            CutsShow(buffers[2..]);
          } else {
            CutsShow([buffers[1][2..]] + buffers[2..]);
          }
        }
      }
    }
  }

  /** The step over a cut behind a CR: what was made of the text so far, and what is to be made
      of the rest. */
  lemma StepOverCut(a: seq<Byte>, bs: seq<seq<Byte>>)
    requires EndsInCr(a)
    ensures Forth([a] + bs, false) == Open(a) + (CRLF + Forth(bs, true))
    ensures ToCrlf(Flatten([a] + bs)) == Closed(a, Flatten(bs))
  {
    assert ([a] + bs)[1..] == bs;
    ScanOpenEnd(a, []);
    AddNothing(a);
    ScanOpenEnd(a, Flatten(bs));
    Associate(Open(a), CRLF, Forth(bs, true));
  }

  lemma CutsShowBehindCr(a: seq<Byte>, b: seq<Byte>, rest: seq<seq<Byte>>)
    requires EndsInCr(a) && b != []
    ensures var all := [a] + ([b] + rest);
            Forth(all, false) == ToCrlf(Flatten(all))
            <==> b[0] == LF
                 && if |b| == 1 then Forth(rest, false) == ToCrlf(Flatten(rest))
                    else StandsAlone(b[1..] + Flatten(rest))
                         && Forth([b[2..]] + rest, false) == ToCrlf(Flatten([b[2..]] + rest))
  {
    var bs := [b] + rest;
    StepOverCut(a, bs);
    FlattenFirst(b, rest);
    if b[0] == LF {
      var x, y := Forth(bs, true), ToCrlf(b[1..] + Flatten(rest));
      SamePrefix(Open(a), CRLF + x, CRLF + y);
      SamePrefix(CRLF, x, y);
      ForthBehindCr(b, rest);
      if |b| == 1 {
        AddNothing(Flatten(rest));
      } else {
        BehindPassedByte(b, rest);
      }
    } else {
      SamePrefix(Open(a), CRLF + Forth(bs, true), [CR] + ToCrlf(Flatten(bs)));
      OtherFirst(Flatten(bs), Forth(bs, true));
    }
  }

  lemma FlattenFirst(b: seq<Byte>, rest: seq<seq<Byte>>)
    requires b != []
    ensures var text := Flatten([b] + rest); text != [] && text[0] == b[0] && text[1..] == b[1..] + Flatten(rest)
  {
    assert ([b] + rest)[1..] == rest;
  }

  /** A CR that was completed and is followed by another byte than LF. */
  lemma OtherFirst(text: seq<Byte>, out: seq<Byte>)
    requires text != [] && text[0] != LF
    ensures CRLF + out != [CR] + ToCrlf(text)
  {
    assert (CRLF + out)[1] == LF;
    assert ToCrlf(text) != [] && ToCrlf(text)[0] != LF;
    assert ([CR] + ToCrlf(text))[1] == ToCrlf(text)[0];
  }

  lemma BehindPassedByte(b: seq<Byte>, rest: seq<seq<Byte>>)
    requires |b| > 1
    ensures [b[1]] + Forth([b[2..]] + rest, false) == ToCrlf(b[1..] + Flatten(rest))
            <==> StandsAlone(b[1..] + Flatten(rest))
                 && Forth([b[2..]] + rest, false) == ToCrlf(Flatten([b[2..]] + rest))
  {
    var ds := [b[2..]] + rest;
    assert ds[1..] == rest;
    var w := Flatten(ds);
    assert b[1..] + Flatten(rest) == [b[1]] + w;
    ForthStarts(ds);
    if w == [] {
      ForthOfNothing(ds);
    }
    PassedInFront(b[1], w, Forth(ds, false));
  }

  // ----- There and back -----

  predicate CrFree(t: seq<Byte>) {
    forall i | 0 <= i < |t| :: t[i] != CR
  }

  function WithoutCr(t: seq<Byte>): seq<Byte> {
    if t == [] then [] else (if t[0] == CR then [] else [t[0]]) + WithoutCr(t[1..])
  }

  /** The buffers converted back one by one, and joined. */
  function BackInBuffers(buffers: seq<seq<Byte>>): seq<Byte> {
    if buffers == [] then [] else ToLf(buffers[0]) + BackInBuffers(buffers[1..])
  }

  /** Every CR has its LF. */
  predicate Paired(t: seq<Byte>) {
    forall i | 0 <= i < |t| && t[i] == CR :: i + 1 < |t| && t[i + 1] == LF
  }

  /** Every CR has its LF, but for one the buffer may end in. */
  predicate PairedInside(t: seq<Byte>) {
    forall i | 0 <= i < |t| - 1 && t[i] == CR :: t[i + 1] == LF
  }

  lemma {:induction false} BackDropsCr(t: seq<Byte>)
    requires PairedInside(t)
    ensures ToLf(t) == WithoutCr(t)
  {
    if |t| >= 2 && t[0] == CR {
      assert t[1] == LF && t[1..][1..] == t[2..];
      BackDropsCr(t[2..]);
    } else if |t| >= 2 {
      BackDropsCr(t[1..]);
    } else if |t| == 1 {
      assert t[1..] == [];
    }
  }

  lemma {:induction false} WithoutCrJoins(a: seq<Byte>, b: seq<Byte>)
    ensures WithoutCr(a + b) == WithoutCr(a) + WithoutCr(b)
  {
    if a == [] {
      assert a + b == b;
    } else {
      assert (a + b)[1..] == a[1..] + b;
      WithoutCrJoins(a[1..], b);
    }
  }

  lemma PairedParts(a: seq<Byte>, b: seq<Byte>)
    requires Paired(a + b)
    ensures PairedInside(a) && Paired(b)
  {
    var t := a + b;
    forall i | 0 <= i < |a| - 1 && a[i] == CR
      ensures a[i + 1] == LF
    {
      assert t[i] == CR && t[i + 1] == a[i + 1];
    }
    forall i | 0 <= i < |b| && b[i] == CR
      ensures i + 1 < |b| && b[i + 1] == LF
    {
      assert t[|a| + i] == CR && |a| + i + 1 < |t| && t[|a| + i + 1] == LF;
      assert t[|a| + i + 1] == b[i + 1];
    }
  }

  lemma {:induction false} BackOfPaired(buffers: seq<seq<Byte>>)
    requires Paired(Flatten(buffers))
    ensures BackInBuffers(buffers) == WithoutCr(Flatten(buffers))
  {
    if buffers != [] {
      var a, b := buffers[0], Flatten(buffers[1..]);
      PairedParts(a, b);
      BackDropsCr(a);
      WithoutCrJoins(a, b);
      BackOfPaired(buffers[1..]);
    }
  }

  lemma {:induction false} ToCrlfPairs(t: seq<Byte>)
    requires CrFree(t)
    ensures Paired(ToCrlf(t)) && WithoutCr(ToCrlf(t)) == t
  {
    if t != [] {
      ToCrlfPairs(t[1..]);
      var rest := ToCrlf(t[1..]);
      if t[0] == LF {
        WithoutCrJoins(CRLF, rest);
        assert WithoutCr(CRLF) == [LF] by { assert CRLF[1..] == [LF] && [LF][1..] == []; }
        PairedAfter(CRLF, rest);
      } else {
        assert ([t[0]] + rest)[1..] == rest;
        PairedAfter([t[0]], rest);
      }
    }
  }

  lemma PairedAfter(x: seq<Byte>, t: seq<Byte>)
    requires Paired(x) && Paired(t)
    ensures Paired(x + t)
  {
  }

  /** A text without CR comes back from every way of cutting its CRLF form into buffers. */
  lemma RoundTrip(t: seq<Byte>, buffers: seq<seq<Byte>>)
    requires CrFree(t) && Flatten(buffers) == ToCrlf(t)
    ensures BackInBuffers(buffers) == t
  {
    ToCrlfPairs(t);
    BackOfPaired(buffers);
  }

  /** Single-byte buffers. */
  function Singles(t: seq<Byte>): seq<seq<Byte>> {
    if t == [] then [] else [t[..1]] + Singles(t[1..])
  }

  lemma {:induction false} SinglesLoseCr(t: seq<Byte>)
    ensures Flatten(Singles(t)) == t && CrFree(BackInBuffers(Singles(t)))
  {
    if t != [] {
      SinglesLoseCr(t[1..]);
      assert t == t[..1] + t[1..];
    }
  }

  /** And only a text without CR does: some cut loses any CR it holds. */
  lemma RoundTripsExactly(t: seq<Byte>)
    ensures (forall buffers: seq<seq<Byte>> | Flatten(buffers) == ToCrlf(t) :: BackInBuffers(buffers) == t)
            <==> CrFree(t)
  {
    if CrFree(t) {
      forall buffers: seq<seq<Byte>> | Flatten(buffers) == ToCrlf(t)
        ensures BackInBuffers(buffers) == t
      {
        RoundTrip(t, buffers);
      }
    } else {
      SinglesLoseCr(ToCrlf(t));
      assert BackInBuffers(Singles(ToCrlf(t))) != t;
    }
  }

  /** One buffer of its own converted back. */
  method BufferToLf(contents: seq<Byte>, token0: bool) returns (out: seq<Byte>, token: bool)
    ensures out == ToLf(contents) && token == token0
  {
    var buffer := new TFileBuffer(contents);
    token := buffer.Convert(CRLF, LF_ONLY, false, false, token0);
    out := buffer.data;
  }

  method BufferToCrlf(contents: seq<Byte>) returns (out: seq<Byte>)
    ensures out == ToCrlf(contents)
  {
    var buffer := new TFileBuffer(contents);
    var _ := buffer.Convert(LF_ONLY, CRLF, false, false, false);
    out := buffer.data;
  }

  /** A text cut into buffers of these sizes, the rest in a last one. */
  function CutAt(t: seq<Byte>, cuts: seq<nat>): seq<seq<Byte>> {
    if cuts == [] then [t]
    else
      var n := if cuts[0] <= |t| then cuts[0] else |t|;
      [t[..n]] + CutAt(t[n..], cuts[1..])
  }

  lemma {:induction false} CutJoins(t: seq<Byte>, cuts: seq<nat>)
    ensures Flatten(CutAt(t, cuts)) == t
  {
    if cuts == [] {
      assert [t][1..] == [] && t + [] == t;
    } else {
      var n := if cuts[0] <= |t| then cuts[0] else |t|;
      CutJoins(t[n..], cuts[1..]);
      assert CutAt(t, cuts)[1..] == CutAt(t[n..], cuts[1..]);
      assert t[..n] + t[n..] == t;
    }
  }

  /** A whole transfer: t converted in one buffer, then cut anywhere and converted back, the
      token handed from buffer to buffer. */
  method ConvertThereAndBack(t: seq<Byte>, cuts: seq<nat>) returns (out: seq<Byte>)
    ensures out == BackInBuffers(CutAt(ToCrlf(t), cuts))
    ensures CrFree(t) ==> out == t
  {
    var rest := BufferToCrlf(t);
    ghost var goal := BackInBuffers(CutAt(rest, cuts));
    CutJoins(rest, cuts);
    if CrFree(t) {
      RoundTrip(t, CutAt(rest, cuts));
    }
    out := [];
    var token, converted := false, [];
    for i := 0 to |cuts|
      invariant goal == out + BackInBuffers(CutAt(rest, cuts[i..]))
    {
      var n := if cuts[i] <= |rest| then cuts[i] else |rest|;
      BackOfCut(rest, cuts[i..]);
      assert cuts[i..][1..] == cuts[i + 1..];
      Associate(out, ToLf(rest[..n]), BackInBuffers(CutAt(rest[n..], cuts[i + 1..])));
      converted, token := BufferToLf(rest[..n], token);
      out := out + converted;
      rest := rest[n..];
    }
    converted, token := BufferToLf(rest, token);
    BackOfCut(rest, []);
    out := out + converted;
  }

  lemma BackOfCut(t: seq<Byte>, cuts: seq<nat>)
    ensures BackInBuffers(CutAt(t, cuts))
            == if cuts == [] then ToLf(t)
               else var n := if cuts[0] <= |t| then cuts[0] else |t|;
                    ToLf(t[..n]) + BackInBuffers(CutAt(t[n..], cuts[1..]))
  {
    if cuts == [] {
      assert [t][1..] == [] && ToLf(t) + [] == ToLf(t);
    } else {
      var n := if cuts[0] <= |t| then cuts[0] else |t|;
      assert CutAt(t, cuts)[1..] == CutAt(t[n..], cuts[1..]);
    }
  }

  /** Cut between CR and LF, with another LF behind: that one slides into the place of the first
      and stays bare. */
  lemma ThisCutShows()
    ensures TwoBuffers([CR], [LF, LF]) != ToCrlf([CR, LF, LF])
  {
    CutShows([CR], [LF, LF]);
    assert [CR] + [LF, LF] == [CR, LF, LF] && [LF, LF][1..] == [LF];
  }

  // ----- The other conversions, byte by byte -----

  /** From CRLF to a single byte e: a CR before a LF goes, as one at the very end does, whose LF is
      expected in the next buffer; a LF behind a CR becomes e; all else stays. */
  function Shrink(t: seq<Byte>, afterCr: bool, e: Byte): seq<Byte> {
    if t == [] then []
    else if t[0] == 13 && (|t| == 1 || t[1] == 10) then Shrink(t[1..], true, e)
    else (if t[0] == 10 && afterCr then [e] else [t[0]]) + Shrink(t[1..], t[0] == 13, e)
  }

  lemma {:induction false} CrlfToOne(t: seq<Byte>, e: Byte)
    requires e != 0
    ensures TwoToAny(t, [13, 10], [e]) == Shrink(t, false, e)
  {
    if |t| >= 2 && t[0] == 13 && t[1] == 10 {
      CrlfToOne(t[2..], e);
      assert t[1..][1..] == t[2..] && t[1..][0] == 10;
    } else if |t| >= 2 {
      CrlfToOne(t[1..], e);
      if t[0] == 13 {
        AfterCrMatters(t[1..], e);
      }
    }
  }

  lemma AfterCrMatters(t: seq<Byte>, e: Byte)
    requires t != [] && t[0] != 10
    ensures Shrink(t, true, e) == Shrink(t, false, e)
  {
  }

  /** From one byte to another: each is replaced where it stands. */
  lemma {:induction false} OneToOne(t: seq<Byte>, s: Byte, e: Byte)
    requires s != 0 && e != 0
    ensures |Scan(t, s, [e])| == |t|
    ensures forall i | 0 <= i < |t| :: Scan(t, s, [e])[i] == if t[i] == s then e else t[i]
  {
    if |t| >= 2 && t[0] == e && t[1] == 0 {
      OneToOne(t[2..], s, e);
      assert forall i | 2 <= i < |t| :: t[2..][i - 2] == t[i];
    } else if t != [] {
      OneToOne(t[1..], s, e);
      assert forall i | 1 <= i < |t| :: t[1..][i - 1] == t[i];
    }
  }

  /** Every CR without its LF gets one. */
  function Completed(t: seq<Byte>): seq<Byte> {
    if t == [] then []
    else (if t[0] == 13 && !(|t| > 1 && t[1] == 10) then [13, 10] else [t[0]]) + Completed(t[1..])
  }

  lemma {:induction false} CrToCrlf(t: seq<Byte>)
    ensures Scan(t, 13, [13, 10]) == Completed(t)
  {
    if |t| >= 2 && t[0] == 13 && t[1] == 10 {
      CrToCrlf(t[2..]);
      assert t[1..][1..] == t[2..] && t[1..][0] == 10;
      assert t[..2] == [13] + [10];
      Associate([13], [10], Completed(t[2..]));
    } else if |t| >= 1 {
      CrToCrlf(t[1..]);
      if |t| == 1 {
        AddNothing<Byte>([13, 10]);
      }
    }
  }

  /** A token is left by a CR at the very end, and only when that gets its LF. */
  lemma {:induction false} TokenLeft(t: seq<Byte>)
    ensures ScanToken(t, 10, [13, 10]) <==> t != [] && t[|t| - 1] == 13
  {
    if |t| >= 2 && t[0] == 13 && t[1] == 10 {
      TokenLeft(t[2..]);
    } else if t != [] {
      TokenLeft(t[1..]);
    }
  }

  lemma {:induction false} NoTokenLeft(t: seq<Byte>, s: Byte, e: Byte)
    requires s != 0 && e != 0
    ensures !ScanToken(t, s, [e])
  {
    if |t| >= 2 && t[0] == e && t[1] == 0 {
      NoTokenLeft(t[2..], s, e);
    } else if t != [] {
      NoTokenLeft(t[1..], s, e);
    }
  }

  /** LF to CRLF, with a token or without: with one, a LF at the start goes, and the byte behind it
      is passed over. */
  lemma LfToCrlf(t: seq<Byte>, token: bool)
    ensures !token || t == [] || t[0] != 10 ==>
              && Converted(t, [10], [13, 10], token) == Expand(t, false)
              && (ConvertedToken(t, [10], [13, 10], token) <==> t != [] && t[|t| - 1] == 13)
    ensures token && |t| == 1 && t[0] == 10 ==>
              Converted(t, [10], [13, 10], token) == [] && !ConvertedToken(t, [10], [13, 10], token)
    ensures token && |t| >= 2 && t[0] == 10 ==>
              && Converted(t, [10], [13, 10], token) == [t[1]] + Expand(t[2..], false)
              && (ConvertedToken(t, [10], [13, 10], token) <==> |t| > 2 && t[|t| - 1] == 13)
  {
    ToCrlfIsExpand(t);
    TokenLeft(t);
    if |t| >= 2 {
      ToCrlfIsExpand(t[2..]);
      TokenLeft(t[2..]);
    }
  }

  /** Between other ends of line: equal ones change nothing, and no others but CR to CRLF touch the
      token. */
  lemma OtherConversions(t: seq<Byte>, d: Eol, s: Byte, e: Byte, token: bool)
    requires s != 0 && e != 0 && s != e
    ensures Converted(t, d, d, token) == t && ConvertedToken(t, d, d, token) == token
    ensures Converted(t, [13, 10], [e], token) == Shrink(t, false, e)
    ensures ConvertedToken(t, [13, 10], [e], token) == token
    ensures |Converted(t, [s], [e], false)| == |t| && !ConvertedToken(t, [s], [e], false)
    ensures forall i | 0 <= i < |t| :: Converted(t, [s], [e], false)[i] == if t[i] == s then e else t[i]
    ensures Converted(t, [13], [13, 10], false) == Completed(t)
  {
    CrlfToOne(t, e);
    OneToOne(t, s, e);
    NoTokenLeft(t, s, e);
    CrToCrlf(t);
  }

  // ----- What is removed -----

  predicate StartsWithBom(t: seq<Byte>) {
    |t| >= 3 && t[0] == 0xEF && t[1] == 0xBB && t[2] == 0xBF
  }

  predicate EndsInCtrlZ(t: seq<Byte>) {
    t != [] && t[|t| - 1] == 0x1A
  }

  /** One mark EF BB BF at the start and one byte 1A at the end go if asked for, and nothing
      else. */
  lemma StrippedBytes(t: seq<Byte>, bom: bool, ctrlZ: bool, removeBom: bool, removeCtrlZ: bool)
    requires bom || !StartsWithBom(t)
    requires ctrlZ || !EndsInCtrlZ(t)
    ensures var front, back: seq<Byte> := [0xEF, 0xBB, 0xBF], [0x1A];
            Stripped((if bom then front else []) + t + (if ctrlZ then back else []), removeBom, removeCtrlZ)
            == (if bom && !removeBom then front else []) + t + (if ctrlZ && !removeCtrlZ then back else [])
  {
    var front: seq<Byte> := if bom then [0xEF, 0xBB, 0xBF] else [];
    var back: seq<Byte> := if ctrlZ then [0x1A] else [];
    BomAtFront(t, bom, back);
    var u := if removeBom then t + back else front + t + back;
    CtrlZAtBack(u[..|u| - |back|], ctrlZ);
    assert u == u[..|u| - |back|] + back;
  }

  lemma BomAtFront(t: seq<Byte>, bom: bool, back: seq<Byte>)
    requires (bom || !StartsWithBom(t)) && (back == [] || back == [0x1A])
    ensures var front: seq<Byte> := if bom then [0xEF, 0xBB, 0xBF] else [];
            var all := front + t + back;
            && (|all| >= 3 && all[..3] == BOM <==> bom)
            && (bom ==> all[3..] == t + back)
  {
    var front: seq<Byte> := if bom then [0xEF, 0xBB, 0xBF] else [];
    var all := front + t + back;
    assert |all| >= 3 ==> all[..3][0] == all[0] && all[..3][1] == all[1] && all[..3][2] == all[2];
    if bom {
      assert all[..3] == front;
    }
  }

  lemma CtrlZAtBack(t: seq<Byte>, ctrlZ: bool)
    ensures ctrlZ ==> var u := t + [0x1A]; u[|u| - 1] == CTRL_Z && u[..|u| - 1] == t
  {
  }
}
