/** The two passes over a template give its meaning: nothing that was put in by the first pass is
    taken for a pattern by the second. */
module CustomCommandHygiene {
  import opened Basics
  import opened CustomCommands

  // ----- Tokens cover the command -----

  lemma TokenSplits(s: string, n: nat)
    requires n <= |s|
    ensures s[..n] + s[n..] == s
  {
  }

  lemma {:induction false} PiecesCover(dialog: Dialog, d: FileData, prev: char, s: string)
    requires Pieces(dialog, d, prev, s).Some?
    ensures Sources(Pieces(dialog, d, prev, s).value) == s
    ensures forall p | p in Pieces(dialog, d, prev, s).value :: SourceOf(p) != []
    decreases |s|
  {
    if s != [] {
      var n := TokenLen(InteractiveLanguage(dialog, d), s).value;
      var rest := Pieces(dialog, d, LastOr(prev, s[..n]), s[n..]).value;
      var ps := Pieces(dialog, d, prev, s).value;
      PiecesCover(dialog, d, LastOr(prev, s[..n]), s[n..]);
      assert ps[0] in ps && ps[1..] == rest && SourceOf(ps[0]) == s[..n];
      TokenSplits(s, n);
    }
  }

  // ----- The first pass renders the pieces -----

  /** Delimiting touches no exclamation mark, and doubling nothing that is delimited. */
  lemma {:induction false} DoubleThenDelimit(s: string, quote: char)
    ensures Delimited(BangsDoubled(s), quote) == BangsDoubled(Delimited(s, quote))
  {
    if s != [] {
      DoubleThenDelimit(s[1..], quote);
      var t := BangsDoubled(s[1..]);
      var u := Delimited(s[1..], quote);
      if s[0] == BANG {
        DelimitTwo(BANG, BANG, t, quote);
        DoubleOne(BANG, u);
      } else if NeedsBackslash(s[0], quote) {
        DelimitOne(s[0], t, quote);
        DoubleTwo('\\', s[0], u);
      } else {
        DelimitOne(s[0], t, quote);
        DoubleOne(s[0], u);
      }
    }
  }

  lemma DelimitOne(c: char, s: string, quote: char)
    ensures Delimited([c] + s, quote) == (if NeedsBackslash(c, quote) then ['\\', c] else [c]) + Delimited(s, quote)
  {
    assert ([c] + s)[1..] == s;
  }

  lemma DelimitTwo(b: char, c: char, s: string, quote: char)
    requires !NeedsBackslash(b, quote) && !NeedsBackslash(c, quote)
    ensures Delimited([b, c] + s, quote) == [b, c] + Delimited(s, quote)
  {
    assert [b, c] + s == [b] + ([c] + s);
    DelimitOne(b, [c] + s, quote);
    DelimitOne(c, s, quote);
    assert [b] + ([c] + Delimited(s, quote)) == [b, c] + Delimited(s, quote);
  }

  lemma DoubleOne(c: char, s: string)
    ensures BangsDoubled([c] + s) == (if c == BANG then [BANG, BANG] else [c]) + BangsDoubled(s)
  {
    assert ([c] + s)[1..] == s;
  }

  lemma DoubleTwo(b: char, c: char, s: string)
    requires b != BANG && c != BANG
    ensures BangsDoubled([b, c] + s) == [b, c] + BangsDoubled(s)
  {
    assert [b, c] + s == [b] + ([c] + s);
    DoubleOne(b, [c] + s);
    DoubleOne(c, s);
    assert [b] + ([c] + BangsDoubled(s)) == [b, c] + BangsDoubled(s);
  }

  /** An interactive pattern is always replaced. */
  lemma InteractiveIsReplaced(dialog: Dialog, d: FileData, s: string)
    requires StartsInteractive(s) && TokenLen(InteractiveLanguage(dialog, d), s).Some?
    ensures var token := s[..TokenLen(InteractiveLanguage(dialog, d), s).value];
            |token| >= 3 && InteractiveReply(dialog, d, token).Replace?
  {
    var token := s[..TokenLen(InteractiveLanguage(dialog, d), s).value];
    if s[1] == '`' {
      FileCompletes(d, true, NO_QUOTE, token[2..|token| - 1]);
    }
  }

  /** The first pass renders the first token. */
  lemma TokenRenders(dialog: Dialog, d: FileData, prev: char, s: string)
    requires s != [] && TokenLen(InteractiveLanguage(dialog, d), s).Some?
    ensures var n := TokenLen(InteractiveLanguage(dialog, d), s).value;
            TokenOutput(InteractiveLanguage(dialog, d), false, prev, s, n)
            == Rendered(FirstPiece(dialog, d, prev, s, n))
  {
    var n := TokenLen(InteractiveLanguage(dialog, d), s).value;
    if !IsText(s) && StartsInteractive(s) {
      InteractiveIsReplaced(dialog, d, s);
      DoubleThenDelimit(InteractiveReply(dialog, d, s[..n]).text, QuoteAround(prev, s[n..]));
    }
  }

  lemma RenderStep(p: Piece, ps: seq<Piece>)
    ensures Render([p] + ps) == Rendered(p) + Render(ps)
  {
    assert ([p] + ps)[1..] == ps;
  }

  lemma {:induction false} FirstPassRenders(dialog: Dialog, d: FileData, prev: char, s: string)
    ensures var ps := Pieces(dialog, d, prev, s);
            CompleteFrom(InteractiveLanguage(dialog, d), false, prev, s)
            == if ps.None? then None else Some(Render(ps.value))
    decreases |s|
  {
    var lang := InteractiveLanguage(dialog, d);
    if s != [] && TokenLen(lang, s).Some? {
      var n := TokenLen(lang, s).value;
      var next := LastOr(prev, s[..n]);
      FirstPassRenders(dialog, d, next, s[n..]);
      TokenRenders(dialog, d, prev, s);
      var rest := Pieces(dialog, d, next, s[n..]);
      if rest.Some? {
        RenderStep(FirstPiece(dialog, d, prev, s, n), rest.value);
      } else {
        assert Pieces(dialog, d, prev, s) == None;
      }
    }
  }

  // ----- What the second pass can rely on -----

  predicate NoBang(s: string) {
    forall i | 0 <= i < |s| :: s[i] != BANG
  }

  /** Text in which nothing else is found, whatever follows. */
  predicate IsPlainText(t: string) {
    NoBang(t) && NulFree(t)
  }

  /** What may follow a file pattern of a single exclamation mark. */
  predicate EndsSingle(after: string) {
    after == [] || (after[0] != BANG && after[0] != TEXT_TOKEN && !IsFileLetter(after[0]))
  }

  /** The piece will be read as a token of its kind before what follows. */
  predicate FitsBefore(p: Piece, after: string) {
    match p
    case Text(t) =>
      || (t != [] && IsPlainText(t))
      || (t == [BANG] && after != [] && after[0] == TEXT_TOKEN)
      || (t != [] && t[0] != BANG && StrChr(t, BANG) == |t| && after == [])
    case DoubleBang => true
    case FilePattern(t) =>
      (t == [BANG] && EndsSingle(after)) || (|t| == 2 && t[0] == BANG && IsFileLetter(t[1]))
    case Value(_, _) => true
  }

  predicate Fit(ps: seq<Piece>) {
    ps == [] || (FitsBefore(ps[0], Render(ps[1..])) && Fit(ps[1..]))
  }

  /** What is rendered starts with the next character of the command, if that is no exclamation
      mark. */
  lemma RendersNext(dialog: Dialog, d: FileData, prev: char, s: string)
    requires Pieces(dialog, d, prev, s).Some? && s != [] && s[0] != BANG
    ensures var r := Render(Pieces(dialog, d, prev, s).value); r != [] && r[0] == s[0]
  {
  }

  lemma {:induction false} PiecesFit(dialog: Dialog, d: FileData, prev: char, s: string)
    requires Pieces(dialog, d, prev, s).Some?
    ensures Fit(Pieces(dialog, d, prev, s).value)
    decreases |s|
  {
    if s != [] {
      var n := TokenLen(InteractiveLanguage(dialog, d), s).value;
      var next := LastOr(prev, s[..n]);
      var ps, rest := Pieces(dialog, d, prev, s).value, Pieces(dialog, d, next, s[n..]).value;
      PiecesFit(dialog, d, next, s[n..]);
      assert ps[1..] == rest;
      if s[n..] != [] && s[n..][0] != BANG {
        RendersNext(dialog, d, next, s[n..]);
      }
      FirstFits(dialog, d, prev, s);
    }
  }

  /** A text token, cut off before what comes next. */
  lemma TextFits(s: string, after: string)
    requires s != [] && s[0] != BANG && (StrChr(s, BANG) == |s| ==> after == [])
    ensures FitsBefore(Text(s[..StrChr(s, BANG)]), after)
  {
    if StrChr(s, BANG) == |s| {
      assert s[..|s|] == s;
    }
  }

  /** An exclamation mark and what is read with it. */
  lemma MarkFits(dialog: Dialog, d: FileData, prev: char, s: string, n: nat, after: string)
    requires s != [] && s[0] == BANG && TokenLen(InteractiveLanguage(dialog, d), s) == Some(n)
    requires |s| == 1 ==> after == []
    requires |s| > 1 && n == 1 && s[1] != BANG ==> after != [] && after[0] == s[1]
    ensures FitsBefore(FirstPiece(dialog, d, prev, s, n), after)
  {
    assert n == 1 ==> s[..n] == [BANG];
  }

  lemma FirstFits(dialog: Dialog, d: FileData, prev: char, s: string)
    requires s != [] && Pieces(dialog, d, prev, s).Some?
    ensures var n := TokenLen(InteractiveLanguage(dialog, d), s).value;
            var rest := Pieces(dialog, d, LastOr(prev, s[..n]), s[n..]).value;
            FitsBefore(FirstPiece(dialog, d, prev, s, n), Render(rest))
  {
    var n := TokenLen(InteractiveLanguage(dialog, d), s).value;
    var next := LastOr(prev, s[..n]);
    var rest := Pieces(dialog, d, next, s[n..]).value;
    assert s[n..] == [] ==> rest == [];
    if s[0] != BANG {
      TextFits(s, Render(rest));
    } else {
      if n == 1 && |s| > 1 {
        RendersNext(dialog, d, next, s[1..]);
      }
      MarkFits(dialog, d, prev, s, n, Render(rest));
    }
  }

  // ----- The second pass -----

  /** Behind a zero character nothing is read. */
  lemma ZeroEndsReading(d: FileData, prev: char, s: string)
    requires s != [] && s[0] != BANG && StrChr(s, BANG) == |s|
    ensures Second(d, prev, s) == s
  {
    assert s[..|s|] == s && s[|s|..] == [];
    assert TokenLen(FileLanguage(d), s) == Some(|s|);
    assert Second(d, LastOr(prev, s), []) == [];
    AddNothing(s);
  }

  /** Text is copied character by character. */
  lemma TextIsCopied(d: FileData, prev: char, s: string)
    requires s != [] && s[0] != BANG && s[0] != '\0'
    ensures Second(d, prev, s)
            == [s[0]] + Second(d, s[0], s[1..])
  {
    var lang := FileLanguage(d);
    var n := StrChr(s, BANG);
    if n == 1 {
      assert s[..1] == [s[0]];
    } else {
      assert n == 1 + StrChr(s[1..], BANG) && s[1] != BANG;
      assert s[1..][n - 1..] == s[n..] && s[..n] == [s[0]] + s[1..][..n - 1];
      var rest := Second(d, LastOr(prev, s[..n]), s[n..]);
      Associate([s[0]], s[1..][..n - 1], rest);
    }
  }

  lemma {:induction false} PlainTextIsCopied(d: FileData, prev: char, t: string, s: string)
    requires IsPlainText(t)
    ensures Second(d, prev, t + s)
            == t + Second(d, LastOr(prev, t), s)
    decreases |t|
  {
    if t == [] {
      AddNothing(s);
      AddNothing(Second(d, prev, s));
    } else {
      TextIsCopied(d, prev, t + s);
      assert (t + s)[1..] == t[1..] + s;
      PlainTextIsCopied(d, t[0], t[1..], s);
      assert LastOr(t[0], t[1..]) == LastOr(prev, t);
      var rest := Second(d, LastOr(prev, t), s);
      Associate([t[0]], t[1..], rest);
      assert [t[0]] + t[1..] == t;
    }
  }

  lemma DoubleBangIsOne(d: FileData, prev: char, s: string)
    ensures Second(d, prev, [BANG, BANG] + s)
            == [BANG] + Second(d, BANG, s)
  {
    var t := [BANG, BANG] + s;
    assert t[..2] == [BANG, BANG] && t[2..] == s;
  }

  /** A value with its exclamation marks doubled comes out as it is, unless it holds a zero
      character: then all behind that stays as the first pass wrote it. */
  lemma {:induction false} ValueIsCopied(d: FileData, prev: char, v: string, s: string)
    ensures Second(d, prev, BangsDoubled(v) + s)
            == if NulFree(v) then v + Second(d, LastOr(prev, BangsDoubled(v)), s) else UpToZero(v) + s
    decreases |v|
  {
    if v == [] {
      AddNothing(s);
      AddNothing(Second(d, prev, s));
    } else if v[0] == '\0' {
      ZeroEndsReading(d, prev, BangsDoubled(v) + s);
    } else {
      ValueIsCopied(d, v[0], v[1..], s);
      ValueStep(d, prev, v, s);
      Associate([v[0]], v[1..], Second(d, LastOr(prev, BangsDoubled(v)), s));
      Associate([v[0]], UpToZero(v[1..]), s);
      assert [v[0]] + v[1..] == v;
    }
  }

  lemma ValueStep(d: FileData, prev: char, v: string, s: string)
    requires v != [] && v[0] != '\0'
    ensures Second(d, prev, BangsDoubled(v) + s) == [v[0]] + Second(d, v[0], BangsDoubled(v[1..]) + s)
    ensures LastOr(v[0], BangsDoubled(v[1..])) == LastOr(prev, BangsDoubled(v))
  {
    var t := BangsDoubled(v[1..]);
    if v[0] == BANG {
      Associate([BANG, BANG], t, s);
      DoubleBangIsOne(d, prev, t + s);
    } else {
      Associate([v[0]], t, s);
      TextIsCopied(d, prev, [v[0]] + (t + s));
      assert ([v[0]] + (t + s))[1..] == t + s;
    }
  }

  /** A zero character with an exclamation mark somewhere behind it. */
  predicate MarkBehindZero(v: string) {
    v != [] && if v[0] == '\0' then !NoBang(v) else MarkBehindZero(v[1..])
  }

  lemma {:induction false} DoublingShows(v: string)
    ensures |BangsDoubled(v)| >= |v| && (BangsDoubled(v) == v <==> NoBang(v))
    ensures |BangsDoubled(v)| == |v| <==> NoBang(v)
  {
    if v != [] {
      DoublingShows(v[1..]);
      assert NoBang(v) <==> v[0] != BANG && NoBang(v[1..]);
      assert [v[0]] + v[1..] == v;
    }
  }

  lemma {:induction false} UpToZeroIs(v: string)
    ensures UpToZero(v) == v <==> !MarkBehindZero(v)
    ensures NulFree(v) ==> !MarkBehindZero(v)
  {
    if v != [] {
      assert [v[0]] + v[1..] == v;
      if v[0] == '\0' {
        DoublingShows(v);
      } else {
        UpToZeroIs(v[1..]);
        assert ([v[0]] + UpToZero(v[1..]))[1..] == UpToZero(v[1..]);
      }
    }
  }

  /** Exactly which values the second pass takes as they are. */
  lemma ValueIsKept(d: FileData, prev: char, v: string)
    ensures Second(d, prev, BangsDoubled(v)) == v <==> !MarkBehindZero(v)
  {
    ValueIsCopied(d, prev, v, []);
    AddNothing(BangsDoubled(v));
    AddNothing(v);
    AddNothing(UpToZero(v));
    UpToZeroIs(v);
    assert Second(d, LastOr(prev, BangsDoubled(v)), []) == [];
  }

  /** The shortest value that comes out changed. */
  lemma MarkBehindZeroIsDoubled(d: FileData, prev: char)
    ensures Second(d, prev, BangsDoubled(['\0', BANG])) == ['\0', BANG, BANG]
  {
    var v := ['\0', BANG];
    assert BangsDoubled([BANG]) == [BANG, BANG] + BangsDoubled([]);
    assert v[1..] == [BANG] && BangsDoubled(v) == ['\0'] + [BANG, BANG];
    ZeroEndsReading(d, prev, BangsDoubled(v));
  }

  /** A single exclamation mark that counts as text. */
  lemma BangBeforeTextToken(d: FileData, prev: char, s: string)
    requires s != [] && s[0] == TEXT_TOKEN
    ensures Second(d, prev, [BANG] + s)
            == [BANG] + Second(d, BANG, s)
  {
    var t := [BANG] + s;
    assert t[..1] == [BANG] && t[1..] == s && t[1] == s[0];
  }

  lemma FilePatternIsReplaced(d: FileData, prev: char, p: string, s: string)
    requires FitsBefore(FilePattern(p), s)
    ensures Second(d, prev, p + s)
            == Replacement(FileLanguage(d), true, p, QuoteAround(prev, s))
                    + Second(d, LastOr(prev, p), s)
  {
    var t := p + s;
    assert t[..|p|] == p && t[|p|..] == s;
    assert |t| > 1 ==> t[1] == if |p| == 1 then s[0] else p[1];
    assert TokenLen(FileLanguage(d), t) == Some(|p|);
  }

  /** The second pass on rendered pieces gives their meaning. */
  lemma {:induction false} SecondPassMeans(d: FileData, prev: char, ps: seq<Piece>)
    requires Fit(ps)
    ensures Second(d, prev, Render(ps)) == Meaning(d, prev, ps)
    decreases |ps|
  {
    if ps != [] {
      var rest := Render(ps[1..]);
      SecondPassMeans(d, LastOr(prev, Rendered(ps[0])), ps[1..]);
      match ps[0]
      case Text(t) =>
        if IsPlainText(t) {
          PlainTextIsCopied(d, prev, t, rest);
        } else if t[0] != BANG {
          ZeroEndsReading(d, prev, t);
          AddNothing(t);
        } else {
          BangBeforeTextToken(d, prev, rest);
        }
      case DoubleBang => DoubleBangIsOne(d, prev, rest);
      case FilePattern(p) => FilePatternIsReplaced(d, prev, p, rest);
      case Value(_, v) => ValueIsCopied(d, prev, v, rest);
    }
  }

  /** Hygiene: if the first pass succeeds so does the second, and the two together give the
      template its meaning; the first fails only where a pattern does not end. */
  lemma TwoPassesMean(dialog: Dialog, d: FileData, command: string)
    ensures var ps := Pieces(dialog, d, NO_QUOTE, command);
            var first := Complete(InteractiveLanguage(dialog, d), false, command);
            && (first.Some? <==> ps.Some?)
            && (ps.Some? ==> Sources(ps.value) == command
                             && Complete(FileLanguage(d), true, first.value) == Some(Meaning(d, NO_QUOTE, ps.value)))
  {
    FirstPassRenders(dialog, d, NO_QUOTE, command);
    var ps := Pieces(dialog, d, NO_QUOTE, command);
    if ps.Some? {
      PiecesCover(dialog, d, NO_QUOTE, command);
      PiecesFit(dialog, d, NO_QUOTE, command);
      SecondPassMeans(d, NO_QUOTE, ps.value);
    }
  }
}
