/** How a command line is cut, spelled out: blanks, plain words, quotes in the middle of a word, and
    which tokens are handed on to the child. */
module CommandLineTokens {
  import opened Basics
  import opened CommandLine
  import opened ChildCommandLine

  predicate AllBlanks(s: string) {
    forall i | 0 <= i < |s| :: s[i] in {' ', '\t'}
  }

  /** No blank and no quote. */
  predicate IsWord(s: string) {
    forall i | 0 <= i < |s| :: s[i] !in {' ', '\t', '"'}
  }

  /** What ends a token. */
  predicate IsEnd(rest: string) {
    rest == [] || rest[0] in {' ', '\t'}
  }

  lemma {:induction false} BlanksSkipped(blanks: string, s: string)
    requires AllBlanks(blanks) && (s == [] || s[0] !in {' ', '\t'})
    ensures BlanksAhead(blanks + s) == |blanks|
  {
    if blanks == [] {
      AddNothing(s);
    } else {
      assert (blanks + s)[1..] == blanks[1..] + s;
      BlanksSkipped(blanks[1..], s);
    }
  }

  lemma {:induction false} WordRead(word: string, rest: string, quoting: bool)
    requires IsWord(word)
    ensures var p := TokenAt(rest, quoting);
            TokenAt(word + rest, quoting) == Piece(word + p.token, |word| + p.size)
  {
    if word == [] {
      AddNothing(rest);
      AddNothing(TokenAt(rest, quoting).token);
    } else {
      assert word + rest == [word[0]] + (word[1..] + rest);
      WordRead(word[1..], rest, quoting);
      TokenAtOther(word[0], word[1..] + rest, quoting);
      Associate([word[0]], word[1..], TokenAt(rest, quoting).token);
      assert [word[0]] + word[1..] == word;
    }
  }

  lemma CutFromToken(blanks: string, s: string, rest: string, token: string)
    requires AllBlanks(blanks) && s != [] && s[0] !in {' ', '\t'} && IsEnd(rest)
    requires TokenAt(s + rest, false) == Piece(token, |s|)
    ensures CutOf(blanks + (s + rest))
            == Found(token, blanks + s, if rest == [] then [] else [rest[0]], if rest == [] then [] else rest[1..])
  {
    var line := blanks + (s + rest);
    BlanksSkipped(blanks, s + rest);
    PartsOfLine(blanks, s, rest, line, |blanks| + |s|);
  }

  lemma PartsOfLine(blanks: string, s: string, rest: string, line: string, n: nat)
    requires line == blanks + (s + rest) && n == |blanks| + |s|
    ensures |line| == n + |rest| && line[|blanks|..] == s + rest && line[..n] == blanks + s && line[n..] == rest
    ensures rest != [] ==> line[n..n + 1] == [rest[0]] && line[n + 1..] == rest[1..]
  {
  }

  /** A plain word: the raw token has the blanks in front, the separator is the one blank behind. */
  lemma WordCut(blanks: string, word: string, rest: string)
    requires AllBlanks(blanks) && IsWord(word) && word != [] && IsEnd(rest)
    ensures CutOf(blanks + (word + rest))
            == Found(word, blanks + word, if rest == [] then [] else [rest[0]], if rest == [] then [] else rest[1..])
  {
    WordRead(word, rest, false);
    AddNothing(word);
    CutFromToken(blanks, word, rest, word);
  }

  /** Nothing but blanks holds no token. */
  lemma BlanksHoldNone(blanks: string)
    requires AllBlanks(blanks)
    ensures CutOf(blanks) == Nothing && Tokens(blanks) == []
  {
    BlanksSkipped(blanks, []);
    AddNothing(blanks);
  }

  /** No quote, but blanks are allowed: what can stand between quotes as it is. */
  predicate IsPhrase(s: string) {
    forall i | 0 <= i < |s| :: s[i] != '"'
  }

  lemma {:induction false} PhraseRead(phrase: string, rest: string)
    requires IsPhrase(phrase)
    ensures var p := TokenAt(rest, true);
            TokenAt(phrase + rest, true) == Piece(phrase + p.token, |phrase| + p.size)
  {
    if phrase == [] {
      AddNothing(rest);
      AddNothing(TokenAt(rest, true).token);
    } else {
      assert phrase + rest == [phrase[0]] + (phrase[1..] + rest);
      PhraseRead(phrase[1..], rest);
      TokenAtOther(phrase[0], phrase[1..] + rest, true);
      Associate([phrase[0]], phrase[1..], TokenAt(rest, true).token);
      assert [phrase[0]] + phrase[1..] == phrase;
    }
  }

  lemma BehindQuotes(b: string, rest: string)
    requires IsWord(b) && IsEnd(rest)
    ensures TokenAt(['"'] + (b + rest), true) == Piece(b, |b| + 1)
    ensures TokenAt(b + rest, false) == Piece(b, |b|) && (b + rest == [] || (b + rest)[0] != '"')
  {
    WordRead(b, rest, false);
    AddNothing(b);
    TokenAtQuote(b + rest, true);
  }

  lemma BetweenQuotes(phrase: string, t: string, p: Piece)
    requires IsPhrase(phrase) && phrase != [] && TokenAt(t, true) == p
    ensures TokenAt(['"'] + (phrase + t), false) == Piece(phrase + p.token, |phrase| + p.size + 1)
  {
    PhraseRead(phrase, t);
    TokenAtQuote(phrase + t, false);
  }

  /** Quotes in the middle of a word: they go, and blanks between them stay. */
  lemma QuotesInWord(a: string, phrase: string, b: string, rest: string, t: string)
    requires IsWord(a) && IsPhrase(phrase) && phrase != [] && IsWord(b) && IsEnd(rest)
    requires t == ['"'] + (b + rest)
    ensures TokenAt(a + (['"'] + (phrase + t)), false) == Piece(a + (phrase + b), |a| + |phrase| + |b| + 2)
  {
    BehindQuotes(b, rest);
    BetweenQuotes(phrase, t, Piece(b, |b| + 1));
    WordRead(a, ['"'] + (phrase + t), false);
  }

  /** Quotes left open run to the end of the line. */
  lemma OpenQuotes(phrase: string)
    requires IsPhrase(phrase) && phrase != []
    ensures CutOf(['"'] + phrase) == Found(phrase, ['"'] + phrase, [], [])
  {
    PhraseRead(phrase, []);
    AddNothing(phrase);
    TokenAtQuote(phrase, false);
    AddNothing(['"'] + phrase);
    CutFromToken([], ['"'] + phrase, [], phrase);
  }

  // ----- What the child gets -----

  lemma {:induction false} ExceptIs(tokens: seq<string>, i: nat, skip: nat)
    ensures Except(tokens, i, skip)
            == if i <= skip < i + |tokens| then tokens[..skip - i] + tokens[skip - i + 1..] else tokens
  {
    if tokens != [] {
      ExceptIs(tokens[1..], i + 1, skip);
      assert tokens == [tokens[0]] + tokens[1..];
      if i < skip < i + |tokens| {
        assert tokens[..skip - i] == [tokens[0]] + tokens[1..][..skip - i - 1];
        assert tokens[1..][skip - i..] == tokens[skip - i + 1..];
      } else if i == skip {
        assert tokens[..0] == [];
      }
    }
  }

  /** All tokens but the path in front and the one at position skip. */
  lemma HandedOnIs(tokens: seq<string>, skip: nat)
    requires tokens != []
    ensures HandedOn(tokens, skip)
            == if 1 <= skip < |tokens| then tokens[1..skip] + tokens[skip + 1..] else tokens[1..]
  {
    ExceptIs(tokens[1..], 1, skip);
    if 1 <= skip < |tokens| {
      assert tokens[1..][..skip - 1] == tokens[1..skip] && tokens[1..][skip..] == tokens[skip + 1..];
    }
  }
}
