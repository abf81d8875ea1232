/** The part of InitializeChild (source/console/Main.cpp) that quotes the program's arguments
    again for the child process. */
module ChildCommandLine {
  import opened Basics
  import opened CommandLine
  import opened TokenCutting

  /** Each token wrapped again, with a space behind it. */
  function Requoted(tokens: seq<string>): string {
    if tokens == [] then [] else Wrapped(tokens[0]) + [' '] + Requoted(tokens[1..])
  }

  /** The child sees the same tokens, but for those made of quotes only. */
  lemma {:induction false} TokensOfRequoted(tokens: seq<string>)
    ensures Tokens(Requoted(tokens)) == AllReadAs(tokens)
  {
    if tokens != [] {
      var tail := [' '] + Requoted(tokens[1..]);
      Associate(Wrapped(tokens[0]), [' '], Requoted(tokens[1..]));
      CutWrapped(tokens[0], tail);
      assert tail[1..] == Requoted(tokens[1..]);
      TokensOfRequoted(tokens[1..]);
    }
  }

  lemma RequotedTokensSurvive(tokens: seq<string>)
    ensures Tokens(Requoted(tokens)) == tokens <==> forall i | 0 <= i < |tokens| :: !AllQuotes(tokens[i])
  {
    TokensOfRequoted(tokens);
    AllReadAsThemselves(tokens);
  }

  // ----- What stands in front -----

  /** Whether a quotation is open behind s. */
  predicate QuotedAfter(s: string, quoting: bool) {
    if s == [] then quoting
    else if s[0] == QUOTE && |s| > 1 && s[1] == QUOTE then QuotedAfter(s[2..], quoting)
    else QuotedAfter(s[1..], if s[0] == QUOTE then !quoting else quoting)
  }

  /** A text that ends in a blank outside of quotes, so that what follows is read on its own. */
  predicate StandsApart(front: string, quoting: bool) {
    front != [] && IsBlank(front[|front| - 1]) && !QuotedAfter(front, quoting)
  }

  lemma {:induction false} TokenAtFront(front: string, x: string, quoting: bool)
    requires StandsApart(front, quoting)
    ensures TokenAt(front + x, quoting) == TokenAt(front, quoting)
    ensures var n := TokenAt(front, quoting).size; n < |front| && !QuotedAfter(front[n..], false)
    decreases |front|
  {
    if !quoting && IsBlank(front[0]) {
      assert front[0..] == front;
    } else {
      var k := if front[0] == QUOTE && |front| > 1 && front[1] == QUOTE then 2 else 1;
      var q := if k == 1 && front[0] == QUOTE then !quoting else quoting;
      FrontGoesOn(front, quoting);
      Behind(front, x, k);
      TokenAtFront(front[k..], x, q);
      assert front[k..][TokenAt(front[k..], q).size..] == front[k + TokenAt(front[k..], q).size..];
    }
  }

  lemma FrontGoesOn(front: string, quoting: bool)
    requires StandsApart(front, quoting) && (quoting || !IsBlank(front[0]))
    ensures |front| > 1 && (front[0] == QUOTE && front[1] == QUOTE ==> |front| > 2)
  {
    if |front| == 1 {
      assert front[1..] == [] && QuotedAfter([], quoting) == quoting;
    }
  }

  lemma Behind(a: string, x: string, i: nat)
    requires i <= |a|
    ensures (a + x)[i..] == a[i..] + x
  {
  }

  lemma {:induction false} BlanksAheadOfFront(front: string, x: string)
    ensures BlanksAhead(front) < |front| ==> BlanksAhead(front + x) == BlanksAhead(front)
    ensures BlanksAhead(front) == |front| ==> BlanksAhead(front + x) == |front| + BlanksAhead(x)
  {
    if front == [] {
      assert front + x == x;
    } else {
      assert (front + x)[1..] == front[1..] + x;
      BlanksAheadOfFront(front[1..], x);
    }
  }

  lemma {:induction false} QuotedAfterBlanks(s: string, n: nat)
    requires n <= BlanksAhead(s)
    ensures QuotedAfter(s[n..], false) == QuotedAfter(s, false)
  {
    if n > 0 {
      QuotedAfterBlanks(s[1..], n - 1);
      assert s[1..][n - 1..] == s[n..];
    } else {
      assert s[n..] == s;
    }
  }

  /** What a cut comes down to. */
  lemma CutIs(s: string, n: nat, t: string, size: nat)
    requires n == BlanksAhead(s) < |s| && TokenAt(s[n..], false) == Piece(t, size)
    ensures CutOf(s).Found? && CutOf(s).token == t
    ensures CutOf(s).rest == if n + size < |s| then s[n + size + 1..] else []
  {
  }

  /** A cut takes the same token from a text that stands apart, whatever follows. */
  lemma CutOfFront(front: string, x: string)
    requires StandsApart(front, false) && CutOf(front).Found?
    ensures CutOf(front + x).Found? && CutOf(front + x).token == CutOf(front).token
    ensures CutOf(front + x).rest == CutOf(front).rest + x
    ensures CutOf(front).rest == [] || StandsApart(CutOf(front).rest, false)
  {
    var n := BlanksAhead(front);
    var p := TokenAt(front[n..], false);
    BlanksAheadOfFront(front, x);
    QuotedAfterBlanks(front, n);
    TokenAtFront(front[n..], x, false);
    Behind(front, x, n);
    Behind(front, x, n + p.size + 1);
    CutIs(front, n, p.token, p.size);
    CutIs(front + x, n, p.token, p.size);
    RestStandsApart(front, n, p.size);
  }

  lemma RestStandsApart(front: string, n: nat, size: nat)
    requires n + size < |front| && StandsApart(front, false)
    requires TokenAt(front[n..], false).size == size && !QuotedAfter(front[n..][size..], false)
    ensures front[n + size + 1..] == [] || StandsApart(front[n + size + 1..], false)
  {
    BehindToken(front[n..], false);
    assert front[n..][size..] == front[n + size..];
    assert front[n + size..][1..] == front[n + size + 1..];
  }

  /** A token that ends before its text does ends at a blank. */
  lemma {:induction false} BehindToken(s: string, quoting: bool)
    ensures var n := TokenAt(s, quoting).size; n < |s| ==> IsBlank(s[n])
  {
    if s == [] || (!quoting && IsBlank(s[0])) {
    } else if s[0] == QUOTE && |s| > 1 && s[1] == QUOTE {
      BehindToken(s[2..], quoting);
    } else {
      BehindToken(s[1..], if s[0] == QUOTE then !quoting else quoting);
    }
  }

  /** A blank in front changes no tokens. */
  lemma TokensBehindBlank(b: char, x: string)
    requires IsBlank(b)
    ensures Tokens([b] + x) == Tokens(x)
  {
    var s, n := [b] + x, BlanksAhead(x);
    OneOn(b, x, 0);
    if n < |x| {
      var p := TokenAt(x[n..], false);
      OneOn(b, x, n);
      CutIs(x, n, p.token, p.size);
      CutIs(s, n + 1, p.token, p.size);
      if n + p.size < |x| {
        OneOn(b, x, n + p.size + 1);
      }
    }
  }

  lemma OneOn(b: char, x: string, i: nat)
    requires i <= |x|
    ensures ([b] + x)[i + 1..] == x[i..] && x[0..] == x
  {
  }

  lemma {:induction false} TokensBehindBlanks(front: string, x: string)
    requires BlanksAhead(front) == |front|
    ensures Tokens(front + x) == Tokens(x)
  {
    if front == [] {
      AddNothing(x);
    } else {
      TokensBehindBlanks(front[1..], x);
      TokensBehindBlank(front[0], front[1..] + x);
      assert front + x == [front[0]] + (front[1..] + x);
    }
  }

  lemma {:induction false} TokensOfFront(front: string, x: string)
    requires front == [] || StandsApart(front, false)
    ensures Tokens(front + x) == Tokens(front) + Tokens(x)
    decreases |front|
  {
    if CutOf(front).Nothing? {
      TokensBehindBlanks(front, x);
      AddNothing(Tokens(x));
    } else {
      var c := CutOf(front);
      CutOfFront(front, x);
      TokensOfFront(c.rest, x);
      Associate([c.token], Tokens(c.rest), Tokens(x));
    }
  }

  /** The child reads what stands in front of its arguments, and then them. */
  lemma ChildReads(front: string, tokens: seq<string>)
    requires StandsApart(front, false)
    ensures Tokens(front + Requoted(tokens)) == Tokens(front) + AllReadAs(tokens)
    ensures Tokens(front + Requoted(tokens)) == Tokens(front) + tokens
            <==> forall i | 0 <= i < |tokens| :: !AllQuotes(tokens[i])
  {
    TokensOfFront(front, Requoted(tokens));
    TokensOfRequoted(tokens);
    AllReadAsThemselves(tokens);
    var f, a := Tokens(front), AllReadAs(tokens);
    if f + a == f + tokens {
      assert (f + a)[|f|..] == a && (f + tokens)[|f|..] == tokens;
    }
  }

  // ----- The code -----

  /** All tokens but the first and the one at position skip (0 stands for none). */
  function HandedOn(tokens: seq<string>, skip: nat): seq<string> {
    if tokens == [] then [] else Except(tokens[1..], 1, skip)
  }

  function Except(tokens: seq<string>, i: nat, skip: nat): seq<string> {
    if tokens == [] then [] else (if i == skip then [] else [tokens[0]]) + Except(tokens[1..], i + 1, skip)
  }

  /** What is appended for the token at position i. */
  function Appended(token: string, i: nat, skip: nat): (s: string)
    ensures |s| <= 2 * |token| + 3
  {
    if i == skip then [] else Wrapped(token) + [' ']
  }

  lemma TokensOfCut(line: string)
    requires CutOf(line).Found?
    ensures Tokens(line) == [CutOf(line).token] + Tokens(CutOf(line).rest)
  {
  }

  lemma RequotedFirst(token: string, tokens: seq<string>, i: nat, skip: nat)
    ensures Requoted(Except([token] + tokens, i, skip))
            == Appended(token, i, skip) + Requoted(Except(tokens, i + 1, skip))
  {
    var rest := Except(tokens, i + 1, skip);
    assert ([token] + tokens)[1..] == tokens;
    if i == skip {
      AddNothing(rest);
      AddNothing(Requoted(rest));
    } else {
      assert ([token] + rest)[1..] == rest;
    }
  }

  lemma RequotedExcept(line: string, i: nat, skip: nat)
    requires CutOf(line).Found?
    ensures var c := CutOf(line);
            Requoted(Except(Tokens(line), i, skip))
            == Appended(c.token, i, skip) + Requoted(Except(Tokens(c.rest), i + 1, skip))
    ensures |Tokens(line)| == 1 + |Tokens(CutOf(line).rest)|
  {
    TokensOfCut(line);
    RequotedFirst(CutOf(line).token, Tokens(CutOf(line).rest), i, skip);
  }

  lemma {:induction false} TokenCharsAreFromLine(s: string, quoting: bool)
    ensures forall c | c in TokenAt(s, quoting).token :: c in s
  {
    if s == [] || (!quoting && IsBlank(s[0])) {
    } else if s[0] == QUOTE && |s| > 1 && s[1] == QUOTE {
      TokenCharsAreFromLine(s[2..], quoting);
    } else {
      TokenCharsAreFromLine(s[1..], if s[0] == QUOTE then !quoting else quoting);
    }
  }

  lemma CutOfNulFree(s: string)
    requires NulFree(s)
    ensures CutOf(s).Found? ==> NulFree(CutOf(s).token) && NulFree(CutOf(s).rest)
  {
    TokenCharsAreFromLine(s[BlanksAhead(s)..], false);
    if CutOf(s).Found? {
      var t := CutOf(s).token;
      forall i | 0 <= i < |t| ensures t[i] != '\0' {
        assert t[i] in s[BlanksAhead(s)..];
      }
    }
  }

  /** The innermost loop of InitializeChild: a token copied behind position at, its quotes
      doubled, the terminating zero included. */
  method RequoteInto(parameters: array<char>, at: nat, token: string) returns (end: nat)
    requires at + |Doubled(token)| < parameters.Length
    modifies parameters
    ensures end == at + |Doubled(token)|
    ensures parameters[..end] == old(parameters[..at]) + Doubled(token) && parameters[end] == '\0'
  {
    end := at;
    ghost var start := parameters[..at];
    for i := 0 to |token|
      invariant at <= end < parameters.Length && end - at == |Doubled(token[..i])|
      invariant parameters[..end] == start + Doubled(token[..i])
    {
      DoubledSnoc(token, i);
      assert at + |Doubled(token[..i + 1])| < parameters.Length;
      ghost var x := if token[i] == QUOTE then [QUOTE, QUOTE] else [token[i]];
      Associate(start, Doubled(token[..i]), x);
      end := Append(parameters, end, token[i]);
      if token[i] == QUOTE {
        end := Append(parameters, end, QUOTE);
      }
    }
    assert token[..|token|] == token;
    parameters[end] := '\0';
  }

  /** wcslen */
  method WcsLen(buffer: array<char>, ghost n: nat) returns (len: nat)
    requires n < buffer.Length && buffer[n] == '\0' && forall j | 0 <= j < n :: buffer[j] != '\0'
    ensures len == n
  {
    len := 0;
    while buffer[len] != '\0'
      invariant len <= n
      decreases n - len
    {
      len := len + 1;
    }
  }

  /** wcscat of a short text at the end, whose place is known. */
  method Cat(parameters: array<char>, at: nat, s: string) returns (end: nat)
    requires at + |s| < parameters.Length && |s| <= 2
    modifies parameters
    ensures end == at + |s|
    ensures parameters[..end] == old(parameters[..at]) + s && parameters[end] == '\0'
  {
    for i := 0 to |s|
      invariant parameters[..at + i] == old(parameters[..at]) + s[..i]
    {
      parameters[at + i] := s[i];
    }
    end := at + |s|;
    parameters[end] := '\0';
  }

  /** The token appended in quotes, with a space behind: two wcscat calls around the copy. */
  method AppendWrapped(parameters: array<char>, at: nat, token: string) returns (end: nat)
    requires at + |Doubled(token)| + 3 < parameters.Length
    modifies parameters
    ensures end == at + |Doubled(token)| + 3
    ensures parameters[..end] == old(parameters[..at]) + (Wrapped(token) + [' ']) && parameters[end] == '\0'
  {
    end := Cat(parameters, at, [QUOTE]);
    end := RequoteInto(parameters, end, token);
    end := Cat(parameters, end, [QUOTE, ' ']);
  }

  /** buffer, found and moved are what CutTokenInto leaves for line. */
  ghost predicate IsCut(line: string, buffer: string, found: bool, moved: nat) {
    match CutOf(line)
    case Nothing => !found
    case Found(t, _, _, rest) => && found && moved <= |line| && line[moved..] == rest
                                 && |t| < |buffer| && buffer[..|t|] == t && buffer[|t|] == '\0'
  }

  /** One round of the loop over the arguments: the token in the buffer, at position i, is
      appended unless it is to be skipped. */
  method HandOn(ghost line: string, i: nat, skip: nat, parameters: array<char>, at0: nat, buffer: array<char>,
                ghost moved: nat)
    returns (at: nat)
    requires NulFree(line) && IsCut(line, buffer[..], true, moved) && buffer != parameters
    requires at0 + 2 * |CutOf(line).token| + 3 < parameters.Length && parameters[at0] == '\0'
    modifies parameters
    ensures at <= at0 + 2 * |CutOf(line).token| + 3 && parameters[at] == '\0'
    ensures parameters[..at] == old(parameters[..at0]) + Appended(CutOf(line).token, i, skip)
  {
    at := at0;
    if i != skip {
      ghost var t := CutOf(line).token;
      CutOfNulFree(line);
      assert forall j | 0 <= j < |t| :: buffer[j] == t[j];
      var n := WcsLen(buffer, |t|);
      at := AppendWrapped(parameters, at, buffer[..n]);
    }
  }

  /** What done and the tokens of line still come to. */
  ghost function Complete(done: string, line: string, i: nat, skip: nat): string {
    done + Requoted(Except(Tokens(line), i, skip))
  }

  lemma CompleteKept(done: string, line: string, i: nat, skip: nat)
    requires CutOf(line).Found?
    ensures var c := CutOf(line);
            Complete(done + Appended(c.token, i, skip), c.rest, i + 1, skip) == Complete(done, line, i, skip)
  {
    var c := CutOf(line);
    RequotedExcept(line, i, skip);
    Associate(done, Appended(c.token, i, skip), Requoted(Except(Tokens(c.rest), i + 1, skip)));
  }

  /** There is room for whatever line still needs behind position at. */
  ghost predicate Fits(parameters: array<char>, at: nat, line: string)
    reads parameters
  {
    at + 2 * |line| + 3 * |Tokens(line)| < parameters.Length && parameters[at] == '\0'
  }

  /** One round of the loop over the arguments, the next cut included. */
  method HandOnAndCut(line0: string, i: nat, skip: nat, parameters: array<char>, at0: nat, buffer: array<char>,
                      moved0: nat)
    returns (line: string, at: nat, found: bool, moved: nat)
    requires NulFree(line0) && |line0| < buffer.Length && buffer != parameters
    requires IsCut(line0, buffer[..], true, moved0) && CutOf(line0).Found? && Fits(parameters, at0, line0)
    modifies parameters, buffer
    ensures NulFree(line) && |line| < |line0| && line == CutOf(line0).rest
    ensures Fits(parameters, at, line) && IsCut(line, buffer[..], found, moved)
    ensures Complete(parameters[..at], line, i + 1, skip) == Complete(old(parameters[..at0]), line0, i, skip)
  {
    CompleteKept(parameters[..at0], line0, i, skip);
    RequotedExcept(line0, i, skip);
    CutOfNulFree(line0);
    at := HandOn(line0, i, skip, parameters, at0, buffer, moved0);
    line := line0[moved0..];
    found, moved := CutTokenInto(line, buffer);
  }

  /** The loop of InitializeChild over the arguments; i counts them. */
  method RequoteRest(line0: string, i0: nat, skip: nat, parameters: array<char>, at0: nat, buffer: array<char>)
    returns (at: nat)
    requires NulFree(line0) && |line0| < buffer.Length && buffer != parameters && Fits(parameters, at0, line0)
    modifies parameters, buffer
    ensures at < parameters.Length && parameters[at] == '\0'
    ensures parameters[..at] == Complete(old(parameters[..at0]), line0, i0, skip)
  {
    at := at0;
    var i: nat, line := i0, line0;
    var found, moved := CutTokenInto(line, buffer);
    while found
      invariant NulFree(line) && |line| < buffer.Length
      invariant Fits(parameters, at, line) && IsCut(line, buffer[..], found, moved)
      invariant Complete(parameters[..at], line, i, skip) == Complete(old(parameters[..at0]), line0, i0, skip)
      decreases |line|
    {
      line, at, found, moved := HandOnAndCut(line, i, skip, parameters, at, buffer, moved);
      i := i + 1;
    }
  }

  /** How much room the program's own path, which is not handed on, leaves for other text. */
  function RoomOfPath(line: string): nat {
    match CutOf(line)
    case Nothing => 2 * |line|
    case Found(_, _, _, rest) => 2 * (|line| - |rest|) + 3
  }

  /** The part of InitializeChild that hands the arguments on: every token behind the program's
      own path, but for the one at position skipParam, wrapped again behind what parameters
      already holds. The buffer is as large as InitializeChild makes it, with 100 characters and
      the room of the path for the text in front. If that text ends in a blank outside of
      quotes, the child reads it and then the arguments. */
  method RequoteArguments(line: string, skipParam: nat, parameters: array<char>, at0: nat, buffer: array<char>)
    returns (at: nat)
    requires NulFree(line) && parameters.Length >= 2 * |line| + 100 + 3 * |Tokens(line)| + 1
    requires at0 <= 100 + RoomOfPath(line)
    requires |line| < buffer.Length && buffer != parameters
    modifies parameters, buffer
    ensures at < parameters.Length && parameters[at] == '\0'
    ensures parameters[..at] == old(parameters[..at0]) + Requoted(HandedOn(Tokens(line), skipParam))
    ensures StandsApart(old(parameters[..at0]), false) ==>
              Tokens(parameters[..at]) == Tokens(old(parameters[..at0])) + AllReadAs(HandedOn(Tokens(line), skipParam))
  {
    at := at0;
    RoomIsEnough(line);
    parameters[at] := '\0';
    ghost var front := parameters[..at0];
    var found, moved := CutTokenInto(line, buffer);
    CutOfNulFree(line);
    if found {
      at := RequoteRest(line[moved..], 1, skipParam, parameters, at0, buffer);
    }
    if StandsApart(front, false) {
      ChildReads(front, HandedOn(Tokens(line), skipParam));
    }
  }

  lemma RoomIsEnough(line: string)
    ensures CutOf(line).Found? ==> |Tokens(line)| == 1 + |Tokens(CutOf(line).rest)|
    ensures RoomOfPath(line)
            + (if CutOf(line).Found? then 2 * |CutOf(line).rest| + 3 * |Tokens(CutOf(line).rest)| else 0)
            <= 2 * |line| + 3 * |Tokens(line)|
  {
    if CutOf(line).Found? {
      RequotedExcept(line, 0, 1);
    }
  }
}
