/** The two versions of CutToken, in source/core/Common.cpp and in source/console/Main.cpp: both
    compute the same cut. */
module TokenCutting {
  import opened Basics
  import opened CommandLine

  /** CutToken of Common.cpp. What is returned for raw token and separator when no token is
      found is what was there before. */
  method CutToken(str0: string, rawToken0: string, separator0: string)
    returns (found: bool, str: string, token: string, rawToken: string, separator: string)
    ensures match CutOf(str0)
            case Nothing => !found && str == [] && token == [] && rawToken == rawToken0 && separator == separator0
            case Found(t, raw, sep, rest) => found && str == rest && token == t && rawToken == raw && separator == sep
  {
    token, rawToken, separator := [], rawToken0, separator0;
    var index := SkipBlanks(str0);
    if index < |str0| {
      ghost var start := index;
      index, token := ReadToken(str0, index);
      rawToken := str0[..index];
      if index < |str0| {
        separator := str0[index..index + 1];
        index := index + 1;
      } else {
        separator := [];
      }
      str := str0[index..];
      found := true;
    } else {
      found := false;
      str := [];
    }
  }

  /** The loop over leading blanks; both versions have it. */
  method SkipBlanks(str: string) returns (index: nat)
    ensures index == BlanksAhead(str)
  {
    index := 0;
    while index < |str| && IsBlank(str[index])
      invariant index <= |str| && BlanksAhead(str) == index + BlanksAhead(str[index..])
    {
      assert str[index..][1..] == str[index + 1..];
      index := index + 1;
    }
    assert index < |str| ==> str[index..][0] == str[index];
  }

  /** One round of the token loop: the characters it adds, the position and the quoting state
      after it. */
  datatype Round = Round(added: string, index: nat, quoting: bool)

  function RoundAt(str: string, index: nat, quoting: bool): Round
    requires index < |str|
  {
    if str[index] == QUOTE && index + 1 < |str| && str[index + 1] == QUOTE then Round([QUOTE], index + 2, quoting)
    else if str[index] == QUOTE then Round([], index + 1, !quoting)
    else Round([str[index]], index + 1, quoting)
  }

  /** token has been read up to index, and what is left completes the goal. The goal's size is
      the position where the token ends. */
  ghost predicate ReadUpTo(str: string, index: nat, quoting: bool, token: string, goal: Piece)
    requires index <= |str|
  {
    var p := TokenAt(str[index..], quoting);
    goal.token == token + p.token && goal.size == index + p.size
  }

  /** A round brings token, read up to index, closer to the goal. */
  lemma TokenRound(str: string, index: nat, quoting: bool, token: string, goal: Piece)
    requires index < |str| && (quoting || !IsBlank(str[index]))
    requires ReadUpTo(str, index, quoting, token, goal)
    ensures var r := RoundAt(str, index, quoting);
            r.index <= |str| && ReadUpTo(str, r.index, r.quoting, token + r.added, goal)
  {
    var s := str[index..];
    assert s[0] == str[index] && s[1..] == str[index + 1..];
    if |s| > 1 {
      assert s[1] == str[index + 1] && s[2..] == str[index + 2..];
    }
    var r := RoundAt(str, index, quoting);
    var rest := TokenAt(str[r.index..], r.quoting).token;
    assert TokenAt(s, quoting).token == r.added + rest;
    Associate(token, r.added, rest);
  }

  lemma TokenEnds(str: string, index: nat, quoting: bool)
    requires index <= |str| && (index < |str| ==> !quoting && IsBlank(str[index]))
    ensures TokenAt(str[index..], quoting) == Piece([], 0)
  {
    assert index < |str| ==> str[index..][0] == str[index];
  }

  /** The token loop of the first version. */
  method ReadToken(str: string, start: nat) returns (index: nat, token: string)
    requires start <= |str|
    ensures var p := TokenAt(str[start..], false); token == p.token && index == start + p.size
  {
    index, token := start, [];
    var quoting := false;
    ghost var goal := GoalFrom(str, start);
    while index < |str| && (quoting || !IsBlank(str[index]))
      invariant start <= index <= |str| && ReadUpTo(str, index, quoting, token, goal)
      decreases |str| - index
    {
      TokenRound(str, index, quoting, token, goal);
      ghost var r := RoundAt(str, index, quoting);
      if str[index] == QUOTE && index + 1 < |str| && str[index + 1] == QUOTE {
        index := index + 2;
        token := token + [QUOTE];
      } else if str[index] == QUOTE {
        index := index + 1;
        quoting := !quoting;
        assert token == token + r.added;
      } else {
        token := token + [str[index]];
        index := index + 1;
      }
    }
    TokenEnds(str, index, quoting);
  }

  ghost function GoalFrom(str: string, start: nat): Piece
    requires start <= |str|
  {
    var p := TokenAt(str[start..], false); Piece(p.token, start + p.size)
  }

  /** CutToken of Main.cpp: the token is written to a buffer, terminated by a zero, and str is
      moved on by the returned distance. */
  method CutTokenInto(str: string, buffer: array<char>) returns (found: bool, moved: nat)
    requires |str| < buffer.Length
    modifies buffer
    ensures moved <= |str|
    ensures match CutOf(str)
            case Nothing => !found && moved == |str| && buffer[0] == '\0'
            case Found(t, _, _, rest) => && found && str[moved..] == rest
                                         && |t| < buffer.Length && buffer[..|t|] == t && buffer[|t|] == '\0'
  {
    var index := SkipBlanks(str);
    var n := 0;
    if index < |str| {
      index, n := ReadTokenInto(str, index, buffer);
      if index < |str| {
        index := index + 1;
      }
      moved := index;
      found := true;
    } else {
      found := false;
      moved := |str|;
    }
    buffer[n] := '\0';
  }

  /** The token loop of the second version. */
  method ReadTokenInto(str: string, start: nat, buffer: array<char>) returns (index: nat, n: nat)
    requires start <= |str| < buffer.Length
    modifies buffer
    ensures var p := TokenAt(str[start..], false);
            && index == start + p.size && n == |p.token| && n <= |str| && buffer[..n] == p.token
  {
    index, n := start, 0;
    var quoting := false;
    ghost var goal := GoalFrom(str, start);
    while index < |str| && (quoting || !IsBlank(str[index]))
      invariant start <= index <= |str| && n <= index - start && ReadUpTo(str, index, quoting, buffer[..n], goal)
      decreases |str| - index
    {
      TokenRound(str, index, quoting, buffer[..n], goal);
      index, quoting, n := ReadRoundInto(str, index, quoting, buffer, n);
    }
    TokenEnds(str, index, quoting);
  }

  /** The body of that loop. */
  method ReadRoundInto(str: string, index0: nat, quoting0: bool, buffer: array<char>, n0: nat)
    returns (index: nat, quoting: bool, n: nat)
    requires index0 < |str| && n0 < buffer.Length
    modifies buffer
    ensures index0 < index && n0 <= n <= n0 + 1 && n <= buffer.Length
    ensures Round(buffer[n0..n], index, quoting) == RoundAt(str, index0, quoting0)
    ensures buffer[..n] == old(buffer[..n0]) + buffer[n0..n]
  {
    index, quoting, n := index0, quoting0, n0;
    if str[index] == QUOTE && index + 1 < |str| && str[index + 1] == QUOTE {
      index := index + 2;
      n := Append(buffer, n, QUOTE);
    } else if str[index] == QUOTE {
      index := index + 1;
      quoting := !quoting;
    } else {
      n := Append(buffer, n, str[index]);
      index := index + 1;
    }
  }

  /** *Token = c; Token++ */
  method Append(buffer: array<char>, n0: nat, c: char) returns (n: nat)
    requires n0 < buffer.Length
    modifies buffer
    ensures n == n0 + 1 && buffer[..n] == old(buffer[..n0]) + [c]
  {
    buffer[n0] := c;
    n := n0 + 1;
  }

  /** A whole run of CutToken over a line. */
  method SplitLine(line: string) returns (tokens: seq<string>)
    ensures tokens == Tokens(line)
  {
    tokens := [];
    var str := line;
    var found, token, raw, separator := true, "", "", "";
    while found
      invariant Tokens(line) == tokens + (if found then Tokens(str) else [])
      decreases found, |str|
    {
      ghost var before := str;
      found, str, token, raw, separator := CutToken(str, raw, separator);
      if found {
        Associate(tokens, [token], Tokens(str));
        tokens := tokens + [token];
      }
    }
  }
}
