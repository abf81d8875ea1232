/** Splitting a command line into tokens, and quoting arguments so that splitting gives them
    back: CutToken and EscapeParam of source/core/Common.cpp, CutToken and the re-quoting loop
    of source/console/Main.cpp, ArgumentEscape of dotnet/internal/Tools.cs. */
module CommandLine {
  import opened Basics

  const QUOTE: char := '"'

  predicate IsBlank(c: char) {
    c == ' ' || c == '\t'
  }

  // ----- What one cut does -----

  /** How many blanks a string starts with. */
  function BlanksAhead(s: string): (n: nat)
    ensures n <= |s|
  {
    if s != [] && IsBlank(s[0]) then 1 + BlanksAhead(s[1..]) else 0
  }

  /** A token, and how many characters it was spelled with. */
  datatype Piece = Piece(token: string, size: nat)

  /** The token at the start of s. A doubled quote stands for one quote, in and out of quotes;
      a single quote turns quoting on or off; a blank ends the token unless quoted. */
  function TokenAt(s: string, quoting: bool): (p: Piece)
    ensures |p.token| <= p.size <= |s|
  {
    if s == [] || (!quoting && IsBlank(s[0])) then Piece([], 0)
    else if s[0] == QUOTE && |s| > 1 && s[1] == QUOTE then
      var p := TokenAt(s[2..], quoting); Piece([QUOTE] + p.token, p.size + 2)
    else if s[0] == QUOTE then
      var p := TokenAt(s[1..], !quoting); Piece(p.token, p.size + 1)
    else
      var p := TokenAt(s[1..], quoting); Piece([s[0]] + p.token, p.size + 1)
  }

  datatype Cut = Nothing | Found(token: string, raw: string, separator: string, rest: string)

  /** One call of CutToken: nothing is found only in a string of blanks. */
  function CutOf(s: string): (c: Cut)
    ensures c.Nothing? <==> BlanksAhead(s) == |s|
    ensures c.Found? ==> c.raw + c.separator + c.rest == s
    ensures c.Found? ==> |c.rest| < |s| && |c.separator| <= 1 && |c.token| + |c.rest| <= |s|
  {
    var n := BlanksAhead(s);
    if n == |s| then Nothing
    else
      FirstIsNoBlank(s);
      var p := TokenAt(s[n..], false);
      var end := n + p.size;
      if end < |s| then Found(p.token, s[..end], s[end..end + 1], s[end + 1..])
      else Found(p.token, s[..end], [], [])
  }

  lemma {:induction false} FirstIsNoBlank(s: string)
    requires BlanksAhead(s) < |s|
    ensures !IsBlank(s[BlanksAhead(s)]) && TokenAt(s[BlanksAhead(s)..], false).size > 0
  {
    if IsBlank(s[0]) {
      FirstIsNoBlank(s[1..]);
      assert s[BlanksAhead(s)..] == s[1..][BlanksAhead(s[1..])..];
    }
  }

  /** All tokens of a command line. */
  function Tokens(s: string): seq<string>
    decreases |s|
  {
    match CutOf(s)
    case Nothing => []
    case Found(token, _, _, rest) => [token] + Tokens(rest)
  }

  // ----- Quoting -----

  /** Every quote doubled. */
  function Doubled(s: string): (d: string)
    ensures |s| <= |d| <= 2 * |s|
  {
    if s == [] then [] else (if s[0] == QUOTE then [QUOTE, QUOTE] else [s[0]]) + Doubled(s[1..])
  }

  function Wrapped(arg: string): string {
    [QUOTE] + Doubled(arg) + [QUOTE]
  }

  function Joined(args: seq<string>): string {
    if args == [] then [] else if |args| == 1 then Wrapped(args[0]) else Wrapped(args[0]) + [' '] + Joined(args[1..])
  }

  predicate AllQuotes(arg: string) {
    forall i | 0 <= i < |arg| :: arg[i] == QUOTE
  }

  /** What an argument reads as once wrapped: itself, if it holds anything but quotes, and
      otherwise one quote more than it is. */
  function ReadAs(arg: string): string {
    if AllQuotes(arg) then arg + [QUOTE] else arg
  }

  /** A doubled quote at the start, whatever follows. */
  lemma TokenAtPair(rest: string, quoting: bool)
    ensures TokenAt([QUOTE, QUOTE] + rest, quoting)
            == var p := TokenAt(rest, quoting); Piece([QUOTE] + p.token, p.size + 2)
  {
    assert ([QUOTE, QUOTE] + rest)[2..] == rest;
  }

  /** A quote on its own at the start. */
  lemma TokenAtQuote(rest: string, quoting: bool)
    requires |rest| > 0 ==> rest[0] != QUOTE
    ensures TokenAt([QUOTE] + rest, quoting) == var p := TokenAt(rest, !quoting); Piece(p.token, p.size + 1)
  {
    assert ([QUOTE] + rest)[1..] == rest;
  }

  /** Any other character that does not end the token. */
  lemma TokenAtOther(c: char, rest: string, quoting: bool)
    requires c != QUOTE && (quoting || !IsBlank(c))
    ensures TokenAt([c] + rest, quoting) == var p := TokenAt(rest, quoting); Piece([c] + p.token, p.size + 1)
  {
    assert ([c] + rest)[1..] == rest;
  }

  /** Inside quotes, a doubled text up to the closing quote reads as the text. */
  lemma {:induction false} ReadInside(arg: string, tail: string)
    requires tail == [] || IsBlank(tail[0])
    ensures TokenAt(Doubled(arg) + ([QUOTE] + tail), true) == Piece(arg, |Doubled(arg)| + 1)
  {
    assert |tail| > 0 ==> tail[0] != QUOTE;
    var close := [QUOTE] + tail;
    if arg == [] {
      assert Doubled(arg) + close == close;
      TokenAtQuote(tail, true);
    } else {
      var inner := Doubled(arg[1..]);
      ReadInside(arg[1..], tail);
      if arg[0] == QUOTE {
        Associate([QUOTE, QUOTE], inner, close);
        TokenAtPair(inner + close, true);
      } else {
        Associate([arg[0]], inner, close);
        TokenAtOther(arg[0], inner + close, true);
      }
      assert [arg[0]] + arg[1..] == arg;
    }
  }

  lemma ReadAsAfterQuote(arg: string)
    requires arg != [] && arg[0] == QUOTE
    ensures [QUOTE] + ReadAs(arg[1..]) == ReadAs(arg)
  {
    assert arg == [QUOTE] + arg[1..];
    if AllQuotes(arg[1..]) {
      assert AllQuotes(arg);
      assert [QUOTE] + (arg[1..] + [QUOTE]) == arg + [QUOTE];
    } else {
      var i :| 0 <= i < |arg[1..]| && arg[1..][i] != QUOTE;
      assert arg[i + 1] != QUOTE;
    }
  }

  /** A wrapped argument before a blank or the end is one token. Its leading quotes pair up with
      the opening quote, so that quoting starts only behind them. */
  lemma {:induction false} ReadWrapped(arg: string, tail: string)
    requires tail == [] || IsBlank(tail[0])
    ensures TokenAt(Wrapped(arg) + tail, false) == Piece(ReadAs(arg), |Wrapped(arg)|)
  {
    if arg == [] {
      assert Wrapped(arg) + tail == [QUOTE, QUOTE] + tail;
      TokenAtPair(tail, false);
    } else if arg[0] == QUOTE {
      var inner := Wrapped(arg[1..]);
      ReadWrapped(arg[1..], tail);
      assert Wrapped(arg) == [QUOTE, QUOTE] + inner;
      Associate([QUOTE, QUOTE], inner, tail);
      TokenAtPair(inner + tail, false);
      ReadAsAfterQuote(arg);
    } else {
      ReadInside(arg, tail);
      var rest := Doubled(arg) + ([QUOTE] + tail);
      Associate(Doubled(arg), [QUOTE], tail);
      assert Wrapped(arg) == [QUOTE] + (Doubled(arg) + [QUOTE]);
      Associate([QUOTE], Doubled(arg) + [QUOTE], tail);
      TokenAtQuote(rest, false);
    }
  }

  lemma CutWrapped(arg: string, tail: string)
    requires tail == [] || IsBlank(tail[0])
    ensures var c := CutOf(Wrapped(arg) + tail);
            c.Found? && c.token == ReadAs(arg) && c.rest == if tail == [] then [] else tail[1..]
  {
    var s := Wrapped(arg) + tail;
    ReadWrapped(arg, tail);
    assert BlanksAhead(s) == 0 && s[0..] == s;
  }

  function AllReadAs(args: seq<string>): seq<string> {
    if args == [] then [] else [ReadAs(args[0])] + AllReadAs(args[1..])
  }

  /** Whatever the arguments, the line they are wrapped and joined into splits into what each
      of them reads as. */
  lemma {:induction false} TokensOfJoined(args: seq<string>)
    ensures Tokens(Joined(args)) == AllReadAs(args)
  {
    if args != [] {
      var tail := if |args| == 1 then [] else [' '] + Joined(args[1..]);
      if |args| == 1 {
        assert Wrapped(args[0]) + tail == Wrapped(args[0]) && args[1..] == [];
      } else {
        Associate(Wrapped(args[0]), [' '], Joined(args[1..]));
      }
      CutWrapped(args[0], tail);
      assert tail != [] ==> tail[1..] == Joined(args[1..]);
      TokensOfJoined(args[1..]);
    }
  }

  lemma {:induction false} AllReadAsThemselves(args: seq<string>)
    ensures AllReadAs(args) == args <==> forall i | 0 <= i < |args| :: !AllQuotes(args[i])
  {
    if args != [] {
      AllReadAsThemselves(args[1..]);
      var r := AllReadAs(args);
      assert r[1..] == AllReadAs(args[1..]);
      assert r == args <==> r[0] == args[0] && r[1..] == args[1..];
      assert |ReadAs(args[0])| == |args[0]| <==> !AllQuotes(args[0]);
      assert forall i | 1 <= i < |args| :: args[i] == args[1..][i - 1];
    }
  }

  /** The arguments come back exactly if each holds a character other than a quote. */
  lemma QuotingRoundTrip(args: seq<string>)
    ensures Tokens(Joined(args)) == args <==> forall i | 0 <= i < |args| :: !AllQuotes(args[i])
  {
    TokensOfJoined(args);
    AllReadAsThemselves(args);
  }

  // ----- The three escapers -----

  /** ReplaceStr: every occurrence, left to right, not overlapping. */
  function ReplaceStr(s: string, from: string, to: string): string
    requires from != []
  {
    if |s| < |from| then s
    else if s[..|from|] == from then to + ReplaceStr(s[|from|..], from, to)
    else [s[0]] + ReplaceStr(s[1..], from, to)
  }

  /** EscapeParam */
  function EscapeParam(param: string): string {
    ReplaceStr(param, [QUOTE], [QUOTE, QUOTE])
  }

  lemma {:induction false} EscapeParamDoubles(s: string)
    ensures EscapeParam(s) == Doubled(s)
  {
    if s != [] {
      EscapeParamDoubles(s[1..]);
      assert s[..1] == [s[0]];
    }
  }

  lemma DoubledStep(s: string, i: nat)
    requires i < |s|
    ensures Doubled(s[i..]) == (if s[i] == QUOTE then [QUOTE, QUOTE] else [s[i]]) + Doubled(s[i + 1..])
  {
    assert s[i..][1..] == s[i + 1..];
  }

  /** ArgumentEscape */
  method ArgumentEscape(value0: string) returns (value: string)
    ensures value == Doubled(value0)
  {
    value := value0;
    var i := 0;
    ghost var at, done := 0, [];
    while i < |value|
      invariant at <= |value0| && value == done + value0[at..] && i == |done|
      invariant Doubled(value0) == done + Doubled(value0[at..])
      decreases |value0| - at
    {
      DoubledStep(value0, at);
      StepOver(done, value0, at);
      if value[i] == QUOTE {
        value := value[..i] + [QUOTE] + value[i..];
        i := i + 1;
        done := done + [QUOTE, QUOTE];
      } else {
        done := done + [value[i]];
      }
      i := i + 1;
      at := at + 1;
    }
  }

  /** The part behind done begins with character at of s; a quote may be put before it. */
  lemma StepOver(done: string, s: string, at: nat)
    requires at < |s|
    ensures var value := done + s[at..];
            && value[|done|] == s[at] && value == (done + [s[at]]) + s[at + 1..]
            && value[..|done|] + [QUOTE] + value[|done|..] == (done + [QUOTE, s[at]]) + s[at + 1..]
    ensures forall x, r: string :: done + (x + r) == (done + x) + r
  {
    assert s[at..] == [s[at]] + s[at + 1..];
    forall x, r: string
      ensures done + (x + r) == (done + x) + r
    {
      Associate(done, x, r);
    }
  }

  lemma {:induction false} DoubledConcat(a: string, b: string)
    ensures Doubled(a + b) == Doubled(a) + Doubled(b)
  {
    if a == [] {
      assert a + b == b;
    } else {
      assert (a + b)[1..] == a[1..] + b;
      DoubledConcat(a[1..], b);
    }
  }

  lemma DoubledSnoc(s: string, i: nat)
    requires i < |s|
    ensures Doubled(s[..i + 1]) == Doubled(s[..i]) + (if s[i] == QUOTE then [QUOTE, QUOTE] else [s[i]])
    ensures |Doubled(s[..i + 1])| <= |Doubled(s)|
  {
    assert s[..i + 1] == s[..i] + [s[i]] && s == s[..i + 1] + s[i + 1..];
    DoubledConcat(s[..i], [s[i]]);
    DoubledConcat(s[..i + 1], s[i + 1..]);
    assert [s[i]][1..] == [];
  }

  /** A quote alone comes back as two. */
  lemma QuoteAloneIsNotKept()
    ensures Tokens(Joined(["\""])) != ["\""]
  {
    QuotingRoundTrip(["\""]);
    assert AllQuotes(["\""][0]);
  }
}
