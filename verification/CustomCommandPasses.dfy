/** The loops of the custom commands: GetToken and Complete, the members of the interactive
    command, and the two passes one after the other. Positions count from 0. */
module CustomCommandPasses {
  import opened Basics
  import opened CustomCommands
  import opened CustomCommandHygiene

  /** wcschr, which looks no further than a zero character. */
  method FindInCString(s: string, from: nat, c: char) returns (at: nat)
    requires from <= |s|
    ensures at == from + StrChr(s[from..], c)
  {
    at := from;
    while at < |s| && s[at] != c && s[at] != '\0'
      invariant from <= at <= |s|
      invariant from + StrChr(s[from..], c) == at + StrChr(s[at..], c)
    {
      assert s[at..][0] == s[at] && s[at..][1..] == s[at + 1..];
      at := at + 1;
    }
    assert at < |s| ==> s[at..][0] == s[at];
    if at < |s| && s[at] != c {
      at := |s|;
    }
  }

  /** Pos */
  method FindChar(s: string, from: nat, c: char) returns (at: nat)
    requires from <= |s|
    ensures at == from + IndexOf(s[from..], c)
  {
    at := from;
    while at < |s| && s[at] != c
      invariant from <= at <= |s|
      invariant from + IndexOf(s[from..], c) == at + IndexOf(s[at..], c)
    {
      assert s[at..][0] == s[at] && s[at..][1..] == s[at + 1..];
      at := at + 1;
    }
    assert at < |s| ==> s[at..][0] == s[at];
  }

  /** GetToken */
  method GetToken(lang: Language, command: string, index: nat) returns (len: Option<nat>, patternCmd: char)
    requires index < |command|
    ensures len == TokenLen(lang, command[index..])
    ensures patternCmd == TEXT_TOKEN <==> IsText(command[index..])
    ensures patternCmd == BANG <==> IsDoubleBang(command[index..])
  {
    ghost var s := command[index..];
    assert s[0] == command[index] && (|s| > 1 ==> s[1] == command[index + 1]);
    if command[index] == BANG {
      patternCmd := if index + 1 < |command| then command[index + 1] else NO_QUOTE;
      if index + 1 == |command| {
        len := Some(1);
      } else if patternCmd == BANG {
        len := Some(2);
      } else {
        len := lang.patternLen(command[index..]);
        if len.Some? && (len.value == 0 || |command| - index < len.value) {
          len := None;
        }
      }
    } else {
      patternCmd := TEXT_TOKEN;
      var next := FindInCString(command, index, BANG);
      len := Some(next - index);
    }
  }

  /** ShellDelimitStr, by the loop of DelimitStr. */
  method ShellDelimitStr(s: string, quote: char) returns (str: string)
    ensures str == Delimited(s, quote)
  {
    str := s;
    var i := 0;
    ghost var done, rest := [], s;
    while i < |str|
      invariant i == |done| && str == done + rest && Delimited(s, quote) == done + Delimited(rest, quote)
      decreases |rest|
    {
      assert str[i] == rest[0];
      ghost var out := if NeedsBackslash(rest[0], quote) then ['\\', rest[0]] else [rest[0]];
      DelimitNext(done, rest, out, quote);
      if NeedsBackslash(str[i], quote) {
        str := str[..i] + ['\\'] + str[i..];
        i := i + 1;
      }
      done, rest := done + out, rest[1..];
      i := i + 1;
    }
    AddNothing(done);
  }

  lemma DelimitNext(done: string, rest: string, out: string, quote: char)
    requires rest != [] && out == if NeedsBackslash(rest[0], quote) then ['\\', rest[0]] else [rest[0]]
    ensures done + Delimited(rest, quote) == (done + out) + Delimited(rest[1..], quote)
    ensures var str := done + rest;
            (if NeedsBackslash(rest[0], quote) then str[..|done|] + ['\\'] + str[|done|..] else str)
            == (done + out) + rest[1..]
  {
    Associate(done, out, Delimited(rest[1..], quote));
    InsertBackslash(done, rest);
    assert [rest[0]] + rest[1..] == rest;
    Associate(done, [rest[0]], rest[1..]);
  }

  lemma InsertBackslash(done: string, rest: string)
    requires rest != []
    ensures var str := done + rest; str[..|done|] + ['\\'] + str[|done|..] == (done + ['\\', rest[0]]) + rest[1..]
  {
    var str := done + rest;
    assert str[..|done|] == done && str[|done|..] == rest;
    assert ['\\', rest[0]] + rest[1..] == ['\\'] + rest;
    Associate(done, ['\\'], rest);
    Associate(done, ['\\', rest[0]], rest[1..]);
  }

  /** The branch of Complete for a pattern: the quote is looked for right before and right after. */
  method ReplacePattern(lang: Language, command: string, index: nat, len: nat, lastPass: bool, ghost prev: char)
    returns (out: string)
    requires 1 <= len <= |command| - index && prev == LastOr(NO_QUOTE, command[..index])
    ensures out == Replacement(lang, lastPass, command[index..][..len], QuoteAround(prev, command[index..][len..]))
  {
    assert command[index..][..len] == command[index..index + len];
    assert command[index..][len..] == command[index + len..];
    var quote := NO_QUOTE;
    if index > 0 && index + len < |command| && IsQuote(command[index - 1]) && IsQuote(command[index + len])
       && command[index - 1] == command[index + len] {
      quote := command[index - 1];
    }
    assert quote == QuoteAround(prev, command[index + len..]);
    var pattern := command[index..index + len];
    var reply := lang.replace(pattern);
    if reply.Replace? {
      var replacement := reply.text;
      if !lastPass {
        replacement := BangsDoubled(replacement);
      }
      if reply.delimit {
        replacement := ShellDelimitStr(replacement, quote);
      }
      out := replacement;
    } else {
      out := pattern;
    }
  }

  /** How far Complete has come: result stands for all before index. */
  ghost predicate Completed(lang: Language, lastPass: bool, command: string, index: nat, result: string)
    requires index <= |command|
  {
    var rest := CompleteFrom(lang, lastPass, LastOr(NO_QUOTE, command[..index]), command[index..]);
    Complete(lang, lastPass, command) == if rest.None? then None else Some(result + rest.value)
  }

  /** The same place seen from the start of the command and from the token before it. */
  lemma AfterToken(command: string, index: nat, n: nat)
    requires 1 <= n && index + n <= |command|
    ensures var s := command[index..];
            && s[..n] == command[index..index + n] && s[n..] == command[index + n..]
            && LastOr(LastOr(NO_QUOTE, command[..index]), s[..n]) == LastOr(NO_QUOTE, command[..index + n])
  {
  }

  lemma CompleteStep(lang: Language, lastPass: bool, prev: char, s: string, n: nat, result: string)
    requires s != [] && TokenLen(lang, s) == Some(n)
    ensures CompleteFrom(lang, lastPass, prev, s).Some?
            <==> CompleteFrom(lang, lastPass, LastOr(prev, s[..n]), s[n..]).Some?
    ensures CompleteFrom(lang, lastPass, prev, s).Some? ==>
              result + CompleteFrom(lang, lastPass, prev, s).value
              == (result + TokenOutput(lang, lastPass, prev, s, n))
                 + CompleteFrom(lang, lastPass, LastOr(prev, s[..n]), s[n..]).value
  {
    var rest := CompleteFrom(lang, lastPass, LastOr(prev, s[..n]), s[n..]);
    if rest.Some? {
      Associate(result, TokenOutput(lang, lastPass, prev, s, n), rest.value);
    }
  }

  /** One token of Complete. */
  method CompleteToken(lang: Language, command: string, index: nat, len: nat, patternCmd: char, lastPass: bool,
                       ghost prev: char)
    returns (out: string)
    requires 1 <= len <= |command| - index && prev == LastOr(NO_QUOTE, command[..index])
    requires patternCmd == TEXT_TOKEN <==> IsText(command[index..])
    requires patternCmd == BANG <==> IsDoubleBang(command[index..])
    ensures out == TokenOutput(lang, lastPass, prev, command[index..], len)
  {
    assert command[index..][..len] == command[index..index + len];
    if patternCmd == TEXT_TOKEN {
      out := command[index..index + len];
    } else if patternCmd == BANG {
      out := if lastPass then [BANG] else command[index..index + len];
    } else {
      out := ReplacePattern(lang, command, index, len, lastPass, prev);
    }
  }

  /** One token of Complete, from finding its length on. */
  method CompleteNext(lang: Language, command: string, lastPass: bool, index: nat)
    returns (len: Option<nat>, out: string)
    requires index < |command|
    ensures len == TokenLen(lang, command[index..])
    ensures len.Some? ==>
              out == TokenOutput(lang, lastPass, LastOr(NO_QUOTE, command[..index]), command[index..], len.value)
  {
    var patternCmd;
    len, patternCmd := GetToken(lang, command, index);
    out := [];
    if len.Some? {
      out := CompleteToken(lang, command, index, len.value, patternCmd, lastPass, LastOr(NO_QUOTE, command[..index]));
    }
  }

  lemma CompletedNone(lang: Language, lastPass: bool, command: string, index: nat, result: string)
    requires index < |command| && Completed(lang, lastPass, command, index, result)
    requires TokenLen(lang, command[index..]) == None
    ensures Complete(lang, lastPass, command) == None
  {
  }

  /** Behind a token of n characters that becomes out. */
  lemma CompletedNext(lang: Language, lastPass: bool, command: string, index: nat, result: string, prev: char, n: nat,
                      out: string)
    requires index < |command| && Completed(lang, lastPass, command, index, result)
    requires prev == LastOr(NO_QUOTE, command[..index]) && TokenLen(lang, command[index..]) == Some(n)
    requires out == TokenOutput(lang, lastPass, prev, command[index..], n)
    ensures index + n <= |command| && Completed(lang, lastPass, command, index + n, result + out)
  {
    AfterToken(command, index, n);
    CompleteStep(lang, lastPass, prev, command[index..], n, result);
  }

  /** One round of Complete. */
  method CompleteRound(lang: Language, command: string, lastPass: bool, index0: nat, text0: string)
    returns (ok: bool, index: nat, text: string)
    requires index0 < |command| && Completed(lang, lastPass, command, index0, text0)
    ensures ok ==> index0 < index <= |command| && Completed(lang, lastPass, command, index, text)
    ensures !ok ==> Complete(lang, lastPass, command) == None
  {
    var len, out := CompleteNext(lang, command, lastPass, index0);
    ok, index, text := len.Some?, index0, text0;
    if ok {
      CompletedNext(lang, lastPass, command, index0, text0, LastOr(NO_QUOTE, command[..index0]), len.value, out);
      index, text := index0 + len.value, text0 + out;
    } else {
      CompletedNone(lang, lastPass, command, index0, text0);
    }
  }

  /** Complete */
  method CompleteCommand(lang: Language, command: string, lastPass: bool) returns (result: Option<string>)
    ensures result == Complete(lang, lastPass, command)
  {
    var text: string := [];
    var index: nat := 0;
    CompletedStart(lang, lastPass, command);
    while index < |command|
      invariant index <= |command| && Completed(lang, lastPass, command, index, text)
      decreases |command| - index
    {
      var ok;
      ok, index, text := CompleteRound(lang, command, lastPass, index, text);
      if !ok {
        return None;
      }
    }
    CompletedAll(lang, lastPass, command, text);
    result := Some(text);
  }

  lemma CompletedAll(lang: Language, lastPass: bool, command: string, text: string)
    requires Completed(lang, lastPass, command, |command|, text)
    ensures Complete(lang, lastPass, command) == Some(text)
  {
    assert command[|command|..] == [];
    AddNothing(text);
  }

  lemma CompletedStart(lang: Language, lastPass: bool, command: string)
    ensures Completed(lang, lastPass, command, 0, [])
  {
    assert command[0..] == command;
    var rest := Complete(lang, lastPass, command);
    if rest.Some? {
      AddNothing(rest.value);
    }
  }

  // ----- The interactive command -----

  /** TInteractiveCustomCommand::PatternLen */
  method PatternLen(command: string, index: nat) returns (len: Option<nat>)
    requires index < |command| && command[index] == BANG
    ensures len == InteractivePatternLen(command[index..])
  {
    assert index + 1 < |command| ==> command[index..][1] == command[index + 1];
    if index + 1 < |command| && command[index + 1] == '?' {
      assert command[index..][1..] == command[index + 1..];
      var end := FindInCString(command, index + 1, BANG);
      len := if end == |command| then None else Some(end - index + 1);
    } else if index + 1 < |command| && command[index + 1] == '`' {
      assert command[index..][2..] == command[index + 2..];
      var end := FindInCString(command, index + 2, '`');
      len := if end == |command| then None else Some(end - index + 1);
    } else {
      len := FilePatternLen(command[index..]);
    }
  }

  /** TInteractiveCustomCommand::PatternReplacement. A prompt is a token that PatternLen measured,
      so it ends in an exclamation mark. */
  method PatternReplacement(dialog: Dialog, d: FileData, pattern: string)
    returns (replaced: bool, replacement: string, delimit: bool)
    requires |pattern| >= 3 && pattern[1] == '?' ==> pattern[|pattern| - 1] == BANG
    ensures var reply := InteractiveReply(dialog, d, pattern);
            if reply.Replace? then replaced && replacement == reply.text && delimit == reply.delimit else !replaced
  {
    replaced, replacement, delimit := false, [], true;
    if |pattern| >= 3 && pattern[1] == '?' {
      replacement, delimit := PromptReplacement(dialog, pattern);
      replaced := true;
    } else if |pattern| >= 3 && pattern[1] == '`' {
      var command := pattern[2..|pattern| - 1];
      FileCompletes(d, true, NO_QUOTE, command);
      var completed := CompleteCommand(FileLanguage(d), command, true);
      replacement := dialog.execute(completed.value);
      delimit := false;
      replaced := true;
    }
  }

  /** The branch for a prompt. The search for the default goes on to the closing mark. */
  method PromptReplacement(dialog: Dialog, pattern: string) returns (replacement: string, delimit: bool)
    requires |pattern| >= 3 && pattern[|pattern| - 1] == BANG
    ensures PromptReply(dialog, pattern[2..|pattern| - 1]) == Replace(replacement, delimit)
  {
    var n := |pattern|;
    ghost var body := pattern[2..n - 1];
    delimit := true;
    var promptStr := [];
    var at := FindChar(pattern, 2, '?');
    WithinBody(pattern);
    if at < n {
      assert pattern[at + 1..n - 1] == body[at - 2 + 1..] && pattern[2..at] == body[..at - 2];
      replacement := pattern[at + 1..n - 1];
      var end := at;
      if at > 2 && pattern[at - 1] == '\\' {
        assert pattern[2..at - 1] == body[..at - 3];
        delimit := false;
        end := at - 1;
      }
      promptStr := pattern[2..end];
    } else {
      promptStr := pattern[2..n - 1];
      replacement := [];
    }
    replacement := dialog.prompt(promptStr, replacement);
  }

  /** A question mark is found in the whole pattern where it is found in its body. */
  lemma WithinBody(pattern: string)
    requires |pattern| >= 3 && pattern[|pattern| - 1] == BANG
    ensures var body := pattern[2..|pattern| - 1];
            IndexOf(pattern[2..], '?') == if IndexOf(body, '?') == |body| then |body| + 1 else IndexOf(body, '?')
  {
    var body := pattern[2..|pattern| - 1];
    assert pattern[2..] == body + [pattern[|pattern| - 1]];
    IndexInConcat(body, pattern[|pattern| - 1], '?');
  }

  lemma {:induction false} IndexInConcat(s: string, last: char, c: char)
    requires last != c
    ensures IndexOf(s + [last], c) == if IndexOf(s, c) == |s| then |s| + 1 else IndexOf(s, c)
  {
    if s == [] {
      assert s + [last] == [last];
    } else {
      IndexInConcat(s[1..], last, c);
      assert (s + [last])[1..] == s[1..] + [last];
    }
  }

  /** A template expanded: first what the user answers, then what the file stands for. */
  method ExpandTemplate(dialog: Dialog, d: FileData, command: string) returns (result: Option<string>)
    ensures var ps := Pieces(dialog, d, NO_QUOTE, command);
            result == if ps.None? then None else Some(Meaning(d, NO_QUOTE, ps.value))
  {
    TwoPassesMean(dialog, d, command);
    var answered := CompleteCommand(InteractiveLanguage(dialog, d), command, false);
    if answered.None? {
      return None;
    }
    result := CompleteCommand(FileLanguage(d), answered.value, true);
  }
}
