/** What each pattern of a custom command stands for, spelled out: the file patterns, quotes around
    them, prompts and commands, and what the shell delimiting does. */
module CustomCommandPatterns {
  import opened Basics
  import opened CustomCommands
  import opened CustomCommandHygiene

  // ----- Delimiting -----

  lemma {:induction false} DelimitedConcat(a: string, b: string, quote: char)
    ensures Delimited(a + b, quote) == Delimited(a, quote) + Delimited(b, quote)
  {
    if a == [] {
      AddNothing(b);
      AddNothing(Delimited(b, quote));
    } else {
      DelimitedConcat(a[1..], b, quote);
      assert (a + b)[1..] == a[1..] + b;
      var first := if NeedsBackslash(a[0], quote) then ['\\', a[0]] else [a[0]];
      Associate(first, Delimited(a[1..], quote), Delimited(b, quote));
    }
  }

  /** A backslash goes before $ and \ anywhere, and before ` and " in double quotes only. */
  lemma DelimitedChar(c: char, quote: char)
    ensures Delimited("$", quote) == "\\$" && Delimited("\\", quote) == "\\\\"
    ensures Delimited("`", '"') == "\\`" && Delimited("\"", '"') == "\\\""
    ensures c != '$' && c != '\\' && (quote != '"' || (c != '`' && c != '"')) ==> Delimited([c], quote) == [c]
  {
    DelimitOne('$', [], quote);
    DelimitOne('\\', [], quote);
    DelimitOne('`', [], '"');
    DelimitOne('"', [], '"');
    DelimitOne(c, [], quote);
    AddNothing([c]);
  }

  // ----- File patterns -----

  lemma PatternAlone(d: FileData, prev: char, p: string)
    requires FitsBefore(FilePattern(p), [])
    ensures Second(d, prev, p) == Replacement(FileLanguage(d), true, p, NO_QUOTE)
  {
    FilePatternIsReplaced(d, prev, p, []);
    AddNothing(p);
    assert Second(d, LastOr(prev, p), []) == [];
    AddNothing(Replacement(FileLanguage(d), true, p, NO_QUOTE));
  }

  lemma FieldAlone(d: FileData, prev: char, p: string, field: string)
    requires FitsBefore(FilePattern(p), []) && FileReply(d, p) == Replace(field, true)
    ensures Second(d, prev, p) == Delimited(field, '\0')
  {
    PatternAlone(d, prev, p);
  }

  /** By itself, each pattern comes out as the field it stands for, delimited. */
  lemma SessionPatterns(d: FileData, prev: char)
    ensures Second(d, prev, "!S") == Delimited(d.url, '\0') && Second(d, prev, "!@") == Delimited(d.host, '\0')
    ensures Second(d, prev, "!#") == Delimited(d.port, '\0') && Second(d, prev, "!N") == Delimited(d.sessionName, '\0')
  {
    FieldAlone(d, prev, "!S", d.url);
    FieldAlone(d, prev, "!@", d.host);
    FieldAlone(d, prev, "!#", d.port);
    FieldAlone(d, prev, "!N", d.sessionName);
  }

  lemma UserPatterns(d: FileData, prev: char)
    ensures Second(d, prev, "!U") == Delimited(d.user, '\0') && Second(d, prev, "!P") == Delimited(d.password, '\0')
  {
    FieldAlone(d, prev, "!U", d.user);
    FieldAlone(d, prev, "!P", d.password);
  }

  lemma FileNamePattern(d: FileData, prev: char)
    ensures Second(d, prev, "!") == Delimited(d.fileName, '\0')
  {
    FieldAlone(d, prev, "!", d.fileName);
  }

  /** The file list is delimited already. */
  lemma ListPattern(d: FileData, prev: char)
    ensures Second(d, prev, "!&") == d.fileList
  {
    PatternAlone(d, prev, "!&");
  }

  /** The path gets a slash at its end, unless it is empty. */
  lemma PathPattern(d: FileData, prev: char, dir: string)
    requires d.path == dir + "/" || (d.path == dir && dir != [] && dir[|dir| - 1] != '/')
    ensures Second(d, prev, "!/") == Delimited(dir + "/", '\0')
  {
    SlashAtEnd(d.path, dir);
    FieldAlone(d, prev, "!/", IncludeTrailingSlash(d.path));
  }

  lemma SlashAtEnd(path: string, dir: string)
    requires path == dir + "/" || (path == dir && dir != [] && dir[|dir| - 1] != '/')
    ensures IncludeTrailingSlash(path) == dir + "/"
  {
  }

  lemma NoPathPattern(d: FileData, prev: char)
    requires d.path == []
    ensures Second(d, prev, "!/") == []
  {
    FieldAlone(d, prev, "!/", []);
  }

  /** An exclamation mark before any other character is the file name. */
  lemma FileNameBefore(d: FileData, prev: char, c: char)
    requires c !in {'!', '\U{AD}', 'S', '@', 'U', 'P', '#', '/', '&', 'N'} && c != '\0'
    requires !(prev == c && c in {'"', '\''})
    ensures Second(d, prev, ['!', c]) == Delimited(d.fileName, '\0') + [c]
  {
    FilePatternIsReplaced(d, prev, "!", [c]);
    assert "!" + [c] == ['!', c];
    EndsInText(d, '!', c);
  }

  /** Between two quotes of a kind a value is delimited for them; quotes of two kinds around it do
      not count. */
  lemma BetweenQuotes(d: FileData, prev: char, p: char, q: char)
    requires p in {'"', '\''} && q in {'"', '\''}
    ensures Second(d, prev, [p] + "!U" + [q]) == [p] + Delimited(d.user, if p == q then q else '\0') + [q]
    ensures Second(d, prev, [p] + "!" + [q]) == [p] + Delimited(d.fileName, if p == q then q else '\0') + [q]
  {
    QuotedPattern(d, prev, p, "!U", q);
    QuotedPattern(d, prev, p, "!", q);
  }

  lemma QuotedPattern(d: FileData, prev: char, p: char, pattern: string, q: char)
    requires IsQuote(p) && IsQuote(q) && FitsBefore(FilePattern(pattern), [q])
    ensures Second(d, prev, [p] + pattern + [q])
            == [p] + Replacement(FileLanguage(d), true, pattern, if p == q then q else NO_QUOTE) + [q]
  {
    var r := Replacement(FileLanguage(d), true, pattern, if p == q then q else NO_QUOTE);
    Associate([p], pattern, [q]);
    PlainTextIsCopied(d, prev, [p], pattern + [q]);
    FilePatternIsReplaced(d, p, pattern, [q]);
    EndsInText(d, LastOr(p, pattern), q);
    Associate([p], r, [q]);
  }

  lemma EndsInText(d: FileData, prev: char, c: char)
    requires c != BANG && c != '\0'
    ensures Second(d, prev, [c]) == [c]
  {
    PlainTextIsCopied(d, prev, [c], []);
    AddNothing([c]);
    assert Second(d, LastOr(prev, [c]), []) == [];
  }

  /** The two agree on every field that a pattern of the template stands for. */
  predicate Agree(d: FileData, e: FileData, ps: seq<Piece>) {
    && (FilePattern("!S") in ps ==> d.url == e.url)
    && (FilePattern("!@") in ps ==> d.host == e.host)
    && (FilePattern("!U") in ps ==> d.user == e.user)
    && (FilePattern("!P") in ps ==> d.password == e.password)
    && (FilePattern("!#") in ps ==> d.port == e.port)
    && (FilePattern("!/") in ps ==> d.path == e.path)
    && (FilePattern("!&") in ps ==> d.fileList == e.fileList)
    && (FilePattern("!N") in ps ==> d.sessionName == e.sessionName)
    && (FilePattern("!") in ps ==> d.fileName == e.fileName)
  }

  lemma AgreeOnReply(d: FileData, e: FileData, p: string, ps: seq<Piece>)
    requires Agree(d, e, ps) && FilePattern(p) in ps
    requires p == "!" || (|p| == 2 && p[0] == '!' && IsFileLetter(p[1]))
    ensures FileReply(d, p) == FileReply(e, p)
  {
    assert |p| == 2 ==> p == ['!', p[1]];
  }

  /** A field whose pattern does not stand in a template has no influence on what it means: so a
      password cannot get into a command that does not ask for it. */
  lemma {:induction false} OnlyItsFields(d: FileData, e: FileData, prev: char, ps: seq<Piece>)
    requires Agree(d, e, ps) && Fit(ps)
    ensures Meaning(d, prev, ps) == Meaning(e, prev, ps)
    decreases |ps|
  {
    if ps != [] {
      assert ps[0] in ps && forall p | p in ps[1..] :: p in ps;
      OnlyItsFields(d, e, LastOr(prev, Rendered(ps[0])), ps[1..]);
      if ps[0].FilePattern? {
        AgreeOnReply(d, e, ps[0].pattern, ps);
      }
    }
  }

  // ----- Interactive patterns -----

  /** A prompt without a default. */
  lemma PromptIs(dialog: Dialog, d: FileData, question: string)
    requires '?' !in question
    ensures InteractiveReply(dialog, d, "!?" + question + "!") == Replace(dialog.prompt(question, []), true)
  {
    BodyOf('?', question, '!');
    NotIn(question, '?');
  }

  /** A prompt with a default behind a second question mark. */
  lemma PromptWithDefault(dialog: Dialog, d: FileData, question: string, default: string)
    requires '?' !in question && (question == [] || question[|question| - 1] != '\\')
    ensures InteractiveReply(dialog, d, "!?" + (question + ("?" + default)) + "!")
            == Replace(dialog.prompt(question, default), true)
  {
    var body := question + ("?" + default);
    BodyOf('?', body, '!');
    IndexIs(body, |question|, '?');
    assert body[..|question|] == question && body[|question| + 1..] == default;
  }

  /** The same with a backslash before that mark: the answer is not delimited. */
  lemma PromptUndelimited(dialog: Dialog, d: FileData, question: string, default: string)
    requires '?' !in question
    ensures InteractiveReply(dialog, d, "!?" + (question + ("\\?" + default)) + "!")
            == Replace(dialog.prompt(question, default), false)
  {
    var body := question + ("\\?" + default);
    BodyOf('?', body, '!');
    IndexIs(body, |question| + 1, '?');
    assert body[..|question|] == question && body[|question| + 2..] == default;
  }

  /** A command is completed for the file, run, and its output put in as it is. */
  lemma CommandIs(dialog: Dialog, d: FileData, command: string)
    ensures InteractiveReply(dialog, d, "!`" + command + "`")
            == Replace(dialog.execute(Second(d, '\0', command)), false)
  {
    BodyOf('`', command, '`');
  }

  lemma BodyOf(c: char, body: string, last: char)
    ensures var p := ['!', c] + body + [last]; |p| >= 3 && p[1] == c && p[2..|p| - 1] == body
  {
  }

  lemma {:induction false} NotIn(s: string, c: char)
    requires c !in s
    ensures IndexOf(s, c) == |s|
  {
    if s != [] {
      NotIn(s[1..], c);
    }
  }

  lemma {:induction false} IndexIs(s: string, n: nat, c: char)
    requires n < |s| && s[n] == c && forall i | 0 <= i < n :: s[i] != c
    ensures IndexOf(s, c) == n
  {
    if n > 0 {
      IndexIs(s[1..], n - 1, c);
    }
  }

  lemma {:induction false} StrChrIs(s: string, n: nat, c: char)
    requires n < |s| && s[n] == c && forall i | 0 <= i < n :: s[i] != c && s[i] != '\0'
    ensures StrChr(s, c) == n
  {
    if n > 0 {
      StrChrIs(s[1..], n - 1, c);
    }
  }

  /** A prompt ends at the next exclamation mark, a command at the next back quote. */
  lemma EndOfPattern(body: string, rest: string)
    requires NulFree(body)
    ensures '!' !in body ==> InteractivePatternLen("!?" + body + "!" + rest) == Some(|body| + 3)
    ensures '`' !in body ==> InteractivePatternLen("!`" + body + "`" + rest) == Some(|body| + 3)
    ensures '!' !in body ==> InteractivePatternLen("!?" + body) == None
    ensures '`' !in body ==> InteractivePatternLen("!`" + body) == None
  {
    EndAt('?', body, '!', rest);
    EndAt('`', body, '`', rest);
    if '!' !in body {
      NeverEnds("?" + body, '!');
      assert ("!?" + body)[1..] == "?" + body;
    }
    if '`' !in body {
      NeverEnds(body, '`');
      assert ("!`" + body)[2..] == body;
    }
  }

  lemma EndAt(c: char, body: string, end: char, rest: string)
    requires NulFree(body) && c != '\0'
    ensures var s := ['!', c] + body + [end] + rest;
            end !in body ==>
              && StrChr(s[2..], end) == |body|
              && (c != end ==> StrChr(s[1..], end) == |body| + 1)
  {
    var s := ['!', c] + body + [end] + rest;
    if end !in body {
      StrChrIs(s[2..], |body|, end);
      if c != end {
        assert s[1..][1..] == s[2..];
      }
    }
  }

  lemma {:induction false} NeverEnds(s: string, c: char)
    requires c !in s
    ensures StrChr(s, c) == |s|
  {
    if s != [] {
      NeverEnds(s[1..], c);
    }
  }
}
