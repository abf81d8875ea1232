/** Custom command templates: TCustomCommand, TInteractiveCustomCommand and TFileCustomCommand of
    source/core/FileMasks.cpp. A template is expanded in two passes, first what the user answers,
    then what the file stands for. */
module CustomCommands {
  import opened Basics

  const NO_QUOTE: char := '\0'
  const BANG: char := '!'
  /** TEXT_TOKEN: an octal escape in the code, so the soft hyphen. */
  const TEXT_TOKEN: char := '\U{AD}'

  /** In Quotes. */
  predicate IsQuote(c: char) {
    c == '"' || c == '\''
  }

  /** How far the first c is, or the length. */
  function IndexOf(s: string, c: char): (n: nat)
    ensures n <= |s| && (n < |s| ==> s[n] == c)
    ensures forall i | 0 <= i < n :: s[i] != c
  {
    if s == [] || s[0] == c then 0 else 1 + IndexOf(s[1..], c)
  }

  /** wcschr: how far the first c is, or the length if a zero character comes before it. */
  function StrChr(s: string, c: char): (n: nat)
    ensures n <= |s| && (n < |s| ==> s[n] == c)
    ensures n < |s| ==> forall i | 0 <= i < n :: s[i] != c && s[i] != '\0'
  {
    if s == [] || s[0] == c then 0
    else if s[0] == '\0' then |s|
    else 1 + StrChr(s[1..], c)
  }

  // ----- What replaces a pattern -----

  /** What PatternReplacement does: nothing, so that the pattern stays, or a replacement that may
      have to be delimited for the shell. */
  datatype Reply = Stay | Replace(text: string, delimit: bool)

  /** The virtual members of a custom command: how long the pattern at the start of a string is,
      if it ends, and what replaces it. */
  datatype Language = Language(patternLen: string -> Option<nat>, replace: string -> Reply)

  predicate NeedsBackslash(c: char, quote: char) {
    c == '$' || c == '\\' || (quote == '"' && (c == '`' || c == '"'))
  }

  /** ShellDelimitStr */
  function Delimited(s: string, quote: char): string {
    if s == [] then [] else (if NeedsBackslash(s[0], quote) then ['\\', s[0]] else [s[0]]) + Delimited(s[1..], quote)
  }

  /** ReplaceStr of "!" by "!!". */
  function BangsDoubled(s: string): string {
    if s == [] then [] else (if s[0] == BANG then [BANG, BANG] else [s[0]]) + BangsDoubled(s[1..])
  }

  // ----- One pass -----

  predicate IsText(s: string)
    requires s != []
  {
    s[0] != BANG || (|s| > 1 && s[1] == TEXT_TOKEN)
  }

  predicate IsDoubleBang(s: string) {
    |s| > 1 && s[0] == BANG && s[1] == BANG
  }

  /** GetToken: how long the first token is; nothing if it is unknown or does not end. */
  function TokenLen(lang: Language, s: string): (n: Option<nat>)
    requires s != []
    ensures n.Some? ==> 1 <= n.value <= |s|
  {
    if s[0] != BANG then Some(StrChr(s, BANG))
    else if |s| == 1 then Some(1)
    else if s[1] == BANG then Some(2)
    else
      var n := lang.patternLen(s);
      if n.None? || n.value == 0 || n.value > |s| then None else n
  }

  /** The quote a pattern stands in: the same one right before and right after it. */
  function QuoteAround(prev: char, after: string): char {
    if after != [] && IsQuote(prev) && prev == after[0] then prev else NO_QUOTE
  }

  function LastOr(prev: char, s: string): char {
    if s == [] then prev else s[|s| - 1]
  }

  /** What stands for the pattern in the result. */
  function Replacement(lang: Language, lastPass: bool, pattern: string, quote: char): string {
    match lang.replace(pattern)
    case Stay => pattern
    case Replace(text, delimit) =>
      var t := if lastPass then text else BangsDoubled(text);
      if delimit then Delimited(t, quote) else t
  }

  /** What a token of n characters, at the start of s, becomes. */
  function TokenOutput(lang: Language, lastPass: bool, prev: char, s: string, n: nat): string
    requires 1 <= n <= |s|
  {
    if IsText(s) then s[..n]
    else if IsDoubleBang(s) then (if lastPass then [BANG] else s[..n])
    else Replacement(lang, lastPass, s[..n], QuoteAround(prev, s[n..]))
  }

  /** Complete from a position on: prev is the character before it. */
  function CompleteFrom(lang: Language, lastPass: bool, prev: char, s: string): Option<string>
    decreases |s|
  {
    if s == [] then Some([])
    else
      var n := TokenLen(lang, s);
      if n.None? then None
      else
        var rest := CompleteFrom(lang, lastPass, LastOr(prev, s[..n.value]), s[n.value..]);
        if rest.None? then None else Some(TokenOutput(lang, lastPass, prev, s, n.value) + rest.value)
  }

  function Complete(lang: Language, lastPass: bool, command: string): Option<string> {
    CompleteFrom(lang, lastPass, NO_QUOTE, command)
  }

  // ----- File commands -----

  /** What the patterns of TFileCustomCommand stand for. */
  datatype FileData = FileData(url: string, host: string, user: string, password: string, port: string,
                               path: string, fileList: string, sessionName: string, fileName: string)

  predicate IsFileLetter(c: char) {
    c == 'S' || c == '@' || c == 'U' || c == 'P' || c == '#' || c == '/' || c == '&' || c == 'N'
  }

  function FilePatternLen(s: string): Option<nat> {
    Some(if |s| > 1 && IsFileLetter(s[1]) then 2 else 1)
  }

  function IncludeTrailingSlash(path: string): string {
    if path != [] && path[|path| - 1] != '/' then path + "/" else path
  }

  function FileReply(d: FileData, pattern: string): Reply {
    if |pattern| == 2 && (pattern[1] == 'S' || pattern[1] == 's') then Replace(d.url, true)
    else if |pattern| == 2 && pattern[1] == '@' then Replace(d.host, true)
    else if |pattern| == 2 && (pattern[1] == 'U' || pattern[1] == 'u') then Replace(d.user, true)
    else if |pattern| == 2 && (pattern[1] == 'P' || pattern[1] == 'p') then Replace(d.password, true)
    else if |pattern| == 2 && pattern[1] == '#' then Replace(d.port, true)
    else if |pattern| == 2 && pattern[1] == '/' then Replace(IncludeTrailingSlash(d.path), true)
    else if |pattern| == 2 && pattern[1] == '&' then Replace(d.fileList, false)
    else if |pattern| == 2 && (pattern[1] == 'N' || pattern[1] == 'n') then Replace(d.sessionName, true)
    else Replace(d.fileName, true)
  }

  function FileLanguage(d: FileData): Language {
    Language((s: string) => FilePatternLen(s), (p: string) => FileReply(d, p))
  }

  // ----- Interactive commands -----

  /** What the user answers to a prompt with a default, and what a command prints. */
  datatype Dialog = Dialog(prompt: (string, string) -> string, execute: string -> string)

  /** A prompt runs to the next exclamation mark, a command to the next back quote. */
  function InteractivePatternLen(s: string): Option<nat> {
    if |s| > 1 && s[1] == '?' then
      (var n := 1 + StrChr(s[1..], BANG); if n == |s| then None else Some(n + 1))
    else if |s| > 1 && s[1] == '`' then
      (var n := 2 + StrChr(s[2..], '`'); if n == |s| then None else Some(n + 1))
    else FilePatternLen(s)
  }

  /** A prompt is a question, or a question and a default parted by a question mark. A backslash
      before that mark turns delimiting off. */
  function PromptReply(dialog: Dialog, body: string): Reply {
    var p := IndexOf(body, '?');
    if p == |body| then Replace(dialog.prompt(body, []), true)
    else if p > 0 && body[p - 1] == '\\' then Replace(dialog.prompt(body[..p - 1], body[p + 1..]), false)
    else Replace(dialog.prompt(body[..p], body[p + 1..]), true)
  }

  /** The output of a command in which file patterns are expanded. */
  function CommandReply(dialog: Dialog, d: FileData, body: string): Reply {
    var command := Complete(FileLanguage(d), true, body);
    if command.None? then Stay else Replace(dialog.execute(command.value), false)
  }

  function InteractiveReply(dialog: Dialog, d: FileData, pattern: string): Reply {
    if |pattern| >= 3 && pattern[1] == '?' then PromptReply(dialog, pattern[2..|pattern| - 1])
    else if |pattern| >= 3 && pattern[1] == '`' then CommandReply(dialog, d, pattern[2..|pattern| - 1])
    else Stay
  }

  function InteractiveLanguage(dialog: Dialog, d: FileData): Language {
    Language((s: string) => InteractivePatternLen(s), (p: string) => InteractiveReply(dialog, d, p))
  }

  /** Completing a file command cannot fail. */
  lemma {:induction false} FileCompletes(d: FileData, lastPass: bool, prev: char, s: string)
    ensures CompleteFrom(FileLanguage(d), lastPass, prev, s).Some?
    decreases |s|
  {
    if s != [] {
      var n := TokenLen(FileLanguage(d), s).value;
      FileCompletes(d, lastPass, LastOr(prev, s[..n]), s[n..]);
    }
  }

  /** The last pass over a file command, which always succeeds. */
  function Second(d: FileData, prev: char, s: string): (t: string)
    ensures CompleteFrom(FileLanguage(d), true, prev, s) == Some(t)
  {
    FileCompletes(d, true, prev, s);
    CompleteFrom(FileLanguage(d), true, prev, s).value
  }

  // ----- What a template means -----

  /** A token of an interactive command: text, a doubled exclamation mark, a file pattern, or an
      interactive pattern with its value, already delimited. */
  datatype Piece = Text(text: string) | DoubleBang | FilePattern(pattern: string) | Value(source: string, value: string)

  function SourceOf(p: Piece): string {
    match p
    case Text(t) => t
    case DoubleBang => [BANG, BANG]
    case FilePattern(t) => t
    case Value(t, _) => t
  }

  function Sources(ps: seq<Piece>): string {
    if ps == [] then [] else SourceOf(ps[0]) + Sources(ps[1..])
  }

  /** The value that goes into the command line. */
  function ValueOf(dialog: Dialog, d: FileData, pattern: string, quote: char): string {
    match InteractiveReply(dialog, d, pattern)
    case Stay => pattern
    case Replace(text, delimit) => if delimit then Delimited(text, quote) else text
  }

  predicate StartsInteractive(s: string) {
    |s| > 1 && s[0] == BANG && (s[1] == '?' || s[1] == '`')
  }

  function FirstPiece(dialog: Dialog, d: FileData, prev: char, s: string, n: nat): Piece
    requires 1 <= n <= |s|
  {
    if IsText(s) then Text(s[..n])
    else if IsDoubleBang(s) then DoubleBang
    else if StartsInteractive(s) then Value(s[..n], ValueOf(dialog, d, s[..n], QuoteAround(prev, s[n..])))
    else FilePattern(s[..n])
  }

  /** The tokens of a command; nothing if an interactive pattern does not end. */
  function Pieces(dialog: Dialog, d: FileData, prev: char, s: string): Option<seq<Piece>>
    decreases |s|
  {
    if s == [] then Some([])
    else
      var n := TokenLen(InteractiveLanguage(dialog, d), s);
      if n.None? then None
      else
        var rest := Pieces(dialog, d, LastOr(prev, s[..n.value]), s[n.value..]);
        if rest.None? then None else Some([FirstPiece(dialog, d, prev, s, n.value)] + rest.value)
  }

  /** What the first pass makes of a piece. */
  function Rendered(p: Piece): string {
    match p
    case Text(t) => t
    case DoubleBang => [BANG, BANG]
    case FilePattern(t) => t
    case Value(_, v) => BangsDoubled(v)
  }

  function Render(ps: seq<Piece>): string {
    if ps == [] then [] else Rendered(ps[0]) + Render(ps[1..])
  }

  /** What the second pass leaves of a value that holds a zero character: behind it no mark is
      looked for, so marks stay doubled. */
  function UpToZero(v: string): string {
    if v == [] then [] else if v[0] == '\0' then BangsDoubled(v) else [v[0]] + UpToZero(v[1..])
  }

  /** What a template is for: text as it is, a doubled exclamation mark as one, a value as it is
      whatever it holds, and each file pattern replaced once, with the quotes around it judged on
      what the first pass makes. Only a zero character in a value ends all reading. */
  function Meaning(d: FileData, prev: char, ps: seq<Piece>): string
    decreases |ps|
  {
    if ps == [] then []
    else
      var rest := Render(ps[1..]);
      var next := Meaning(d, LastOr(prev, Rendered(ps[0])), ps[1..]);
      match ps[0]
      case Text(t) => t + next
      case DoubleBang => [BANG] + next
      case FilePattern(p) => Replacement(FileLanguage(d), true, p, QuoteAround(prev, rest)) + next
      case Value(_, v) => if NulFree(v) then v + next else UpToZero(v) + rest
  }
}
