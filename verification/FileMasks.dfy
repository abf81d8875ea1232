/** Lists of file masks written as one string: what TFileMasks of source/core/FileMasks.cpp makes
    of a string, and what string it makes of four lists. Positions count from 0. */
module FileMasks {
  import opened Basics

  const NUL: char := '\0'
  const EXCLUDE: char := '|'
  const SEPARATOR: string := "; "

  /** In AllFileMasksDelimiters. */
  predicate IsDelimiter(c: char) {
    c == ';' || c == ',' || c == EXCLUDE
  }

  /** In DirectoryMaskDelimiters. */
  predicate IsSlash(c: char) {
    c == '/' || c == '\\'
  }

  /** Starts a size or time mask. */
  predicate IsBoundary(c: char) {
    c == '<' || c == '>'
  }

  // ----- Trimming -----

  predicate IsBlank(c: char) {
    c <= ' '
  }

  function TrimLeft(s: string): (t: string)
    ensures |t| <= |s|
  {
    if s != [] && IsBlank(s[0]) then TrimLeft(s[1..]) else s
  }

  function TrimRight(s: string): (t: string)
    ensures |t| <= |s|
  {
    if s != [] && IsBlank(s[|s| - 1]) then TrimRight(s[..|s| - 1]) else s
  }

  function Trim(s: string): string {
    TrimRight(TrimLeft(s))
  }

  /** Nonempty, with no blank at either end. */
  predicate IsTrim(s: string) {
    s != [] && !IsBlank(s[0]) && !IsBlank(s[|s| - 1])
  }

  function StripSlashes(s: string): (t: string)
    ensures |t| <= |s|
  {
    if s != [] && IsSlash(s[|s| - 1]) then StripSlashes(s[..|s| - 1]) else s
  }

  /** LastDelimiter for slashes: how many characters there are up to the last slash. */
  function LastSlash(s: string): (d: nat)
    ensures d <= |s| && (d > 0 ==> IsSlash(s[d - 1]))
  {
    if s == [] || IsSlash(s[|s| - 1]) then |s| else LastSlash(s[..|s| - 1])
  }

  /** The slash that a directory mask gets at its end. */
  function ClosingSlash(s: string): (c: char)
    ensures IsSlash(c)
  {
    if LastSlash(s) > 0 then s[LastSlash(s) - 1] else '/'
  }

  // ----- Pieces between delimiters, two delimiters in a row standing for the first one -----

  /** The two sets of characters that CopyToChars is called with here. */
  datatype Delimiters = MaskDelimiters | BoundaryDelimiters

  predicate In(c: char, ds: Delimiters) {
    if ds.MaskDelimiters? then IsDelimiter(c) else IsBoundary(c)
  }

  function PieceEnd(s: string, ds: Delimiters): (n: nat)
    ensures n <= |s|
  {
    if s == [] then 0
    else if !In(s[0], ds) then 1 + PieceEnd(s[1..], ds)
    else if |s| > 1 && In(s[1], ds) then 2 + PieceEnd(s[2..], ds)
    else 0
  }

  function PieceOf(s: string, ds: Delimiters): (p: string)
    ensures |p| <= PieceEnd(s, ds)
  {
    if s == [] then []
    else if !In(s[0], ds) then [s[0]] + PieceOf(s[1..], ds)
    else if |s| > 1 && In(s[1], ds) then [s[0]] + PieceOf(s[2..], ds)
    else []
  }

  function DoubledChar(c: char): string {
    if IsDelimiter(c) then [c, c] else [c]
  }

  /** The escape: every delimiter twice. */
  function Doubled(s: string): string
  {
    if s == [] then [] else DoubledChar(s[0]) + Doubled(s[1..])
  }

  // ----- One mask -----

  /** What this component asks of others: whether Masks::TMask accepts a mask, and what a time or
      a size reads as. */
  datatype Readers =
    Readers(accepts: string -> bool, readTime: string -> Option<int>, readSize: string -> Option<int>)

  /** TMaskMask */
  datatype Pattern = AnyName | NoExtension(mask: string) | Regular(mask: string)

  datatype Boundary = NoBoundary | Open(value: int) | Close(value: int)

  /** TMask */
  datatype Mask = Mask(maskStr: string, userStr: string, fileName: Pattern, directory: Pattern,
                       highSize: Boundary, lowSize: Boundary, highTime: Boundary, lowTime: Boundary)

  function NewMask(s: string): Mask {
    Mask(s, s, AnyName, AnyName, NoBoundary, NoBoundary, NoBoundary, NoBoundary)
  }

  predicate IsAnyMask(s: string) {
    s == [] || s == "*.*" || s == "*"
  }

  /** CreateMaskMask */
  function PatternFor(r: Readers, s: string, ex: bool): Option<Pattern> {
    if ex && IsAnyMask(s) then Some(AnyName)
    else if !r.accepts(s) then None
    else if ex && s == "*." then Some(NoExtension(s))
    else Some(Regular(s))
  }

  function ToUnixPath(s: string): string {
    if s == [] then [] else [if s[0] == '\\' then '/' else s[0]] + ToUnixPath(s[1..])
  }

  function ExcludeTrailingSlash(s: string): string {
    if s == [] || s == "/" || s[|s| - 1] != '/' then s else s[..|s| - 1]
  }

  datatype Patterns = Patterns(directory: Pattern, fileName: Pattern)

  /** The patterns for a name, split at the last slash; nothing if one is not accepted. */
  function NamePatterns(r: Readers, name: string): Option<Patterns> {
    var d := LastSlash(name);
    var dir := if d > 0 then PatternFor(r, ExcludeTrailingSlash(ToUnixPath(name[..d])), false) else Some(AnyName);
    var file := PatternFor(r, name[d..], true);
    if dir.None? || file.None? then None else Some(Patterns(dir.value, file.value))
  }

  /** A mask being created, and whether it is a directory mask. */
  datatype Draft = Draft(mask: Mask, directory: bool)

  /** The part before any size or time: part stands in the mask at start. The flag force is
      negative to tell directories by a trailing slash, zero for files only, positive for
      directories only. */
  function NameStep(r: Readers, force: int, mask: Mask, part: string, start: nat): Option<Draft>
    requires part != [] && start + |part| <= |mask.userStr| && start + |part| <= |mask.maskStr|
  {
    var stem := StripSlashes(part);
    var slashed := |stem| < |part|;
    var user := if slashed then mask.userStr[..start + |stem|] + mask.userStr[start + |part|..] else mask.userStr;
    var last := start + |part| - 1;
    var str :=
      if slashed then (if force == 0 then user else mask.maskStr)
      else if force > 0 then mask.maskStr[..last] + ['/'] + mask.maskStr[last..]
      else mask.maskStr;
    var ps := NamePatterns(r, stem);
    if ps.None? then None
    else
      var m := mask.(userStr := user, maskStr := str, directory := ps.value.directory, fileName := ps.value.fileName);
      Some(Draft(m, if slashed then force != 0 else force > 0))
  }

  function BoundaryAt(closed: bool, value: int): Boundary {
    if closed then Close(value) else Open(value)
  }

  /** A size or time part; one of each kind and direction, and none for directories. */
  function BoundaryStep(r: Readers, d: Draft, part: string, low: bool): Option<Draft> {
    var closed := part != [] && part[0] == '=';
    var text := if closed then part[1..] else part;
    var time := r.readTime(text);
    var m := d.mask;
    if d.directory then None
    else if time.Some? then
      var b := BoundaryAt(closed, time.value);
      if low then (if m.lowTime.NoBoundary? then Some(d.(mask := m.(lowTime := b))) else None)
      else (if m.highTime.NoBoundary? then Some(d.(mask := m.(highTime := b))) else None)
    else
      var size := r.readSize(text);
      if size.None? then None
      else
        var b := BoundaryAt(closed, size.value);
        if low then (if m.lowSize.NoBoundary? then Some(d.(mask := m.(lowSize := b))) else None)
        else (if m.highSize.NoBoundary? then Some(d.(mask := m.(highSize := b))) else None)
  }

  /** Where a piece stands once trimmed. */
  function TrimmedStart(piece: string): (n: nat)
    ensures n + |Trim(piece)| <= |piece|
  {
    |piece| - |TrimLeft(piece)|
  }

  /** The parts after the first, each after its delimiter. */
  function BoundariesFrom(r: Readers, d: Draft, s: string, low: bool): Option<Draft>
    decreases |s|
  {
    if s == [] then Some(d)
    else
      var end := PieceEnd(s, BoundaryDelimiters);
      var next := BoundaryStep(r, d, Trim(PieceOf(s, BoundaryDelimiters)), low);
      if next.None? || end == |s| then next
      else BoundariesFrom(r, next.value, s[end + 1..], s[end] == '>')
  }

  /** The part before any size or time, if there is one. */
  function FirstStep(r: Readers, force: int, s: string): Option<Draft> {
    var piece := PieceOf(s, BoundaryDelimiters);
    var part := Trim(piece);
    if part == [] then Some(Draft(NewMask(s), false)) else NameStep(r, force, NewMask(s), part, TrimmedStart(piece))
  }

  /** CreateMask, but for where the mask is put: nothing if it is not accepted. */
  function DraftOf(r: Readers, force: int, s: string): Option<Draft> {
    var end := PieceEnd(s, BoundaryDelimiters);
    var d := FirstStep(r, force, s);
    if d.None? || end == |s| then d
    else BoundariesFrom(r, d.value, s[end + 1..], s[end] == '>')
  }

  // ----- A string of masks -----

  /** The four lists, by MASK_INDEX. */
  type Lists = l: seq<seq<Mask>> | |l| == 4 witness [[], [], [], []]

  const NO_MASKS: Lists := [[], [], [], []]

  function MaskIndex(directory: bool, including: bool): (i: nat)
    ensures i < 4
  {
    (if directory then 2 else 0) + (if including then 0 else 1)
  }

  function Push(l: Lists, d: Draft, including: bool): Lists {
    var i := MaskIndex(d.directory, including);
    l[i := l[i] + [d.mask]]
  }

  type Drafting = string -> Option<Draft>

  function Drafter(r: Readers, force: int): Drafting {
    (s: string) => DraftOf(r, force, s)
  }

  /** One mask added, unless it is blank. */
  function AddMask(draft: Drafting, s: string, including: bool, l: Lists): Option<Lists> {
    if s == [] then Some(l)
    else
      var d := draft(s);
      if d.None? then None else Some(Push(l, d.value, including))
  }

  function Adder(draft: Drafting): (string, bool, Lists) -> Option<Lists> {
    (s: string, including: bool, l: Lists) => AddMask(draft, s, including, l)
  }

  /** The loop of SetStr, whatever adding a mask does; a second exclusion delimiter is an error. */
  function ParseFrom<T>(add: (string, bool, T) -> Option<T>, s: string, including: bool, l: T): Option<T>
    decreases |s|
  {
    if s == [] then Some(l)
    else
      var end := PieceEnd(s, MaskDelimiters);
      var next := add(Trim(PieceOf(s, MaskDelimiters)), including, l);
      if next.None? || end == |s| then next
      else if s[end] == EXCLUDE && !including then None
      else ParseFrom(add, s[end + 1..], including && s[end] != EXCLUDE, next.value)
  }

  function Parse(r: Readers, force: int, s: string): Option<Lists> {
    ParseFrom(Adder(Drafter(r, force)), s, true, NO_MASKS)
  }

  /** GetMasksStr */
  function UserStrs(masks: seq<Mask>): (names: seq<string>)
    ensures |names| == |masks|
  {
    if masks == [] then [] else UserStrs(masks[..|masks| - 1]) + [masks[|masks| - 1].userStr]
  }

  // ----- Composing -----

  predicate EndsInSeparator(s: string) {
    |s| >= 2 && s[|s| - 2..] == SEPARATOR
  }

  /** AddToList */
  function AddToList(list: string, value: string): string {
    if value == [] then list
    else if list != [] && !EndsInSeparator(list) then list + SEPARATOR + value
    else list + value
  }

  function MakeDirectoryMask(s: string): string
    requires s != []
  {
    if IsSlash(s[|s| - 1]) then s else s + [ClosingSlash(s)]
  }

  /** The text of one mask, and the text it is validated as. */
  function MaskText(s: string, directory: bool): string {
    var t := Doubled(Trim(s));
    if t == [] then [] else if directory then MakeDirectoryMask(t) else StripSlashes(t)
  }

  function ValidatedText(s: string, directory: bool): string {
    var t := Doubled(Trim(s));
    if t == [] then [] else if directory then t else StripSlashes(t)
  }

  /** The loop of the two-argument ComposeMaskStr, over texts. */
  function JoinTexts(texts: seq<string>): string {
    if texts == [] then [] else AddToList(JoinTexts(texts[..|texts| - 1]), texts[|texts| - 1])
  }

  function TextsOf(masks: seq<string>, directory: bool): (texts: seq<string>)
    ensures |texts| == |masks|
  {
    if masks == [] then []
    else TextsOf(masks[..|masks| - 1], directory) + [MaskText(masks[|masks| - 1], directory)]
  }

  function ValidatedTextsOf(masks: seq<string>, directory: bool): (texts: seq<string>)
    ensures |texts| == |masks|
  {
    if masks == [] then []
    else ValidatedTextsOf(masks[..|masks| - 1], directory) + [ValidatedText(masks[|masks| - 1], directory)]
  }

  /** The two-argument ComposeMaskStr: nothing if a mask is not accepted. */
  function ComposeList(r: Readers, masks: seq<string>, directory: bool): Option<string> {
    if Parse(r, if directory then 1 else 0, JoinTexts(ValidatedTextsOf(masks, directory))).None? then None
    else Some(JoinTexts(TextsOf(masks, directory)))
  }

  /** Included files, excluded files, included directories, excluded directories: in the order
      of MASK_INDEX. */
  type Names = n: seq<seq<string>> | |n| == 4 witness [[], [], [], []]

  function WithExcluded(included: string, excluded: string): string {
    if excluded == [] then included
    else (if included == [] then [] else included + " ") + [EXCLUDE] + " " + excluded
  }

  /** The four-argument ComposeMaskStr. */
  function Compose(r: Readers, names: Names): Option<string> {
    var inFiles, exFiles := ComposeList(r, names[0], false), ComposeList(r, names[1], false);
    var inDirs, exDirs := ComposeList(r, names[2], true), ComposeList(r, names[3], true);
    if inFiles.None? || exFiles.None? || inDirs.None? || exDirs.None? then None
    else Some(WithExcluded(AddToList(inFiles.value, inDirs.value), AddToList(exFiles.value, exDirs.value)))
  }

  function NamesOf(l: Lists): Names {
    [UserStrs(l[0]), UserStrs(l[1]), UserStrs(l[2]), UserStrs(l[3])]
  }

  /** Composing a string, setting it and reading the lists gives the lists back. */
  ghost predicate RoundTrips(r: Readers, names: Names) {
    var s := Compose(r, names);
    s.Some? && var l := Parse(r, -1, s.value); l.Some? && NamesOf(l.value) == names
  }
}
