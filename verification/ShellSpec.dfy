/** The file commands of the shell: what a line means, and what the command does to the files. */
module ShellSpec {
  import opened Basics
  import opened CStrings
  import opened FileStore
  import EditorSpec

  datatype Command =
    | List
    | Touch(path: seq<Char>)
    | ReadFile(path: seq<Char>)
    | Record(path: seq<Char>, text: seq<Char>)
    | RecordUsage
    | AppendTo(path: seq<Char>, text: seq<Char>)
    | RemoveFile(path: seq<Char>)
    | StatFile(path: seq<Char>)
    | Other

  datatype Outcome =
    | Listing
    | Content(text: seq<Char>)
    | ContentMissing
    | Usage
    | Done(result: FileResult)
    | Facts(name: seq<Char>, size: nat)
    | NoFileCommand

  // ---------------------------------------------------------------- parsing

  const LST: seq<Char> := [108, 115, 116]  // "lst"
  const TOUCH: seq<Char> := [116, 111, 117, 99, 104, 32]  // "touch "
  const RDF: seq<Char> := [114, 100, 102, 32]  // "rdf "
  const REC: seq<Char> := [114, 101, 99, 32]  // "rec "
  const APPEND: seq<Char> := [97, 112, 112, 101, 110, 100, 32]  // "append "
  const RM: seq<Char> := [114, 109, 32]  // "rm "
  const STAT: seq<Char> := [115, 116, 97, 116, 32]  // "stat "

  predicate StartsWith(t: seq<Char>, prefix: seq<Char>) {
    |prefix| <= |t| && t[..|prefix|] == prefix
  }

  function SkipBlanks(t: seq<Char>): seq<Char> {
    if t != [] && t[0] == SPACE then SkipBlanks(t[1..]) else t
  }

  /** The length of the first word. */
  function WordLength(t: seq<Char>): (n: nat)
    ensures n <= |t|
  {
    if t == [] || t[0] == SPACE then 0 else 1 + WordLength(t[1..])
  }

  /** As much of the first word as a buffer of `size` characters takes. */
  function Token(t: seq<Char>, size: nat): seq<Char>
    requires size > 0
  {
    var n := WordLength(t);
    t[..if n < size then n else size - 1]
  }

  function AfterWord(t: seq<Char>): seq<Char> {
    SkipBlanks(t[WordLength(t)..])
  }

  function Parse(line: seq<Char>): Command {
    if line == LST then List
    else if StartsWith(line, TOUCH) then Touch(SkipBlanks(line[5..]))
    else if StartsWith(line, RDF) then ReadFile(SkipBlanks(line[3..]))
    else if StartsWith(line, REC) then
      var args := SkipBlanks(line[3..]);
      var path, text := Token(args, NAME_SIZE), AfterWord(args);
      if path == [] || text == [] then RecordUsage else Record(path, text)
    else if StartsWith(line, APPEND) then
      var args := SkipBlanks(line[6..]);
      AppendTo(Token(args, NAME_SIZE), AfterWord(args))
    else if StartsWith(line, RM) then RemoveFile(SkipBlanks(line[2..]))
    else if StartsWith(line, STAT) then StatFile(SkipBlanks(line[4..]))
    else Other
  }

  // ---------------------------------------------------------------- execution

  function Execute(s: Store, c: Command): (Outcome, Store) {
    match c
    case List => (Listing, s)
    case Touch(path) => var (r, s') := Create(s, PathTo(path)); (Done(r), s')
    case ReadFile(path) =>
      (match Read(s, PathTo(path)) case None => ContentMissing case Some(t) => Content(t), s)
    case Record(path, text) => var (r, s') := Write(s, PathTo(path), PathTo(text)); (Done(r), s')
    case RecordUsage => (Usage, s)
    case AppendTo(path, text) => var (r, s') := Append(s, PathTo(path), PathTo(text)); (Done(r), s')
    case RemoveFile(path) => var (r, s') := Remove(s, PathTo(path)); (Done(r), s')
    case StatFile(path) =>
      (match Read(s, PathTo(path))
       case None => Done(ErrNotFound)
       case Some(t) => Facts(NameOf(PathTo(path)).value, |t|), s)
    case Other => (NoFileCommand, s)
  }

  function RunLine(s: Store, line: seq<Char>): (Outcome, Store) {
    Execute(s, Parse(line))
  }

  // ---------------------------------------------------------------- laws

  /** A word: no blanks, no terminator. */
  predicate Word(t: seq<Char>) {
    t != [] && SPACE !in t && NUL !in t
  }

  lemma {:induction false} WordLengthOf(w: seq<Char>, rest: seq<Char>)
    requires SPACE !in w && (rest == [] || rest[0] == SPACE)
    ensures WordLength(w + rest) == |w|
  {
    if w == [] {
      assert w + rest == rest;
    } else {
      assert (w + rest)[1..] == w[1..] + rest;
      WordLengthOf(w[1..], rest);
    }
  }

  function RecLine(path: seq<Char>, text: seq<Char>): seq<Char> {
    REC + path + [SPACE] + text
  }

  lemma OtherPrefix(line: seq<Char>, p: seq<Char>, q: seq<Char>, i: nat)
    requires StartsWith(line, p) && i < |p| && i < |q| && p[i] != q[i]
    ensures !StartsWith(line, q) && line != q
  {
    assert line[..|p|][i] == line[i];
    if |q| <= |line| {
      assert line[..|q|][i] == line[i];
    }
  }

  // The prefixes exclude one another, so each alone decides the branch.

  lemma DispatchTouch(line: seq<Char>)
    requires StartsWith(line, TOUCH)
    ensures Parse(line) == Touch(SkipBlanks(line[5..]))
  {
    OtherPrefix(line, TOUCH, LST, 0);
  }

  lemma DispatchRdf(line: seq<Char>)
    requires StartsWith(line, RDF)
    ensures Parse(line) == ReadFile(SkipBlanks(line[3..]))
  {
    OtherPrefix(line, RDF, LST, 0);
    OtherPrefix(line, RDF, TOUCH, 0);
  }

  lemma DispatchRm(line: seq<Char>)
    requires StartsWith(line, RM)
    ensures Parse(line) == RemoveFile(SkipBlanks(line[2..]))
  {
    OtherPrefix(line, RM, LST, 0);
    OtherPrefix(line, RM, TOUCH, 0);
    OtherPrefix(line, RM, RDF, 1);
    OtherPrefix(line, RM, REC, 1);
    OtherPrefix(line, RM, APPEND, 0);
  }

  lemma DispatchStat(line: seq<Char>)
    requires StartsWith(line, STAT)
    ensures Parse(line) == StatFile(SkipBlanks(line[4..]))
  {
    OtherPrefix(line, STAT, LST, 0);
    OtherPrefix(line, STAT, TOUCH, 0);
    OtherPrefix(line, STAT, RDF, 0);
    OtherPrefix(line, STAT, REC, 0);
    OtherPrefix(line, STAT, APPEND, 0);
    OtherPrefix(line, STAT, RM, 0);
  }

  lemma DispatchRec(line: seq<Char>)
    requires StartsWith(line, REC)
    ensures var args := SkipBlanks(line[3..]);
            var path, text := Token(args, NAME_SIZE), AfterWord(args);
            Parse(line) == if path == [] || text == [] then RecordUsage else Record(path, text)
  {
    OtherPrefix(line, REC, LST, 0);
    OtherPrefix(line, REC, TOUCH, 0);
    OtherPrefix(line, REC, RDF, 1);
  }

  /** `rec` and `append` in terms of the two arguments they take from the line. */
  lemma RunRec(s: Store, line: seq<Char>, path: seq<Char>, text: seq<Char>)
    requires StartsWith(line, REC)
    requires path == Token(SkipBlanks(line[3..]), NAME_SIZE) && text == AfterWord(SkipBlanks(line[3..]))
    ensures RunLine(s, line) ==
              if path == [] || text == [] then (Usage, s)
              else (Done(Write(s, PathTo(path), PathTo(text)).0), Write(s, PathTo(path), PathTo(text)).1)
  {
    DispatchRec(line);
  }

  lemma RunAppend(s: Store, line: seq<Char>, path: seq<Char>, text: seq<Char>)
    requires StartsWith(line, APPEND)
    requires path == Token(SkipBlanks(line[6..]), NAME_SIZE) && text == AfterWord(SkipBlanks(line[6..]))
    ensures RunLine(s, line) ==
              (Done(Append(s, PathTo(path), PathTo(text)).0), Append(s, PathTo(path), PathTo(text)).1)
  {
    DispatchAppend(line);
  }

  lemma DispatchAppend(line: seq<Char>)
    requires StartsWith(line, APPEND)
    ensures var args := SkipBlanks(line[6..]);
            Parse(line) == AppendTo(Token(args, NAME_SIZE), AfterWord(args))
  {
    OtherPrefix(line, APPEND, LST, 0);
    OtherPrefix(line, APPEND, TOUCH, 0);
    OtherPrefix(line, APPEND, RDF, 0);
    OtherPrefix(line, APPEND, REC, 0);
  }

  lemma SkipOne(t: seq<Char>)
    requires t == [] || t[0] != SPACE
    ensures SkipBlanks([SPACE] + t) == t
  {
    assert ([SPACE] + t)[1..] == t;
  }

  /** As much of a path as the shell's name buffer takes. */
  function Cut(path: seq<Char>): seq<Char> {
    path[..if |path| < NAME_SIZE then |path| else NAME_SIZE - 1]
  }

  /** The two arguments behind a command word. */
  lemma ArgumentsOf(path: seq<Char>, text: seq<Char>)
    requires Word(path) && text != [] && text[0] != SPACE
    ensures var args := path + ([SPACE] + text);
            SkipBlanks([SPACE] + args) == args && Token(args, NAME_SIZE) == Cut(path) && AfterWord(args) == text
  {
    var args := path + ([SPACE] + text);
    SkipOne(args);
    WordLengthOf(path, [SPACE] + text);
    assert args[|path|..] == [SPACE] + text;
    SkipOne(text);
    assert Token(args, NAME_SIZE) == Cut(path);
  }

  lemma ParseRec(path: seq<Char>, text: seq<Char>)
    requires Word(path) && text != [] && text[0] != SPACE
    ensures Parse(RecLine(path, text)) == Record(Cut(path), text)
  {
    var line, args := RecLine(path, text), path + ([SPACE] + text);
    assert line[..4] == REC;
    assert line[3..] == [SPACE] + args;
    ArgumentsOf(path, text);
    DispatchRec(line);
  }

  lemma ParseRdf(path: seq<Char>)
    requires Word(path)
    ensures Parse(RDF + path) == ReadFile(path)
  {
    var line := RDF + path;
    assert line[..4] == RDF;
    assert line[3..] == [SPACE] + path;
    DispatchRdf(line);
    SkipOne(path);
  }

  lemma ParseStat(path: seq<Char>)
    requires Word(path)
    ensures Parse(STAT + path) == StatFile(path)
  {
    var line := STAT + path;
    assert line[..5] == STAT;
    assert line[4..] == [SPACE] + path;
    DispatchStat(line);
    SkipOne(path);
  }

  /** A path cut to the name buffer still denotes the same file exactly when nothing was cut: only
      a path with leading separators can be longer, and it then loses the end of its name. */
  lemma {:induction false} CutKeepsNameIff(path: seq<Char>)
    requires NUL !in path && NameOf(PathTo(path)).Some?
    ensures NameOf(PathTo(Cut(path))) == NameOf(PathTo(path)) <==> |path| < NAME_SIZE
  {
    var cut, n := Cut(path), StripSeparators(path);
    StripIsSuffix(path);
    if |path| < NAME_SIZE {
      assert cut == path;
    } else {
      var k := |path| - |n|;
      StripIsSuffix(cut);
      if k <= |cut| {
        StripLeading(cut, k);
        assert |cut[k..]| < |n|;
        StripIsSuffix(cut[k..]);
      } else {
        StripLeading(cut, |cut|);
      }
    }
  }

  lemma RecWrites(s: Store, path: seq<Char>, text: seq<Char>)
    requires Word(path) && text != [] && text[0] != SPACE
    ensures var w := Write(s, PathTo(Cut(path)), PathTo(text));
            RunLine(s, RecLine(path, text)) == (Done(w.0), w.1)
  {
    ParseRec(path, text);
  }

  lemma {:induction false} RecThatFits(s: Store, path: seq<Char>, text: seq<Char>)
    requires Word(path) && NameOf(PathTo(path)).Some? && |path| < NAME_SIZE
    requires text != [] && text[0] != SPACE && NUL !in text && |text| < DATA_SIZE
    requires NameOf(PathTo(path)).value in s || |s| < MAX_FILES
    ensures RunLine(s, RecLine(path, text)) == (Done(FileOk), s[NameOf(PathTo(path)).value := text])
  {
    RecWrites(s, path, text);
    assert Cut(path) == path;
    assert ContentOf(PathTo(text)) == text;
  }

  lemma RdfShows(s: Store, path: seq<Char>)
    requires Word(path) && NameOf(PathTo(path)).Some?
    ensures var n := NameOf(PathTo(path)).value;
            RunLine(s, RDF + path) == (if n in s then Content(s[n]) else ContentMissing, s)
  {
    ParseRdf(path);
  }

  lemma StatShows(s: Store, path: seq<Char>)
    requires Word(path) && NameOf(PathTo(path)).Some?
    ensures var n := NameOf(PathTo(path)).value;
            RunLine(s, STAT + path) == (if n in s then Facts(n, |s[n]|) else Done(ErrNotFound), s)
  {
    ParseStat(path);
  }

  lemma {:induction false} RecThatIsCut(s: Store, path: seq<Char>, text: seq<Char>)
    requires Word(path) && NameOf(PathTo(path)).Some? && |path| >= NAME_SIZE
    requires text != [] && text[0] != SPACE && NUL !in text
    ensures var n, s' := NameOf(PathTo(path)).value, RunLine(s, RecLine(path, text)).1;
            (n in s' <==> n in s) && (n in s ==> s'[n] == s[n])
  {
    RecWrites(s, path, text);
    CutKeepsNameIff(path);
    WriteElsewhere(s, PathTo(Cut(path)), PathTo(text), NameOf(PathTo(path)).value);
  }

  /** Shell round trip. "rec path text" with room for the file makes "rdf path" show exactly that
      text, and "stat path" its length, exactly as long as the path fits the shell's name buffer;
      a longer path is cut, another file is written, and "rdf path" shows what it did before. */
  lemma RecThenRdf(s: Store, path: seq<Char>, text: seq<Char>)
    requires Word(path) && NameOf(PathTo(path)).Some?
    requires text != [] && text[0] != SPACE && NUL !in text && |text| < DATA_SIZE
    requires NameOf(PathTo(path)).value in s || |s| < MAX_FILES
    ensures var (r, s') := RunLine(s, RecLine(path, text));
            if |path| < NAME_SIZE then
              && r == Done(FileOk)
              && RunLine(s', RDF + path) == (Content(text), s')
              && RunLine(s', STAT + path) == (Facts(NameOf(PathTo(path)).value, |text|), s')
            else RunLine(s', RDF + path).0 == RunLine(s, RDF + path).0
  {
    var s' := RunLine(s, RecLine(path, text)).1;
    RdfShows(s, path);
    RdfShows(s', path);
    StatShows(s', path);
    if |path| < NAME_SIZE {
      RecThatFits(s, path, text);
    } else {
      RecThatIsCut(s, path, text);
    }
  }

  function AppendLine(path: seq<Char>, text: seq<Char>): seq<Char> {
    APPEND + path + [SPACE] + text
  }

  lemma ParseAppend(path: seq<Char>, text: seq<Char>)
    requires Word(path) && text != [] && text[0] != SPACE
    ensures Parse(AppendLine(path, text)) == AppendTo(Cut(path), text)
  {
    var line, args := AppendLine(path, text), path + ([SPACE] + text);
    assert line[..7] == APPEND;
    assert line[6..] == [SPACE] + args;
    ArgumentsOf(path, text);
    DispatchAppend(line);
  }

  lemma ParseRm(path: seq<Char>)
    requires Word(path)
    ensures Parse(RM + path) == RemoveFile(path)
  {
    var line := RM + path;
    assert line[..3] == RM;
    assert line[2..] == [SPACE] + path;
    DispatchRm(line);
    SkipOne(path);
  }

  lemma AppendRuns(s: Store, path: seq<Char>, text: seq<Char>)
    requires Word(path) && text != [] && text[0] != SPACE
    ensures var w := Append(s, PathTo(Cut(path)), PathTo(text));
            RunLine(s, AppendLine(path, text)) == (Done(w.0), w.1)
  {
    ParseAppend(path, text);
  }

  lemma {:induction false} AppendPuts(s: Store, path: seq<Char>, text: seq<Char>)
    requires Word(path) && NameOf(PathTo(path)).Some? && |path| < NAME_SIZE
    requires text != [] && text[0] != SPACE && NUL !in text
    ensures var n := NameOf(PathTo(path)).value;
            var (r, s') := PutContent(s, n, OldContent(s, n) + text);
            RunLine(s, AppendLine(path, text)) == (Done(r), s')
  {
    AppendRuns(s, path, text);
    assert Cut(path) == path;
    assert ContentOf(PathTo(text)) == text;
  }

  lemma {:induction false} AppendThatIsCut(s: Store, path: seq<Char>, text: seq<Char>)
    requires Word(path) && NameOf(PathTo(path)).Some? && |path| >= NAME_SIZE
    requires text != [] && text[0] != SPACE && NUL !in text
    ensures var n, s' := NameOf(PathTo(path)).value, RunLine(s, AppendLine(path, text)).1;
            (n in s' <==> n in s) && (n in s ==> s'[n] == s[n])
  {
    AppendRuns(s, path, text);
    CutKeepsNameIff(path);
    AppendElsewhere(s, PathTo(Cut(path)), PathTo(text), NameOf(PathTo(path)).value);
  }

  /** "append path text" with a path that fits the name buffer: it fails if there is no such file and
      no room for one. Otherwise "rdf path" then shows the text behind what the file held, or nothing
      if it is new, unless that is too large; then a new file is left empty and an old one as it was.
      A longer path is cut, and "rdf path" shows what it did before. */
  lemma AppendThenRdf(s: Store, path: seq<Char>, text: seq<Char>)
    requires Word(path) && NameOf(PathTo(path)).Some?
    requires text != [] && text[0] != SPACE && NUL !in text
    ensures var n := NameOf(PathTo(path)).value;
            var t := OldContent(s, n) + text;
            var (r, s') := RunLine(s, AppendLine(path, text));
            if |path| >= NAME_SIZE then RunLine(s', RDF + path).0 == RunLine(s, RDF + path).0
            else if n !in s && |s| >= MAX_FILES then r == Done(ErrFull) && s' == s
            else if |t| < DATA_SIZE then r == Done(FileOk) && RunLine(s', RDF + path) == (Content(t), s')
            else r == Done(ErrTooLarge) && s' == s[n := OldContent(s, n)]
  {
    var s' := RunLine(s, AppendLine(path, text)).1;
    RdfShows(s, path);
    RdfShows(s', path);
    if |path| < NAME_SIZE {
      AppendPuts(s, path, text);
    } else {
      AppendThatIsCut(s, path, text);
    }
  }

  /** The shortest path that is cut although it denotes a file: a separator and 31 letters. `rec` loses
      the last letter, so on an empty file system `rdf` does not find what was written. */
  lemma {:induction false} CutPathIsNotFound(letter: Char, text: seq<Char>)
    requires letter !in {NUL, SPACE, SLASH, BACKSLASH, DOT}
    requires text != [] && text[0] != SPACE && NUL !in text && |text| < DATA_SIZE
    ensures var name := seq(31, _ => letter);
            var path := [SLASH] + name;
            && NameOf(PathTo(path)) == Some(name)
            && NameOf(PathTo(Cut(path))) == Some(name[..30])
            && RunLine(RunLine(map[], RecLine(path, text)).1, RDF + path).0 == ContentMissing
  {
    var name := seq(31, _ => letter);
    var path := [SLASH] + name;
    NamesOfCutPath(name);
    RecThenRdf(map[], path, text);
    RdfShows(map[], path);
  }

  lemma NamesOfCutPath(name: seq<Char>)
    requires ValidName(name) && |name| == 31
    ensures var path := [SLASH] + name;
            NameOf(PathTo(path)) == Some(name) && NameOf(PathTo(Cut(path))) == Some(name[..30])
  {
    var path := [SLASH] + name;
    assert path[1..] == name && Cut(path)[1..] == name[..30];
    PathsAreSeparatorsThenName(path, name);
    PathsAreSeparatorsThenName(Cut(path), name[..30]);
  }

  lemma RmRemoves(s: Store, path: seq<Char>)
    requires Word(path) && NameOf(PathTo(path)).Some?
    ensures var n := NameOf(PathTo(path)).value;
            RunLine(s, RM + path) == (Done(if n in s then FileOk else ErrNotFound), s - {n})
  {
    ParseRm(path);
    var n := NameOf(PathTo(path)).value;
    assert n !in s ==> s - {n} == s;
  }

  /** "rm path" makes the file unreadable and leaves every other file alone. */
  lemma RmThenRdf(s: Store, path: seq<Char>)
    requires Word(path) && NameOf(PathTo(path)).Some?
    ensures var n := NameOf(PathTo(path)).value;
            var (r, s') := RunLine(s, RM + path);
            && r == Done(if n in s then FileOk else ErrNotFound)
            && s' == s - {n}
            && RunLine(s', RDF + path).0 == ContentMissing
  {
    RmRemoves(s, path);
    RdfShows(s - {NameOf(PathTo(path)).value}, path);
  }

  lemma {:induction false} SkipBlanksShrinks(t: seq<Char>)
    ensures |SkipBlanks(t)| <= |t|
  {
    if t != [] && t[0] == SPACE {
      SkipBlanksShrinks(t[1..]);
    }
  }

  /** A line that fits the input buffer cannot make `rec` fail for the size of its text. */
  lemma {:induction false} ShortLineIsNeverTooLarge(s: Store, line: seq<Char>)
    requires |line| < EditorSpec.BUFFER_SIZE && Parse(line).Record?
    ensures RunLine(s, line).0 != Done(ErrTooLarge)
  {
    RecordTextIsShort(line);
  }

  lemma RecordTextIsShort(line: seq<Char>)
    requires Parse(line).Record?
    ensures |Parse(line).text| <= |line|
  {
    var args := SkipBlanks(line[3..]);
    SkipBlanksShrinks(line[3..]);
    SkipBlanksShrinks(args[WordLength(args)..]);
  }

  /** So no line ever submitted from the keyboard does, in any run of the editor. */
  lemma TypedRecIsNeverTooLarge(keys: seq<EditorSpec.Scancode>, i: nat, s: Store)
    requires i < |EditorSpec.Run(EditorSpec.FRESH, keys).2|
    requires Parse(EditorSpec.Run(EditorSpec.FRESH, keys).2[i]).Record?
    ensures RunLine(s, EditorSpec.Run(EditorSpec.FRESH, keys).2[i]).0 != Done(ErrTooLarge)
  {
    EditorSpec.SubmissionsAreEntries(EditorSpec.FRESH, keys, i);
    ShortLineIsNeverTooLarge(s, EditorSpec.Run(EditorSpec.FRESH, keys).2[i]);
  }
}
