/** What each file command does to the files and tells the user, line by line. */
module ShellLaws {
  import opened Basics
  import opened CStrings
  import opened FileStore
  import opened ShellSpec

  /** The word spelled out, in ASCII. */
  predicate Spells(word: seq<Char>, s: string) {
    |word| == |s| && forall i :: 0 <= i < |s| ==> word[i] == s[i] as int
  }

  /** The command words. */
  lemma CommandWords()
    ensures Spells(LST, "lst") && Spells(TOUCH, "touch ") && Spells(RDF, "rdf ") && Spells(REC, "rec ")
    ensures Spells(APPEND, "append ") && Spells(RM, "rm ") && Spells(STAT, "stat ")
  {
  }

  // ---------------------------------------------------------------- blanks

  function Blanks(k: nat): seq<Char> {
    seq(k, _ => 32)
  }

  lemma {:induction false} SkipAllBlanks(k: nat, t: seq<Char>)
    requires t == [] || t[0] != 32
    ensures SkipBlanks(Blanks(k) + t) == t
  {
    if k == 0 {
      assert Blanks(0) + t == t;
    } else {
      SkipAllBlanks(k - 1, t);
      assert (Blanks(k) + t)[1..] == Blanks(k - 1) + t;
    }
  }

  /** A command word without its blank, some blanks, and the rest of the line. */
  function Spaced(word: seq<Char>, k: nat, rest: seq<Char>): seq<Char>
    requires word != []
  {
    word[..|word| - 1] + Blanks(k) + rest
  }

  lemma SpacedLine(word: seq<Char>, k: nat, rest: seq<Char>)
    requires word != [] && word[|word| - 1] == 32 && k > 0 && (rest == [] || rest[0] != 32)
    ensures StartsWith(Spaced(word, k, rest), word)
    ensures SkipBlanks(Spaced(word, k, rest)[|word| - 1..]) == rest
  {
    var line, n := Spaced(word, k, rest), |word| - 1;
    assert line[..|word|] == word;
    assert line[n..] == Blanks(k) + rest;
    SkipAllBlanks(k, rest);
  }

  /** Any number of blanks separates a command from its path. */
  lemma PathCommands(path: seq<Char>, k: nat)
    requires k > 0 && (path == [] || path[0] != 32)
    ensures Parse(Spaced(TOUCH, k, path)) == Touch(path)
    ensures Parse(Spaced(RDF, k, path)) == ReadFile(path)
    ensures Parse(Spaced(RM, k, path)) == RemoveFile(path)
    ensures Parse(Spaced(STAT, k, path)) == StatFile(path)
  {
    SpacedLine(TOUCH, k, path);
    SpacedLine(RDF, k, path);
    SpacedLine(RM, k, path);
    SpacedLine(STAT, k, path);
    DispatchTouch(Spaced(TOUCH, k, path));
    DispatchRdf(Spaced(RDF, k, path));
    DispatchRm(Spaced(RM, k, path));
    DispatchStat(Spaced(STAT, k, path));
  }

  lemma SpacedArguments(path: seq<Char>, k: nat, text: seq<Char>)
    requires Word(path) && (text == [] || (text[0] != 32 && k > 0))
    ensures var args := path + (Blanks(k) + text);
            Token(args, NAME_SIZE) == Cut(path) && AfterWord(args) == text
  {
    var rest := Blanks(k) + text;
    var args := path + rest;
    WordLengthOf(path, rest);
    assert args[|path|..] == rest;
    SkipAllBlanks(k, text);
    assert Token(args, NAME_SIZE) == Cut(path);
  }

  /** The same for the two commands with a text, with any blanks before the text too. Without a text
      `rec` is a usage error. */
  lemma TextCommands(path: seq<Char>, text: seq<Char>, j: nat, k: nat)
    requires Word(path) && j > 0 && (text == [] || (text[0] != 32 && k > 0))
    ensures Parse(Spaced(REC, j, path + (Blanks(k) + text)))
            == if text == [] then RecordUsage else Record(Cut(path), text)
    ensures Parse(Spaced(APPEND, j, path + (Blanks(k) + text))) == AppendTo(Cut(path), text)
  {
    var args := path + (Blanks(k) + text);
    SpacedLine(REC, j, args);
    SpacedLine(APPEND, j, args);
    SpacedArguments(path, k, text);
    assert Cut(path) != [];
    DispatchRec(Spaced(REC, j, args));
    DispatchAppend(Spaced(APPEND, j, args));
  }

  // ---------------------------------------------------------------- the commands

  /** "touch path" creates an empty file, exactly if the path denotes one, there is none yet, and there
      is room; then "rdf path" shows nothing and "stat path" a size of 0. */
  lemma TouchThenRdf(s: Store, path: seq<Char>, k: nat)
    requires Word(path) && k > 0
    ensures var (r, s') := RunLine(s, Spaced(TOUCH, k, path));
            match NameOf(PathTo(path))
            case None => r == Done(ErrInvalidName) && s' == s
            case Some(n) =>
              if n in s then r == Done(ErrExists) && s' == s
              else if |s| >= 64 then r == Done(ErrFull) && s' == s
              else
                && r == Done(FileOk) && s' == s[n := []]
                && RunLine(s', RDF + path) == (Content([]), s')
                && RunLine(s', STAT + path) == (Facts(n, 0), s')
  {
    PathCommands(path, k);
    if NameOf(PathTo(path)).Some? {
      var s' := RunLine(s, Spaced(TOUCH, k, path)).1;
      RdfShows(s', path);
      StatShows(s', path);
    }
  }

  /** A line with a path that denotes no file: `touch` and `rm` say that the name is invalid, `rdf` and
      `stat` that nothing was found, and nothing changes. */
  lemma InvalidNames(s: Store, path: seq<Char>, k: nat)
    requires Word(path) && k > 0 && NameOf(PathTo(path)).None?
    ensures RunLine(s, Spaced(TOUCH, k, path)) == (Done(ErrInvalidName), s)
    ensures RunLine(s, Spaced(RM, k, path)) == (Done(ErrInvalidName), s)
    ensures RunLine(s, Spaced(RDF, k, path)) == (ContentMissing, s)
    ensures RunLine(s, Spaced(STAT, k, path)) == (Done(ErrNotFound), s)
  {
    PathCommands(path, k);
  }

  /** A line without a path. */
  lemma MissingPaths(s: Store, k: nat)
    requires k > 0
    ensures RunLine(s, Spaced(TOUCH, k, [])) == (Done(ErrInvalidName), s)
    ensures RunLine(s, Spaced(RM, k, [])) == (Done(ErrInvalidName), s)
    ensures RunLine(s, Spaced(RDF, k, [])) == (ContentMissing, s)
    ensures RunLine(s, Spaced(STAT, k, [])) == (Done(ErrNotFound), s)
    ensures RunLine(s, Spaced(REC, k, [])) == (Usage, s)
    ensures RunLine(s, Spaced(APPEND, k, [])) == (Done(ErrInvalidName), s)
  {
    PathCommands([], k);
    SpacedLine(REC, k, []);
    SpacedLine(APPEND, k, []);
    DispatchRec(Spaced(REC, k, []));
    DispatchAppend(Spaced(APPEND, k, []));
    assert StripSeparators([]) == [];
  }

  /** The command `rec` parses to. */
  lemma RecordOutcome(s: Store, path: seq<Char>, text: seq<Char>)
    requires NUL !in text
    ensures var (r, s') := Execute(s, Record(path, text));
            match NameOf(PathTo(path))
            case None => r == Done(ErrInvalidName) && s' == s
            case Some(n) =>
              if n !in s && |s| >= 64 then r == Done(ErrFull) && s' == s
              else if |text| >= 1024 then r == Done(ErrTooLarge) && s' == if n in s then s else s[n := []]
              else r == Done(FileOk) && s' == s[n := text]
  {
    WriteCodes(s, PathTo(path), PathTo(text));
  }

  /** The command `append` parses to. */
  lemma AppendOutcome(s: Store, path: seq<Char>, text: seq<Char>)
    requires NUL !in text
    ensures var (r, s') := Execute(s, AppendTo(path, text));
            match NameOf(PathTo(path))
            case None => r == Done(ErrInvalidName) && s' == s
            case Some(n) =>
              var t := (if n in s then s[n] else []) + text;
              if n !in s && |s| >= 64 then r == Done(ErrFull) && s' == s
              else if |t| >= 1024 then r == Done(ErrTooLarge) && s' == if n in s then s else s[n := []]
              else r == Done(FileOk) && s' == s[n := t]
  {
    AppendCodes(s, PathTo(path), PathTo(text));
  }

  /** "rec path text" in full: the outcome for each path, room and text. */
  lemma RecLaw(s: Store, path: seq<Char>, text: seq<Char>, j: nat, k: nat)
    requires Word(path) && NUL !in text && j > 0 && (text == [] || (text[0] != 32 && k > 0))
    ensures var (r, s') := RunLine(s, Spaced(REC, j, path + (Blanks(k) + text)));
            if text == [] then r == Usage && s' == s
            else
              match NameOf(PathTo(Cut(path)))
              case None => r == Done(ErrInvalidName) && s' == s
              case Some(n) =>
                if n !in s && |s| >= 64 then r == Done(ErrFull) && s' == s
                else if |text| >= 1024 then r == Done(ErrTooLarge) && s' == if n in s then s else s[n := []]
                else r == Done(FileOk) && s' == s[n := text]
  {
    TextCommands(path, text, j, k);
    RecordOutcome(s, Cut(path), text);
  }

  /** "append path text" in full; without a text it only makes sure that the file is there. */
  lemma AppendLaw(s: Store, path: seq<Char>, text: seq<Char>, j: nat, k: nat)
    requires Word(path) && NUL !in text && j > 0 && (text == [] || (text[0] != 32 && k > 0))
    ensures var (r, s') := RunLine(s, Spaced(APPEND, j, path + (Blanks(k) + text)));
            match NameOf(PathTo(Cut(path)))
            case None => r == Done(ErrInvalidName) && s' == s
            case Some(n) =>
              var t := (if n in s then s[n] else []) + text;
              if n !in s && |s| >= 64 then r == Done(ErrFull) && s' == s
              else if |t| >= 1024 then r == Done(ErrTooLarge) && s' == if n in s then s else s[n := []]
              else r == Done(FileOk) && s' == s[n := t]
  {
    TextCommands(path, text, j, k);
    AppendOutcome(s, Cut(path), text);
  }

  /** "lst" lists, and a line that begins with none of the words is no file command; neither changes a
      file. */
  lemma OtherLines(s: Store, line: seq<Char>)
    ensures RunLine(s, LST) == (Listing, s)
    ensures line != LST
            && (forall word :: word in {TOUCH, RDF, REC, APPEND, RM, STAT} ==> !StartsWith(line, word))
            ==> RunLine(s, line) == (NoFileCommand, s)
  {
  }
}
