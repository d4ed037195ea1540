/** The keyboard interrupt as a whole: the line editor, and the shell it hands its lines to. */
module Session {
  import opened Basics
  import opened CStrings
  import opened FileStore
  import opened ShellSpec
  import EditorLaws
  import EditorSpec
  import LineEditor
  import Shell
  import Vfs

  /** The outcomes of the lines, one after the other, and the files in the end. */
  function RunLines(s: Store, lines: seq<seq<Char>>): (seq<Outcome>, Store)
    decreases |lines|
  {
    if lines == [] then ([], s)
    else
      var (r, s') := RunLine(s, lines[0]);
      var (rest, last) := RunLines(s', lines[1..]);
      ([r] + rest, last)
  }

  lemma {:induction false} RunLinesConcat(s: Store, a: seq<seq<Char>>, b: seq<seq<Char>>)
    ensures var (r, s') := RunLines(s, a);
            RunLines(s, a + b) == (r + RunLines(s', b).0, RunLines(s', b).1)
    decreases |a|
  {
    if a == [] {
      assert a + b == b;
      assert RunLines(s, a).0 + RunLines(s, b).0 == RunLines(s, b).0;
    } else {
      var (r, s') := RunLine(s, a[0]);
      var (rest, last) := RunLines(s', a[1..]);
      RunLinesConcat(s', a[1..], b);
      Concat3([r], rest, RunLines(last, b).0);
      assert (a + b)[0] == a[0] && (a + b)[1..] == a[1..] + b;
    }
  }

  lemma Concat3<T>(a: seq<T>, b: seq<T>, c: seq<T>)
    ensures a + b + c == a + (b + c)
  {
  }

  /** The first key of a run, with what it submits, and the rest. */
  lemma FirstKey(e: EditorSpec.Editor, s: Store, keys: seq<EditorSpec.Scancode>)
    requires EditorSpec.Good(e) && keys != []
    ensures var first := EditorSpec.Step(e, keys[0]);
            EditorSpec.Good(first.editor) &&
            var (r, s') := RunLines(s, EditorSpec.Submissions(first));
            var (e', printed, lines) := EditorSpec.Run(first.editor, keys[1..]);
            && EditorSpec.Run(e, keys).0 == e' && EditorSpec.Run(e, keys).1 == first.printed + printed
            && RunLines(s, EditorSpec.Run(e, keys).2) == (r + RunLines(s', lines).0, RunLines(s', lines).1)
  {
    EditorSpec.StepKeepsGood(e, keys[0]);
    var first := EditorSpec.Step(e, keys[0]);
    RunLinesConcat(s, EditorSpec.Submissions(first), EditorSpec.Run(first.editor, keys[1..]).2);
  }

  lemma RunOneLine(s: Store, line: seq<Char>)
    ensures RunLines(s, [line]) == ([RunLine(s, line).0], RunLine(s, line).1)
  {
    var lines: seq<seq<Char>> := [line];
    assert lines[1..] == [];
    assert [RunLine(s, line).0] + RunLines(RunLine(s, line).1, lines[1..]).0 == [RunLine(s, line).0];
  }

  /** A command takes one of the steps of the file map, or none. */
  lemma ExecuteKeepsWellFormed(s: Store, c: Command)
    requires WellFormed(s)
    ensures WellFormed(Execute(s, c).1)
  {
    match c
    case Touch(path) => ExecKeepsWellFormed(s, OpCreate(PathTo(path)));
    case Record(path, text) => ExecKeepsWellFormed(s, OpWrite(PathTo(path), PathTo(text)));
    case AppendTo(path, text) => ExecKeepsWellFormed(s, OpAppend(PathTo(path), PathTo(text)));
    case RemoveFile(path) => ExecKeepsWellFormed(s, OpRemove(PathTo(path)));
    case _ =>
  }

  class Session {
    const editor: LineEditor.LineEditor
    const shell: Shell.Shell
    var outcomes: seq<Outcome>  // what every command has told the user

    ghost predicate Valid()
      reads this, editor, editor.inputBuffer, editor.history, shell.vfs, shell.vfs.files
    {
      editor.Valid() && shell.vfs.Valid()
    }

    /** The state the machine boots into. */
    constructor ()
      ensures Valid() && fresh(editor) && fresh(editor.inputBuffer) && fresh(editor.history)
      ensures fresh(shell.vfs) && fresh(shell.vfs.files)
      ensures editor.state == EditorSpec.FRESH && shell.vfs.store == map[] && outcomes == []
    {
      var files := new Vfs.FileSystem();
      editor := new LineEditor.LineEditor();
      shell := new Shell.Shell(files);
      outcomes := [];
    }

    /** One interrupt: the editor's step, and the command if it submits one. */
    method KeyboardInterrupt(scancode: EditorSpec.Scancode)
      requires Valid()
      modifies this, editor, editor.inputBuffer, editor.history, shell.vfs, shell.vfs.files
      ensures Valid()
      ensures var effect := EditorSpec.Step(old(editor.state), scancode);
              var (r, s) := RunLines(old(shell.vfs.store), EditorSpec.Submissions(effect));
              && editor.state == effect.editor && editor.printed == old(editor.printed) + effect.printed
              && outcomes == old(outcomes) + r && shell.vfs.store == s
    {
      EditorSpec.StepKeepsGood(editor.state, scancode);
      var command := editor.KeyboardHandler(scancode);
      if command.Some? {
        var line := command.value;
        RunOneLine(shell.vfs.store, line);
        var r := shell.ExecuteCommand(Buffer(line));
        outcomes := outcomes + [r];
      }
    }

    /** Any scancodes, one interrupt each: the files and what the user was told are those of executing
        the submitted lines in their order. */
    method Interrupts(keys: seq<EditorSpec.Scancode>)
      requires Valid()
      modifies this, editor, editor.inputBuffer, editor.history, shell.vfs, shell.vfs.files
      ensures Valid()
      ensures var (e, printed, lines) := EditorSpec.Run(old(editor.state), keys);
              var (r, s) := RunLines(old(shell.vfs.store), lines);
              && editor.state == e && editor.printed == old(editor.printed) + printed
              && outcomes == old(outcomes) + r && shell.vfs.store == s
      decreases |keys|
    {
      if keys == [] {
        return;
      }
      FirstKey(editor.state, shell.vfs.store, keys);
      KeyboardInterrupt(keys[0]);
      ghost var (e, rest, lines) := EditorSpec.Run(editor.state, keys[1..]);
      ghost var (r, s) := RunLines(shell.vfs.store, lines);
      Interrupts(keys[1..]);
      Concat3(old(editor.printed), EditorSpec.Step(old(editor.state), keys[0]).printed, rest);
      Concat3(old(outcomes), RunLines(old(shell.vfs.store), EditorSpec.Submissions(EditorSpec.Step(old(editor.state), keys[0]))).0, r);
    }
  }

  // ---------------------------------------------------------------- from boot

  /** What any scancodes typed at boot do to the files. */
  ghost function FilesAfter(keys: seq<EditorSpec.Scancode>): Store {
    RunLines(map[], EditorSpec.Run(EditorSpec.FRESH, keys).2).1
  }

  lemma {:induction false} RunLinesKeepWellFormed(s: Store, lines: seq<seq<Char>>)
    requires WellFormed(s)
    ensures WellFormed(RunLines(s, lines).1)
    decreases |lines|
  {
    if lines != [] {
      ExecuteKeepsWellFormed(s, Parse(lines[0]));
      RunLinesKeepWellFormed(RunLine(s, lines[0]).1, lines[1..]);
    }
  }

  /** Whatever is typed, there are at most 64 files, with valid names and contents that fit. */
  lemma TypedFilesAreWellFormed(keys: seq<EditorSpec.Scancode>)
    ensures WellFormed(FilesAfter(keys))
  {
    RunLinesKeepWellFormed(map[], EditorSpec.Run(EditorSpec.FRESH, keys).2);
  }

  // ---------------------------------------------------------------- typed lines

  /** The scancodes of several lines, each ended by Enter. */
  function AllKeys(keys: seq<seq<EditorSpec.Scancode>>): seq<EditorSpec.Scancode> {
    if keys == [] then [] else keys[0] + [0x1C] + AllKeys(keys[1..])
  }

  /** The keys of each line type its text, which fits the buffer. */
  ghost predicate KeysOfAll(keys: seq<seq<EditorSpec.Scancode>>, texts: seq<seq<Char>>) {
    && |keys| == |texts|
    && forall i :: 0 <= i < |keys| ==> EditorLaws.KeysOf(keys[i], false, texts[i]) && 0 < |texts[i]| <= 255
  }

  lemma {:induction false} TypedLinesAreSubmitted(e: EditorSpec.Editor, keys: seq<seq<EditorSpec.Scancode>>,
                                                  texts: seq<seq<Char>>)
    requires EditorSpec.Good(e) && !e.extended && !e.shift && e.line == [] && KeysOfAll(keys, texts)
    ensures EditorSpec.Run(e, AllKeys(keys)).2 == texts
    decreases |keys|
  {
    if keys != [] {
      var first := keys[0] + [0x1C];
      EditorLaws.TypedLineIsSubmitted(e, keys[0], texts[0]);
      var e' := EditorSpec.Run(e, first).0;
      TypedLinesAreSubmitted(e', keys[1..], texts[1..]);
      EditorLaws.RunJoin(e, first, AllKeys(keys[1..]));
      assert [texts[0]] + texts[1..] == texts;
    }
  }

  /** From boot on, lines that are typed and ended by Enter are executed as they were typed, in their
      order. */
  lemma TypedLinesAreExecuted(keys: seq<seq<EditorSpec.Scancode>>, texts: seq<seq<Char>>)
    requires KeysOfAll(keys, texts)
    ensures FilesAfter(AllKeys(keys)) == RunLines(map[], texts).1
    ensures OutcomesAfter(AllKeys(keys)) == RunLines(map[], texts).0
  {
    TypedLinesAreSubmitted(EditorSpec.FRESH, keys, texts);
  }

  ghost function OutcomesAfter(keys: seq<EditorSpec.Scancode>): seq<Outcome> {
    RunLines(map[], EditorSpec.Run(EditorSpec.FRESH, keys).2).0
  }

  const REC_A_B: seq<EditorSpec.Scancode> := [0x13, 0x12, 0x2E, 0x39, 0x1E, 0x39, 0x30]
  const RDF_A: seq<EditorSpec.Scancode> := [0x13, 0x20, 0x21, 0x39, 0x1E]

  lemma LetterTyped(c: int)
    requires 97 <= c <= 122
    ensures EditorSpec.KeyChar(EditorLaws.LETTER_KEYS[c - 97], false) == c
  {
    EditorLaws.LetterKeyTypes(c);
  }

  lemma KeysOfRec()
    ensures EditorLaws.KeysOf(REC_A_B, false, REC_LINE)
  {
    EditorLaws.EnterStarBlank();
    LetterTyped(114);
    LetterTyped(101);
    LetterTyped(99);
    LetterTyped(97);
    LetterTyped(98);
  }

  lemma KeysOfRdf()
    ensures EditorLaws.KeysOf(RDF_A, false, RDF_LINE)
  {
    EditorLaws.EnterStarBlank();
    LetterTyped(114);
    LetterTyped(100);
    LetterTyped(102);
    LetterTyped(97);
  }

  lemma TwoLines(s: Store, first: seq<Char>, second: seq<Char>)
    ensures var (r1, s1) := RunLine(s, first);
            var (r2, s2) := RunLine(s1, second);
            RunLines(s, [first, second]) == ([r1, r2], s2)
  {
    var lines, last: seq<seq<Char>> := [first, second], [second];
    var (r1, s1) := RunLine(s, first);
    RunOneLine(s1, second);
    assert lines[1..] == last;
    assert [r1] + [RunLine(s1, second).0] == [r1, RunLine(s1, second).0];
  }

  /** The two lines, "rec a b" and "rdf a", in ASCII. */
  const REC_LINE: seq<Char> := [114, 101, 99, 32, 97, 32, 98]
  const RDF_LINE: seq<Char> := [114, 100, 102, 32, 97]

  lemma CommandsInAscii()
    ensures REC_LINE == RecLine([97], [98]) && RDF_LINE == RDF + [97]
  {
  }

  lemma RecThenRdfOfA()
    ensures RunLines(map[], [REC_LINE, RDF_LINE]) == ([Done(FileOk), Content([98])], map[[97] := [98]])
  {
    var path: seq<Char>, text: seq<Char> := [97], [98];
    var s: Store := map[];
    NameDenotesItself(path);
    RecThatFits(s, path, text);
    RdfShows(s[path := text], path);
    CommandsInAscii();
    TwoLines(s, RecLine(path, text), RDF + path);
  }

  lemma TwoLinesOfKeys(first: seq<EditorSpec.Scancode>, second: seq<EditorSpec.Scancode>)
    ensures AllKeys([first, second]) == first + [0x1C] + (second + [0x1C])
  {
    var keys, last: seq<seq<EditorSpec.Scancode>> := [first, second], [second];
    assert keys[1..] == last && last[1..] == [];
    assert AllKeys(last) == second + [0x1C];
  }

  /** The whole way once, from scancodes to what is told: "rec a b" and "rdf a" typed at boot write a
      file a with the content b, and show it. */
  lemma TypedRecThenRdf()
    ensures var keys := REC_A_B + [0x1C] + (RDF_A + [0x1C]);
            && FilesAfter(keys) == map[[97] := [98]]
            && OutcomesAfter(keys) == [Done(FileOk), Content([98])]
  {
    KeysOfRec();
    KeysOfRdf();
    TwoLinesOfKeys(REC_A_B, RDF_A);
    TypedLinesAreExecuted([REC_A_B, RDF_A], [REC_LINE, RDF_LINE]);
    RecThenRdfOfA();
  }

  /** The machine from boot: every scancode is one interrupt. */
  method TypeAtBoot(keys: seq<EditorSpec.Scancode>) returns (session: Session)
    ensures fresh(session) && session.Valid()
    ensures session.shell.vfs.store == FilesAfter(keys)
    ensures session.outcomes == OutcomesAfter(keys)
    ensures session.editor.state == EditorSpec.Run(EditorSpec.FRESH, keys).0
  {
    session := new Session();
    session.Interrupts(keys);
  }
}
