/** The line editor as a state machine over scancodes, and what every run of it keeps. */
module EditorSpec {
  import opened Basics
  import opened CStrings
  import opened Terminal

  const BUFFER_SIZE := 256
  const HISTORY_SIZE := 10
  const NO_RECALL := -1

  const EXTENDED := 0xE0
  const UP := 0x48
  const DOWN := 0x50

  datatype Editor = Editor(line: seq<Char>, history: seq<seq<Char>>, index: int, shift: bool, extended: bool)

  /** A step's new state, the characters it prints, and the line it submits. */
  datatype Effect = Effect(editor: Editor, printed: seq<Char>, submitted: Option<seq<Char>>)

  // ---------------------------------------------------------------- the keyboard

  const KEYS: string :=
    "\0\U{1B}1234567890-=\U{8}\t" +
    "qwertyuiop[]\n\0" +
    "asdfghjkl;'`\0\\" +
    "zxcvbnm,./\0*\0 \0"

  const SHIFTED_KEYS: string :=
    "\0\U{1B}!@#$%^&*()_+\U{8}\t" +
    "QWERTYUIOP{}\n\0" +
    "ASDFGHJKL:\"~\0|" +
    "ZXCVBNM<>?\0*\0 \0"

  type Scancode = s: int | 0 <= s < 256

  const KEY_COUNT := 59

  function TableChar(table: string, i: nat): Char
    requires i < |table|
    decreases i
  {
    if i == 0 then table[0] as int % 256 else TableChar(table[1..], i - 1)
  }

  function KeyChar(key: Scancode, shift: bool): Char
    requires key < KEY_COUNT
  {
    assert |KEYS| == |SHIFTED_KEYS| == KEY_COUNT;
    TableChar(if shift then SHIFTED_KEYS else KEYS, key)
  }

  // ---------------------------------------------------------------- the steps

  /** The last ten of a sequence. */
  function LastTen<T>(s: seq<T>): seq<T> {
    s[Surplus(|s|)..]
  }

  function Surplus(n: nat): (k: nat)
    ensures k <= n
  {
    if n <= HISTORY_SIZE then 0 else n - HISTORY_SIZE
  }

  /** What clearing the line prints. */
  function Erase(e: Editor): seq<Char> {
    Backspaces(|e.line|)
  }

  function ShowEntry(e: Editor, i: int): Effect
    requires 0 <= i < |e.history|
  {
    Effect(e.(line := e.history[i], index := i), Erase(e) + e.history[i], None)
  }

  function RecallUp(e: Editor): Effect
    requires NO_RECALL <= e.index < |e.history|
  {
    if e.history == [] then Effect(e, [], None)
    else ShowEntry(e, if e.index == NO_RECALL then |e.history| - 1 else if e.index > 0 then e.index - 1 else 0)
  }

  function RecallDown(e: Editor): Effect
    requires NO_RECALL <= e.index < |e.history|
  {
    if e.index == NO_RECALL then Effect(e, [], None)
    else if e.index + 1 < |e.history| then ShowEntry(e, e.index + 1)
    else Effect(e.(line := [], index := NO_RECALL), Erase(e), None)
  }

  function Enter(e: Editor): Effect {
    if e.line == [] then Effect(e, [NEWLINE], None)
    else Effect(e.(line := [], history := LastTen(e.history + [e.line]), index := NO_RECALL), [NEWLINE], Some(e.line))
  }

  function Type(e: Editor, c: Char): Effect {
    if c == NEWLINE then Enter(e)
    else if c == BACKSPACE then
      if e.line == [] then Effect(e, [], None)
      else Effect(e.(line := e.line[..|e.line| - 1], index := NO_RECALL), [BACKSPACE], None)
    else if c != NUL && |e.line| < BUFFER_SIZE - 1 then
      Effect(e.(line := e.line + [c], index := NO_RECALL), [c], None)
    else Effect(e, [], None)
  }

  function Step(e: Editor, key: Scancode): Effect
    requires NO_RECALL <= e.index < |e.history|
  {
    if key == EXTENDED then Effect(e.(extended := true), [], None)
    else if e.extended then
      var effect := if key == UP then RecallUp(e) else if key == DOWN then RecallDown(e) else Effect(e, [], None);
      effect.(editor := effect.editor.(extended := false))
    else if key == 0x2A || key == 0x36 then Effect(e.(shift := true), [], None)
    else if key == 0xAA || key == 0xB6 then Effect(e.(shift := false), [], None)
    else if key < KEY_COUNT then Type(e, KeyChar(key, e.shift))
    else Effect(e, [], None)
  }

  // ---------------------------------------------------------------- what every step keeps

  predicate LineChars(t: seq<Char>) {
    NUL !in t && Printable(t)
  }

  /** A line the history can hold. */
  predicate Entry(t: seq<Char>) {
    0 < |t| < BUFFER_SIZE && LineChars(t)
  }

  /** While an entry is recalled, the line is that entry; so it is not empty. */
  ghost predicate Good(e: Editor) {
    && |e.line| < BUFFER_SIZE && LineChars(e.line)
    && |e.history| <= HISTORY_SIZE
    && (forall i :: 0 <= i < |e.history| ==> Entry(e.history[i]))
    && NO_RECALL <= e.index < |e.history|
    && (e.index != NO_RECALL ==> e.line == e.history[e.index])
  }

  /** One step's claims, for a state `e` that is good. */
  ghost predicate KeepsGood(e: Editor, effect: Effect) {
    && Good(effect.editor)
    && (effect.submitted.Some? ==> Entry(effect.submitted.value))
    && effect.editor.history == LastTen(e.history + Submissions(effect))
  }

  lemma UpKeepsGood(e: Editor)
    requires Good(e)
    ensures KeepsGood(e, RecallUp(e))
  {
    assert e.history + [] == e.history;
  }

  lemma DownKeepsGood(e: Editor)
    requires Good(e)
    ensures KeepsGood(e, RecallDown(e))
  {
    assert e.history + [] == e.history;
  }

  lemma RecallKeepsGood(e: Editor)
    requires Good(e)
    ensures KeepsGood(e, RecallUp(e)) && KeepsGood(e, RecallDown(e))
  {
    UpKeepsGood(e);
    DownKeepsGood(e);
  }

  lemma EnterKeepsGood(e: Editor)
    requires Good(e)
    ensures KeepsGood(e, Enter(e))
  {
    assert e.history + [] == e.history;
  }

  lemma TypeKeepsGood(e: Editor, c: Char)
    requires Good(e)
    ensures KeepsGood(e, Type(e, c))
  {
    assert e.history + [] == e.history;
    if c == NEWLINE {
      EnterKeepsGood(e);
    } else if c == BACKSPACE && e.line != [] {
      assert forall x :: x in e.line[..|e.line| - 1] ==> x in e.line;
    }
  }

  lemma FlagsDoNotMatter(e: Editor, effect: Effect, shift: bool, extended: bool)
    requires KeepsGood(e, effect)
    ensures KeepsGood(e, effect.(editor := effect.editor.(shift := shift, extended := extended)))
  {
  }

  // The state alone, for the methods that carry the steps out.

  lemma RecallStaysGood(e: Editor)
    requires Good(e)
    ensures Good(RecallUp(e).editor) && Good(RecallDown(e).editor)
  {
    RecallKeepsGood(e);
  }

  lemma TypeStaysGood(e: Editor, c: Char)
    requires Good(e)
    ensures Good(Type(e, c).editor)
  {
    TypeKeepsGood(e, c);
  }

  lemma StepStaysGood(e: Editor, key: Scancode)
    requires Good(e)
    ensures Good(Step(e, key).editor)
  {
    StepKeepsGood(e, key);
  }

  lemma NoEffectKeepsGood(e: Editor)
    requires Good(e)
    ensures KeepsGood(e, Effect(e, [], None))
  {
    assert e.history + [] == e.history;
  }

  lemma StepKeepsGood(e: Editor, key: Scancode)
    requires Good(e)
    ensures KeepsGood(e, Step(e, key))
  {
    NoEffectKeepsGood(e);
    if key == EXTENDED {
      FlagsDoNotMatter(e, Effect(e, [], None), e.shift, true);
    } else if e.extended {
      RecallKeepsGood(e);
      var effect := if key == UP then RecallUp(e) else if key == DOWN then RecallDown(e) else Effect(e, [], None);
      FlagsDoNotMatter(e, effect, e.shift, false);
    } else if key in {0x2A, 0x36, 0xAA, 0xB6} {
      FlagsDoNotMatter(e, Effect(e, [], None), key == 0x2A || key == 0x36, e.extended);
    } else if key < KEY_COUNT {
      TypeKeepsGood(e, KeyChar(key, e.shift));
    }
  }

  function Submissions(effect: Effect): seq<seq<Char>> {
    if effect.submitted.Some? then [effect.submitted.value] else []
  }

  /** The state after a run, everything printed, and every line submitted. */
  ghost function Run(e: Editor, keys: seq<Scancode>): (r: (Editor, seq<Char>, seq<seq<Char>>))
    requires Good(e)
    ensures Good(r.0)
    decreases |keys|
  {
    if keys == [] then (e, [], [])
    else
      StepKeepsGood(e, keys[0]);
      var first := Step(e, keys[0]);
      var rest := Run(first.editor, keys[1..]);
      (rest.0, first.printed + rest.1, Submissions(first) + rest.2)
  }

  const FRESH: Editor := Editor([], [], NO_RECALL, false, false)

  lemma DropTwice<T>(s: seq<T>, j: nat, k: nat)
    requires j + k <= |s|
    ensures s[j..][k..] == s[j + k..]
  {
  }

  lemma LastTenAppend<T>(s: seq<T>, c: seq<T>)
    ensures LastTen(LastTen(s) + c) == LastTen(s + c)
  {
    var k := Surplus(|s|);
    assert LastTen(s) + c == (s + c)[k..];
    DropTwice(s + c, k, Surplus(|s| - k + |c|));
  }

  lemma LastTenOfConcat<T>(a: seq<T>, b: seq<T>, c: seq<T>)
    ensures LastTen(LastTen(a + b) + c) == LastTen(a + (b + c))
  {
    LastTenAppend(a + b, c);
    assert a + b + c == a + (b + c);
  }

  /** After any run the history is the last ten lines submitted, in order, added to what it was. */
  lemma {:induction false} HistoryIsLastTen(e: Editor, keys: seq<Scancode>)
    requires Good(e)
    ensures Run(e, keys).0.history == LastTen(e.history + Run(e, keys).2)
    decreases |keys|
  {
    if keys == [] {
      assert e.history + [] == e.history;
    } else {
      StepKeepsGood(e, keys[0]);
      var first := Step(e, keys[0]);
      var lines := Run(first.editor, keys[1..]).2;
      HistoryIsLastTen(first.editor, keys[1..]);
      LastTenOfConcat(e.history, Submissions(first), lines);
    }
  }

  /** Only nonempty lines of at most 255 characters are submitted. */
  lemma {:induction false} SubmissionsAreEntries(e: Editor, keys: seq<Scancode>, i: nat)
    requires Good(e) && i < |Run(e, keys).2|
    ensures Entry(Run(e, keys).2[i])
    decreases |keys|
  {
    StepKeepsGood(e, keys[0]);
    var first := Step(e, keys[0]);
    if i >= |Submissions(first)| {
      SubmissionsAreEntries(first.editor, keys[1..], i - |Submissions(first)|);
    }
  }

  lemma HistoryFromFresh(keys: seq<Scancode>)
    ensures Run(FRESH, keys).0.history == LastTen(Run(FRESH, keys).2)
  {
    HistoryIsLastTen(FRESH, keys);
    assert FRESH.history + Run(FRESH, keys).2 == Run(FRESH, keys).2;
  }

  // ---------------------------------------------------------------- recall

  /** `k` presses of an arrow key. */
  function Arrows(arrow: Scancode, k: nat): seq<Scancode> {
    if k == 0 then [] else [EXTENDED, arrow] + Arrows(arrow, k - 1)
  }

  /** An arrow key, from its first scancode to its last. */
  lemma ArrowStep(e: Editor, arrow: Scancode)
    requires Good(e) && !e.extended && arrow in {UP, DOWN}
    ensures Step(Step(e, EXTENDED).editor, arrow).editor ==
              if arrow == UP then RecallUp(e).editor else RecallDown(e).editor
  {
  }

  lemma RunFirst(e: Editor, a: Scancode, rest: seq<Scancode>)
    requires Good(e)
    ensures Good(Step(e, a).editor) && Run(e, [a] + rest).0 == Run(Step(e, a).editor, rest).0
  {
    StepKeepsGood(e, a);
    assert ([a] + rest)[1..] == rest;
  }

  lemma RunTwo(e: Editor, a: Scancode, b: Scancode, rest: seq<Scancode>)
    requires Good(e)
    ensures Good(Step(e, a).editor) && Good(Step(Step(e, a).editor, b).editor)
    ensures Run(e, [a, b] + rest).0 == Run(Step(Step(e, a).editor, b).editor, rest).0
  {
    RunFirst(e, a, [b] + rest);
    RunFirst(Step(e, a).editor, b, rest);
    assert [a, b] + rest == [a] + ([b] + rest);
  }

  /** The first of `k` arrow keys. */
  lemma FirstArrow(e: Editor, arrow: Scancode, k: nat)
    requires Good(e) && !e.extended && arrow in {UP, DOWN} && k > 0
    ensures var next := if arrow == UP then RecallUp(e).editor else RecallDown(e).editor;
            Good(next) && Run(e, Arrows(arrow, k)).0 == Run(next, Arrows(arrow, k - 1)).0
  {
    ArrowStep(e, arrow);
    RunTwo(e, EXTENDED, arrow, Arrows(arrow, k - 1));
  }

  /** `k` Ups show entry count - k, or the oldest. */
  lemma {:induction false} UpsShow(e: Editor, k: nat)
    requires Good(e) && e.history != [] && !e.extended && k > 0
    ensures var i := if e.index == NO_RECALL then |e.history| - k else e.index - k;
            var shown := if i < 0 then 0 else i;
            Run(e, Arrows(UP, k)).0 == e.(line := e.history[shown], index := shown)
    decreases k
  {
    FirstArrow(e, UP, k);
    if k > 1 {
      UpsShow(RecallUp(e).editor, k - 1);
    }
  }

  lemma {:induction false} DownsOnFreshLine(e: Editor, k: nat)
    requires Good(e) && !e.extended && e.index == NO_RECALL
    ensures Run(e, Arrows(DOWN, k)).0 == e
    decreases k
  {
    if k > 0 {
      FirstArrow(e, DOWN, k);
      DownsOnFreshLine(e, k - 1);
    }
  }

  /** The state that shows entry `i`, or the empty line behind the newest. */
  function Showing(e: Editor, i: nat): Editor {
    if i >= |e.history| then e.(line := [], index := NO_RECALL) else e.(line := e.history[i], index := i)
  }

  lemma FirstDown(e: Editor, k: nat)
    requires Good(e) && !e.extended && e.index != NO_RECALL && k > 0
    ensures var next := Showing(e, e.index + 1);
            Good(next) && Run(e, Arrows(DOWN, k)).0 == Run(next, Arrows(DOWN, k - 1)).0
  {
    FirstArrow(e, DOWN, k);
  }

  /** `k` Downs move on by `k` entries; going past the newest gives the empty line, and stays
      there. */
  lemma {:induction false} DownsShow(e: Editor, k: nat)
    requires Good(e) && !e.extended && e.index != NO_RECALL
    ensures Run(e, Arrows(DOWN, k)).0 == Showing(e, e.index + k)
    decreases k
  {
    if k > 0 {
      FirstDown(e, k);
      var next := Showing(e, e.index + 1);
      if e.index + 1 == |e.history| {
        DownsOnFreshLine(next, k - 1);
      } else {
        DownsShow(next, k - 1);
        assert Showing(next, e.index + k) == Showing(e, e.index + k);
      }
    }
  }

  lemma {:induction false} RunConcat(e: Editor, a: seq<Scancode>, b: seq<Scancode>)
    requires Good(e)
    ensures Run(e, a + b).0 == Run(Run(e, a).0, b).0
    decreases |a|
  {
    if a == [] {
      assert a + b == b;
    } else {
      StepKeepsGood(e, a[0]);
      assert (a + b)[0] == a[0] && (a + b)[1..] == a[1..] + b;
      RunConcat(Step(e, a[0]).editor, a[1..], b);
    }
  }

  /** As many Downs as Ups always end on the empty line, whatever was on the line before: the line
      being edited comes back exactly if it was empty. */
  lemma UpsThenDowns(e: Editor, k: nat)
    requires Good(e) && e.history != [] && !e.extended && e.index == NO_RECALL && k > 0
    ensures Run(e, Arrows(UP, k) + Arrows(DOWN, k)).0 == e.(line := [])
    ensures Run(e, Arrows(UP, k) + Arrows(DOWN, k)).0 == e <==> e.line == []
  {
    RunConcat(e, Arrows(UP, k), Arrows(DOWN, k));
    UpsShow(e, k);
    DownsShow(Run(e, Arrows(UP, k)).0, k);
  }

  // ---------------------------------------------------------------- shift

  /** A character key pressed between pressing and releasing a shift key adds its shifted character,
      if there is room, and leaves the keyboard unshifted. */
  lemma ShiftedKeyAddsShifted(e: Editor, key: Scancode, down: Scancode, up: Scancode)
    requires Good(e) && !e.extended && |e.line| < BUFFER_SIZE - 1
    requires (down, up) in {(0x2A, 0xAA), (0x36, 0xB6)}
    requires key < KEY_COUNT && key != 0x2A && key != 0x36
    requires KeyChar(key, true) !in {NUL, BACKSPACE, NEWLINE}
    ensures Run(e, [down, key, up]).0
            == e.(line := e.line + [KeyChar(key, true)], index := NO_RECALL, shift := false)
  {
    var pressed := e.(shift := true);
    var typed := Type(pressed, KeyChar(key, true)).editor;
    RunThree(e, down, key, up);
    ShiftStep(e, down);
    CharacterStep(pressed, key);
    ShiftStep(typed, up);
  }

  lemma RunThree(e: Editor, a: Scancode, b: Scancode, c: Scancode)
    requires Good(e)
    ensures Good(Step(e, a).editor) && Good(Step(Step(e, a).editor, b).editor)
    ensures Run(e, [a, b, c]).0 == Step(Step(Step(e, a).editor, b).editor, c).editor
  {
    RunTwo(e, a, b, [c]);
    assert [a, b] + [c] == [a, b, c];
    RunFirst(Step(Step(e, a).editor, b).editor, c, []);
    assert [c] + [] == [c];
  }

  lemma CharacterStep(e: Editor, key: Scancode)
    requires !e.extended && key < KEY_COUNT && key !in {0x2A, 0x36} && NO_RECALL <= e.index < |e.history|
    ensures Step(e, key).editor == Type(e, KeyChar(key, e.shift)).editor
  {
  }

  lemma ShiftStep(e: Editor, key: Scancode)
    requires !e.extended && key in {0x2A, 0x36, 0xAA, 0xB6} && NO_RECALL <= e.index < |e.history|
    ensures Step(e, key).editor == e.(shift := key in {0x2A, 0x36})
  {
  }

  // ---------------------------------------------------------------- what the screen shows

  /** The character a key types, or NUL if it types none. */
  function TypedChar(e: Editor, key: Scancode): Char {
    if e.extended || key in {EXTENDED, 0x2A, 0x36, 0xAA, 0xB6} || key >= KEY_COUNT then NUL
    else KeyChar(key, e.shift)
  }

  /** How many characters of the line a key takes back: all of them if it recalls an entry or clears
      the line, one if it rubs out. */
  function Erases(e: Editor, key: Scancode): nat {
    if e.extended && ((key == UP && e.history != []) || (key == DOWN && e.index != NO_RECALL)) then |e.line|
    else if TypedChar(e, key) == BACKSPACE && e.line != [] then 1
    else 0
  }

  /** A step erases `n` characters at the end of the line and types others in their place. */
  ghost predicate Echoes(e: Editor, effect: Effect, n: nat) {
    exists text :: EchoesText(e, effect, n, text)
  }

  ghost predicate EchoesText(e: Editor, effect: Effect, n: nat, text: seq<Char>) {
    && n <= |e.line| && Printable(text)
    && effect.printed == Backspaces(n) + text
    && effect.editor.line == e.line[..|e.line| - n] + text
  }

  lemma NothingEchoes(e: Editor, effect: Effect)
    requires effect.printed == [] && effect.editor.line == e.line
    ensures Echoes(e, effect, 0)
  {
    assert Backspaces(0) + [] == [] && e.line[..|e.line|] + [] == e.line;
    assert EchoesText(e, effect, 0, []);
  }

  lemma TypeEchoes(e: Editor, c: Char)
    requires c != NEWLINE
    ensures Echoes(e, Type(e, c), if c == BACKSPACE && e.line != [] then 1 else 0)
  {
    var effect := Type(e, c);
    if effect.printed == [] {
      NothingEchoes(e, effect);
    } else if c == BACKSPACE {
      assert Backspaces(1) + [] == [BACKSPACE] && effect.editor.line + [] == effect.editor.line;
      assert EchoesText(e, effect, 1, []);
    } else {
      assert Backspaces(0) + [c] == [c] && e.line[..|e.line|] == e.line;
      assert EchoesText(e, effect, 0, [c]);
    }
  }

  lemma ReplacedLineEchoes(e: Editor, effect: Effect)
    requires effect.printed == Erase(e) + effect.editor.line && Printable(effect.editor.line)
    ensures Echoes(e, effect, |e.line|)
  {
    assert e.line[..0] + effect.editor.line == effect.editor.line;
    assert EchoesText(e, effect, |e.line|, effect.editor.line);
  }

  lemma RecallEchoes(e: Editor)
    requires Good(e)
    ensures Echoes(e, RecallUp(e), if e.history == [] then 0 else |e.line|)
    ensures Echoes(e, RecallDown(e), if e.index == NO_RECALL then 0 else |e.line|)
  {
    RecallStaysGood(e);
    assert Erase(e) + [] == Erase(e);
    if e.history == [] {
      NothingEchoes(e, RecallUp(e));
    } else {
      ReplacedLineEchoes(e, RecallUp(e));
    }
    if e.index == NO_RECALL {
      NothingEchoes(e, RecallDown(e));
    } else {
      ReplacedLineEchoes(e, RecallDown(e));
    }
  }

  lemma FlagsDoNotEcho(e: Editor, effect: Effect, n: nat, extended: bool)
    requires Echoes(e, effect, n)
    ensures Echoes(e, effect.(editor := effect.editor.(extended := extended)), n)
  {
    var text :| EchoesText(e, effect, n, text);
    assert EchoesText(e, effect.(editor := effect.editor.(extended := extended)), n, text);
  }

  lemma StepEchoes(e: Editor, key: Scancode)
    requires Good(e) && TypedChar(e, key) != NEWLINE
    ensures Echoes(e, Step(e, key), Erases(e, key))
  {
    if key == EXTENDED {
      NothingEchoes(e, Step(e, key));
    } else if e.extended {
      RecallEchoes(e);
      NothingEchoes(e, Effect(e, [], None));
      var effect := if key == UP then RecallUp(e) else if key == DOWN then RecallDown(e) else Effect(e, [], None);
      FlagsDoNotEcho(e, effect, Erases(e, key), false);
    } else if key in {0x2A, 0x36, 0xAA, 0xB6} || key >= KEY_COUNT {
      NothingEchoes(e, Step(e, key));
    } else {
      TypeEchoes(e, KeyChar(key, e.shift));
    }
  }

  /** What a key takes back stands in the row of the cursor, on a terminal where the line began at
      `t`. */
  predicate ErasesInRow(t: Term, e: Editor, key: Scancode) {
    Erases(e, key) <= (t.x + |e.line|) % WIDTH
  }

  lemma {:induction false} EffectShowsIff(t: Term, e: Editor, effect: Effect, n: nat)
    requires t.Valid() && Printable(e.line) && Echoes(e, effect, n)
    ensures Feed(Feed(t, e.line), effect.printed) == Feed(t, effect.editor.line) <==> n <= (t.x + |e.line|) % WIDTH
  {
    var text :| EchoesText(e, effect, n, text);
    RewriteShowsIff(t, e.line, n, text);
  }

  /** One key other than Enter: the terminal that showed the line shows the new line, exactly when what
      the key takes back stands in the row of the cursor. */
  lemma {:induction false} EchoStepIff(t: Term, e: Editor, key: Scancode)
    requires t.Valid() && Good(e) && TypedChar(e, key) != NEWLINE
    ensures Feed(Feed(t, e.line), Step(e, key).printed) == Feed(t, Step(e, key).editor.line)
            <==> ErasesInRow(t, e, key)
  {
    StepEchoes(e, key);
    EffectShowsIff(t, e, Step(e, key), Erases(e, key));
  }

  /** No key of the run is Enter. */
  ghost predicate NeverEnters(e: Editor, keys: seq<Scancode>)
    requires Good(e)
    decreases |keys|
  {
    keys == [] ||
    (StepKeepsGood(e, keys[0]);
     TypedChar(e, keys[0]) != NEWLINE && NeverEnters(Step(e, keys[0]).editor, keys[1..]))
  }

  /** No key of the run takes back more than stands in the row of the cursor. */
  ghost predicate AllEraseInRow(t: Term, e: Editor, keys: seq<Scancode>)
    requires Good(e)
    decreases |keys|
  {
    keys == [] ||
    (StepKeepsGood(e, keys[0]);
     ErasesInRow(t, e, keys[0]) && AllEraseInRow(t, Step(e, keys[0]).editor, keys[1..]))
  }

  /** Before the first key, after the last and between any two, the terminal `now` shows the line that
      began at `t`. */
  ghost predicate ShowsThroughout(t: Term, now: Term, e: Editor, keys: seq<Scancode>)
    requires t.Valid() && now.Valid() && Good(e)
    decreases |keys|
  {
    && now == Feed(t, e.line)
    && (keys == [] ||
        (StepKeepsGood(e, keys[0]);
         ShowsThroughout(t, Feed(now, Step(e, keys[0]).printed), Step(e, keys[0]).editor, keys[1..])))
  }

  /** Over every run without Enter, the terminal shows the line in the buffer all the time, however
      long it is, exactly when no key takes back more than stands in the row of the cursor. */
  lemma {:induction false} ScreenShowsLineIff(t: Term, e: Editor, keys: seq<Scancode>)
    requires t.Valid() && Good(e) && NeverEnters(e, keys)
    ensures ShowsThroughout(t, Feed(t, e.line), e, keys) <==> AllEraseInRow(t, e, keys)
    decreases |keys|
  {
    if keys != [] {
      StepKeepsGood(e, keys[0]);
      EchoStepIff(t, e, keys[0]);
      ScreenShowsLineIff(t, Step(e, keys[0]).editor, keys[1..]);
    }
  }

  /** In particular at its end. */
  lemma {:induction false} ScreenShowsLine(t: Term, e: Editor, keys: seq<Scancode>)
    requires t.Valid() && Good(e) && NeverEnters(e, keys) && AllEraseInRow(t, e, keys)
    ensures Feed(Feed(t, e.line), Run(e, keys).1) == Feed(t, Run(e, keys).0.line)
    decreases |keys|
  {
    if keys != [] {
      StepKeepsGood(e, keys[0]);
      var first := Step(e, keys[0]);
      EchoStepIff(t, e, keys[0]);
      ScreenShowsLine(t, first.editor, keys[1..]);
      FeedConcat(Feed(t, e.line), first.printed, Run(first.editor, keys[1..]).1);
    }
  }
}
