/** What the keyboard does, key by key and in numbers: which scancode types which character, what a
    typed line becomes, and what every other key does. */
module EditorLaws {
  import opened Basics
  import opened CStrings
  import opened Terminal
  import opened EditorSpec

  // ---------------------------------------------------------------- runs

  lemma RunOne(e: Editor, key: Scancode)
    requires Good(e)
    ensures var effect := Step(e, key);
            Good(effect.editor) && Run(e, [key]) == (effect.editor, effect.printed, Submissions(effect))
  {
    StepKeepsGood(e, key);
    RunEffect(e, key, Step(e, key));
  }

  lemma RunEffect(e: Editor, key: Scancode, effect: Effect)
    requires Good(e) && effect == Step(e, key) && Good(effect.editor)
    ensures Run(e, [key]) == (effect.editor, effect.printed, Submissions(effect))
  {
    var keys: seq<Scancode> := [key];
    assert keys[1..] == [];
    assert effect.printed + [] == effect.printed && Submissions(effect) + [] == Submissions(effect);
  }

  /** The first step of a run and the rest of it. */
  lemma RunRest(e: Editor, keys: seq<Scancode>, effect: Effect)
    requires Good(e) && keys != [] && effect == Step(e, keys[0])
    ensures Good(effect.editor)
    ensures var (e', printed, lines) := Run(effect.editor, keys[1..]);
            Run(e, keys) == (e', effect.printed + printed, Submissions(effect) + lines)
  {
    StepKeepsGood(e, keys[0]);
  }

  lemma Associate<T>(a: seq<T>, b: seq<T>, c: seq<T>)
    ensures a + (b + c) == a + b + c
  {
  }

  lemma {:induction false} RunJoin(e: Editor, a: seq<Scancode>, b: seq<Scancode>)
    requires Good(e)
    ensures var (e1, printed, lines) := Run(e, a);
            var (e2, printed2, lines2) := Run(e1, b);
            Run(e, a + b) == (e2, printed + printed2, lines + lines2)
    decreases |a|
  {
    if a == [] {
      assert a + b == b;
      Associate([], Run(e, b).1, []);
      assert [] + Run(e, b).1 == Run(e, b).1 && [] + Run(e, b).2 == Run(e, b).2;
    } else {
      StepKeepsGood(e, a[0]);
      RunJoinFirst(e, a, b, Step(e, a[0]));
    }
  }

  /** The first step of the joined run. */
  lemma JoinRest(e: Editor, a: seq<Scancode>, b: seq<Scancode>, first: Effect)
    requires Good(e) && a != [] && first == Step(e, a[0]) && Good(first.editor)
    ensures var (e', printed, lines) := Run(first.editor, a[1..] + b);
            Run(e, a + b) == (e', first.printed + printed, Submissions(first) + lines)
  {
    assert (a + b)[0] == a[0] && (a + b)[1..] == a[1..] + b;
    RunRest(e, a + b, first);
  }

  lemma {:induction false} RunJoinFirst(e: Editor, a: seq<Scancode>, b: seq<Scancode>, first: Effect)
    requires Good(e) && a != [] && first == Step(e, a[0]) && Good(first.editor)
    ensures var (e1, printed, lines) := Run(e, a);
            var (e2, printed2, lines2) := Run(e1, b);
            Run(e, a + b) == (e2, printed + printed2, lines + lines2)
    decreases |a|, 0
  {
    RunJoin(first.editor, a[1..], b);
    RunRest(e, a, first);
    JoinRest(e, a, b, first);
    var (e1, printed, lines) := Run(first.editor, a[1..]);
    var (e2, printed2, lines2) := Run(e1, b);
    Associate(first.printed, printed, printed2);
    Associate(Submissions(first), lines, lines2);
  }

  // ---------------------------------------------------------------- the key table

  lemma {:induction false} TableAt(table: string, i: nat)
    requires i < |table|
    ensures TableChar(table, i) == table[i] as int % 256
    decreases i
  {
    if i > 0 {
      TableAt(table[1..], i - 1);
    }
  }

  /** The key types `plain` alone and `shifted` together with shift. */
  predicate Types(key: int, plain: int, shifted: int) {
    0 <= key < KEY_COUNT && KeyChar(key, false) == plain && KeyChar(key, true) == shifted
  }

  /** The keys from `start` on type these characters. */
  predicate Row(start: nat, plain: string, shifted: string) {
    |plain| == |shifted| && forall i :: 0 <= i < |plain| ==> Types(start + i, plain[i] as int, shifted[i] as int)
  }

  predicate RowIn(table: string, start: nat, row: string) {
    start + |row| <= |table| && forall i :: 0 <= i < |row| ==> table[start + i] == row[i] && row[i] as int < 256
  }

  lemma CharOfRow(table: string, start: nat, row: string, i: nat)
    requires RowIn(table, start, row) && i < |row|
    ensures TableChar(table, start + i) == row[i] as int
  {
    TableAt(table, start + i);
  }

  lemma RowOfTables(start: nat, plain: string, shifted: string)
    requires RowIn(KEYS, start, plain) && RowIn(SHIFTED_KEYS, start, shifted)
    requires |plain| == |shifted| && start + |plain| <= KEY_COUNT
    ensures Row(start, plain, shifted)
  {
    forall i | 0 <= i < |plain|
      ensures Types(start + i, plain[i] as int, shifted[i] as int)
    {
      CharOfRow(KEYS, start, plain, i);
      CharOfRow(SHIFTED_KEYS, start, shifted, i);
    }
  }

  lemma DigitRow()
    ensures Row(0x02, "1234567890-=", "!@#$%^&*()_+")
  {
    DigitRowPlain();
    DigitRowShifted();
    RowOfTables(0x02, "1234567890-=", "!@#$%^&*()_+");
  }

  lemma DigitRowPlain()
    ensures RowIn(KEYS, 0x02, "1234567890-=")
  {
  }

  lemma DigitRowShifted()
    ensures RowIn(SHIFTED_KEYS, 0x02, "!@#$%^&*()_+")
  {
  }

  lemma TopRow()
    ensures Row(0x10, "qwertyuiop[]", "QWERTYUIOP{}")
  {
    TopRowPlain();
    TopRowShifted();
    RowOfTables(0x10, "qwertyuiop[]", "QWERTYUIOP{}");
  }

  lemma TopRowPlain()
    ensures RowIn(KEYS, 0x10, "qwertyuiop[]")
  {
  }

  lemma TopRowShifted()
    ensures RowIn(SHIFTED_KEYS, 0x10, "QWERTYUIOP{}")
  {
  }

  lemma HomeRow()
    ensures Row(0x1E, "asdfghjkl;'`", "ASDFGHJKL:\"~")
  {
    HomeRowPlain();
    HomeRowShifted();
    RowOfTables(0x1E, "asdfghjkl;'`", "ASDFGHJKL:\"~");
  }

  lemma HomeRowPlain()
    ensures RowIn(KEYS, 0x1E, "asdfghjkl;'`")
  {
  }

  lemma HomeRowShifted()
    ensures RowIn(SHIFTED_KEYS, 0x1E, "ASDFGHJKL:\"~")
  {
  }

  lemma BottomRow()
    ensures Row(0x2B, "\\zxcvbnm,./", "|ZXCVBNM<>?")
  {
    BottomRowPlain();
    BottomRowShifted();
    RowOfTables(0x2B, "\\zxcvbnm,./", "|ZXCVBNM<>?");
  }

  lemma BottomRowPlain()
    ensures RowIn(KEYS, 0x2B, "\\zxcvbnm,./")
  {
  }

  lemma BottomRowShifted()
    ensures RowIn(SHIFTED_KEYS, 0x2B, "|ZXCVBNM<>?")
  {
  }

  lemma CharIs(table: string, i: nat, c: int)
    requires i < |table| && table[i] as int == c < 256
    ensures TableChar(table, i) == c
  {
    TableAt(table, i);
  }

  lemma SingleKey(key: nat, c: int)
    requires |KEYS| == |SHIFTED_KEYS| == KEY_COUNT && key < KEY_COUNT && 0 <= c < 256
    requires KEYS[key] as int == SHIFTED_KEYS[key] as int == c
    ensures Types(key, c, c)
  {
    CharIs(KEYS, key, c);
    CharIs(SHIFTED_KEYS, key, c);
  }

  /** The other keys: escape, Backspace, tab, Enter, star and blank ... */
  lemma SingleKeys()
    ensures Types(0x01, 27, 27) && Types(0x0E, 8, 8) && Types(0x0F, 9, 9)
    ensures Types(0x1C, 10, 10) && Types(0x37, 42, 42) && Types(0x39, 32, 32)
  {
    EscapeBackspaceTab();
    EnterStarBlank();
  }

  lemma EscapeBackspaceTab()
    ensures Types(0x01, 27, 27) && Types(0x0E, 8, 8) && Types(0x0F, 9, 9)
  {
    SingleKey(0x01, 27);
    SingleKey(0x0E, 8);
    SingleKey(0x0F, 9);
  }

  lemma EnterStarBlank()
    ensures Types(0x1C, 10, 10) && Types(0x37, 42, 42) && Types(0x39, 32, 32)
  {
    SingleKey(0x1C, 10);
    SingleKey(0x37, 42);
    SingleKey(0x39, 32);
  }

  /** ... and those that type nothing. */
  lemma DeadKeys()
    ensures Types(0x00, 0, 0) && Types(0x1D, 0, 0) && Types(0x2A, 0, 0)
    ensures Types(0x36, 0, 0) && Types(0x38, 0, 0) && Types(0x3A, 0, 0)
  {
    LowDeadKeys();
    HighDeadKeys();
  }

  lemma LowDeadKeys()
    ensures Types(0x00, 0, 0) && Types(0x1D, 0, 0) && Types(0x2A, 0, 0)
  {
    SingleKey(0x00, 0);
    SingleKey(0x1D, 0);
    SingleKey(0x2A, 0);
  }

  lemma HighDeadKeys()
    ensures Types(0x36, 0, 0) && Types(0x38, 0, 0) && Types(0x3A, 0, 0)
  {
    SingleKey(0x36, 0);
    SingleKey(0x38, 0);
    SingleKey(0x3A, 0);
  }

  /** The key of each letter, from 97 on. */
  const LETTER_KEYS: seq<int> :=
    [0x1E, 0x30, 0x2E, 0x20, 0x12, 0x21, 0x22, 0x23, 0x17, 0x24, 0x25, 0x26, 0x32] +
    [0x31, 0x18, 0x19, 0x10, 0x13, 0x1F, 0x14, 0x16, 0x2F, 0x11, 0x2D, 0x15, 0x2C]

  /** A letter in a row is where `LETTER_KEYS` says; no row has Enter or Backspace in it. */
  predicate Placed(start: nat, row: string, i: nat)
    requires i < |row|
  {
    var c := row[i] as int;
    && c != 10 && c != 8 && c != 0
    && (97 <= c <= 122 ==> LETTER_KEYS[c - 97] == start + i)
  }

  lemma DigitsPlaced(i: nat)
    requires i < 12
    ensures Placed(0x02, "1234567890-=", i) && Placed(0x02, "!@#$%^&*()_+", i)
  {
  }

  lemma TopPlaced(i: nat)
    requires i < 12
    ensures Placed(0x10, "qwertyuiop[]", i) && Placed(0x10, "QWERTYUIOP{}", i)
  {
  }

  lemma HomePlaced(i: nat)
    requires i < 12
    ensures Placed(0x1E, "asdfghjkl;'`", i) && Placed(0x1E, "ASDFGHJKL:\"~", i)
  {
  }

  lemma BottomPlaced(i: nat)
    requires i < 11
    ensures Placed(0x2B, "\\zxcvbnm,./", i) && Placed(0x2B, "|ZXCVBNM<>?", i)
  {
  }

  /** What one may say of a typed character and its key. */
  predicate RightKey(key: int, c: int) {
    (c == 10 <==> key == 0x1C) && (c == 8 <==> key == 0x0E) && (97 <= c <= 122 ==> LETTER_KEYS[c - 97] == key)
  }

  lemma FromRow(start: nat, plain: string, shifted: string, key: int)
    requires Row(start, plain, shifted) && start <= key < start + |plain| && key != 0x1C && key != 0x0E
    requires Placed(start, plain, key - start) && Placed(start, shifted, key - start)
    ensures RightKey(key, KeyChar(key, false)) && RightKey(key, KeyChar(key, true))
  {
    assert Types(start + (key - start), plain[key - start] as int, shifted[key - start] as int);
  }

  lemma DigitKeyIsRight(key: int)
    requires 0x02 <= key < 0x0E
    ensures RightKey(key, KeyChar(key, false)) && RightKey(key, KeyChar(key, true))
  {
    DigitRow();
    DigitsPlaced(key - 0x02);
    FromRow(0x02, "1234567890-=", "!@#$%^&*()_+", key);
  }

  lemma TopKeyIsRight(key: int)
    requires 0x10 <= key < 0x1C
    ensures RightKey(key, KeyChar(key, false)) && RightKey(key, KeyChar(key, true))
  {
    TopRow();
    TopPlaced(key - 0x10);
    FromRow(0x10, "qwertyuiop[]", "QWERTYUIOP{}", key);
  }

  lemma HomeKeyIsRight(key: int)
    requires 0x1E <= key < 0x2A
    ensures RightKey(key, KeyChar(key, false)) && RightKey(key, KeyChar(key, true))
  {
    HomeRow();
    HomePlaced(key - 0x1E);
    FromRow(0x1E, "asdfghjkl;'`", "ASDFGHJKL:\"~", key);
  }

  lemma BottomKeyIsRight(key: int)
    requires 0x2B <= key < 0x36
    ensures RightKey(key, KeyChar(key, false)) && RightKey(key, KeyChar(key, true))
  {
    BottomRow();
    BottomPlaced(key - 0x2B);
    FromRow(0x2B, "\\zxcvbnm,./", "|ZXCVBNM<>?", key);
  }

  /** No two keys type the same letter, and no other key is Enter or Backspace, shift or not. */
  lemma KeysAreRight(key: Scancode)
    requires key < KEY_COUNT
    ensures RightKey(key, KeyChar(key, false)) && RightKey(key, KeyChar(key, true))
  {
    if 0x02 <= key < 0x0E {
      DigitKeyIsRight(key);
    } else if 0x10 <= key < 0x1C {
      TopKeyIsRight(key);
    } else if 0x1E <= key < 0x2A {
      HomeKeyIsRight(key);
    } else if 0x2B <= key < 0x36 {
      BottomKeyIsRight(key);
    } else {
      OtherKeyIsRight(key);
    }
  }

  lemma OtherKeyIsRight(key: int)
    requires key in {0x00, 0x01, 0x0E, 0x0F, 0x1C, 0x1D, 0x2A, 0x36, 0x37, 0x38, 0x39, 0x3A}
    ensures RightKey(key, KeyChar(key, false)) && RightKey(key, KeyChar(key, true))
  {
    SingleKeys();
    DeadKeys();
    assert exists c :: c in {0, 8, 9, 10, 27, 32, 42} && Types(key, c, c);
  }

  // ---------------------------------------------------------------- one key

  /** A character that ends up in the line. */
  predicate Graphic(c: int) {
    c != 0 && c != 8 && c != 10
  }

  /** A key of the table that is not shift takes the step of its character. */
  lemma TypeStep(e: Editor, key: Scancode)
    requires Good(e) && !e.extended && key < 59 && KeyChar(key, e.shift) != 0
    ensures Step(e, key) == Type(e, KeyChar(key, e.shift))
  {
    DeadKeys();
  }

  /** A key with a character adds it to the line, prints it, and ends any recall, while there are fewer
      than 255 characters; a full line stays as it is. */
  lemma CharacterKey(e: Editor, key: Scancode)
    requires Good(e) && !e.extended && key < 59 && Graphic(KeyChar(key, e.shift))
    ensures var c := KeyChar(key, e.shift);
            Run(e, [key]) == if |e.line| < 255 then (e.(line := e.line + [c], index := -1), [c], []) else (e, [], [])
  {
    RunOne(e, key);
    TypeStep(e, key);
  }

  lemma EnterStep(e: Editor)
    requires Good(e) && !e.extended
    ensures Step(e, 0x1C) == Enter(e)
  {
    EnterStarBlank();
    TypeStep(e, 0x1C);
  }

  lemma LastTenOfTyped(h: seq<seq<Char>>, line: seq<Char>)
    requires |h| <= 10
    ensures LastTen(h + [line]) == (if |h| < 10 then h else h[1..]) + [line]
  {
  }

  /** Enter submits a line that is not empty, and puts it behind the history, of which the last ten
      lines stay. On an empty line it only prints the newline. */
  lemma EnterKey(e: Editor)
    requires Good(e) && !e.extended
    ensures Run(e, [0x1C]) ==
              if e.line == [] then (e, [10], [])
              else
                var kept := if |e.history| < 10 then e.history else e.history[1..];
                (e.(line := [], history := kept + [e.line], index := -1), [10], [e.line])
  {
    RunOne(e, 0x1C);
    EnterStep(e);
    LastTenOfTyped(e.history, e.line);
  }

  /** A run of one key whose effect is known. */
  lemma RunIs(e: Editor, key: Scancode, effect: Effect)
    requires Good(e) && Step(e, key) == effect
    ensures Run(e, [key]) == (effect.editor, effect.printed, Submissions(effect))
  {
    RunOne(e, key);
  }

  lemma BackspaceStep(e: Editor)
    requires Good(e) && !e.extended
    ensures Step(e, 0x0E) == Type(e, 8)
  {
    EscapeBackspaceTab();
    TypeStep(e, 0x0E);
  }

  /** Backspace takes the last character back, if there is one. */
  lemma BackspaceKey(e: Editor)
    requires Good(e) && !e.extended
    ensures Run(e, [0x0E]) ==
              if e.line == [] then (e, [], [])
              else (e.(line := e.line[..|e.line| - 1], index := -1), [8], [])
  {
    BackspaceStep(e);
    RunIs(e, 0x0E, if e.line == [] then Effect(e, [], None)
                   else Effect(e.(line := e.line[..|e.line| - 1], index := -1), [8], None));
  }

  /** Either shift key, pressed and released. */
  lemma ShiftKeys(e: Editor, key: Scancode)
    requires Good(e) && !e.extended
    ensures key in {0x2A, 0x36} ==> Run(e, [key]) == (e.(shift := true), [], [])
    ensures key in {0xAA, 0xB6} ==> Run(e, [key]) == (e.(shift := false), [], [])
  {
    RunOne(e, key);
  }

  /** All other scancodes do nothing: keys without a character, keys behind the table, and releases. */
  lemma OtherKeys(e: Editor, key: Scancode)
    requires Good(e) && !e.extended && key !in {0xE0, 0x2A, 0x36, 0xAA, 0xB6}
    requires key >= 59 || KeyChar(key, e.shift) == 0
    ensures Run(e, [key]) == (e, [], [])
  {
    RunOne(e, key);
  }

  lemma TwoKeys(e: Editor, a: Scancode, b: Scancode)
    requires Good(e)
    ensures var first := Step(e, a);
            && Good(first.editor)
            && var second := Step(first.editor, b);
               Run(e, [a, b]) == (second.editor, first.printed + second.printed, Submissions(first) + Submissions(second))
  {
    RunOne(e, a);
    RunOne(Step(e, a).editor, b);
    RunJoin(e, [a], [b]);
    assert [a] + [b] == [a, b];
  }

  /** A scancode behind 0xE0. */
  lemma ExtendedKey(e: Editor, key: Scancode)
    requires Good(e) && !e.extended && key != 0xE0
    ensures var effect := Step(e.(extended := true), key);
            Run(e, [0xE0, key]) == (effect.editor, effect.printed, Submissions(effect))
  {
    TwoKeys(e, 0xE0, key);
    var effect := Step(e.(extended := true), key);
    assert [] + effect.printed == effect.printed && [] + Submissions(effect) == Submissions(effect);
  }

  lemma BackspacesAreEights(n: nat)
    ensures Backspaces(n) == seq(n, _ => 8)
  {
  }

  lemma ArrowEffect(e: Editor, key: Scancode)
    requires Good(e) && !e.extended && key in {0x48, 0x50}
    ensures var effect := if key == 0x48 then RecallUp(e) else RecallDown(e);
            Run(e, [0xE0, key]) == (effect.editor, effect.printed, [])
  {
    ExtendedKey(e, key);
    ArrowStep(e, key);
  }

  lemma UpEffect(e: Editor)
    requires Good(e)
    ensures RecallUp(e) ==
              if e.history == [] then Effect(e, [], None)
              else
                var i := if e.index == -1 then |e.history| - 1 else if e.index == 0 then 0 else e.index - 1;
                Effect(e.(line := e.history[i], index := i), seq(|e.line|, _ => 8) + e.history[i], None)
  {
    BackspacesAreEights(|e.line|);
  }

  lemma DownEffect(e: Editor)
    requires Good(e)
    ensures RecallDown(e) ==
              if e.index == -1 then Effect(e, [], None)
              else if e.index + 1 == |e.history| then Effect(e.(line := [], index := -1), seq(|e.line|, _ => 8), None)
              else Effect(e.(line := e.history[e.index + 1], index := e.index + 1),
                          seq(|e.line|, _ => 8) + e.history[e.index + 1], None)
  {
    BackspacesAreEights(|e.line|);
  }

  /** 0xE0 0x48 is Up: it shows the entry before the one recalled, or the newest, and stays on the
      oldest. */
  lemma UpKey(e: Editor)
    requires Good(e) && !e.extended
    ensures Run(e, [0xE0, 0x48]) ==
              if e.history == [] then (e, [], [])
              else
                var i := if e.index == -1 then |e.history| - 1 else if e.index == 0 then 0 else e.index - 1;
                (e.(line := e.history[i], index := i), seq(|e.line|, _ => 8) + e.history[i], [])
  {
    ArrowEffect(e, 0x48);
    UpEffect(e);
  }

  /** 0xE0 0x50 is Down: it shows the entry behind the one recalled, or the empty line. */
  lemma DownKey(e: Editor)
    requires Good(e) && !e.extended
    ensures Run(e, [0xE0, 0x50]) ==
              if e.index == -1 then (e, [], [])
              else if e.index + 1 == |e.history| then (e.(line := [], index := -1), seq(|e.line|, _ => 8), [])
              else (e.(line := e.history[e.index + 1], index := e.index + 1),
                    seq(|e.line|, _ => 8) + e.history[e.index + 1], [])
  {
    ArrowEffect(e, 0x50);
    DownEffect(e);
  }

  /** Any other scancode behind 0xE0, the releases of the arrows among them, does nothing, and the one
      behind it is an ordinary key again. */
  lemma OtherExtendedKey(e: Editor, key: Scancode)
    requires Good(e) && !e.extended && key !in {0xE0, 0x48, 0x50}
    ensures Run(e, [0xE0, key]) == (e, [], [])
  {
    ExtendedKey(e, key);
    assert e.(extended := true).(extended := false) == e;
  }

  // ---------------------------------------------------------------- typed lines

  /** With shift as it is, the keys type the characters of the text. */
  ghost predicate KeysOf(keys: seq<Scancode>, shift: bool, text: seq<Char>) {
    && |keys| == |text|
    && forall i :: 0 <= i < |keys| ==> keys[i] < 59 && KeyChar(keys[i], shift) == text[i] && Graphic(text[i])
  }

  lemma TakeFirst<T>(line: seq<T>, text: seq<T>)
    requires text != []
    ensures [text[0]] + text[1..] == text && line + [text[0]] + text[1..] == line + text
  {
  }

  /** Typing a text that fits puts it behind the line and on the screen. */
  lemma {:induction false} TypedText(e: Editor, keys: seq<Scancode>, text: seq<Char>)
    requires Good(e) && !e.extended && KeysOf(keys, e.shift, text) && |e.line| + |text| <= 255
    ensures Run(e, keys) == (e.(line := e.line + text, index := if text == [] then e.index else -1), text, [])
    decreases |keys|
  {
    if keys == [] {
      assert e.line + text == e.line;
    } else {
      CharacterKey(e, keys[0]);
      var e1 := e.(line := e.line + [text[0]], index := -1);
      assert Run(e, [keys[0]]) == (e1, [text[0]], []);
      TypedText(e1, keys[1..], text[1..]);
      RunJoin(e, [keys[0]], keys[1..]);
      TakeFirst([], keys);
      TakeFirst(e.line, text);
    }
  }

  /** A text typed on an empty line and followed by Enter is submitted as it was typed, becomes the
      newest of the last ten lines, and leaves an empty line with nothing recalled. */
  lemma TypedLineIsSubmitted(e: Editor, keys: seq<Scancode>, text: seq<Char>)
    requires Good(e) && !e.extended && e.line == [] && KeysOf(keys, e.shift, text) && 0 < |text| <= 255
    ensures var kept := if |e.history| < 10 then e.history else e.history[1..];
            Run(e, keys + [0x1C]) == (e.(history := kept + [text], index := -1), text + [10], [text])
  {
    TypedText(e, keys, text);
    assert e.line + text == text;
    EnterKey(e.(line := text, index := -1));
    RunJoin(e, keys, [0x1C]);
    assert [] + [text] == [text];
  }

  // ---------------------------------------------------------------- letters

  /** Pressing the key on a fresh keyboard leaves just this character in the line. */
  ghost predicate TypesAlone(key: Scancode, c: Char) {
    Run(FRESH, [key]).0.line == [c]
  }

  /** The same while a shift key is held. */
  ghost predicate TypesShifted(key: Scancode, c: Char) {
    && Run(FRESH, [0x2A, key, 0xAA]) == (FRESH.(line := [c]), [c], [])
    && Run(FRESH, [0x36, key, 0xB6]) == (FRESH.(line := [c]), [c], [])
  }

  lemma AloneIsKeyChar(key: Scancode, c: Char)
    requires Graphic(c)
    ensures TypesAlone(key, c) <==> key < 59 && KeyChar(key, false) == c
  {
    DeadKeys();
    if key in {0x2A, 0x36, 0xAA, 0xB6} {
      ShiftKeys(FRESH, key);
    } else if key == 0xE0 {
      RunOne(FRESH, key);
    } else if key >= 59 || KeyChar(key, false) == 0 {
      OtherKeys(FRESH, key);
    } else {
      KeysAreRight(key);
      EnterKey(FRESH);
      BackspaceKey(FRESH);
      if Graphic(KeyChar(key, false)) {
        CharacterKey(FRESH, key);
        assert FRESH.line + [KeyChar(key, false)] == [KeyChar(key, false)];
      }
    }
  }

  /** A key between two that print nothing. */
  lemma KeyBetween(e: Editor, a: Scancode, b: Scancode, c: Scancode, e1: Editor, e2: Editor, e3: Editor, p: seq<Char>)
    requires Good(e) && Run(e, [a]) == (e1, [], []) && Good(e1) && Run(e1, [b]) == (e2, p, [])
    requires Good(e2) && Run(e2, [c]) == (e3, [], [])
    ensures Run(e, [a, b, c]) == (e3, p, [])
  {
    RunJoin(e, [a], [b]);
    assert [a] + [b] == [a, b] && [] + p == p && p + [] == p;
    RunJoin(e, [a, b], [c]);
    assert [a, b] + [c] == [a, b, c];
  }

  lemma ShiftedIsKeyChar(key: Scancode, down: Scancode, up: Scancode)
    requires (down, up) in {(0x2A, 0xAA), (0x36, 0xB6)} && key < 59 && Graphic(KeyChar(key, true))
    ensures var c := KeyChar(key, true);
            Run(FRESH, [down, key, up]) == (FRESH.(line := [c]), [c], [])
  {
    var c := KeyChar(key, true);
    var held, typed := FRESH.(shift := true), FRESH.(shift := true, line := [c]);
    ShiftKeys(FRESH, down);
    CharacterKey(held, key);
    assert held.line + [c] == [c];
    assert Run(held, [key]) == (typed, [c], []);
    ShiftKeys(typed, up);
    KeyBetween(FRESH, down, key, up, held, typed, FRESH.(line := [c]), [c]);
  }

  /** The letter stands in a row at its key, and the capital letter in the same place of the shifted
      row. */
  predicate InRow(start: nat, plain: string, shifted: string, key: int, c: int)
    requires |plain| == |shifted|
  {
    start <= key < start + |plain| && plain[key - start] as int == c && shifted[key - start] as int == c - 32
  }

  lemma LetterIsInRow(c: int)
    requires 97 <= c <= 122
    ensures var key := LETTER_KEYS[c - 97];
            || InRow(0x10, "qwertyuiop[]", "QWERTYUIOP{}", key, c)
            || InRow(0x1E, "asdfghjkl;'`", "ASDFGHJKL:\"~", key, c)
            || InRow(0x2B, "\\zxcvbnm,./", "|ZXCVBNM<>?", key, c)
  {
  }

  lemma RowTypes(start: nat, plain: string, shifted: string, key: int, c: int)
    requires Row(start, plain, shifted) && InRow(start, plain, shifted, key, c)
    ensures Types(key, c, c - 32)
  {
    assert Types(start + (key - start), plain[key - start] as int, shifted[key - start] as int);
  }

  lemma LetterKeyTypes(c: int)
    requires 97 <= c <= 122
    ensures Types(LETTER_KEYS[c - 97], c, c - 32)
  {
    var key := LETTER_KEYS[c - 97];
    LetterIsInRow(c);
    TopRow();
    HomeRow();
    BottomRow();
    if InRow(0x10, "qwertyuiop[]", "QWERTYUIOP{}", key, c) {
      RowTypes(0x10, "qwertyuiop[]", "QWERTYUIOP{}", key, c);
    } else if InRow(0x1E, "asdfghjkl;'`", "ASDFGHJKL:\"~", key, c) {
      RowTypes(0x1E, "asdfghjkl;'`", "ASDFGHJKL:\"~", key, c);
    } else {
      RowTypes(0x2B, "\\zxcvbnm,./", "|ZXCVBNM<>?", key, c);
    }
  }

  /** The letters: each is typed by exactly one scancode, the one `LETTER_KEYS` names, and the same key
      with shift types the capital letter, whose number is 32 less. */
  lemma LettersAreTyped(c: Char, key: Scancode)
    requires 97 <= c <= 122
    ensures TypesAlone(key, c) <==> key == LETTER_KEYS[c - 97]
    ensures key == LETTER_KEYS[c - 97] ==> TypesShifted(key, c - 32)
  {
    LetterKeyTypes(c);
    AloneIsKeyChar(key, c);
    if key < 59 {
      KeysAreRight(key);
    }
    if key == LETTER_KEYS[c - 97] {
      ShiftedIsKeyChar(key, 0x2A, 0xAA);
      ShiftedIsKeyChar(key, 0x36, 0xB6);
    }
  }

  /** The digits: keys 0x02 to 0x0A type 1 to 9, and 0x0B types 0. */
  lemma DigitsAreTyped(key: Scancode)
    requires 0x02 <= key <= 0x0B
    ensures TypesAlone(key, if key == 0x0B then 48 else 47 + key)
  {
    DigitRow();
    assert Types(0x02 + (key - 0x02), "1234567890-="[key - 0x02] as int, "!@#$%^&*()_+"[key - 0x02] as int);
    AloneIsKeyChar(key, if key == 0x0B then 48 else 47 + key);
  }

  /** What any key does to a line that is not empty: only Enter submits it, only Backspace shortens
      it. */
  lemma OneEnterOneBackspace(e: Editor, key: Scancode)
    requires Good(e) && !e.extended && e.line != []
    ensures Run(e, [key]).2 != [] <==> key == 0x1C
    ensures Run(e, [key]).2 == [] && |Run(e, [key]).0.line| + 1 == |e.line| ==> key == 0x0E
    ensures key == 0x0E ==> Run(e, [key]).0.line == e.line[..|e.line| - 1]
  {
    EnterKey(e);
    BackspaceKey(e);
    if key in {0x2A, 0x36, 0xAA, 0xB6} {
      ShiftKeys(e, key);
    } else if key == 0xE0 {
      RunOne(e, key);
    } else if key >= 59 || KeyChar(key, e.shift) == 0 {
      OtherKeys(e, key);
    } else {
      KeysAreRight(key);
      if Graphic(KeyChar(key, e.shift)) {
        CharacterKey(e, key);
      }
    }
  }
}
