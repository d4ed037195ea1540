/** The file system as its callers see it: a partial map from names to contents. */
module FileStore {
  import opened Basics
  import opened CStrings

  const MAX_FILES := 64
  const NAME_SIZE := 32
  const DATA_SIZE := 1024
  const SLASH: Char := 47
  const BACKSLASH: Char := 92
  const DOT: Char := 46

  datatype FileResult = FileOk | ErrNotFound | ErrExists | ErrFull | ErrInvalidName | ErrTooLarge

  type Store = map<seq<Char>, seq<Char>>

  // ---------------------------------------------------------------- names

  predicate IsSeparator(c: Char) {
    c == SLASH || c == BACKSLASH
  }

  function StripSeparators(t: seq<Char>): seq<Char> {
    if t != [] && IsSeparator(t[0]) then StripSeparators(t[1..]) else t
  }

  predicate ValidName(n: seq<Char>) {
    && 1 <= |n| < NAME_SIZE
    && NUL !in n
    && n[0] != DOT
    && forall i :: 0 <= i < |n| ==> !IsSeparator(n[i])
  }

  /** The name of the file a path denotes. */
  function NameOf(path: Pointer): Option<seq<Char>>
    requires StringOrNull(path)
  {
    if path.Null? then None
    else
      var n := StripSeparators(Text(path.buffer));
      if ValidName(n) then Some(n) else None
  }

  function PathTo(t: seq<Char>): Pointer {
    To(Buffer(t))
  }

  lemma {:induction false} StripIsSuffix(t: seq<Char>)
    ensures |StripSeparators(t)| <= |t|
    ensures StripSeparators(t) == t[|t| - |StripSeparators(t)|..]
    ensures forall i :: 0 <= i < |t| - |StripSeparators(t)| ==> IsSeparator(t[i])
    ensures StripSeparators(t) != [] ==> !IsSeparator(StripSeparators(t)[0])
  {
    if t != [] && IsSeparator(t[0]) {
      StripIsSuffix(t[1..]);
    }
  }

  /** A name denotes itself, so looking a normalised name up again finds the same file. */
  lemma NameDenotesItself(n: seq<Char>)
    requires ValidName(n)
    ensures NameOf(PathTo(n)) == Some(n)
  {
    assert StripSeparators(n) == n;
  }

  /** Which paths denote a file, and when two paths denote the same one: a path is any number of
      separators followed by a valid name, and only the name counts. */
  lemma PathsAreSeparatorsThenName(t: seq<Char>, n: seq<Char>)
    requires NUL !in t
    ensures NameOf(PathTo(t)) == Some(n) <==>
            ValidName(n) && exists k :: 0 <= k <= |t| && t[k..] == n && forall i :: 0 <= i < k ==> IsSeparator(t[i])
  {
    StripIsSuffix(t);
    if k :| 0 <= k <= |t| && t[k..] == n && (forall i :: 0 <= i < k ==> IsSeparator(t[i])) && ValidName(n) {
      StripLeading(t, k);
      assert StripSeparators(n) == n;
    }
    if NameOf(PathTo(t)) == Some(n) {
      var k := |t| - |n|;
      assert t[k..] == n;
    }
  }

  lemma {:induction false} StripLeading(t: seq<Char>, k: nat)
    requires k <= |t| && forall i :: 0 <= i < k ==> IsSeparator(t[i])
    ensures StripSeparators(t) == StripSeparators(t[k..])
  {
    if k > 0 {
      StripLeading(t[1..], k - 1);
      assert t[1..][k - 1..] == t[k..];
    }
  }

  // ---------------------------------------------------------------- the operations

  function ContentOf(content: Pointer): seq<Char>
    requires StringOrNull(content)
  {
    if content.Null? then [] else Text(content.buffer)
  }

  function OldContent(s: Store, n: seq<Char>): seq<Char> {
    if n in s then s[n] else []
  }

  function Create(s: Store, path: Pointer): (FileResult, Store)
    requires StringOrNull(path)
  {
    match NameOf(path)
    case None => (ErrInvalidName, s)
    case Some(n) =>
      if n in s then (ErrExists, s)
      else if |s| >= MAX_FILES then (ErrFull, s)
      else (FileOk, s[n := []])
  }

  /** Gives file `n` the content `t`; a content that is too large still creates the file. */
  function PutContent(s: Store, n: seq<Char>, t: seq<Char>): (FileResult, Store) {
    if n !in s && |s| >= MAX_FILES then (ErrFull, s)
    else if |t| >= DATA_SIZE then (ErrTooLarge, s[n := OldContent(s, n)])
    else (FileOk, s[n := t])
  }

  function Write(s: Store, path: Pointer, content: Pointer): (FileResult, Store)
    requires StringOrNull(path) && StringOrNull(content)
  {
    match NameOf(path)
    case None => (ErrInvalidName, s)
    case Some(n) => PutContent(s, n, ContentOf(content))
  }

  function Append(s: Store, path: Pointer, content: Pointer): (FileResult, Store)
    requires StringOrNull(path) && StringOrNull(content)
  {
    if content.Null? then (FileOk, s)
    else
      match NameOf(path)
      case None => (ErrInvalidName, s)
      case Some(n) => PutContent(s, n, OldContent(s, n) + ContentOf(content))
  }

  function Remove(s: Store, path: Pointer): (FileResult, Store)
    requires StringOrNull(path)
  {
    match NameOf(path)
    case None => (ErrInvalidName, s)
    case Some(n) => if n in s then (FileOk, s - {n}) else (ErrNotFound, s)
  }

  function Read(s: Store, path: Pointer): Option<seq<Char>>
    requires StringOrNull(path)
  {
    match NameOf(path)
    case None => None
    case Some(n) => if n in s then Some(s[n]) else None
  }

  /** Creating an empty file first makes no difference to what it holds in the end. */
  lemma RewrittenEntry(s: Store, n: seq<Char>, t: seq<Char>)
    ensures s[n := []][n := t] == s[n := t]
    ensures n in s ==> s[n := s[n]] == s
  {
  }

  // ---------------------------------------------------------------- result codes

  /** Which names are valid: 1 to 31 characters, none of them NUL, slash or backslash, the first no
      dot. Slash and backslash are the separators. */
  lemma NamesInNumbers(n: seq<Char>, c: Char)
    ensures ValidName(n) <==> 1 <= |n| <= 31 && n[0] != 46 && forall i :: 0 <= i < |n| ==> n[i] !in {0, 47, 92}
    ensures IsSeparator(c) <==> c == 47 || c == 92
    ensures NameOf(Null).None?
  {
    if NUL in n {
      var i :| 0 <= i < |n| && n[i] == NUL;
    }
  }

  /** Exactly when `create` gives which code; it changes the files only when it succeeds. */
  lemma CreateCodes(s: Store, path: Pointer)
    requires StringOrNull(path)
    ensures var (r, s') := Create(s, path);
            && (r == ErrInvalidName <==> NameOf(path).None?)
            && (r == ErrExists <==> Read(s, path).Some?)
            && (r == ErrFull <==> NameOf(path).Some? && Read(s, path).None? && |s| >= 64)
            && (r == FileOk <==> NameOf(path).Some? && Read(s, path).None? && |s| < 64)
            && (r != FileOk ==> s' == s)
            && (r == FileOk ==> s' == s[NameOf(path).value := []])
  {
  }

  /** Exactly when `write` gives which code, and what it leaves. */
  lemma WriteCodes(s: Store, path: Pointer, content: Pointer)
    requires StringOrNull(path) && StringOrNull(content)
    ensures var (r, s') := Write(s, path, content);
            var t := if content.Null? then [] else Text(content.buffer);
            && (r == ErrInvalidName <==> NameOf(path).None?)
            && (r == ErrFull <==> NameOf(path).Some? && Read(s, path).None? && |s| >= 64)
            && (r == ErrTooLarge <==> NameOf(path).Some? && (Read(s, path).Some? || |s| < 64) && |t| >= 1024)
            && (r == FileOk <==> NameOf(path).Some? && (Read(s, path).Some? || |s| < 64) && |t| < 1024)
            && (r in {ErrInvalidName, ErrFull} ==> s' == s)
            && (r == FileOk ==> s' == s[NameOf(path).value := t])
            && (r == ErrTooLarge ==>
                  s' == if Read(s, path).Some? then s else s[NameOf(path).value := []])
  {
    if NameOf(path).Some? {
      RewrittenEntry(s, NameOf(path).value, []);
    }
  }

  /** Exactly when `append` gives which code, and what it leaves. A null content is never an error. */
  lemma AppendCodes(s: Store, path: Pointer, content: Pointer)
    requires StringOrNull(path) && StringOrNull(content)
    ensures content.Null? ==> Append(s, path, content) == (FileOk, s)
    ensures content.To? ==>
              var (r, s') := Append(s, path, content);
              var t := (if Read(s, path).Some? then Read(s, path).value else []) + Text(content.buffer);
              && (r == ErrInvalidName <==> NameOf(path).None?)
              && (r == ErrFull <==> NameOf(path).Some? && Read(s, path).None? && |s| >= 64)
              && (r == ErrTooLarge <==> NameOf(path).Some? && (Read(s, path).Some? || |s| < 64) && |t| >= 1024)
              && (r == FileOk <==> NameOf(path).Some? && (Read(s, path).Some? || |s| < 64) && |t| < 1024)
              && (r in {ErrInvalidName, ErrFull} ==> s' == s)
              && (r == FileOk ==> s' == s[NameOf(path).value := t])
              && (r == ErrTooLarge ==>
                    s' == if Read(s, path).Some? then s else s[NameOf(path).value := []])
  {
    if NameOf(path).Some? {
      RewrittenEntry(s, NameOf(path).value, []);
    }
  }

  /** Exactly when `remove` gives which code, and what it leaves. */
  lemma RemoveCodes(s: Store, path: Pointer)
    requires StringOrNull(path)
    ensures var (r, s') := Remove(s, path);
            && (r == ErrInvalidName <==> NameOf(path).None?)
            && (r == ErrNotFound <==> NameOf(path).Some? && Read(s, path).None?)
            && (r == FileOk <==> Read(s, path).Some?)
            && (r != FileOk ==> s' == s)
            && (r == FileOk ==> Read(s', path).None? && s == s'[NameOf(path).value := Read(s, path).value])
  {
    if Read(s, path).Some? {
      var n := NameOf(path).value;
      assert s == (s - {n})[n := s[n]];
    }
  }

  // ---------------------------------------------------------------- laws

  /** Contents are strings that fit, names are valid, and there are at most 64 files. */
  ghost predicate WellFormed(s: Store) {
    && |s| <= MAX_FILES
    && forall n :: n in s ==> ValidName(n) && |s[n]| < DATA_SIZE && NUL !in s[n]
  }

  datatype Op =
    | OpCreate(path: Pointer)
    | OpWrite(path: Pointer, content: Pointer)
    | OpAppend(path: Pointer, content: Pointer)
    | OpRemove(path: Pointer)

  predicate GoodOp(op: Op) {
    StringOrNull(op.path) && match op
      case OpWrite(_, content) => StringOrNull(content)
      case OpAppend(_, content) => StringOrNull(content)
      case _ => true
  }

  function Exec(s: Store, op: Op): (FileResult, Store)
    requires GoodOp(op)
  {
    match op
    case OpCreate(path) => Create(s, path)
    case OpWrite(path, content) => Write(s, path, content)
    case OpAppend(path, content) => Append(s, path, content)
    case OpRemove(path) => Remove(s, path)
  }

  function ExecAll(s: Store, ops: seq<Op>): Store
    requires forall i :: 0 <= i < |ops| ==> GoodOp(ops[i])
    decreases |ops|
  {
    if ops == [] then s else ExecAll(Exec(s, ops[0]).1, ops[1..])
  }

  lemma EntryKeepsWellFormed(s: Store, n: seq<Char>, t: seq<Char>)
    requires WellFormed(s) && ValidName(n) && |t| < DATA_SIZE && NUL !in t
    requires n in s || |s| < MAX_FILES
    ensures WellFormed(s[n := t])
  {
    assert s[n := t].Keys == s.Keys + {n};
  }

  lemma ExecKeepsWellFormed(s: Store, op: Op)
    requires WellFormed(s) && GoodOp(op)
    ensures WellFormed(Exec(s, op).1)
  {
    if NameOf(op.path).Some? {
      var n := NameOf(op.path).value;
      match op {
        case OpCreate(_) =>
          if n !in s && |s| < MAX_FILES {
            EntryKeepsWellFormed(s, n, []);
          }
        case OpWrite(_, content) => PutKeepsWellFormed(s, n, ContentOf(content));
        case OpAppend(_, content) => PutKeepsWellFormed(s, n, OldContent(s, n) + ContentOf(content));
        case OpRemove(_) =>
          assert (s - {n}).Keys == s.Keys - {n};
      }
    }
  }

  lemma PutKeepsWellFormed(s: Store, n: seq<Char>, t: seq<Char>)
    requires WellFormed(s) && ValidName(n) && NUL !in t
    ensures WellFormed(PutContent(s, n, t).1)
  {
    if n in s || |s| < MAX_FILES {
      EntryKeepsWellFormed(s, n, if |t| < DATA_SIZE then t else OldContent(s, n));
    }
  }

  /** The same bounds in numbers. */
  ghost predicate InBounds(s: Store) {
    |s| <= 64 && forall n :: n in s ==> 1 <= |n| <= 31 && |s[n]| <= 1023
  }

  lemma {:induction false} EveryRunIsWellFormed(s: Store, ops: seq<Op>)
    requires WellFormed(s) && forall i :: 0 <= i < |ops| ==> GoodOp(ops[i])
    ensures WellFormed(ExecAll(s, ops)) && InBounds(ExecAll(s, ops))
    decreases |ops|
  {
    if ops != [] {
      ExecKeepsWellFormed(s, ops[0]);
      EveryRunIsWellFormed(Exec(s, ops[0]).1, ops[1..]);
    }
  }

  lemma PutElsewhere(s: Store, n: seq<Char>, t: seq<Char>, other: seq<Char>)
    requires n != other
    ensures var (r, s') := PutContent(s, n, t);
            && (other in s' <==> other in s) && (other in s ==> s'[other] == s[other])
            && (r !in {FileOk, ErrTooLarge} ==> s' == s)
            && (r == ErrTooLarge ==> s' == s[n := OldContent(s, n)])
  {
  }

  /** No operation touches a file whose name its path does not denote, and a failing operation
      changes nothing but, when the content is too large, adds an empty file. */
  lemma OnlyNamedFileChanges(s: Store, op: Op, other: seq<Char>)
    requires GoodOp(op) && NameOf(op.path) != Some(other)
    ensures var (r, s') := Exec(s, op);
            && (other in s' <==> other in s) && (other in s ==> s'[other] == s[other])
            && (r !in {FileOk, ErrTooLarge} ==> s' == s)
            && (r == ErrTooLarge ==>
                  && NameOf(op.path).Some?
                  && s' == s[NameOf(op.path).value := OldContent(s, NameOf(op.path).value)])
  {
    if NameOf(op.path).Some? {
      var n := NameOf(op.path).value;
      match op {
        case OpWrite(_, content) => PutElsewhere(s, n, ContentOf(content), other);
        case OpAppend(_, content) => PutElsewhere(s, n, OldContent(s, n) + ContentOf(content), other);
        case _ =>
      }
    }
  }

  lemma WriteElsewhere(s: Store, path: Pointer, content: Pointer, other: seq<Char>)
    requires StringOrNull(path) && StringOrNull(content) && NameOf(path) != Some(other)
    ensures var s' := Write(s, path, content).1;
            (other in s' <==> other in s) && (other in s ==> s'[other] == s[other])
  {
    OnlyNamedFileChanges(s, OpWrite(path, content), other);
  }

  lemma AppendElsewhere(s: Store, path: Pointer, content: Pointer, other: seq<Char>)
    requires StringOrNull(path) && StringOrNull(content) && NameOf(path) != Some(other)
    ensures var s' := Append(s, path, content).1;
            (other in s' <==> other in s) && (other in s ==> s'[other] == s[other])
  {
    OnlyNamedFileChanges(s, OpAppend(path, content), other);
  }

  /** A file no operation of a run names is the same after the run. */
  lemma {:induction false} UnnamedFileSurvives(s: Store, ops: seq<Op>, n: seq<Char>)
    requires forall i :: 0 <= i < |ops| ==> GoodOp(ops[i]) && NameOf(ops[i].path) != Some(n)
    ensures n in ExecAll(s, ops) <==> n in s
    ensures n in s ==> ExecAll(s, ops)[n] == s[n]
    decreases |ops|
  {
    if ops != [] {
      OnlyNamedFileChanges(s, ops[0], n);
      UnnamedFileSurvives(Exec(s, ops[0]).1, ops[1..], n);
    }
  }

  /** What was written is read back, through any path to the same file, after any run of operations
      on other files; and a write succeeds exactly when name, room and size allow it. */
  lemma ReadAfterWrite(s: Store, path: Pointer, content: Pointer, ops: seq<Op>, again: Pointer)
    requires StringOrNull(path) && StringOrNull(content) && StringOrNull(again)
    requires NameOf(again) == NameOf(path)
    requires forall i :: 0 <= i < |ops| ==> GoodOp(ops[i]) && NameOf(ops[i].path) != NameOf(path)
    ensures Write(s, path, content).0 == FileOk <==>
            && NameOf(path).Some?
            && (Read(s, path).Some? || |s| < MAX_FILES)
            && |ContentOf(content)| < DATA_SIZE
    ensures Write(s, path, content).0 == FileOk ==>
              Read(ExecAll(Write(s, path, content).1, ops), again) == Some(ContentOf(content))
  {
    if Write(s, path, content).0 == FileOk {
      UnnamedFileSurvives(Write(s, path, content).1, ops, NameOf(path).value);
    }
  }

  /** A file can be created exactly if its name is valid and not in use and there is room; it is then
      empty, and stays so through operations on other files. */
  lemma ReadAfterCreate(s: Store, path: Pointer, ops: seq<Op>, again: Pointer)
    requires StringOrNull(path) && StringOrNull(again) && NameOf(again) == NameOf(path)
    requires forall i :: 0 <= i < |ops| ==> GoodOp(ops[i]) && NameOf(ops[i].path) != NameOf(path)
    ensures Create(s, path).0 == FileOk <==>
            NameOf(path).Some? && Read(s, path).None? && |s| < MAX_FILES
    ensures Create(s, path).0 == FileOk ==> Read(ExecAll(Create(s, path).1, ops), again) == Some([])
  {
    if Create(s, path).0 == FileOk {
      UnnamedFileSurvives(Create(s, path).1, ops, NameOf(path).value);
    }
  }

  lemma WriteAppend(s: Store, n: seq<Char>, first: seq<Char>, second: seq<Char>)
    requires |first| < DATA_SIZE && (n in s || |s| < MAX_FILES)
    ensures var (r1, s1) := PutContent(s, n, first);
            var (r2, s2) := PutContent(s1, n, OldContent(s1, n) + second);
            && r1 == FileOk
            && (|first + second| < DATA_SIZE ==> (r2, s2) == PutContent(s, n, first + second))
            && (|first + second| >= DATA_SIZE ==> r2 == ErrTooLarge && s2 == s1)
  {
    assert s[n := first][n := first + second] == s[n := first + second];
    assert s[n := first][n := first] == s[n := first];
  }

  /** Writing a text in two parts, the second appended, is writing it at once. */
  lemma AppendExtendsWrite(s: Store, path: Pointer, first: seq<Char>, second: seq<Char>)
    requires StringOrNull(path) && NUL !in first && NUL !in second
    requires NameOf(path).Some? && |first| < DATA_SIZE && (Read(s, path).Some? || |s| < MAX_FILES)
    ensures var (r1, s1) := Write(s, path, PathTo(first));
            var (r2, s2) := Append(s1, path, PathTo(second));
            && r1 == FileOk
            && (|first + second| < DATA_SIZE ==> (r2, s2) == Write(s, path, PathTo(first + second)))
            && (|first + second| >= DATA_SIZE ==> r2 == ErrTooLarge && s2 == s1)
  {
    WriteAppend(s, NameOf(path).value, first, second);
    assert ContentOf(PathTo(first + second)) == first + second;
  }

  /** Removal undoes creation. */
  lemma RemoveUndoesCreate(s: Store, path: Pointer)
    requires StringOrNull(path) && Create(s, path).0 == FileOk
    ensures Remove(Create(s, path).1, path) == (FileOk, s)
  {
    var n := NameOf(path).value;
    assert s[n := []] - {n} == s;
  }
}
