/** The file table of the kernel: 64 slots rewritten in place, names and contents kept as C strings
    in fixed buffers. */
module Vfs {
  import opened Basics
  import opened CStrings
  import opened FileStore
  import opened KeyedTable

  datatype File = File(name: seq<Char>, data: seq<Char>, size: nat, isUsed: bool)

  datatype FileStat = FileStat(name: seq<Char>, size: nat, isDirectory: bool)

  function Zeros(n: nat): (b: seq<Char>)
    ensures |b| == n && forall i :: 0 <= i < n ==> b[i] == NUL
  {
    seq(n, _ => NUL)
  }

  /** A slot as `kmemset` leaves it. */
  function ZeroFile(): File {
    File(Zeros(NAME_SIZE), Zeros(DATA_SIZE), 0, false)
  }

  // ---------------------------------------------------------------- the table invariant

  /** A used slot: its strings end within their buffers, the name is valid, and `size` is the length
      of the content, whatever stale bytes follow it. */
  ghost predicate GoodFile(f: File) {
    && f.isUsed
    && |f.name| == NAME_SIZE && Terminated(f.name) && ValidName(Text(f.name))
    && |f.data| == DATA_SIZE && Terminated(f.data) && f.size == |Text(f.data)|
  }

  ghost function FileName(f: File): seq<Char> {
    if Terminated(f.name) then Text(f.name) else []
  }

  ghost function FileText(f: File): seq<Char> {
    if Terminated(f.data) then Text(f.data) else []
  }

  ghost function Names(fs: seq<File>): seq<seq<Char>> {
    seq(|fs|, i requires 0 <= i < |fs| => FileName(fs[i]))
  }

  ghost function Texts(fs: seq<File>): seq<seq<Char>> {
    seq(|fs|, i requires 0 <= i < |fs| => FileText(fs[i]))
  }

  ghost predicate IsZero(f: File) {
    f == ZeroFile()
  }

  /** The slots below `count` are used by good files, all later slots are zero. */
  ghost predicate TableOk(fs: seq<File>, count: nat) {
    && |fs| == MAX_FILES && count <= MAX_FILES
    && (forall i {:trigger GoodFile(fs[i])} :: 0 <= i < count ==> GoodFile(fs[i]))
    && (forall i {:trigger IsZero(fs[i])} :: count <= i < MAX_FILES ==> IsZero(fs[i]))
  }

  /** The table stands for the store: its used slots hold the files of the store, one each. */
  ghost predicate Represents(fs: seq<File>, count: nat, s: Store, slots: map<seq<Char>, int>) {
    && TableOk(fs, count)
    && Keyed(Names(fs[..count]), Texts(fs[..count]), s, slots)
  }

  /** What that says of the table alone: pairwise different valid names in the used slots, contents
      that end within their buffers, and nothing behind. */
  lemma TableInvariant(fs: seq<File>, count: nat, s: Store, slots: map<seq<Char>, int>, i: nat, j: nat)
    requires Represents(fs, count, s, slots) && i < j < MAX_FILES
    ensures j < count ==> GoodFile(fs[i]) && GoodFile(fs[j]) && Text(fs[i].name) != Text(fs[j].name)
    ensures j >= count ==> fs[j] == ZeroFile()
  {
    if j < count {
      assert GoodFile(fs[i]) && GoodFile(fs[j]);
      KeysDiffer(Names(fs[..count]), Texts(fs[..count]), s, slots, i, j);
    } else {
      assert IsZero(fs[j]);
    }
  }

  /** A table stands for one store only. */
  lemma StoreIsDetermined(fs: seq<File>, count: nat, s1: Store, slots1: map<seq<Char>, int>,
                          s2: Store, slots2: map<seq<Char>, int>)
    requires Represents(fs, count, s1, slots1) && Represents(fs, count, s2, slots2)
    ensures s1 == s2
  {
    MapIsDetermined(Names(fs[..count]), Texts(fs[..count]), s1, slots1, s2, slots2);
  }

  lemma NamesOfSlots(fs: seq<File>, n: seq<Char>)
    ensures n in Names(fs) <==> exists i :: 0 <= i < |fs| && FileName(fs[i]) == n
  {
    if n in Names(fs) {
      var i :| 0 <= i < |fs| && Names(fs)[i] == n;
      assert FileName(fs[i]) == n;
    }
    if i :| 0 <= i < |fs| && FileName(fs[i]) == n {
      assert Names(fs)[i] == n;
    }
  }

  /** Which store that is: each used slot's name maps to its content, and nothing else is in it. */
  lemma SlotsAreFiles(fs: seq<File>, count: nat, s: Store, slots: map<seq<Char>, int>, n: seq<Char>)
    requires Represents(fs, count, s, slots)
    ensures n in s <==> exists i :: 0 <= i < count && FileName(fs[i]) == n
    ensures forall i :: 0 <= i < count && FileName(fs[i]) == n ==> GoodFile(fs[i]) && s[n] == FileText(fs[i])
  {
    var used := fs[..count];
    KeysAreInMap(Names(used), Texts(used), s, slots, n);
    NamesOfSlots(used, n);
    assert forall i :: 0 <= i < count ==> used[i] == fs[i];
    forall i | 0 <= i < count && FileName(fs[i]) == n
      ensures GoodFile(fs[i]) && s[n] == FileText(fs[i])
    {
      assert Names(used)[i] == n && Texts(used)[i] == FileText(fs[i]);
    }
  }

  lemma StoreIsWellFormed(fs: seq<File>, count: nat, s: Store, slots: map<seq<Char>, int>)
    requires Represents(fs, count, s, slots)
    ensures WellFormed(s)
  {
    forall n | n in s
      ensures ValidName(n) && |s[n]| < DATA_SIZE && NUL !in s[n]
    {
      SlotsAreFiles(fs, count, s, slots, n);
      var i :| 0 <= i < count && FileName(fs[i]) == n;
    }
  }

  // ---------------------------------------------------------------- table updates

  lemma NewSlot(fs: seq<File>, count: nat, s: Store, slots: map<seq<Char>, int>, f: File)
    requires Represents(fs, count, s, slots) && count < MAX_FILES
    requires GoodFile(f) && FileName(f) !in s
    ensures Represents(fs[count := f], count + 1, s[FileName(f) := FileText(f)], slots[FileName(f) := count])
  {
    var fs' := fs[count := f];
    AddKey(Names(fs[..count]), Texts(fs[..count]), s, slots, FileName(f), FileText(f));
    assert fs'[..count + 1] == fs[..count] + [f];
    assert Names(fs'[..count + 1]) == Names(fs[..count]) + [FileName(f)];
    assert Texts(fs'[..count + 1]) == Texts(fs[..count]) + [FileText(f)];
    forall i | 0 <= i < MAX_FILES
      ensures i < count + 1 ==> GoodFile(fs'[i])
      ensures i >= count + 1 ==> IsZero(fs'[i])
    {
      assert if i < count then GoodFile(fs[i]) else IsZero(fs[i]);
    }
  }

  lemma SameNameSlot(fs: seq<File>, count: nat, s: Store, slots: map<seq<Char>, int>, k: nat, f: File)
    requires Represents(fs, count, s, slots) && k < count
    requires GoodFile(f) && FileName(f) == FileName(fs[k])
    ensures Represents(fs[k := f], count, s[FileName(f) := FileText(f)], slots)
  {
    var fs' := fs[k := f];
    ChangeValue(Names(fs[..count]), Texts(fs[..count]), s, slots, k, FileText(f));
    assert Names(fs'[..count]) == Names(fs[..count]);
    assert Texts(fs'[..count]) == Texts(fs[..count])[k := FileText(f)];
    forall i | 0 <= i < MAX_FILES
      ensures i < count ==> GoodFile(fs'[i])
      ensures i >= count ==> IsZero(fs'[i])
    {
      assert if i < count then GoodFile(fs[i]) else IsZero(fs[i]);
    }
  }

  /** Slot `k` after the last used slot was moved into it and zeroed. */
  function SwapWithLast(fs: seq<File>, count: nat, k: nat): seq<File>
    requires k < count <= |fs|
  {
    if k == count - 1 then fs[k := ZeroFile()]
    else fs[k := fs[count - 1]][count - 1 := ZeroFile()]
  }

  lemma ColumnsAfterSwap(fs: seq<File>, count: nat, k: nat)
    requires k < count <= |fs|
    ensures Names(SwapWithLast(fs, count, k)[..count - 1]) == SwapOut(Names(fs[..count]), k)
    ensures Texts(SwapWithLast(fs, count, k)[..count - 1]) == SwapOut(Texts(fs[..count]), k)
  {
    var fs' := SwapWithLast(fs, count, k)[..count - 1];
    forall i | 0 <= i < count - 1
      ensures fs'[i] == fs[if i == k then count - 1 else i]
    {
    }
  }

  lemma TableAfterSwap(fs: seq<File>, count: nat, k: nat)
    requires TableOk(fs, count) && k < count
    ensures TableOk(SwapWithLast(fs, count, k), count - 1)
  {
    var fs' := SwapWithLast(fs, count, k);
    assert GoodFile(fs[count - 1]);
    forall i | 0 <= i < MAX_FILES
      ensures i < count - 1 ==> GoodFile(fs'[i])
      ensures i >= count - 1 ==> IsZero(fs'[i])
    {
      assert if i < count then GoodFile(fs[i]) else IsZero(fs[i]);
    }
  }

  lemma KeysAfterSwap(fs: seq<File>, count: nat, s: Store, slots: map<seq<Char>, int>, k: nat)
    requires k < count <= |fs| && Keyed(Names(fs[..count]), Texts(fs[..count]), s, slots)
    ensures var name, last := FileName(fs[k]), FileName(fs[count - 1]);
            var used := SwapWithLast(fs, count, k)[..count - 1];
            Keyed(Names(used), Texts(used), s - {name}, slots[last := k] - {name})
  {
    ColumnsAfterSwap(fs, count, k);
    NameAt(fs, count, k);
    NameAt(fs, count, count - 1);
    DropKey(Names(fs[..count]), Texts(fs[..count]), s, slots, k);
  }

  /** It drops exactly one file and keeps all others. */
  lemma SwapDropsOne(fs: seq<File>, count: nat, s: Store, slots: map<seq<Char>, int>, k: nat)
    requires Represents(fs, count, s, slots) && k < count
    ensures var name, last := FileName(fs[k]), FileName(fs[count - 1]);
            Represents(SwapWithLast(fs, count, k), count - 1, s - {name}, slots[last := k] - {name})
  {
    TableAfterSwap(fs, count, k);
    KeysAfterSwap(fs, count, s, slots, k);
  }

  lemma NameAt(fs: seq<File>, count: nat, i: nat)
    requires i < count <= |fs|
    ensures |Names(fs[..count])| == |Texts(fs[..count])| == count && Names(fs[..count])[i] == FileName(fs[i])
  {
  }

  // ---------------------------------------------------------------- the file system

  /** `kstrcmp(a, b) == 0`. */
  method SameString(a: seq<Char>, b: seq<Char>) returns (same: bool)
    requires Terminated(a) && Terminated(b)
    ensures same <==> Text(a) == Text(b)
  {
    var diff, at := Kstrcmp(a, b);
    same := diff == 0;
  }

  class FileSystem {
    const files: array<File>
    var fileCount: nat
    ghost var store: Store
    ghost var slots: map<seq<Char>, int>

    ghost predicate Valid()
      reads this, files
    {
      files.Length == MAX_FILES && Represents(files[..], fileCount, store, slots)
    }

    constructor ()
      ensures Valid() && store == map[] && fresh(files)
    {
      files := new File[MAX_FILES](_ => ZeroFile());
      fileCount := 0;
      store, slots := map[], map[];
      new;
      Init();
    }

    method Init()
      requires files.Length == MAX_FILES
      modifies this, files
      ensures Valid() && store == map[]
    {
      fileCount := 0;
      for i := 0 to MAX_FILES
        invariant fileCount == 0
        invariant forall k :: 0 <= k < i ==> IsZero(files[..][k])
      {
        files[i] := ZeroFile();
      }
      store, slots := map[], map[];
    }

    /** Fills the name buffer of its caller; on an error the buffer holds what was copied so far. */
    method NormalizeName(path: Pointer, outName: seq<Char>) returns (r: FileResult, name: seq<Char>)
      requires StringOrNull(path) && |outName| == NAME_SIZE
      ensures |name| == NAME_SIZE
      ensures r == if NameOf(path).Some? then FileOk else ErrInvalidName
      ensures r == FileOk ==> Terminated(name) && Text(name) == NameOf(path).value
    {
      name := outName;
      if path.Null? || path.buffer[0] == NUL {
        return ErrInvalidName, name;
      }
      var p := path.buffer;
      ghost var t := Text(p);
      while IsSeparator(p[0])
        invariant Terminated(p)
        invariant StripSeparators(Text(p)) == StripSeparators(t)
        decreases |p|
      {
        p := p[1..];
      }
      ghost var n := Text(p);
      assert StripSeparators(t) == n;
      if p[0] == NUL || p[0] == DOT {
        return ErrInvalidName, name;
      }
      r, name := CopyName(p, outName);
    }

    /** The copy loop of `normalize_name`, on a path without leading separators. */
    method CopyName(p: seq<Char>, outName: seq<Char>) returns (r: FileResult, name: seq<Char>)
      requires Terminated(p) && p[0] != NUL && p[0] != DOT && |outName| == NAME_SIZE
      ensures |name| == NAME_SIZE
      ensures r == if ValidName(Text(p)) then FileOk else ErrInvalidName
      ensures r == FileOk ==> Terminated(name) && Text(name) == Text(p)
    {
      name := outName;
      ghost var n := Text(p);
      var len := 0;
      while p[len] != NUL
        invariant len <= |n| && len < NAME_SIZE
        invariant forall i :: 0 <= i < len ==> !IsSeparator(n[i])
        invariant |name| == NAME_SIZE && name[..len] == n[..len]
        decreases |n| - len
      {
        if IsSeparator(p[len]) {
          assert IsSeparator(n[len]);
          return ErrInvalidName, name;
        }
        if len >= NAME_SIZE - 1 {
          return ErrInvalidName, name;
        }
        name := name[len := p[len]];
        len := len + 1;
        assert name[..len] == n[..len - 1] + [n[len - 1]] == n[..len];
      }
      name := name[len := NUL];
      assert name[..len] == n;
      TextIs(name, len);
      return FileOk, name;
    }

    /** The slot of the file a path denotes, or -1. */
    method Find(path: Pointer) returns (slot: int)
      requires Valid() && StringOrNull(path)
      ensures -1 <= slot < fileCount
      ensures slot >= 0 <==> NameOf(path).Some? && NameOf(path).value in store
      ensures slot >= 0 ==> FileName(files[slot]) == NameOf(path).value
    {
      var r, name := NormalizeName(path, Zeros(NAME_SIZE));
      if r != FileOk {
        return -1;
      }
      slot := FindName(name);
    }

    /** The search loop shared by `find` and `remove`. */
    method FindName(name: seq<Char>) returns (slot: int)
      requires Valid() && Terminated(name)
      ensures -1 <= slot < fileCount
      ensures slot >= 0 <==> Text(name) in store
      ensures slot >= 0 ==> FileName(files[slot]) == Text(name)
    {
      forall i | 0 <= i < fileCount
        ensures files[i].isUsed && Terminated(files[i].name)
      {
        assert GoodFile(files[..][i]);
      }
      slot := ScanSlots(name);
      SlotsAreFiles(files[..], fileCount, store, slots, Text(name));
    }

    method ScanSlots(name: seq<Char>) returns (slot: int)
      requires fileCount <= files.Length && Terminated(name)
      requires forall i :: 0 <= i < fileCount ==> files[i].isUsed && Terminated(files[i].name)
      ensures -1 <= slot < fileCount
      ensures slot >= 0 ==> FileName(files[slot]) == Text(name)
      ensures slot < 0 ==> forall k :: 0 <= k < fileCount ==> FileName(files[k]) != Text(name)
    {
      for i := 0 to fileCount
        invariant forall k :: 0 <= k < i ==> FileName(files[k]) != Text(name)
      {
        if files[i].isUsed {
          var same := SameString(files[i].name, name);
          if same {
            return i;
          }
          assert FileName(files[i]) == Text(files[i].name) != Text(name);
        }
      }
      return -1;
    }

    /** The next free slot, or -1 when the table is full. */
    method AllocateSlot() returns (slot: int)
      modifies `fileCount
      ensures if old(fileCount) >= MAX_FILES then slot == -1 && fileCount == old(fileCount)
              else slot == old(fileCount) && fileCount == old(fileCount) + 1
    {
      if fileCount >= MAX_FILES {
        return -1;
      }
      slot := fileCount;
      fileCount := fileCount + 1;
    }

    method Create(path: Pointer) returns (r: FileResult)
      requires Valid() && StringOrNull(path)
      modifies this, files
      ensures Valid() && (r, store) == FileStore.Create(old(store), path)
    {
      var normalized, name := NormalizeName(path, Zeros(NAME_SIZE));
      if normalized != FileOk {
        return normalized;
      }
      NameAgain(name);
      var existing := Find(To(name));
      if existing >= 0 {
        return ErrExists;
      }
      r := AddFile(name);
    }

    /** The second half of `create`, for a name that is not in use. */
    method AddFile(name: seq<Char>) returns (r: FileResult)
      requires Valid() && Terminated(name) && ValidName(Text(name)) && Text(name) !in store
      modifies this, files
      ensures Valid()
      ensures if |old(store)| >= MAX_FILES then r == ErrFull && store == old(store)
              else r == FileOk && store == old(store)[Text(name) := []]
    {
      var slot := AllocateSlot();
      if slot < 0 {
        return ErrFull;
      }
      ghost var n := Text(name);
      var copied := Kstrcpy(Zeros(NAME_SIZE), name);
      TextIs(Zeros(DATA_SIZE), 0);
      var file := ZeroFile().(name := copied, isUsed := true);
      NewSlot(files[..], slot, store, slots, file);
      files[slot] := file;
      store, slots := store[n := []], slots[n := slot];
      return FileOk;
    }

    lemma NameAgain(name: seq<Char>)
      requires Terminated(name) && ValidName(Text(name))
      ensures NameOf(To(name)) == Some(Text(name))
    {
      assert StripSeparators(Text(name)) == Text(name);
    }

    /** Making the entry first and then filling it is `PutContent`. */
    lemma PutInTwoSteps(s: Store, n: seq<Char>, t: seq<Char>)
      requires n in s || |s| < MAX_FILES
      ensures var made := if n in s then s else s[n := []];
              PutContent(s, n, t) == if |t| >= DATA_SIZE then (ErrTooLarge, made) else (FileOk, made[n := t])
    {
      RewrittenEntry(s, n, t);
    }

    method Write(path: Pointer, content: Pointer) returns (r: FileResult)
      requires Valid() && StringOrNull(path) && StringOrNull(content)
      modifies this, files
      ensures Valid() && (r, store) == FileStore.Write(old(store), path, content)
      ensures r != ErrNotFound && r != ErrExists
    {
      var text := if content.Null? then Buffer([]) else content.buffer;
      assert Text(text) == ContentOf(content);
      var slot := Find(path);
      if slot < 0 {
        var created := Create(path);
        if created != FileOk && created != ErrExists {
          return created;
        }
        slot := Find(path);
      }
      if slot < 0 {
        return ErrNotFound;
      }
      ghost var n := NameOf(path).value;
      PutInTwoSteps(old(store), n, Text(text));
      r := WriteAt(slot, text);
    }

    /** The second half of `write`, on an existing file. */
    method WriteAt(slot: int, text: seq<Char>) returns (r: FileResult)
      requires Valid() && 0 <= slot < fileCount && Terminated(text)
      modifies files, `store
      ensures Valid()
      ensures var n := old(FileName(files[slot]));
              if |Text(text)| >= DATA_SIZE then r == ErrTooLarge && store == old(store)
              else r == FileOk && store == old(store)[n := Text(text)]
    {
      var len := Kstrlen(To(text));
      if len >= DATA_SIZE {
        return ErrTooLarge;
      }
      assert FileText(files[slot])[..0] + Text(text) == Text(text);
      StoreBytes(slot, 0, text, len);
      return FileOk;
    }

    method Append(path: Pointer, content: Pointer) returns (r: FileResult)
      requires Valid() && StringOrNull(path) && StringOrNull(content)
      requires content.To? ==> |content.buffer| < U32_LIMIT - DATA_SIZE
      modifies this, files
      ensures Valid() && (r, store) == FileStore.Append(old(store), path, content)
      ensures r != ErrNotFound && r != ErrExists
    {
      if content.Null? {
        return FileOk;
      }
      var slot := Find(path);
      if slot < 0 {
        var created := Create(path);
        if created != FileOk {
          return created;
        }
        slot := Find(path);
      }
      if slot < 0 {
        return ErrNotFound;
      }
      RewrittenEntry(old(store), NameOf(path).value, OldContent(old(store), NameOf(path).value) + Text(content.buffer));
      r := AppendAt(slot, content.buffer);
    }

    /** The second half of `append`, on an existing file. */
    method AppendAt(slot: int, text: seq<Char>) returns (r: FileResult)
      requires Valid() && 0 <= slot < fileCount && Terminated(text)
      requires |text| < U32_LIMIT - DATA_SIZE
      modifies files, `store
      ensures Valid()
      ensures var n := old(FileName(files[slot]));
              && n in old(store)
              && var t := old(store)[n] + Text(text);
                 if |t| >= DATA_SIZE then r == ErrTooLarge && store == old(store)
                 else r == FileOk && store == old(store)[n := t]
    {
      var addLen := Kstrlen(To(text));
      SlotHolds(slot);
      var size := files[slot].size;
      ghost var before := FileText(files[slot]);
      if (size + addLen) % U32_LIMIT >= DATA_SIZE {
        return ErrTooLarge;
      }
      assert before[..size] == before;
      StoreBytes(slot, size, text, addLen);
      return FileOk;
    }

    lemma SlotHolds(slot: int)
      requires Valid() && 0 <= slot < fileCount
      ensures GoodFile(files[slot])
      ensures FileName(files[slot]) in store && store[FileName(files[slot])] == Text(files[slot].data)
    {
      SlotsAreFiles(files[..], fileCount, store, slots, FileName(files[slot]));
      assert FileName(files[..][slot]) == FileName(files[slot]);
    }

    /** Copies `len` characters to offset `at` of the data and ends the string there. */
    method StoreBytes(slot: int, at: nat, text: seq<Char>, len: nat)
      requires Valid() && 0 <= slot < fileCount && Terminated(text)
      requires len == |Text(text)| && at <= |FileText(files[slot])| && at + len < DATA_SIZE
      modifies files, `store
      ensures Valid()
      ensures var f := old(files[slot]);
              store == old(store)[FileName(f) := FileText(f)[..at] + Text(text)]
    {
      SlotHolds(slot);
      var f := files[slot];
      var copied := Kmemcpy(f.data, at, text, len);
      var data := copied[at + len := NUL];
      ghost var t := Text(f.data)[..at] + Text(text);
      assert f.data[..at] == Text(f.data)[..at];
      assert data[..at + len] == t;
      TextIs(data, at + len);
      SameNameSlot(files[..], fileCount, store, slots, slot, f.(data := data, size := at + len));
      files[slot] := f.(data := data, size := at + len);
      store := store[FileName(f) := t];
    }

    /** The content, up to its terminator, of the buffer a caller is given. */
    method Read(path: Pointer) returns (data: Pointer)
      requires Valid() && StringOrNull(path)
      ensures StringOrNull(data)
      ensures FileStore.Read(store, path) == if data.Null? then None else Some(Text(data.buffer))
    {
      var slot := Find(path);
      if slot < 0 {
        return Null;
      }
      SlotHolds(slot);
      data := To(files[slot].data);
    }

    method Exists(path: Pointer) returns (b: bool)
      requires Valid() && StringOrNull(path)
      ensures b <==> FileStore.Read(store, path).Some?
    {
      var slot := Find(path);
      b := slot >= 0;
    }

    /** `stat`; `hasOut` is false for a null `out_stat`. */
    method Stat(path: Pointer, hasOut: bool, out: FileStat) returns (r: FileResult, stat: FileStat)
      requires Valid() && StringOrNull(path)
      ensures r == if !hasOut then ErrInvalidName
                   else if FileStore.Read(store, path).None? then ErrNotFound else FileOk
      ensures r != FileOk ==> stat == out
      ensures r == FileOk ==>
                && Terminated(stat.name) && Some(Text(stat.name)) == NameOf(path)
                && stat.size == |FileStore.Read(store, path).value| && !stat.isDirectory
    {
      stat := out;
      if !hasOut {
        return ErrInvalidName, stat;
      }
      var slot := Find(path);
      if slot < 0 {
        return ErrNotFound, stat;
      }
      stat := FillStat(slot);
      return FileOk, stat;
    }

    /** The fields of an existing file. */
    method FillStat(slot: int) returns (stat: FileStat)
      requires Valid() && 0 <= slot < fileCount
      ensures Terminated(stat.name) && Text(stat.name) == FileName(files[slot]) && !stat.isDirectory
      ensures FileName(files[slot]) in store && stat.size == |store[FileName(files[slot])]|
    {
      SlotHolds(slot);
      var name := Kstrcpy(Zeros(NAME_SIZE), files[slot].name);
      stat := FileStat(name, files[slot].size, false);
    }

    method MoveLastTo(i: int)
      requires files.Length == MAX_FILES && 0 <= i < fileCount <= MAX_FILES
      modifies files
      ensures files[..] == SwapWithLast(old(files[..]), fileCount, i)
    {
      files[i] := ZeroFile();
      if i != fileCount - 1 {
        files[i] := files[fileCount - 1];
        files[fileCount - 1] := ZeroFile();
      }
    }

    method Remove(path: Pointer) returns (r: FileResult)
      requires Valid() && StringOrNull(path)
      modifies this, files
      ensures Valid() && (r, store) == FileStore.Remove(old(store), path)
    {
      var normalized, name := NormalizeName(path, Zeros(NAME_SIZE));
      if normalized != FileOk {
        return normalized;
      }
      var i := FindName(name);
      if i < 0 {
        return ErrNotFound;
      }
      DropSlot(i);
      return FileOk;
    }

    /** What `remove` does with the slot that matches. */
    method DropSlot(i: int)
      requires Valid() && 0 <= i < fileCount
      modifies this, files
      ensures Valid() && store == old(store) - {old(FileName(files[i]))}
    {
      ghost var name, last := FileName(files[i]), FileName(files[fileCount - 1]);
      SwapDropsOne(files[..], fileCount, store, slots, i);
      MoveLastTo(i);
      fileCount := fileCount - 1;
      store, slots := store - {name}, slots[last := i] - {name};
    }
  }
}
