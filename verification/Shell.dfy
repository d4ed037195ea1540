/** The command parser of the kernel on C strings, and its file branches on the file table. */
module Shell {
  import opened CStrings
  import opened FileStore
  import opened ShellSpec
  import Vfs

  // ---------------------------------------------------------------- parser helpers

  method StartsWithText(text: seq<Char>, prefix: seq<Char>) returns (b: bool)
    requires Terminated(text) && Terminated(prefix)
    ensures b <==> StartsWith(Text(text), Text(prefix))
  {
    ghost var t, p := Text(text), Text(prefix);
    var i := 0;
    while prefix[i] != NUL
      invariant i <= |p| && i <= |t|
      invariant t[..i] == p[..i]
      decreases |p| - i
    {
      if text[i] != prefix[i] {
        if |p| <= |t| {
          assert t[..|p|][i] == text[i] && p[i] == prefix[i];
        }
        return false;
      }
      assert i < |t| && t[i] == p[i];
      i := i + 1;
    }
    return true;
  }

  /** The rest of the string behind its blanks. */
  method SkipSpaces(text: seq<Char>) returns (rest: seq<Char>)
    requires Terminated(text)
    ensures Terminated(rest) && |rest| <= |text|
    ensures Text(rest) == SkipBlanks(Text(text))
  {
    rest := text;
    while rest[0] == SPACE
      invariant Terminated(rest) && |rest| <= |text|
      invariant SkipBlanks(Text(rest)) == SkipBlanks(Text(text))
      decreases |rest|
    {
      rest := rest[1..];
    }
  }

  /** The rest of the string behind its first word. */
  method SkipWord(text: seq<Char>) returns (rest: seq<Char>)
    requires Terminated(text)
    ensures Terminated(rest) && |rest| <= |text|
    ensures Text(rest) == Text(text)[WordLength(Text(text))..]
  {
    rest := text;
    ghost var n := 0;
    while rest[0] != NUL && rest[0] != SPACE
      invariant Terminated(rest) && |rest| <= |text|
      invariant 0 <= n <= |Text(text)| && Text(rest) == Text(text)[n..]
      invariant WordLength(Text(text)) == n + WordLength(Text(rest))
      decreases |rest|
    {
      assert Text(rest)[1..] == Text(text)[n + 1..];
      rest := rest[1..];
      n := n + 1;
    }
  }

  method CopyToken(start: seq<Char>, dest: seq<Char>, outSize: nat) returns (out: seq<Char>)
    requires Terminated(start) && |dest| == outSize > 0
    ensures |out| == outSize && Terminated(out)
    ensures Text(out) == Token(Text(start), outSize)
  {
    ghost var t := Text(start);
    out := dest;
    var i := 0;
    while start[i] != NUL && start[i] != SPACE && i + 1 < outSize
      invariant 0 <= i <= |t| && i < outSize && |out| == outSize
      invariant out[..i] == t[..i]
      invariant WordLength(t) == i + WordLength(t[i..])
      decreases |t| - i
    {
      out := out[i := start[i]];
      assert t[i..][1..] == t[i + 1..];
      assert out[..i + 1] == t[..i] + [start[i]] == t[..i + 1];
      i := i + 1;
    }
    out := out[i := NUL];
    assert i < |t| ==> t[i..][0] == t[i];
    assert out[..i] == t[..i] == Token(t, outSize);
    TextIs(out, i);
  }

  method Is(cmd: seq<Char>, word: seq<Char>) returns (b: bool)
    requires Terminated(cmd) && NUL !in word
    ensures b <==> Text(cmd) == word
  {
    var r, at := Kstrcmp(cmd, Buffer(word));
    b := r == 0;
  }

  method HasPrefix(cmd: seq<Char>, prefix: seq<Char>) returns (b: bool)
    requires Terminated(cmd) && NUL !in prefix
    ensures b <==> StartsWith(Text(cmd), prefix)
  {
    b := StartsWithText(cmd, Buffer(prefix));
  }

  /** `cmd + n`, for a prefix of the command. */
  method Drop(cmd: seq<Char>, n: nat) returns (rest: seq<Char>)
    requires Terminated(cmd) && n <= |Text(cmd)|
    ensures Terminated(rest) && |rest| <= |cmd| && Text(rest) == Text(cmd)[n..]
  {
    rest := cmd[n..];
    ghost var t := Text(cmd);
    assert rest[|t| - n] == NUL && rest[..|t| - n] == t[n..];
    TextIs(rest, |t| - n);
  }

  // ---------------------------------------------------------------- the file branches

  /** A string in a buffer, and the same string in a buffer of its own, name the same file. */
  lemma SamePath(b: seq<Char>)
    requires Terminated(b)
    ensures NameOf(To(b)) == NameOf(PathTo(Text(b)))
    ensures ContentOf(To(b)) == ContentOf(PathTo(Text(b)))
  {
  }

  lemma SameWrite(s: Store, path: seq<Char>, content: seq<Char>)
    requires Terminated(path) && Terminated(content)
    ensures Write(s, To(path), To(content)) == Write(s, PathTo(Text(path)), PathTo(Text(content)))
    ensures Append(s, To(path), To(content)) == Append(s, PathTo(Text(path)), PathTo(Text(content)))
  {
    SamePath(path);
    SamePath(content);
  }

  class Shell {
    const vfs: Vfs.FileSystem

    constructor (fs: Vfs.FileSystem)
      ensures vfs == fs
    {
      vfs := fs;
    }

    /** What `execute_command` tells the user, and what it does to the files, for a line in a buffer
        no larger than the input buffer. */
    method ExecuteCommand(cmd: seq<Char>) returns (r: Outcome)
      requires vfs.Valid() && Terminated(cmd) && |cmd| <= 256
      modifies vfs, vfs.files
      ensures vfs.Valid()
      ensures (r, vfs.store) == RunLine(old(vfs.store), Text(cmd))
    {
      ghost var line := Text(cmd);
      var isList := Is(cmd, LST);
      if isList {
        return Listing;
      }
      var isTouch := HasPrefix(cmd, TOUCH);
      if isTouch {
        var rest := Drop(cmd, 5);
        r := TouchFile(line, rest);
        return;
      }
      var isRdf := HasPrefix(cmd, RDF);
      if isRdf {
        var rest := Drop(cmd, 3);
        r := ShowFile(line, rest);
        return;
      }
      var isRec := HasPrefix(cmd, REC);
      if isRec {
        var rest := Drop(cmd, 3);
        r := RecordFile(line, rest);
        return;
      }
      r := ExecuteMore(cmd);
    }

    /** The branches behind `rec`. */
    method ExecuteMore(cmd: seq<Char>) returns (r: Outcome)
      requires vfs.Valid() && Terminated(cmd) && |cmd| <= 256
      requires Text(cmd) != LST && !StartsWith(Text(cmd), TOUCH) && !StartsWith(Text(cmd), RDF)
      requires !StartsWith(Text(cmd), REC)
      modifies vfs, vfs.files
      ensures vfs.Valid()
      ensures (r, vfs.store) == RunLine(old(vfs.store), Text(cmd))
    {
      ghost var line := Text(cmd);
      var isAppend := HasPrefix(cmd, APPEND);
      if isAppend {
        var rest := Drop(cmd, 6);
        r := AppendFile(line, rest);
        return;
      }
      var isRm := HasPrefix(cmd, RM);
      if isRm {
        var rest := Drop(cmd, 2);
        r := RemoveFile(line, rest);
        return;
      }
      var isStat := HasPrefix(cmd, STAT);
      if isStat {
        var rest := Drop(cmd, 4);
        r := ShowFacts(line, rest);
        return;
      }
      assert Parse(line) == Other;
      return NoFileCommand;
    }

    // One method a branch; `rest` points at the blank behind the command word.

    method TouchFile(ghost line: seq<Char>, rest: seq<Char>) returns (r: Outcome)
      requires vfs.Valid() && Terminated(rest)
      requires StartsWith(line, TOUCH) && Text(rest) == line[5..]
      modifies vfs, vfs.files
      ensures vfs.Valid() && (r, vfs.store) == RunLine(old(vfs.store), line)
    {
      DispatchTouch(line);
      var filename := SkipSpaces(rest);
      SamePath(filename);
      var result := vfs.Create(To(filename));
      return Done(result);
    }

    method ShowFile(ghost line: seq<Char>, rest: seq<Char>) returns (r: Outcome)
      requires vfs.Valid() && Terminated(rest)
      requires StartsWith(line, RDF) && Text(rest) == line[3..]
      ensures (r, vfs.store) == RunLine(vfs.store, line)
    {
      DispatchRdf(line);
      var filename := SkipSpaces(rest);
      SamePath(filename);
      var content := vfs.Read(To(filename));
      if content.To? {
        r := Content(Text(content.buffer));
      } else {
        r := ContentMissing;
      }
    }

    method RecordFile(ghost line: seq<Char>, rest: seq<Char>) returns (r: Outcome)
      requires vfs.Valid() && Terminated(rest)
      requires StartsWith(line, REC) && Text(rest) == line[3..]
      modifies vfs, vfs.files
      ensures vfs.Valid() && (r, vfs.store) == RunLine(old(vfs.store), line)
    {
      var filename, content := SplitArgs(rest);
      RunRec(vfs.store, line, Text(filename), Text(content));
      if filename[0] == NUL || content[0] == NUL {
        return Usage;
      }
      SameWrite(vfs.store, filename, content);
      var result := vfs.Write(To(filename), To(content));
      return Done(result);
    }

    /** The name buffer and the rest of the line, as `rec` and `append` take them. */
    method SplitArgs(rest: seq<Char>) returns (filename: seq<Char>, content: seq<Char>)
      requires Terminated(rest)
      ensures Terminated(filename) && Text(filename) == Token(SkipBlanks(Text(rest)), NAME_SIZE)
      ensures Terminated(content) && Text(content) == AfterWord(SkipBlanks(Text(rest)))
      ensures |content| <= |rest|
    {
      var args := SkipSpaces(rest);
      filename := CopyToken(args, Vfs.Zeros(NAME_SIZE), NAME_SIZE);
      content := SkipWord(args);
      content := SkipSpaces(content);
    }

    method AppendFile(ghost line: seq<Char>, rest: seq<Char>) returns (r: Outcome)
      requires vfs.Valid() && Terminated(rest) && |rest| <= 256
      requires StartsWith(line, APPEND) && Text(rest) == line[6..]
      modifies vfs, vfs.files
      ensures vfs.Valid() && (r, vfs.store) == RunLine(old(vfs.store), line)
    {
      var filename, content := SplitArgs(rest);
      RunAppend(vfs.store, line, Text(filename), Text(content));
      SameWrite(vfs.store, filename, content);
      var result := vfs.Append(To(filename), To(content));
      return Done(result);
    }

    method RemoveFile(ghost line: seq<Char>, rest: seq<Char>) returns (r: Outcome)
      requires vfs.Valid() && Terminated(rest)
      requires StartsWith(line, RM) && Text(rest) == line[2..]
      modifies vfs, vfs.files
      ensures vfs.Valid() && (r, vfs.store) == RunLine(old(vfs.store), line)
    {
      DispatchRm(line);
      var filename := SkipSpaces(rest);
      SamePath(filename);
      var result := vfs.Remove(To(filename));
      return Done(result);
    }

    method ShowFacts(ghost line: seq<Char>, rest: seq<Char>) returns (r: Outcome)
      requires vfs.Valid() && Terminated(rest)
      requires StartsWith(line, STAT) && Text(rest) == line[4..]
      ensures (r, vfs.store) == RunLine(vfs.store, line)
    {
      DispatchStat(line);
      var filename := SkipSpaces(rest);
      SamePath(filename);
      var result, stat := vfs.Stat(To(filename), true, Vfs.FileStat([], 0, false));
      if result == FileOk {
        r := Facts(Text(stat.name), stat.size);
      } else {
        r := Done(result);
      }
    }
  }
}
