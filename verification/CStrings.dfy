/** NUL-terminated strings in character buffers, and the kernel's string routines on them. */
module CStrings {

  type Char = c: int | 0 <= c < 256

  const NUL: Char := 0
  const SPACE: Char := 32

  predicate Terminated(b: seq<Char>) {
    NUL in b
  }

  /** The characters before the first NUL. */
  function Text(b: seq<Char>): (t: seq<Char>)
    requires Terminated(b)
    ensures |t| < |b| && t == b[..|t|] && b[|t|] == NUL && NUL !in t
  {
    if b[0] == NUL then [] else [b[0]] + Text(b[1..])
  }

  lemma TextIs(b: seq<Char>, n: nat)
    requires n < |b| && b[n] == NUL && NUL !in b[..n]
    ensures Terminated(b) && Text(b) == b[..n]
  {
    var t := Text(b);
  }

  /** A string as a buffer of its own. */
  function Buffer(t: seq<Char>): (b: seq<Char>)
    ensures Terminated(b)
    ensures NUL !in t ==> Text(b) == t
  {
    var b := t + [NUL];
    assert b[|t|] == NUL;
    if NUL !in t then
      assert b[..|t|] == t;
      TextIs(b, |t|);
      b
    else b
  }

  /** A `const char*`: null, or the address of a buffer. */
  datatype Pointer = Null | To(buffer: seq<Char>)

  /** What a routine that takes a string demands of its caller. */
  predicate StringOrNull(p: Pointer) {
    p.To? ==> Terminated(p.buffer)
  }

  /** The characters of a literal. */
  function Ascii(s: string): (t: seq<Char>)
    requires forall i :: 0 <= i < |s| ==> 0 < s[i] as int < 128
    ensures |t| == |s| && NUL !in t
    ensures forall i :: 0 <= i < |s| ==> t[i] == s[i] as int
  {
    if s == "" then [] else [s[0] as int] + Ascii(s[1..])
  }

  method Kstrlen(str: Pointer) returns (len: nat)
    requires StringOrNull(str)
    ensures len == if str.Null? then 0 else |Text(str.buffer)|
  {
    if str.Null? {
      return 0;
    }
    len := 0;
    while str.buffer[len] != NUL
      invariant len <= |Text(str.buffer)|
      decreases |Text(str.buffer)| - len
    {
      len := len + 1;
    }
  }

  /** Zero exactly for equal strings; otherwise the difference of the first characters that differ. */
  method Kstrcmp(str1: seq<Char>, str2: seq<Char>) returns (r: int, ghost at: nat)
    requires Terminated(str1) && Terminated(str2)
    ensures r == 0 <==> Text(str1) == Text(str2)
    ensures at < |str1| && at < |str2| && r == str1[at] as int - str2[at] as int
    ensures forall k :: 0 <= k < at ==> str1[k] == str2[k] != NUL
  {
    var i := 0;
    ghost var t1, t2 := Text(str1), Text(str2);
    while str1[i] != NUL && str1[i] == str2[i]
      invariant i <= |t1| && i <= |t2|
      invariant forall k :: 0 <= k < i ==> str1[k] == str2[k] != NUL
      decreases |t1| - i
    {
      i := i + 1;
    }
    at := i;
    r := str1[i] as int - str2[i] as int;
    if r == 0 {
      assert i == |t1| == |t2|;
    } else {
      assert t1 != t2 by {
        assert i < |t1| ==> t1[i] == str1[i];
        assert i < |t2| ==> t2[i] == str2[i];
      }
    }
  }

  method Kmemcpy(destination: seq<Char>, at: nat, source: seq<Char>, num: nat) returns (r: seq<Char>)
    requires num <= |source| && at + num <= |destination|
    ensures r == destination[..at] + source[..num] + destination[at + num..]
  {
    r := destination;
    var i := 0;
    while i < num
      invariant i <= num
      invariant r == destination[..at] + source[..i] + destination[at + i..]
    {
      r := r[at + i := source[i]];
      i := i + 1;
    }
  }

  method Kstrcpy(dest: seq<Char>, src: seq<Char>) returns (r: seq<Char>)
    requires Terminated(src) && |Text(src)| < |dest|
    ensures r == Text(src) + [NUL] + dest[|Text(src)| + 1..]
    ensures |r| == |dest| && Terminated(r) && Text(r) == Text(src)
  {
    r := dest;
    ghost var t := Text(src);
    var i := 0;
    while src[i] != NUL
      invariant i <= |t| && |r| == |dest|
      invariant r[..i] == t[..i] && r[i..] == dest[i..]
      decreases |t| - i
    {
      r := r[i := src[i]];
      i := i + 1;
      assert t[..i] == t[..i - 1] + [src[i - 1]];
    }
    assert i == |t| && t[..i] == t;
    r := r[i := NUL];
    assert r[..i] == t && r[i + 1..] == dest[i + 1..];
    TextIs(r, i);
  }
}
