/** What the UTF-8 writer of the console makes of a NUL-terminated text, and why that is one
    question mark for every character beyond ASCII. The encoding is that of section 3 of RFC 3629. */
module Utf8 {
  import opened CStrings
  import opened Terminal
  import opened Words

  /** Bytes the decoder steps over after a byte. */
  function Skip(b: Char): nat {
    if b < 0x80 then 0
    else if And(b, 0xE0) == 0xC0 then 1
    else if And(b, 0xF0) == 0xE0 then 2
    else if And(b, 0xF8) == 0xF0 then 3
    else 0
  }

  function Shown(b: Char): Char {
    if b < 0x80 then b else QUESTION_MARK
  }

  /** The decoder, started at `i`, comes to a NUL within the text. */
  predicate Terminates(text: seq<Char>, i: nat)
    decreases |text| - i
  {
    i < |text| && (text[i] == NUL || Terminates(text, i + 1 + Skip(text[i])))
  }

  /** What the decoder prints from `i` on. */
  function Decoded(text: seq<Char>, i: nat): seq<Char>
    requires Terminates(text, i)
    decreases |text| - i
  {
    if text[i] == NUL then []
    else [Shown(text[i])] + Decoded(text, i + 1 + Skip(text[i]))
  }

  lemma StepOver(text: seq<Char>, i: nat)
    requires i < |text| && text[i] != NUL && Terminates(text, i + 1 + Skip(text[i]))
    ensures Terminates(text, i)
    ensures Decoded(text, i) == [Shown(text[i])] + Decoded(text, i + 1 + Skip(text[i]))
  {
  }

  // ---------------------------------------------------------------- the lead byte tests

  lemma Halve(x: nat, y: nat, half: nat)
    requires half == x / 2
    ensures And(x, 2 * y) == 2 * And(half, y)
  {
  }

  lemma OddMask(x: nat, m: nat)
    requires m > 0
    ensures And(x, 2 * m - 1) == 2 * And(x / 2, m - 1) + x % 2
  {
    assert (2 * m - 1) / 2 == m - 1 && (2 * m - 1) % 2 == 1;
  }

  lemma {:induction false} LowOnes(x: nat, n: nat)
    requires x < Mask(n)
    ensures And(x, Mask(n) - 1) == x
  {
    if n > 0 {
      LowOnes(x / 2, n - 1);
      OddMask(x, Mask(n - 1));
    }
  }

  /** The masks with five, four and three high ones keep that many high digits of a byte. */
  lemma FiveKept(b: Char, h1: nat, h2: nat, h3: nat)
    requires h1 == b / 2 && h2 == h1 / 2 && h3 == h2 / 2
    ensures And(b, 0xF8) == 8 * h3
  {
    LowOnes(h3, 5);
    Halve(b, 0x7C, h1);
    Halve(h1, 0x3E, h2);
    Halve(h2, 0x1F, h3);
  }

  lemma FourKept(b: Char, h1: nat, h2: nat, h3: nat, h4: nat)
    requires h1 == b / 2 && h2 == h1 / 2 && h3 == h2 / 2 && h4 == h3 / 2
    ensures And(b, 0xF0) == 16 * h4
  {
    LowOnes(h4, 4);
    Halve(b, 0x78, h1);
    Halve(h1, 0x3C, h2);
    Halve(h2, 0x1E, h3);
    Halve(h3, 0x0F, h4);
  }

  lemma ThreeKept(b: Char, h1: nat, h2: nat, h3: nat, h4: nat, h5: nat)
    requires h1 == b / 2 && h2 == h1 / 2 && h3 == h2 / 2 && h4 == h3 / 2 && h5 == h4 / 2
    ensures And(b, 0xE0) == 32 * h5
  {
    LowOnes(h5, 3);
    Halve(b, 0x70, h1);
    Halve(h1, 0x38, h2);
    Halve(h2, 0x1C, h3);
    Halve(h3, 0x0E, h4);
    Halve(h4, 0x07, h5);
  }

  lemma Kept(b: Char) returns (h3: nat, h4: nat, h5: nat)
    ensures 8 * h3 <= b < 8 * h3 + 8 && And(b, 0xF8) == 8 * h3
    ensures 16 * h4 <= b < 16 * h4 + 16 && And(b, 0xF0) == 16 * h4
    ensures 32 * h5 <= b < 32 * h5 + 32 && And(b, 0xE0) == 32 * h5
  {
    var h1 := b / 2;
    var h2 := h1 / 2;
    h3 := h2 / 2;
    h4 := h3 / 2;
    h5 := h4 / 2;
    FiveKept(b, h1, h2, h3);
    FourKept(b, h1, h2, h3, h4);
    ThreeKept(b, h1, h2, h3, h4, h5);
  }

  /** The ranges the kept digits stand for. */
  lemma KeptRanges(b: int, h3: int, h4: int, h5: int)
    requires 8 * h3 <= b < 8 * h3 + 8 && 16 * h4 <= b < 16 * h4 + 16 && 32 * h5 <= b < 32 * h5 + 32
    ensures 32 * h5 == 0xC0 <==> 0xC0 <= b < 0xE0
    ensures 16 * h4 == 0xE0 <==> 0xE0 <= b < 0xF0
    ensures 8 * h3 == 0xF0 <==> 0xF0 <= b < 0xF8
  {
  }

  /** The mask tests read off the length of the encoded character. */
  lemma SkipByRange(b: Char)
    ensures Skip(b) == if 0xC0 <= b < 0xE0 then 1 else if 0xE0 <= b < 0xF0 then 2
                       else if 0xF0 <= b < 0xF8 then 3 else 0
  {
    var h3, h4, h5 := Kept(b);
    KeptRanges(b, h3, h4, h5);
  }

  /** What the decoder makes of any byte, lead byte or not, in numbers: ASCII is printed as it is, any
      other byte as a question mark, and 1, 2 or 3 bytes are left out behind a lead byte. */
  lemma AnyByte(text: seq<Char>, i: nat)
    requires Terminates(text, i)
    ensures var b := text[i];
            var next := i + 1 + (if 0xC0 <= b < 0xE0 then 1 else if 0xE0 <= b < 0xF0 then 2
                                 else if 0xF0 <= b < 0xF8 then 3 else 0);
            if b == 0 then Decoded(text, i) == []
            else Terminates(text, next) && Decoded(text, i) == [if b < 128 then b else 63] + Decoded(text, next)
  {
    SkipByRange(text[i]);
  }

  // ---------------------------------------------------------------- encoded text

  /** A Unicode scalar value other than NUL. */
  type Scalar = s: int | 0 < s < 0xD800 || 0xDFFF < s < 0x11_0000 witness 1

  function Encode(s: Scalar): (bytes: seq<Char>)
    ensures 1 <= |bytes| <= 4
  {
    if s < 0x80 then [s]
    else if s < 0x800 then [0xC0 + s / 0x40, 0x80 + s % 0x40]
    else if s < 0x1_0000 then [0xE0 + s / 0x1000, 0x80 + s / 0x40 % 0x40, 0x80 + s % 0x40]
    else [0xF0 + s / 0x4_0000, 0x80 + s / 0x1000 % 0x40, 0x80 + s / 0x40 % 0x40, 0x80 + s % 0x40]
  }

  predicate Continuation(b: Char) {
    0x80 <= b < 0xC0
  }

  /** The digits a byte carries behind a marker. */
  function Payload(b: Char, marker: int): int {
    b as int - marker
  }

  function ScalarOf(b: seq<Char>): int
    requires 1 <= |b| <= 4
  {
    match |b|
    case 1 => b[0]
    case 2 => Payload(b[0], 0xC0) * 0x40 + Payload(b[1], 0x80)
    case 3 => (Payload(b[0], 0xE0) * 0x40 + Payload(b[1], 0x80)) * 0x40 + Payload(b[2], 0x80)
    case _ =>
      ((Payload(b[0], 0xF0) * 0x40 + Payload(b[1], 0x80)) * 0x40 + Payload(b[2], 0x80)) * 0x40 + Payload(b[3], 0x80)
  }

  /** `Encode` is the encoding of the RFC: continuation bytes behind the lead byte, the scalar value
      in the digits behind the markers, and no more bytes than the value needs. */
  lemma EncodeIsUtf8(s: Scalar)
    ensures forall i :: 1 <= i < |Encode(s)| ==> Continuation(Encode(s)[i])
    ensures ScalarOf(Encode(s)) == s
    ensures |Encode(s)| == if s < 0x80 then 1 else if s < 0x800 then 2 else if s < 0x1_0000 then 3 else 4
  {
    var q1, q2 := s / 0x40, s / 0x1000;
    assert q2 == q1 / 0x40 && s / 0x4_0000 == q2 / 0x40;
  }

  function EncodeAll(text: seq<Scalar>): seq<Char> {
    if text == [] then [] else Encode(text[0]) + EncodeAll(text[1..])
  }

  function AsAscii(s: Scalar): Char {
    if s < 0x80 then s else QUESTION_MARK
  }

  function AllAsAscii(text: seq<Scalar>): seq<Char> {
    if text == [] then [] else [AsAscii(text[0])] + AllAsAscii(text[1..])
  }

  /** One encoded character: the decoder prints it as one character and steps exactly over it. */
  lemma LeadByte(s: Scalar)
    ensures var b := Encode(s)[0]; b != NUL && Shown(b) == AsAscii(s) && 1 + Skip(b) == |Encode(s)|
    ensures AsAscii(s) == if s < 128 then s else 63
  {
    SkipByRange(Encode(s)[0]);
  }

  lemma RegroupText(before: seq<Char>, first: seq<Char>, rest: seq<Char>, after: seq<Char>)
    requires first != []
    ensures var all := before + (first + rest) + [NUL] + after;
            all == (before + first) + rest + [NUL] + after && all[|before|] == first[0]
  {
  }

  lemma DecodeOne(before: seq<Char>, s: Scalar, rest: seq<Char>, after: seq<Char>)
    requires Terminates((before + Encode(s)) + rest + [NUL] + after, |before + Encode(s)|)
    ensures var all := before + (Encode(s) + rest) + [NUL] + after;
            && all == (before + Encode(s)) + rest + [NUL] + after
            && Terminates(all, |before|)
            && Decoded(all, |before|) == [AsAscii(s)] + Decoded(all, |before + Encode(s)|)
  {
    LeadByte(s);
    RegroupText(before, Encode(s), rest, after);
    StepOver(before + (Encode(s) + rest) + [NUL] + after, |before|);
  }

  /** For encoded text the decoder meets every character boundary, ends on the terminator, and
      prints the text with each character beyond ASCII replaced. */
  lemma {:induction false} DecodesEncoded(before: seq<Char>, text: seq<Scalar>, after: seq<Char>)
    ensures Terminates(before + EncodeAll(text) + [NUL] + after, |before|)
    ensures Decoded(before + EncodeAll(text) + [NUL] + after, |before|) == AllAsAscii(text)
    decreases |text|
  {
    if text != [] {
      DecodesEncoded(before + Encode(text[0]), text[1..], after);
      DecodeOne(before, text[0], EncodeAll(text[1..]), after);
    }
  }
}
