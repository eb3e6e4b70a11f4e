/** Base64 (section 4 of RFC 4648, padding optional as in section 3.2) with line wrapping, as
    fdfs_base64.c encodes it.  The alphabet, the pad char and the line separator are static
    tables there that no file of the repository fills in, so here they are a parameter. */
module Base64 {
  import opened CStrings

  const LINE_LENGTH := 72

  datatype Codec = Codec(alphabet: string, pad: char, lineSep: string) {
    predicate Valid() { |alphabet| == 64 }

    function Letter(i: nat): char
      requires Valid() && i < 64
    {
      alphabet[i]
    }

    /** What a decoder needs: letters found where they stand, that is all different, and no
        letter used as pad or separator. */
    ghost predicate Invertible() {
      && Valid()
      && (forall i {:trigger Letter(i)} | 0 <= i < 64 :: IndexOf(alphabet, Letter(i)) == i)
      && pad !in alphabet
      && (forall i | 0 <= i < |lineSep| :: lineSep[i] !in alphabet)
    }
  }

  // ------------------------------------------------------------ encoding, as a function

  /** Six of the 24 bits of three bytes, counted from the high end. */
  function Sextet(b0: char, b1: char, b2: char, k: nat): (x: nat)
    requires k < 4
    ensures x < 64
  {
    var combined := b0 as int * 0x1_0000 + b1 as int * 0x100 + b2 as int;
    (if k == 0 then combined / 0x4_0000 else if k == 1 then combined / 0x1000
     else if k == 2 then combined / 64 else combined) % 64
  }

  /** The letters of three bytes. */
  function Quad(c: Codec, b0: char, b1: char, b2: char): (q: string)
    requires c.Valid()
    ensures |q| == 4
  {
    [c.alphabet[Sextet(b0, b1, b2, 0)], c.alphabet[Sextet(b0, b1, b2, 1)],
     c.alphabet[Sextet(b0, b1, b2, 2)], c.alphabet[Sextet(b0, b1, b2, 3)]]
  }

  /** The letters of src, in one line and without padding; a last group of one or two bytes is
      completed with zero bits and gives two or three letters. */
  function Text(c: Codec, src: string): string
    requires c.Valid()
  {
    if |src| >= 3 then Quad(c, src[0], src[1], src[2]) + Text(c, src[3..])
    else if |src| == 2 then Quad(c, src[0], src[1], NUL)[..3]
    else if |src| == 1 then Quad(c, src[0], NUL, NUL)[..2]
    else []
  }

  /** One pad char per byte missing from the last group. */
  function Pads(c: Codec, left: nat): string {
    if left == 1 then [c.pad, c.pad] else if left == 2 then [c.pad] else []
  }

  /** Text broken into lines of LINE_LENGTH chars. */
  function Lines(c: Codec, t: string): string {
    if |t| <= LINE_LENGTH then t else t[..LINE_LENGTH] + c.lineSep + Lines(c, t[LINE_LENGTH..])
  }

  /** The encoding of src: its letters, padded if asked, wrapped into lines. */
  function Encoded(c: Codec, src: string, bPad: bool): string
    requires c.Valid()
  {
    Lines(c, Text(c, src) + if bPad then Pads(c, |src| % 3) else [])
  }

  // ------------------------------------------------------------ decoder (specification)

  function Byte0(x0: nat, x1: nat): nat { x0 * 4 + x1 / 16 }

  function Byte1(x1: nat, x2: nat): nat { x1 % 16 * 16 + x2 / 4 }

  function Byte2(x2: nat, x3: nat): nat { x2 % 4 * 64 + x3 }

  /** Position in the alphabet of a letter; nothing for any other char. */
  function ValueOf(c: Codec, letter: char): (v: seq<nat>)
    requires c.Valid()
    ensures forall i | 0 <= i < |v| :: v[i] < 64
  {
    var k := IndexOf(c.alphabet, letter);
    if k < 64 then [k] else []
  }

  /** Position in the alphabet of each letter of s; every other char is skipped. */
  function Values(c: Codec, s: string): (v: seq<nat>)
    requires c.Valid()
    ensures forall i | 0 <= i < |v| :: v[i] < 64
  {
    if s == [] then [] else ValueOf(c, s[0]) + Values(c, s[1..])
  }

  function Bytes(v: seq<nat>): string
    requires forall i | 0 <= i < |v| :: v[i] < 64
  {
    if |v| >= 4 then [Byte0(v[0], v[1]) as char, Byte1(v[1], v[2]) as char, Byte2(v[2], v[3]) as char] + Bytes(v[4..])
    else if |v| == 3 then [Byte0(v[0], v[1]) as char, Byte1(v[1], v[2]) as char]
    else if |v| == 2 then [Byte0(v[0], v[1]) as char]
    else []
  }

  function Decoded(c: Codec, s: string): string
    requires c.Valid()
  {
    Bytes(Values(c, s))
  }

  // ------------------------------------------------------------ round trip

  /** Shifting the 24 bits right by 12 and by 6 splits a byte each time. */
  lemma ShiftedParts(b0: nat, b1: nat, b2: nat)
    requires b0 < 256 && b1 < 256 && b2 < 256
    ensures var combined := b0 * 0x1_0000 + b1 * 0x100 + b2;
            && combined / 0x4_0000 == b0 / 4
            && combined / 0x1000 == b0 * 16 + b1 / 16
            && combined / 64 == b0 * 1024 + b1 * 4 + b2 / 64
  {
  }

  lemma LowSix(x: nat, k: nat, r: nat)
    requires x == 64 * k + r && r < 64
    ensures x % 64 == r
  {
  }

  lemma SextetParts(b0: Octet, b1: Octet, b2: Octet)
    ensures Sextet(b0, b1, b2, 0) == b0 as int / 4
    ensures Sextet(b0, b1, b2, 1) == b0 as int % 4 * 16 + b1 as int / 16
    ensures Sextet(b0, b1, b2, 2) == b1 as int % 16 * 4 + b2 as int / 64
    ensures Sextet(b0, b1, b2, 3) == b2 as int % 64
  {
    var n0, n1, n2 := b0 as int, b1 as int, b2 as int;
    var combined := n0 * 0x1_0000 + n1 * 0x100 + n2;
    ShiftedParts(n0, n1, n2);
    LowSix(n0 / 4, 0, n0 / 4);
    LowSix(n0 * 16 + n1 / 16, n0 / 4, n0 % 4 * 16 + n1 / 16);
    LowSix(n0 * 1024 + n1 * 4 + n2 / 64, n0 * 16 + n1 / 16, n1 % 16 * 4 + n2 / 64);
    LowSix(combined, n0 * 1024 + n1 * 4 + n2 / 64, n2 % 64);
  }

  lemma BytesFromParts(b0: nat, b1: nat, b2: nat)
    requires b0 < 256 && b1 < 256 && b2 < 256
    ensures Byte0(b0 / 4, b0 % 4 * 16 + b1 / 16) == b0
    ensures Byte1(b0 % 4 * 16 + b1 / 16, b1 % 16 * 4 + b2 / 64) == b1
    ensures Byte2(b1 % 16 * 4 + b2 / 64, b2 % 64) == b2
  {
  }

  lemma BytesOfSextets(b0: Octet, b1: Octet, b2: Octet)
    ensures Byte0(Sextet(b0, b1, b2, 0), Sextet(b0, b1, b2, 1)) == b0 as int
    ensures Byte1(Sextet(b0, b1, b2, 1), Sextet(b0, b1, b2, 2)) == b1 as int
    ensures Byte2(Sextet(b0, b1, b2, 2), Sextet(b0, b1, b2, 3)) == b2 as int
  {
    SextetParts(b0, b1, b2);
    BytesFromParts(b0 as int, b1 as int, b2 as int);
  }

  lemma ValuesFirst(c: Codec, s: string)
    requires c.Valid() && s != []
    ensures Values(c, s) == ValueOf(c, s[0]) + Values(c, s[1..])
  {
  }

  lemma NoValues(c: Codec)
    requires c.Valid()
    ensures Values(c, []) == []
  {
  }

  lemma {:induction false} ValuesConcat(c: Codec, a: string, b: string)
    requires c.Valid()
    ensures Values(c, a + b) == Values(c, a) + Values(c, b)
    decreases |a|
  {
    hide *;
    if a == [] {
      assert a + b == b;
      NoValues(c);
    } else {
      var s := a + b;
      assert s[1..] == a[1..] + b && s[0] == a[0];
      ValuesConcat(c, a[1..], b);
      ValuesFirst(c, a);
      ValuesFirst(c, s);
      assert ValueOf(c, a[0]) + (Values(c, a[1..]) + Values(c, b)) == ValueOf(c, a[0]) + Values(c, a[1..]) + Values(c, b);
    }
  }

  lemma {:induction false} ValuesSkip(c: Codec, s: string)
    requires c.Valid()
    requires forall i | 0 <= i < |s| :: s[i] !in c.alphabet
    ensures Values(c, s) == []
  {
    if s != [] {
      ValuesSkip(c, s[1..]);
    }
  }

  lemma ValueOfLetter(c: Codec, x: nat, s: string)
    requires c.Invertible() && x < 64
    requires s != [] && s[0] == c.alphabet[x]
    ensures Values(c, s) == [x] + Values(c, s[1..])
  {
    assert c.Letter(x) == s[0];
  }

  lemma ValuesOfLetters(c: Codec, x: seq<nat>, s: string)
    requires c.Invertible() && |s| == |x|
    requires forall i | 0 <= i < |x| :: x[i] < 64 && s[i] == c.alphabet[x[i]]
    ensures Values(c, s) == x
  {
    if x != [] {
      ValueOfLetter(c, x[0], s);
      ValuesOfLetters(c, x[1..], s[1..]);
      assert x == [x[0]] + x[1..];
    }
  }

  function Sextets(b0: char, b1: char, b2: char): (x: seq<nat>)
    ensures |x| == 4 && forall i | 0 <= i < 4 :: x[i] < 64
  {
    [Sextet(b0, b1, b2, 0), Sextet(b0, b1, b2, 1), Sextet(b0, b1, b2, 2), Sextet(b0, b1, b2, 3)]
  }

  lemma ValuesOfQuad(c: Codec, b0: char, b1: char, b2: char, k: nat)
    requires c.Invertible() && k <= 4
    ensures Values(c, Quad(c, b0, b1, b2)[..k]) == Sextets(b0, b1, b2)[..k]
  {
    ValuesOfLetters(c, Sextets(b0, b1, b2)[..k], Quad(c, b0, b1, b2)[..k]);
  }

  ghost predicate AreOctets(s: string) { forall i | 0 <= i < |s| :: s[i] as int < 256 }

  lemma BytesOfQuad(b0: Octet, b1: Octet, b2: Octet, rest: seq<nat>)
    requires forall i | 0 <= i < |rest| :: rest[i] < 64
    ensures Bytes(Sextets(b0, b1, b2) + rest) == [b0, b1, b2] + Bytes(rest)
    ensures Bytes(Sextets(b0, b1, b2)[..3]) == [b0, b1]
    ensures Bytes(Sextets(b0, b1, b2)[..2]) == [b0]
  {
    BytesOfSextets(b0, b1, b2);
    assert (Sextets(b0, b1, b2) + rest)[4..] == rest;
  }

  lemma GroupInverse(c: Codec, b0: Octet, b1: Octet, b2: Octet, rest: string)
    requires c.Invertible()
    ensures Bytes(Values(c, Quad(c, b0, b1, b2) + rest)) == [b0, b1, b2] + Bytes(Values(c, rest))
  {
    var q := Quad(c, b0, b1, b2);
    ValuesOfQuad(c, b0, b1, b2, 4);
    assert q[..4] == q && Sextets(b0, b1, b2)[..4] == Sextets(b0, b1, b2);
    ValuesConcat(c, q, rest);
    BytesOfQuad(b0, b1, b2, Values(c, rest));
  }

  lemma TailInverse(c: Codec, b0: Octet, b1: Octet)
    requires c.Invertible()
    ensures Bytes(Values(c, Quad(c, b0, b1, NUL)[..3])) == [b0, b1]
    ensures Bytes(Values(c, Quad(c, b0, NUL, NUL)[..2])) == [b0]
  {
    ValuesOfQuad(c, b0, b1, NUL, 3);
    BytesOfQuad(b0, b1, NUL, []);
    ValuesOfQuad(c, b0, NUL, NUL, 2);
    BytesOfQuad(b0, NUL, NUL, []);
  }

  lemma ShortInverse(c: Codec, src: string)
    requires c.Invertible() && AreOctets(src) && |src| < 3
    ensures Bytes(Values(c, Text(c, src))) == src
  {
    if |src| == 2 {
      hide Values, Bytes;
      TailInverse(c, src[0], src[1]);
      assert src == [src[0], src[1]];
    } else if |src| == 1 {
      hide Values, Bytes;
      TailInverse(c, src[0], NUL);
      assert src == [src[0]];
    }
  }

  lemma {:induction false} TextInverse(c: Codec, src: string)
    requires c.Invertible() && AreOctets(src)
    ensures Bytes(Values(c, Text(c, src))) == src
  {
    hide Quad, Values, Bytes;
    if |src| < 3 {
      ShortInverse(c, src);
    } else {
      GroupInverse(c, src[0], src[1], src[2], Text(c, src[3..]));
      TextInverse(c, src[3..]);
      assert src == [src[0], src[1], src[2]] + src[3..];
    }
  }

  lemma {:induction false} ValuesOfLines(c: Codec, t: string)
    requires c.Invertible()
    ensures Values(c, Lines(c, t)) == Values(c, t)
    decreases |t|
  {
    if |t| > LINE_LENGTH {
      var head, rest := t[..LINE_LENGTH], t[LINE_LENGTH..];
      ValuesOfLines(c, rest);
      ValuesSkip(c, c.lineSep);
      ValuesConcat(c, head, c.lineSep);
      ValuesConcat(c, head + c.lineSep, Lines(c, rest));
      ValuesConcat(c, head, rest);
      assert head + rest == t;
      assert Values(c, head) + [] == Values(c, head);
    }
  }

  /** Round trip: the decoder recovers every byte string, padded or not, whatever the alphabet. */
  lemma RoundTrip(c: Codec, src: string, bPad: bool)
    requires c.Invertible() && AreOctets(src)
    ensures Decoded(c, Encoded(c, src, bPad)) == src
  {
    hide Text, Values, Lines, Bytes, IndexOf;
    var pads := if bPad then Pads(c, |src| % 3) else [];
    assert Encoded(c, src, bPad) == Lines(c, Text(c, src) + pads);
    assert forall i | 0 <= i < |pads| :: pads[i] !in c.alphabet;
    assert Decoded(c, Encoded(c, src, bPad)) == Bytes(Values(c, Encoded(c, src, bPad)));
    hide *;
    ValuesOfPadded(c, Text(c, src), pads);
    TextInverse(c, src);
  }

  lemma ValuesOfPadded(c: Codec, t: string, pads: string)
    requires c.Invertible() && forall i | 0 <= i < |pads| :: pads[i] !in c.alphabet
    ensures Values(c, Lines(c, t + pads)) == Values(c, t)
  {
    hide Lines, Values, IndexOf;
    var v := Values(c, t);
    assert v + [] == v;
    ValuesOfLines(c, t + pads);
    ValuesConcat(c, t, pads);
    ValuesSkip(c, pads);
  }

  // ------------------------------------------------------------ what stands where

  /** Three bytes as a number of 24 bits: its four digits in base 64 choose the letters. */
  lemma QuadSays(c: Codec, b0: Octet, b1: Octet, b2: Octet) returns (x: seq<nat>)
    requires c.Valid()
    ensures |x| == 4 && forall i | 0 <= i < 4 :: x[i] < 64
    ensures Quad(c, b0, b1, b2) == [c.alphabet[x[0]], c.alphabet[x[1]], c.alphabet[x[2]], c.alphabet[x[3]]]
    ensures 262144 * x[0] + 4096 * x[1] + 64 * x[2] + x[3] == 65536 * (b0 as int) + 256 * (b1 as int) + b2 as int
  {
    x := Sextets(b0, b1, b2);
    DigitsOf24(65536 * (b0 as int) + 256 * (b1 as int) + b2 as int);
  }

  lemma DigitsOf24(n: nat)
    requires n < 16777216
    ensures 262144 * (n / 262144 % 64) + 4096 * (n / 4096 % 64) + 64 * (n / 64 % 64) + n % 64 == n
  {
    assert n / 262144 % 64 == n / 262144;
    assert n / 4096 == n / 64 / 64 && n / 262144 == n / 4096 / 64;
  }

  /** Letters are taken group by group; of a last group completed with zero bytes, the first two or
      three are. */
  lemma TextSays(c: Codec, src: string)
    requires c.Valid()
    ensures |src| >= 3 ==> Text(c, src) == Quad(c, src[0], src[1], src[2]) + Text(c, src[3..])
    ensures |src| == 2 ==> Text(c, src) == Quad(c, src[0], src[1], '\0')[..3]
    ensures |src| == 1 ==> Text(c, src) == Quad(c, src[0], '\0', '\0')[..2]
    ensures src == [] ==> Text(c, src) == []
  {
  }

  /** Where each char of the text stands when it is wrapped: behind one separator for every 72 chars. */
  lemma {:induction false} WrappedAt(c: Codec, t: string, k: nat)
    requires k < |t|
    ensures k + |c.lineSep| * (k / 72) < |Lines(c, t)| && Lines(c, t)[k + |c.lineSep| * (k / 72)] == t[k]
    decreases |t|
  {
    var lines := Lines(c, t);
    if |t| <= LINE_LENGTH || k < LINE_LENGTH {
      assert k / 72 == 0 && |c.lineSep| * (k / 72) == 0;
    } else {
      var rest := t[LINE_LENGTH..];
      assert lines == t[..LINE_LENGTH] + c.lineSep + Lines(c, rest);
      hide Lines;
      WrappedAt(c, rest, k - LINE_LENGTH);
      LineBefore(k, |c.lineSep|);
      hide *;
      InThirdPart(t[..72], c.lineSep, Lines(c, rest), k - 72 + |c.lineSep| * ((k - 72) / 72));
    }
  }

  lemma InThirdPart(a: string, b: string, c: string, k: int)
    requires 0 <= k < |c|
    ensures (a + b + c)[|a| + |b| + k] == c[k]
  {
  }

  lemma LineBefore(k: nat, n: nat)
    requires k >= 72
    ensures k + n * (k / 72) == 72 + n + (k - 72 + n * ((k - 72) / 72))
  {
    assert (k - 72) / 72 == k / 72 - 1;
  }

  /** And a separator follows every 72nd char that is not the last. */
  lemma {:induction false} SeparatorAt(c: Codec, t: string, m: nat)
    requires 72 * (m + 1) < |t|
    ensures var at := 72 * (m + 1) + |c.lineSep| * m;
            at + |c.lineSep| <= |Lines(c, t)| && Lines(c, t)[at..at + |c.lineSep|] == c.lineSep
    decreases |t|
  {
    var rest := t[LINE_LENGTH..];
    var n := |c.lineSep|;
    var lines := Lines(c, t);
    assert lines == t[..LINE_LENGTH] + c.lineSep + Lines(c, rest);
    hide Lines;
    if m > 0 {
      SeparatorAt(c, rest, m - 1);
      var at := 72 * m + n * (m - 1);
      assert 72 * (m + 1) + n * m == 72 + n + at by {
        assert n * m == n * (m - 1) + n;
      }
      assert lines[72 + n..] == Lines(c, rest);
      assert lines[72 + n + at..72 + n + at + n] == lines[72 + n..][at..at + n];
    } else {
      assert lines[72..72 + n] == c.lineSep;
    }
  }

  /** The encoding is the text, padded if asked, wrapped in this way. */
  lemma EncodedSays(c: Codec, src: string, bPad: bool)
    requires c.Valid()
    ensures var pads := if !bPad || |src| % 3 == 0 then "" else if |src| % 3 == 1 then [c.pad, c.pad] else [c.pad];
            Encoded(c, src, bPad) == Lines(c, Text(c, src) + pads)
  {
    hide Text, Lines;
  }

  // ------------------------------------------------------------ lengths

  lemma {:induction false} LinesLength(c: Codec, t: string)
    requires t != []
    ensures |Lines(c, t)| == |t| + |c.lineSep| * ((|t| - 1) / LINE_LENGTH)
    decreases |t|
  {
    if |t| > LINE_LENGTH {
      var k := (|t| - 1) / LINE_LENGTH;
      LinesLength(c, t[LINE_LENGTH..]);
      assert (|t| - LINE_LENGTH - 1) / LINE_LENGTH == k - 1;
      assert |c.lineSep| * k == |c.lineSep| + |c.lineSep| * (k - 1);
    }
  }

  lemma {:induction false} TextLength(c: Codec, src: string, groups: nat, left: nat)
    requires c.Valid() && |src| == 3 * groups + left && left < 3
    ensures |Text(c, src)| == 4 * groups + if left == 0 then 0 else left + 1
  {
    if groups > 0 {
      TextLength(c, src[3..], groups - 1, left);
    }
  }

  /** Chars of the encoding of so many groups when all of the last quad is kept: the buffer the
      encoder needs, without its terminator. */
  function RawLength(c: Codec, groups: nat): nat {
    if groups == 0 then 0 else 4 * groups + |c.lineSep| * ((groups - 1) / 18)
  }

  function Groups(n: nat): nat { (n + 2) / 3 }

  /** The line breaks of a text do not depend on how much of its last quad is there. */
  lemma LinesOfGroups(c: Codec, t: string, groups: nat)
    requires 0 < groups && 4 * groups - 3 <= |t| <= 4 * groups
    ensures |Lines(c, t)| == RawLength(c, groups) - (4 * groups - |t|)
  {
    LinesLength(c, t);
    assert (|t| - 1) / LINE_LENGTH == (groups - 1) / 18;
  }

  /** Exact length of an encoding; what the missing padding saves never removes a separator. */
  lemma EncodedLength(c: Codec, src: string, bPad: bool)
    requires c.Valid() && src != []
    ensures |Encoded(c, src, bPad)|
         == RawLength(c, Groups(|src|)) - if bPad then 0 else (3 - |src| % 3) % 3
  {
    var groups, left := |src| / 3, |src| % 3;
    GroupsSplit(|src|);
    hide RawLength, Text, Lines, Groups;
    TextLength(c, src, groups, left);
    var t := Text(c, src) + if bPad then Pads(c, left) else [];
    assert 4 * Groups(|src|) - |t| == if bPad then 0 else (3 - left) % 3;
    LinesOfGroups(c, t, Groups(|src|));
  }

  lemma GroupsSplit(n: nat)
    ensures n == 3 * (n / 3) + n % 3
    ensures Groups(n) == n / 3 + if n % 3 == 0 then 0 else 1
  {
  }

  lemma RawLengthMonotone(c: Codec, m: nat, n: nat)
    requires m <= n
    ensures RawLength(c, m) <= RawLength(c, n)
  {
    if m != 0 {
      var a, b := (m - 1) / 18, (n - 1) / 18;
      assert a <= b;
      assert |c.lineSep| * a <= |c.lineSep| * b;
    }
  }

  // ------------------------------------------------------------ the encoder

  /** The text the encoder's first passes lay out: whole groups. */
  function Raw(c: Codec, src: string): string
    requires c.Valid()
  {
    Lines(c, Text(c, src))
  }

  /** Whether text of so many chars, a multiple of 4, ends a line, so that more needs a separator. */
  predicate AtLineEnd(chars: nat) { chars > 0 && chars % LINE_LENGTH == 0 }

  function Break(c: Codec, chars: nat): string { if AtLineEnd(chars) then c.lineSep else [] }

  lemma {:induction false} TextConcat(c: Codec, a: string, groups: nat, b: string)
    requires c.Valid() && |a| == 3 * groups
    ensures Text(c, a + b) == Text(c, a) + Text(c, b)
  {
    if groups == 0 {
      assert a + b == b;
      assert Text(c, a) + Text(c, b) == Text(c, b);
    } else {
      var q := Quad(c, a[0], a[1], a[2]);
      TextConcat(c, a[3..], groups - 1, b);
      assert (a + b)[3..] == a[3..] + b;
      assert q + (Text(c, a[3..]) + Text(c, b)) == (q + Text(c, a[3..])) + Text(c, b);
    }
  }

  lemma SameColumn(chars: nat)
    requires chars > LINE_LENGTH
    ensures AtLineEnd(chars) == AtLineEnd(chars - LINE_LENGTH)
  {
  }

  lemma FirstLineAppend(c: Codec, t: string, q: string)
    requires |t| % 4 == 0 && |t| <= LINE_LENGTH && 1 <= |q| <= 4
    ensures Lines(c, t + q) == Lines(c, t) + Break(c, |t|) + q
  {
    if |t| == LINE_LENGTH {
      assert (t + q)[..LINE_LENGTH] == t && (t + q)[LINE_LENGTH..] == q;
    } else {
      assert |t| <= LINE_LENGTH - 4 && !AtLineEnd(|t|);
      assert Lines(c, t) + [] == t;
    }
  }

  lemma {:induction false} LinesAppend(c: Codec, t: string, q: string)
    requires |t| % 4 == 0 && 1 <= |q| <= 4
    ensures Lines(c, t + q) == Lines(c, t) + Break(c, |t|) + q
    decreases |t|
  {
    if |t| <= LINE_LENGTH {
      FirstLineAppend(c, t, q);
    } else {
      hide AtLineEnd;
      var head, rest := t[..LINE_LENGTH], t[LINE_LENGTH..];
      SameColumn(|t|);
      LinesAppend(c, rest, q);
      assert (t + q)[..LINE_LENGTH] == head && (t + q)[LINE_LENGTH..] == rest + q;
      assert head + c.lineSep + (Lines(c, rest) + Break(c, |t|) + q)
          == head + c.lineSep + Lines(c, rest) + Break(c, |t|) + q;
    }
  }

  /** Appending at most one group, with its padding if any, to whole groups adds its letters,
      after a separator when the whole groups end a line. */
  lemma EncodedAppend(c: Codec, whole: string, groups: nat, tail: string, pads: string)
    requires c.Valid() && |whole| == 3 * groups
    requires 1 <= |Text(c, tail) + pads| <= 4
    ensures Lines(c, Text(c, whole + tail) + pads) == Raw(c, whole) + Break(c, 4 * groups) + (Text(c, tail) + pads)
  {
    hide Text;
    var t, q := Text(c, whole), Text(c, tail);
    TextLength(c, whole, groups, 0);
    TextConcat(c, whole, groups, tail);
    LinesAppend(c, t, q + pads);
    assert t + q + pads == t + (q + pads);
  }

  lemma RawAppend(c: Codec, whole: string, groups: nat, tail: string)
    requires c.Valid() && |whole| == 3 * groups
    requires 1 <= |Text(c, tail)| <= 4
    ensures Raw(c, whole + tail) == Raw(c, whole) + Break(c, 4 * groups) + Text(c, tail)
  {
    EncodedAppend(c, whole, groups, tail, []);
    assert Text(c, tail) + [] == Text(c, tail);
    assert Text(c, whole + tail) + [] == Text(c, whole + tail);
  }

  /** Whole groups are never padded. */
  lemma EncodedWhole(c: Codec, whole: string, groups: nat, bPad: bool)
    requires c.Valid() && |whole| == 3 * groups
    ensures Encoded(c, whole, bPad) == Raw(c, whole)
  {
    assert |whole| % 3 == 0;
    assert Text(c, whole) + [] == Text(c, whole);
  }

  /** A last group of one or two bytes: its letters and its padding follow the whole groups. */
  lemma EncodedTail(c: Codec, whole: string, groups: nat, tail: string, bPad: bool)
    requires c.Valid() && |whole| == 3 * groups && 1 <= |tail| <= 2
    ensures Encoded(c, whole + tail, bPad)
         == Raw(c, whole) + Break(c, 4 * groups) + (Text(c, tail) + if bPad then Pads(c, |tail|) else [])
  {
    assert |whole + tail| % 3 == |tail|;
    TextLength(c, tail, 0, |tail|);
    EncodedAppend(c, whole, groups, tail, if bPad then Pads(c, |tail|) else []);
  }

  /** Padding is simply appended: it stays on the last line, after the last letter. */
  lemma PaddingEndsTheText(c: Codec, src: string)
    requires c.Valid()
    ensures Encoded(c, src, true) == Encoded(c, src, false) + Pads(c, |src| % 3)
  {
    var groups, left := |src| / 3, |src| % 3;
    var whole, tail := src[..3 * groups], src[3 * groups..];
    assert src == whole + tail;
    if left == 0 {
      EncodedWhole(c, src, groups, true);
      EncodedWhole(c, src, groups, false);
    } else {
      EncodedTail(c, whole, groups, tail, true);
      EncodedTail(c, whole, groups, tail, false);
      assert Text(c, tail) + [] == Text(c, tail);
    }
  }

  /** The column the encoder has reached after so many groups. */
  function Column(groups: nat): nat {
    if groups == 0 then 0 else (groups - 1) % 18 * 4 + 4
  }

  lemma ColumnStep(groups: nat)
    ensures Column(groups) + 4 > LINE_LENGTH <==> AtLineEnd(4 * groups)
    ensures Column(groups + 1) == if AtLineEnd(4 * groups) then 4 else Column(groups) + 4
  {
    var k := groups % 18;
    FourTimes(groups);
    if groups > 0 {
      PreviousColumn(groups);
    }
  }

  lemma FourTimes(groups: nat)
    ensures 4 * groups % LINE_LENGTH == 4 * (groups % 18)
  {
    assert 4 * groups == LINE_LENGTH * (groups / 18) + 4 * (groups % 18);
  }

  lemma PreviousColumn(groups: nat)
    requires groups > 0
    ensures (groups - 1) % 18 == if groups % 18 == 0 then 17 else groups % 18 - 1
  {
  }

  lemma RawOfGroups(c: Codec, done: string, groups: nat)
    requires c.Valid() && |done| == 3 * groups
    ensures |Raw(c, done)| == RawLength(c, groups)
  {
    TextLength(c, done, groups, 0);
    if groups != 0 {
      LinesOfGroups(c, Text(c, done), groups);
    }
  }

  lemma TextOfGroup(c: Codec, group: string)
    requires c.Valid() && |group| == 3
    ensures Text(c, group) == Quad(c, group[0], group[1], group[2])
  {
    assert group[3..] == [];
    assert Quad(c, group[0], group[1], group[2]) + [] == Quad(c, group[0], group[1], group[2]);
  }

  /** What one round of the inner loop has to append. */
  lemma RawStep(c: Codec, done: string, groups: nat, group: string)
    requires c.Valid() && |done| == 3 * groups && |group| == 3
    ensures Raw(c, done + group) == Raw(c, done) + Break(c, 4 * groups) + Quad(c, group[0], group[1], group[2])
    ensures RawLength(c, groups + 1) == RawLength(c, groups) + |Break(c, 4 * groups)| + 4
  {
    hide Text, Lines, Quad, Break;
    TextOfGroup(c, group);
    RawAppend(c, done, groups, group);
    RawOfGroups(c, done, groups);
    RawOfGroups(c, done + group, groups + 1);
  }

  /** One round of the inner loop of base64_encode_ex: a separator when the quad would not fit
      the line, then the quad. */
  method EncodeGroup(c: Codec, ghost done: string, ghost groups: nat, group: string,
                     dest: array<char>, linePos0: nat, p0: nat)
    returns (linePos: nat, p: nat)
    requires c.Valid() && |done| == 3 * groups && |group| == 3
    requires linePos0 == Column(groups)
    requires p0 == RawLength(c, groups) && RawLength(c, groups + 1) <= dest.Length
    requires p0 <= dest.Length && dest[..p0] == Raw(c, done)
    modifies dest
    ensures linePos == Column(groups + 1)
    ensures p == RawLength(c, groups + 1)
    ensures dest[..p] == Raw(c, done + group)
    ensures forall i | p <= i < dest.Length :: dest[i] == old(dest[i])
  {
    hide Raw, RawLength, Column, Quad;
    RawStep(c, done, groups, group);
    ColumnStep(groups);
    p := p0;
    linePos := linePos0 + 4;
    if linePos > LINE_LENGTH {
      CopyInto(dest, p, c.lineSep);
      p := p + |c.lineSep|;
      linePos := 4;
    }
    assert dest[..p] == Raw(c, done) + Break(c, 4 * groups);
    CopyInto(dest, p, Quad(c, group[0], group[1], group[2]));
    p := p + 4;
  }

  /** The inner loop over one of the two sources: the whole groups of src, or the completed one. */
  method EncodeGroups(c: Codec, ghost done: string, ghost groups: nat, part: string, ghost more: nat,
                      dest: array<char>, linePos0: nat, p0: nat)
    returns (linePos: nat, p: nat)
    requires c.Valid() && |done| == 3 * groups && |part| == 3 * more
    requires linePos0 == Column(groups)
    requires p0 == RawLength(c, groups) && RawLength(c, groups + more) <= dest.Length
    requires p0 <= dest.Length && dest[..p0] == Raw(c, done)
    modifies dest
    ensures linePos == Column(groups + more)
    ensures p == RawLength(c, groups + more) && dest[..p] == Raw(c, done + part)
    ensures forall i | p <= i < dest.Length :: dest[i] == old(dest[i])
  {
    hide Raw, RawLength, Column;
    linePos, p := linePos0, p0;
    var raw := 0;
    ghost var k := 0;
    assert done + part[..0] == done;
    while raw < |part|
      invariant raw == 3 * k && k <= more
      invariant linePos == Column(groups + k)
      invariant p == RawLength(c, groups + k) <= dest.Length
      invariant dest[..p] == Raw(c, done + part[..raw])
      invariant forall i | p <= i < dest.Length :: dest[i] == old(dest[i])
    {
      RawLengthMonotone(c, groups + k, groups + k + 1);
      RawLengthMonotone(c, groups + k + 1, groups + more);
      assert done + part[..raw + 3] == done + part[..raw] + part[raw..raw + 3];
      linePos, p := EncodeGroup(c, done + part[..raw], groups + k, part[raw..raw + 3], dest, linePos, p);
      raw, k := raw + 3, k + 1;
    }
    assert part[..|part|] == part;
  }

  /** The completed last group gives the letters of the tail, and more where the padding goes. */
  lemma TailLetters(c: Codec, tail: string, szPad: string)
    requires c.Valid() && 1 <= |tail| <= 2
    requires |szPad| == 3 && szPad == tail + seq(3 - |tail|, _ => NUL)
    ensures |Text(c, szPad)| == 4 && |Text(c, tail)| == |tail| + 1
    ensures Text(c, tail) <= Text(c, szPad)
  {
    TextOfGroup(c, szPad);
  }

  /** The encoding of whole groups and a shorter tail is what the encoder writes for the completed
      tail, cut where the padding starts, and the padding. */
  lemma CutAtPadding(c: Codec, whole: string, groups: nat, tail: string, szPad: string, bPad: bool)
    requires c.Valid() && |whole| == 3 * groups && 1 <= |tail| <= 2
    requires |szPad| == 3 && szPad == tail + seq(3 - |tail|, _ => NUL)
    ensures |Raw(c, whole + szPad)| == RawLength(c, groups + 1) > 3 - |tail|
    ensures Encoded(c, whole + tail, bPad)
         == Raw(c, whole + szPad)[..|Raw(c, whole + szPad)| - (3 - |tail|)] + if bPad then Pads(c, |tail|) else []
  {
    hide Text, Lines, Break, Encoded;
    TailLetters(c, tail, szPad);
    RawAppend(c, whole, groups, szPad);
    EncodedTail(c, whole, groups, tail, bPad);
    RawOfGroups(c, whole + szPad, groups + 1);
    var x, pads := Raw(c, whole) + Break(c, 4 * groups), if bPad then Pads(c, |tail|) else [];
    assert x + (Text(c, tail) + pads) == (x + Text(c, tail)) + pads;
    assert (x + Text(c, szPad))[..|x| + |tail| + 1] == x + Text(c, tail);
  }

  /** The second pass, over the completed group, and the patching of its end. */
  method EncodeLast(c: Codec, ghost whole: string, ghost groups: nat, tail: string, szPad: string,
                    dest: array<char>, linePos0: nat, p0: nat, bPad: bool)
    returns (destLen: nat)
    requires c.Valid() && |whole| == 3 * groups && 1 <= |tail| <= 2
    requires |szPad| == 3 && szPad == tail + seq(3 - |tail|, _ => NUL)
    requires linePos0 == Column(groups)
    requires p0 == RawLength(c, groups) && RawLength(c, groups + 1) < dest.Length
    requires p0 <= dest.Length && dest[..p0] == Raw(c, whole)
    modifies dest
    ensures destLen <= RawLength(c, groups + 1)
    ensures dest[..destLen] == Encoded(c, whole + tail, bPad)
    ensures dest[destLen] == NUL
    ensures forall i | RawLength(c, groups + 1) < i < dest.Length :: dest[i] == old(dest[i])
  {
    hide Raw, RawLength, Column, Encoded;
    CutAtPadding(c, whole, groups, tail, szPad, bPad);
    var linePos, p := EncodeGroups(c, whole, groups, szPad, 1, dest, linePos0, p0);
    dest[p] := NUL;
    destLen := p;
    if |tail| == 1 {
      if bPad {
        dest[p - 1] := c.pad;
        dest[p - 2] := c.pad;
      } else {
        dest[p - 2] := NUL;
        destLen := p - 2;
      }
    } else {
      if bPad {
        dest[p - 1] := c.pad;
      } else {
        dest[p - 1] := NUL;
        destLen := p - 1;
      }
    }
  }

  /** The whole groups, the bytes left over, and these filled up with NUL. */
  method SplitOff(src: string, leftover: nat) returns (whole: string, tail: string, szPad: string)
    requires leftover <= |src| && leftover < 3
    ensures src == whole + tail && |tail| == leftover && |szPad| == 3
    ensures leftover > 0 ==> szPad == tail + seq(3 - leftover, _ => NUL)
  {
    var n := |src|;
    szPad := [NUL, NUL, NUL];
    if leftover == 1 {
      szPad := [src[n - 1], NUL, NUL];
    } else if leftover == 2 {
      szPad := [src[n - 2], src[n - 1], NUL];
    }
    whole, tail := src[..n - leftover], src[n - leftover..];
  }

  /** base64_encode_ex: writes the encoding and its terminator, and nothing beyond the position
      RawLength.  Without padding the terminator is moved back over the place of the padding. */
  method Base64EncodeEx(c: Codec, src: string, dest: array<char>, bPad: bool) returns (destLen: nat)
    requires c.Valid()
    requires RawLength(c, Groups(|src|)) < dest.Length
    modifies dest
    ensures destLen <= RawLength(c, Groups(|src|))
    ensures dest[..destLen] == Encoded(c, src, bPad)
    ensures dest[destLen] == NUL
    ensures forall i | RawLength(c, Groups(|src|)) < i < dest.Length :: dest[i] == old(dest[i])
  {
    var n := |src|;
    if n == 0 {
      dest[0] := NUL;
      return 0;
    }
    var leftover := n % 3;
    ghost var groups := n / 3;
    GroupsSplit(n);
    var whole, tail, szPad := SplitOff(src, leftover);
    assert [] + whole == whole;
    assert Column(0) == 0 && RawLength(c, 0) == 0 && Raw(c, []) == [] == dest[..0];
    hide Groups, Encoded, RawLength, Column, Raw;
    RawLengthMonotone(c, groups, Groups(n));
    var linePos, p := EncodeGroups(c, [], 0, whole, groups, dest, 0, 0);
    if leftover == 0 {
      assert whole + [] == whole == src;
      EncodedWhole(c, src, groups, bPad);
      dest[p] := NUL;
      destLen := p;
    } else {
      destLen := EncodeLast(c, whole, groups, tail, szPad, dest, linePos, p, bPad);
    }
  }
}
