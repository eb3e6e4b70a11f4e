/** Names of uploaded files: storage_gen_filename, with int2buff.  A name is two directories,
    chosen by a hash, and the base64 text of time, file size and a random number. */
module FileNames {
  import opened CStrings
  import opened Numbers
  import opened Base64
  import PjwHash

  const NAME_LENGTH := 22
  const DIR_LENGTH := 6

  /** Byte k, counted from the high end, of a 32-bit int: (n >> 8 * (3 - k)) & 0xFF. */
  function IntByte(n: int32, k: nat): (b: Octet)
    requires k < 4
  {
    ((if k == 0 then n / 0x100_0000 else if k == 1 then n / 0x1_0000 else if k == 2 then n / 0x100 else n) % 256) as char
  }

  function IntBytes(n: int32): (s: string)
    ensures |s| == 4 && AreOctets(s)
  {
    [IntByte(n, 0), IntByte(n, 1), IntByte(n, 2), IntByte(n, 3)]
  }

  /** The int whose big-endian bytes these are. */
  function IntOf(s: string): int32
    requires |s| == 4
  {
    Wrap32(s[0] as int * 0x100_0000 + s[1] as int * 0x1_0000 + s[2] as int * 0x100 + s[3] as int)
  }

  lemma UnsignedBytes(u: nat)
    requires u < 0x1_0000_0000
    ensures u / 0x100_0000 * 0x100_0000 + u / 0x1_0000 % 256 * 0x1_0000 + u / 0x100 % 256 * 0x100 + u % 256 == u
  {
    assert u / 0x100_0000 == u / 0x1_0000 / 256 && u / 0x1_0000 == u / 0x100 / 256;
  }

  /** An arithmetic shift of a negative int gives the same low bytes as its unsigned value. */
  lemma NegativeBytes(n: int, u: nat)
    requires n == u - 0x1_0000_0000 && u < 0x1_0000_0000
    ensures n / 0x100_0000 == u / 0x100_0000 - 0x100
    ensures n / 0x1_0000 == u / 0x1_0000 - 0x100 * 0x100
    ensures n / 0x100 == u / 0x100 - 0x100 * 0x1_0000
  {
  }

  lemma SameLowByte(x: int, m: nat)
    ensures (x - 0x100 * m) % 256 == x % 256
  {
  }

  lemma UnsignedView(n: int32) returns (u: nat)
    ensures u < 0x1_0000_0000 && Wrap32(u) == n && u == if n < 0 then n + 0x1_0000_0000 else n
    ensures n / 0x100_0000 % 256 == u / 0x100_0000 % 256
    ensures n / 0x1_0000 % 256 == u / 0x1_0000 % 256
    ensures n / 0x100 % 256 == u / 0x100 % 256
    ensures n % 256 == u % 256
  {
    if n >= 0 {
      u := n;
    } else {
      u := n + 0x1_0000_0000;
      NegativeBytes(n, u);
      SameLowByte(u / 0x100_0000, 1);
      SameLowByte(u / 0x1_0000, 0x100);
      SameLowByte(u / 0x100, 0x1_0000);
      SameLowByte(u, 0x100_0000);
    }
  }

  /** Big-endian packing is undone, negative numbers included. */
  lemma IntBytesInverse(n: int32)
    ensures IntOf(IntBytes(n)) == n
  {
    var u := UnsignedView(n);
    UnsignedBytes(u);
    assert u / 0x100_0000 % 256 == u / 0x100_0000;
  }

  /** The four bytes are those of the unsigned value, the highest first. */
  lemma IntBytesMeans(n: int32)
    ensures var s := IntBytes(n);
            var u: int := if n < 0 then n + 0x1_0000_0000 else n;
            u == s[0] as int * 0x100_0000 + s[1] as int * 0x1_0000 + s[2] as int * 0x100 + s[3] as int
  {
    var u := UnsignedView(n);
    UnsignedBytes(u);
    assert u / 0x100_0000 % 256 == u / 0x100_0000;
  }

  /** int2buff. */
  method Int2Buff(n: int32, buff: array<char>, at: nat)
    requires at + 4 <= buff.Length
    modifies buff
    ensures buff[at..at + 4] == IntBytes(n)
    ensures forall i | 0 <= i < at || at + 4 <= i < buff.Length :: buff[i] == old(buff[i])
  {
    buff[at], buff[at + 1], buff[at + 2], buff[at + 3] := IntByte(n, 0), IntByte(n, 1), IntByte(n, 2), IntByte(n, 3);
  }

  function UpperHex(d: bv4): (c: char)
    ensures IsDigit(c, 16)
  {
    "0123456789ABCDEF"[d as int]
  }

  /** One directory: sprintf("%02X/", d). */
  function Directory(d: bv32): (s: string)
    ensures |s| == 3 && s[2] == '/' && IsDigit(s[0], 16) && IsDigit(s[1], 16)
  {
    [UpperHex(((d >> 4) & 0xF) as bv4), UpperHex((d & 0xF) as bv4), '/']
  }

  /** The unsigned bytes the hash reads. */
  function HashKey(s: string): seq<bv8> {
    seq(|s|, i requires 0 <= i < |s| => (s[i] as int % 256) as bv8)
  }

  /** What the hash of the 16 last chars of a name says about its directories. */
  function DirNumber(encoded: string): (n: bv32)
    ensures n < 0x1_0000
  {
    PjwHash.HashOf(HashKey(encoded)) % 0x1_0000
  }

  function Directories(n: bv32): (s: string)
    ensures |s| == DIR_LENGTH
  {
    Directory((n >> 8) & 0xFF) + Directory(n & 0xFF)
  }

  /** The two directories of a name, from the 16 chars that follow them. */
  function DirPrefix(encoded: string): (s: string)
    ensures |s| == DIR_LENGTH
  {
    Directories(DirNumber(encoded))
  }

  /** The number two hexadecimal digits stand for. */
  function HexPair(high: char, low: char): int { 16 * DigitValue(high) + DigitValue(low) }

  lemma UpperHexReads(d: bv4)
    ensures DigitValue(UpperHex(d)) == d as int
  {
  }

  lemma DirectoryReads(d: bv32)
    requires d < 0x100
    ensures HexPair(Directory(d)[0], Directory(d)[1]) == d as int
  {
    UpperHexReads(((d >> 4) & 0xF) as bv4);
    UpperHexReads((d & 0xF) as bv4);
  }

  lemma LowBytes(n: bv32)
    ensures (n >> 8) & 0xFF < 0x100 && n & 0xFF < 0x100
    ensures n < 0x1_0000 ==> 256 * (((n >> 8) & 0xFF) as int) + (n & 0xFF) as int == n as int
  {
    if n < 0x1_0000 {
      assert (n >> 8) & 0xFF == n / 0x100 && n & 0xFF == n % 0x100;
    }
  }

  /** The key of the hash is the text byte by byte. */
  lemma HashKeyMeans(s: string)
    requires AreOctets(s)
    ensures |HashKey(s)| == |s| && forall i | 0 <= i < |s| :: HashKey(s)[i] as int == s[i] as int
  {
    forall i | 0 <= i < |s| ensures HashKey(s)[i] as int == s[i] as int {
      ByteOfChar(s[i] as int);
      assert HashKey(s)[i] == (s[i] as int % 256) as bv8;
    }
  }

  lemma ByteOfChar(n: nat)
    requires n < 256
    ensures ((n % 256) as bv8) as int == n
  {
  }

  /** Read as hexadecimal, the two directories are the hash of the other chars modulo 65536, high byte
      first. */
  lemma DirPrefixReads(encoded: string)
    ensures var s := DirPrefix(encoded);
            256 * HexPair(s[0], s[1]) + HexPair(s[3], s[4]) == (PjwHash.HashOf(HashKey(encoded)) % 0x1_0000) as int
  {
    hide Directories, HexPair, PjwHash.HashOf, HashKey;
    DirectoriesRead(DirNumber(encoded));
    DirNumberIs(encoded);
    hide DirNumber;
  }

  lemma DirNumberIs(encoded: string)
    ensures DirNumber(encoded) == PjwHash.HashOf(HashKey(encoded)) % 0x1_0000
  {
    hide PjwHash.HashOf, HashKey;
  }

  lemma DirectoriesRead(n: bv32)
    requires n < 0x1_0000
    ensures var s := Directories(n);
            256 * HexPair(s[0], s[1]) + HexPair(s[3], s[4]) == n as int
  {
    hide Directory, HexPair;
    LowBytes(n);
    ConcatReads((n >> 8) & 0xFF, n & 0xFF);
  }

  lemma ConcatReads(high: bv32, low: bv32)
    requires high < 0x100 && low < 0x100
    ensures var s := Directory(high) + Directory(low);
            HexPair(s[0], s[1]) == high as int && HexPair(s[3], s[4]) == low as int
  {
    hide Directory, HexPair;
    DirectoryReads(high);
    DirectoryReads(low);
  }

  function Packed(time: int32, size: int32, rand: int32): (s: string)
    ensures |s| == 12 && AreOctets(s)
  {
    IntBytes(time) + IntBytes(size) + IntBytes(rand)
  }

  function NameOf(c: Codec, time: int32, size: int32, rand: int32): string
    requires c.Valid()
  {
    var encoded := Encoded(c, Packed(time, size, rand), false);
    DirPrefix(encoded) + encoded
  }

  lemma EncodedName(c: Codec, time: int32, size: int32, rand: int32)
    requires c.Valid()
    ensures |Encoded(c, Packed(time, size, rand), false)| == 16 == RawLength(c, 4)
  {
    EncodedLength(c, Packed(time, size, rand), false);
  }

  /** Every name has the same shape, two hexadecimal directories and 16 chars, and the directories
      follow from the 16 chars. */
  lemma NameShape(c: Codec, time: int32, size: int32, rand: int32)
    requires c.Valid()
    ensures var name := NameOf(c, time, size, rand);
            && |name| == NAME_LENGTH == 22
            && name[2] == '/' && name[5] == '/'
            && (forall i | i in {0, 1, 3, 4} :: IsDigit(name[i], 16))
            && name[..DIR_LENGTH] == DirPrefix(name[DIR_LENGTH..])
  {
    EncodedName(c, time, size, rand);
  }

  /** What a name says: the three ints packed into it. */
  function NameFields(c: Codec, name: string): (int32, int32, int32)
    requires c.Valid() && DIR_LENGTH <= |name|
    requires |Decoded(c, name[DIR_LENGTH..])| == 12
  {
    var p := Decoded(c, name[DIR_LENGTH..]);
    (IntOf(p[..4]), IntOf(p[4..8]), IntOf(p[8..]))
  }

  /** A name can be read back: time, file size and random number are recovered from it. */
  lemma NameInverse(c: Codec, time: int32, size: int32, rand: int32)
    requires c.Invertible()
    ensures var name := NameOf(c, time, size, rand);
            && |name| == NAME_LENGTH && |Decoded(c, name[DIR_LENGTH..])| == 12
            && Decoded(c, name[DIR_LENGTH..]) == IntBytes(time) + IntBytes(size) + IntBytes(rand)
            && NameFields(c, name) == (time, size, rand)
  {
    var p := Packed(time, size, rand);
    EncodedName(c, time, size, rand);
    RoundTrip(c, p, false);
    assert NameOf(c, time, size, rand)[DIR_LENGTH..] == Encoded(c, p, false);
    assert p[..4] == IntBytes(time) && p[4..8] == IntBytes(size) && p[8..] == IntBytes(rand);
    IntBytesInverse(time);
    IntBytesInverse(size);
    IntBytesInverse(rand);
  }

  /** Two uploads collide only when all three ints agree. */
  lemma NamesDistinct(c: Codec, t1: int32, s1: int32, r1: int32, t2: int32, s2: int32, r2: int32)
    requires c.Invertible()
    requires NameOf(c, t1, s1, r1) == NameOf(c, t2, s2, r2)
    ensures (t1, s1, r1) == (t2, s2, r2)
  {
    NameInverse(c, t1, s1, r1);
    NameInverse(c, t2, s2, r2);
  }

  /** The three ints, packed into a 12-byte buffer. */
  method PackInts(time: int32, size: int32, rand: int32, buff: array<char>)
    requires buff.Length == 12
    modifies buff
    ensures buff[..] == Packed(time, size, rand)
  {
    Int2Buff(time, buff, 0);
    Int2Buff(size, buff, 4);
    Int2Buff(rand, buff, 8);
    assert buff[..] == buff[0..4] + buff[4..8] + buff[8..12];
  }

  /** The two sprintf calls that turn the hash into directories; each writes a terminator. */
  method WriteDirectories(encoded: string, buff: array<char>) returns (len: nat)
    requires 7 <= buff.Length
    modifies buff
    ensures len == DIR_LENGTH && buff[..DIR_LENGTH] == DirPrefix(encoded)
  {
    var n := PjwHash.PJWHash(HashKey(encoded));
    n := n % 0x1_0000;
    WriteTwo(Directory((n >> 8) & 0xFF), Directory(n & 0xFF), buff);
    len := 6;
  }

  method WriteTwo(high: string, low: string, buff: array<char>)
    requires 7 <= buff.Length && |high| == 3 && |low| == 3
    modifies buff
    ensures buff[..DIR_LENGTH] == high + low
  {
    CopyInto(buff, 0, high + [NUL]);
    assert buff[0..3] == buff[0..4][..3] == high;
    CopyInto(buff, 3, low + [NUL]);
    assert buff[3..6] == buff[3..7][..3] == low;
    assert buff[..6] == buff[0..3] + buff[3..6];
  }

  /** storage_gen_filename: the time and the random number are the values time() and rand()
      return.  The scratch buffers have the sizes the C code declares. */
  method GenFilename(c: Codec, currentTime: int32, fileSize: int32, r: int32, filename: array<char>)
    returns (filenameLen: nat)
    requires c.Valid() && NAME_LENGTH < filename.Length
    modifies filename
    ensures filenameLen == NAME_LENGTH
    ensures filename[..NAME_LENGTH] == NameOf(c, currentTime, fileSize, r)
    ensures filename[NAME_LENGTH] == NUL
    ensures forall i | NAME_LENGTH < i < filename.Length :: filename[i] == old(filename[i])
  {
    hide DirPrefix, Encoded, Packed, RawLength;
    var buff := new char[12];
    var encoded := new char[17];
    PackInts(currentTime, fileSize, r, buff);
    EncodedName(c, currentTime, fileSize, r);
    var encodedLen := Base64EncodeEx(c, buff[..], encoded, false);
    var len := WriteDirectories(encoded[..encodedLen], buff);
    CopyInto(filename, 0, buff[..len]);
    CopyInto(filename, len, encoded[..encodedLen + 1]);
    filenameLen := encodedLen + len;
    assert filename[..22] == filename[0..6] + filename[6..22];
  }
}
