/** The P. J. Weinberger hash of hash.c, on 32-bit unsigned words. */
module PjwHash {

  /** One byte absorbed, stated without the loop's shifts, mask and test: the word 16h + b,
      taken modulo 2^32, splits into 28 low bits and 4 high ones, and the high ones are folded
      back in at bit 4. */
  function Fold(h: bv32, b: bv32): bv32 {
    var s := 16 * h + b;
    (s % 0x1000_0000) ^ (16 * (s / 0x1000_0000))
  }

  function HashOf(key: seq<bv8>): bv32 {
    if key == [] then 0 else Fold(HashOf(key[..|key| - 1]), key[|key| - 1] as bv32)
  }

  /** The hash starts at 0 and absorbs the bytes one after the other. */
  lemma HashAbsorbs(key: seq<bv8>, b: bv8)
    ensures HashOf([]) == 0
    ensures HashOf(key + [b]) == Fold(HashOf(key), b as bv32)
    ensures HashOf([b]) == b as bv32
  {
    assert (key + [b])[..|key|] == key;
    assert [b][..0] == [];
    assert HashOf([b]) == Fold(HashOf([]), b as bv32);
    hide HashOf, Fold;
    FoldOfZero(b);
  }

  lemma FoldOfZero(b: bv8)
    ensures Fold(0, b as bv32) == b as bv32
  {
  }

  lemma ShiftIsTimes16(h: bv32)
    ensures h << 4 == 16 * h
  {
  }

  lemma MaskIsModulo(s: bv32)
    ensures s & 0x0FFF_FFFF == s % 0x1000_0000
  {
  }

  lemma ShiftIsQuotient(s: bv32)
    ensures s >> 28 == s / 0x1000_0000
  {
  }

  /** What the loop body makes of the shifted-in word s: fold when a high bit is set, else s. */
  function Folded(s: bv32): bv32 {
    if s & 0xF000_0000 != 0 then (s ^ ((s & 0xF000_0000) >> 24)) & 0x0FFF_FFFF else s
  }

  lemma FoldedInBits(s: bv32)
    ensures Folded(s) == (s & 0x0FFF_FFFF) ^ ((s >> 28) << 4)
  {
  }

  /** The loop body's shift, xor and mask compute Fold, whether or not a high bit is set. */
  lemma StepIsFold(h: bv32, b: bv32)
    ensures Folded((h << 4) + b) == Fold(h, b)
  {
    var s := (h << 4) + b;
    ShiftIsTimes16(h);
    MaskIsModulo(s);
    ShiftIsQuotient(s);
    ShiftIsTimes16(s >> 28);
    FoldedInBits(s);
  }

  lemma FoldBound(h: bv32, b: bv32)
    ensures Fold(h, b) < 0x1000_0000
  {
  }

  /** The hash stays below 2^28 whatever the key, also where 16h + b wraps. */
  lemma {:induction false} HashBound(key: seq<bv8>)
    ensures HashOf(key) < 0x1000_0000
  {
    if key != [] {
      FoldBound(HashOf(key[..|key| - 1]), key[|key| - 1] as bv32);
    }
  }

  lemma HashStep(key: seq<bv8>, p: nat)
    requires p < |key|
    ensures HashOf(key[..p + 1]) == Fold(HashOf(key[..p]), key[p] as bv32)
  {
    assert key[..p + 1][..p] == key[..p];
  }

  /** The conditional of the loop body, on the word with the new byte shifted in. */
  method FoldHighBits(s: bv32) returns (hash: bv32)
    ensures hash == Folded(s)
  {
    hash := s;
    var test := hash & 0xF000_0000;
    if test != 0 {
      hash := (hash ^ (test >> 24)) & 0x0FFF_FFFF;
    }
  }

  /** One round of the loop. */
  method Absorb(h: bv32, b: bv32) returns (hash: bv32)
    ensures hash == Fold(h, b)
  {
    hash := FoldHighBits((h << 4) + b);
    StepIsFold(h, b);
  }

  method PJWHash(key: seq<bv8>) returns (hash: bv32)
    ensures hash == HashOf(key)
    ensures hash < 0x1000_0000
  {
    hash := 0;
    for p := 0 to |key|
      invariant hash == HashOf(key[..p])
    {
      HashStep(key, p);
      hash := Absorb(hash, key[p] as bv32);
    }
    assert key[..|key|] == key;
    HashBound(key);
  }
}
