/**
 FNV-1a, the 64-bit hash that keys object fields and fingerprints schemas.
 Hash states are integers below 2^64; multiplication wraps explicitly.
 */
module Fnv {

  type Byte = b: nat | b < 256

  const MODULUS: nat := 0x1_0000_0000_0000_0000

  type Hash64 = h: nat | h < MODULUS

  /** The hash of the empty string. */
  const OFFSET_BASIS: Hash64 := 14695981039346656037

  const PRIME: nat := 1099511628211

  /** Field-name lengths are narrowed to 16 bits by the set and get calls, and only by them. */
  const NAME_LENGTH_MODULUS: nat := 65536

  function Pow2(n: nat): (p: nat)
    ensures p > 0
  {
    if n == 0 then 1 else 2 * Pow2(n - 1)
  }

  /** Exclusive or of the low `n` bits of `a` and `b`. */
  function XorBits(a: nat, b: nat, n: nat): (x: nat)
    ensures x < Pow2(n)
  {
    if n == 0 then 0
    else (if a % 2 == b % 2 then 0 else 1) + 2 * XorBits(a / 2, b / 2, n - 1)
  }

  lemma {:induction false} Pow2Adds(m: nat, n: nat)
    ensures Pow2(m + n) == Pow2(m) * Pow2(n)
  {
    if m > 0 {
      Pow2Adds(m - 1, n);
    }
  }

  lemma Pow2Is256(n: nat)
    requires n == 8
    ensures Pow2(n) == 256
  {
    Pow2Adds(n - 4, 4);
    Pow2Adds(n - 6, 2);
    assert Pow2(n - 6) == 4;
  }

  lemma Pow2Of64()
    ensures Pow2(64) == MODULUS
  {
    hide Pow2;
    Pow2Is256(8);
    Pow2Adds(8, 8);
    Pow2Adds(16, 16);
    Pow2Adds(32, 32);
  }

  /** Exclusive or of a hash state with a byte. */
  function XorByte(h: Hash64, b: Byte): Hash64 {
    Pow2Of64();
    XorBits(h, b, 64)
  }

  /** One round: xor the byte in, then multiply by the FNV prime modulo 2^64. */
  function Step(h: Hash64, b: Byte): Hash64 {
    XorByte(h, b) * PRIME % MODULUS
  }

  /** The hash state reached from `h` by absorbing `bytes` in order. */
  function Absorb(h: Hash64, bytes: seq<Byte>): Hash64
    decreases |bytes|
  {
    if bytes == [] then h else Step(Absorb(h, bytes[..|bytes| - 1]), bytes[|bytes| - 1])
  }

  function Hash(bytes: seq<Byte>): Hash64 {
    Absorb(OFFSET_BASIS, bytes)
  }

  // ---- What a round is, bit by bit ---------------------------------------------------------

  /** Bit `i` of `x`, the lowest being bit 0. */
  predicate Bit(x: nat, i: nat) {
    if i == 0 then x % 2 == 1 else Bit(x / 2, i - 1)
  }

  lemma {:induction false} XorBitsAt(a: nat, b: nat, n: nat, i: nat)
    requires i < n
    ensures Bit(XorBits(a, b, n), i) <==> Bit(a, i) != Bit(b, i)
  {
    var rest := XorBits(a / 2, b / 2, n - 1);
    assert XorBits(a, b, n) / 2 == rest;
    if i > 0 {
      XorBitsAt(a / 2, b / 2, n - 1, i - 1);
    }
  }

  lemma {:induction false} BitsDetermine(x: nat, y: nat, n: nat)
    requires x < Pow2(n) && y < Pow2(n) && forall i: nat :: i < n ==> (Bit(x, i) <==> Bit(y, i))
    ensures x == y
  {
    if n > 0 {
      assert Bit(x, 0) <==> Bit(y, 0);
      forall i: nat | i < n - 1 ensures Bit(x / 2, i) <==> Bit(y / 2, i) {
        assert Bit(x, i + 1) <==> Bit(y, i + 1);
      }
      BitsDetermine(x / 2, y / 2, n - 1);
    }
  }

  /** The exclusive or of a state and a byte: the 64-bit number whose bits say where the two differ. */
  ghost predicate IsXor(x: nat, h: nat, b: nat) {
    x < 0x1_0000_0000_0000_0000 && forall i: nat :: i < 64 ==> (Bit(x, i) <==> Bit(h, i) != Bit(b, i))
  }

  lemma XorIsThere(h: Hash64, b: Byte) returns (x: nat)
    ensures IsXor(x, h, b) && x == XorByte(h, b)
  {
    x := XorByte(h, b);
    forall i: nat | i < 64 ensures Bit(x, i) <==> Bit(h, i) != Bit(b, i) {
      XorBitsAt(h, b, 64, i);
    }
  }

  /** One more byte: the exclusive or comes first, then the multiplication. */
  lemma HashRound(bytes: seq<Byte>, b: Byte, x: nat)
    requires IsXor(x, Hash(bytes), b)
    ensures Hash(bytes + [b]) == x * 1099511628211 % 18446744073709551616
  {
    var y := XorIsThere(Hash(bytes), b);
    Pow2Of64();
    BitsDetermine(x, y, 64);
    assert (bytes + [b])[..|bytes|] == bytes;
  }

  lemma {:induction false} XorWithZero(a: nat, n: nat)
    requires a < Pow2(n)
    ensures XorBits(a, 0, n) == a
  {
    if n > 0 {
      XorWithZero(a / 2, n - 1);
    }
  }

  lemma {:induction false} HighBitsStay(low: nat, high: nat, b: nat, k: nat, n: nat)
    requires low < Pow2(k) && b < Pow2(k) && k <= n && high < Pow2(n - k)
    ensures XorBits(low + high * Pow2(k), b, n) == XorBits(low, b, k) + high * Pow2(k)
  {
    if k == 0 {
      XorWithZero(high, n);
    } else {
      var rest := high * Pow2(k - 1);
      assert high * Pow2(k) == 2 * rest;
      HighBitsStay(low / 2, high, b / 2, k - 1, n - 1);
      assert (low + 2 * rest) / 2 == low / 2 + rest;
    }
  }

  lemma XorOfLetter(low: nat, letter: nat)
    requires low == 0x25 && letter == 0x61
    ensures XorBits(low, letter, 8) == 0x44
  {
    assert XorBits(0, 0, 1) == 0;
    assert XorBits(0, 1, 2) == 1;
    assert XorBits(1, 3, 3) == 2;
    assert XorBits(2, 6, 4) == 4;
    assert XorBits(4, 12, 5) == 8;
    assert XorBits(9, 24, 6) == 17;
    assert XorBits(18, 48, 7) == 34;
  }

  lemma XorOfFirstLetter(letter: Byte)
    requires letter == 0x61
    ensures XorByte(OFFSET_BASIS, letter) == 0xcbf29ce484222344
  {
    hide Pow2, XorBits;
    XorOfLetter(0x25, letter);
    Pow2Of64();
    Pow2Is256(8);
    Pow2Adds(8, 56);
    HighBitsStay(0x25, 0xcbf29ce4842223, letter, 8, 64);
  }

  /** The hashes of no byte and of one, as published with the algorithm. */
  lemma KnownHashes(bytes: seq<Byte>)
    requires bytes == ['a' as int]
    ensures Hash([]) == 14695981039346656037
    ensures Hash(bytes) == 0xaf63dc4c8601ec8c
  {
    hide XorByte;
    XorOfFirstLetter(bytes[0]);
    assert bytes[..0] == [];
  }

  // ---- The two implementations -------------------------------------------------------------

  /** The bytes of a C string: those before its first NUL. */
  function CString(mem: seq<Byte>): (s: seq<Byte>)
    requires 0 in mem
    ensures |s| < |mem| && s == mem[..|s|] && mem[|s|] == 0 && 0 !in s
  {
    if mem[0] == 0 then [] else [mem[0]] + CString(mem[1..])
  }

  /** Hash of a NUL-terminated string; a null pointer hashes to zero. */
  method SchemaHash(str: array?<Byte>) returns (hash: Hash64)
    requires str != null ==> 0 in str[..]
    ensures hash == if str == null then 0 else Hash(CString(str[..]))
  {
    if str == null {
      return 0;
    }
    hash := OFFSET_BASIS;
    var i := 0;
    while str[i] != 0
      invariant 0 <= i < str.Length
      invariant 0 !in str[..i]
      invariant hash == Hash(str[..i])
      decreases str.Length - i
    {
      hash := Step(hash, str[i]);
      assert str[..i + 1] == str[..i] + [str[i]];
      i := i + 1;
      assert str[..str.Length] == str[..];
    }
    assert str[..][..i] == str[..i];
    CStringEndsAtFirstNul(str[..], i);
  }

  lemma {:induction false} CStringEndsAtFirstNul(mem: seq<Byte>, i: nat)
    requires i < |mem| && mem[i] == 0 && 0 !in mem[..i]
    ensures CString(mem) == mem[..i]
  {
    if i > 0 {
      assert mem[..i] == [mem[0]] + mem[1..][..i - 1];
      assert mem[1..][i - 1] == 0;
      CStringEndsAtFirstNul(mem[1..], i - 1);
    }
  }

  /** Hash of the first `len` bytes at `name`, as used for field keys. */
  method HashName(name: array<Byte>, len: nat) returns (hash: Hash64)
    requires len <= name.Length
    ensures hash == Hash(name[..len])
  {
    hash := OFFSET_BASIS;
    for i := 0 to len
      invariant hash == Hash(name[..i])
    {
      assert name[..i + 1][..i] == name[..i];
      hash := Step(hash, name[i]);
    }
  }

  // ---- Separation --------------------------------------------------------------------------

  lemma {:induction false} XorBitsCancels(a: nat, b: nat, c: nat, n: nat)
    requires a < Pow2(n) && b < Pow2(n) && c < Pow2(n)
    ensures XorBits(a, c, n) == XorBits(b, c, n) <==> a == b
    ensures XorBits(c, a, n) == XorBits(c, b, n) <==> a == b
  {
    if n > 0 {
      XorBitsCancels(a / 2, b / 2, c / 2, n - 1);
    }
  }

  lemma XorByteInjectiveInState(h: Hash64, k: Hash64, b: Byte)
    requires XorByte(h, b) == XorByte(k, b)
    ensures h == k
  {
    Pow2Of64();
    XorBitsCancels(h, k, b, 64);
  }

  lemma XorByteInjectiveInByte(h: Hash64, b: Byte, c: Byte)
    requires XorByte(h, b) == XorByte(h, c)
    ensures b == c
  {
    Pow2Of64();
    XorBitsCancels(b, c, h, 64);
  }

  /** The FNV prime is odd, hence invertible modulo 2^64. */
  lemma MultiplicationInjective(x: Hash64, y: Hash64)
    requires x * PRIME % MODULUS == y * PRIME % MODULUS
    ensures x == y
  {
    var inverse, k := 14886173955864302971, 887285111055;
    assert PRIME * inverse == 1 + k * MODULUS;
    var t := x * PRIME / MODULUS - y * PRIME / MODULUS;
    assert (x - y) * PRIME == t * MODULUS;
    assert x - y == (t * inverse - (x - y) * k) * MODULUS;
  }

  lemma StepInjectiveInState(h: Hash64, k: Hash64, b: Byte)
    ensures Step(h, b) == Step(k, b) <==> h == k
  {
    if Step(h, b) == Step(k, b) {
      MultiplicationInjective(XorByte(h, b), XorByte(k, b));
      XorByteInjectiveInState(h, k, b);
    }
  }

  lemma StepInjectiveInByte(h: Hash64, b: Byte, c: Byte)
    ensures Step(h, b) == Step(h, c) <==> b == c
  {
    if Step(h, b) == Step(h, c) {
      MultiplicationInjective(XorByte(h, b), XorByte(h, c));
      XorByteInjectiveInByte(h, b, c);
    }
  }

  lemma {:induction false} AbsorbAppend(h: Hash64, front: seq<Byte>, back: seq<Byte>)
    ensures Absorb(h, front + back) == Absorb(Absorb(h, front), back)
    decreases |back|
  {
    if back == [] {
      assert front + back == front;
    } else {
      var n := |front + back| - 1;
      assert (front + back)[..n] == front + back[..|back| - 1];
      AbsorbAppend(h, front, back[..|back| - 1]);
    }
  }

  lemma {:induction false} AbsorbInjectiveInState(h: Hash64, k: Hash64, bytes: seq<Byte>)
    ensures Absorb(h, bytes) == Absorb(k, bytes) <==> h == k
    decreases |bytes|
  {
    if bytes != [] {
      var front, last := bytes[..|bytes| - 1], bytes[|bytes| - 1];
      StepInjectiveInState(Absorb(h, front), Absorb(k, front), last);
      AbsorbInjectiveInState(h, k, front);
    }
  }

  /** A common suffix neither creates nor hides a collision. */
  lemma CommonSuffix(p: seq<Byte>, q: seq<Byte>, suffix: seq<Byte>)
    ensures Hash(p + suffix) == Hash(q + suffix) <==> Hash(p) == Hash(q)
  {
    AbsorbAppend(OFFSET_BASIS, p, suffix);
    AbsorbAppend(OFFSET_BASIS, q, suffix);
    AbsorbInjectiveInState(Hash(p), Hash(q), suffix);
  }

  /** Strings of one length that differ in exactly one position never collide. */
  lemma OneByteApartNeverCollide(s: seq<Byte>, i: nat, b: Byte)
    requires i < |s|
    ensures Hash(s) == Hash(s[i := b]) <==> s[i] == b
  {
    var t := s[i := b];
    assert s == s[..i + 1] + s[i + 1..] && t == t[..i + 1] + s[i + 1..];
    CommonSuffix(s[..i + 1], t[..i + 1], s[i + 1..]);
    assert s[..i + 1][..i] == s[..i] == t[..i + 1][..i];
    StepInjectiveInByte(Hash(s[..i]), s[i], b);
  }

  // ---- Parity: the lowest bit of a hash counts the odd bytes -------------------------------

  predicate Odd(n: int) {
    n % 2 == 1
  }

  /** Whether an odd number of the bytes is odd. */
  predicate OddWeight(bytes: seq<Byte>)
    decreases |bytes|
  {
    bytes != [] && Odd(bytes[|bytes| - 1]) != OddWeight(bytes[..|bytes| - 1])
  }

  lemma StepFlipsParityOnOddBytes(h: Hash64, b: Byte)
    ensures Odd(Step(h, b)) <==> Odd(h) != Odd(b)
  {
    XorParity(h, b);
    PrimeKeepsParity(XorByte(h, b));
    hide XorByte, Odd;
  }

  lemma XorParity(h: Hash64, b: Byte)
    ensures Odd(XorByte(h, b)) <==> Odd(h) != Odd(b)
  {
    assert XorByte(h, b) == (if h % 2 == b % 2 then 0 else 1) + 2 * XorBits(h / 2, b / 2, 63);
  }

  lemma PrimeKeepsParity(x: nat)
    ensures Odd(x * PRIME % MODULUS) <==> Odd(x)
  {
    SameParity(x * PRIME, x, x * (PRIME / 2));
    SameParity(x * PRIME, x * PRIME % MODULUS, x * PRIME / MODULUS * (MODULUS / 2));
  }

  lemma SameParity(x: int, y: int, half: int)
    requires x == y + 2 * half
    ensures Odd(x) <==> Odd(y)
  {
  }

  lemma {:induction false} HashParity(h: Hash64, bytes: seq<Byte>)
    ensures Odd(Absorb(h, bytes)) <==> Odd(h) != OddWeight(bytes)
    decreases |bytes|
  {
    hide Step, Odd;
    if bytes != [] {
      var front, last := bytes[..|bytes| - 1], bytes[|bytes| - 1];
      HashParity(h, front);
      StepFlipsParityOnOddBytes(Absorb(h, front), last);
    }
  }

  // ---- Keys of object fields ---------------------------------------------------------------

  /** The key used by every set, get, query and ensure call. */
  function KeyForAccess(name: seq<Byte>): Hash64 {
    Hash(name[..|name| % NAME_LENGTH_MODULUS])
  }

  /** The key used by remove. */
  function KeyForRemove(name: seq<Byte>): Hash64 {
    Hash(name)
  }

  /** Remove finds what set stored exactly for names below 64 KiB, hash collisions aside. */
  lemma AccessAndRemoveAgree(name: seq<Byte>)
    requires var narrowed := name[..|name| % NAME_LENGTH_MODULUS];
             Hash(narrowed) == Hash(name) ==> narrowed == name
    ensures KeyForAccess(name) == KeyForRemove(name) <==> |name| < 65536
  {
    if |name| < NAME_LENGTH_MODULUS {
      assert name[..|name| % NAME_LENGTH_MODULUS] == name;
    }
  }

  /** A suffix with an odd number of odd bytes always changes the hash. */
  lemma OddSuffixChangesHash(front: seq<Byte>, back: seq<Byte>)
    requires OddWeight(back)
    ensures Hash(front + back) != Hash(front)
  {
    hide Odd, Absorb;
    AbsorbAppend(OFFSET_BASIS, front, back);
    HashParity(Hash(front), back);
  }

  /** The letter a, then 65535 times the letter b. */
  function LongName(): (name: seq<Byte>)
    ensures |name| == 65536 && 0 !in name
  {
    ['a' as int] + Repeated('b' as int, NAME_LENGTH_MODULUS - 1)
  }

  function Repeated(b: Byte, n: nat): (bytes: seq<Byte>)
    ensures |bytes| == n && forall i :: 0 <= i < n ==> bytes[i] == b
  {
    seq(n, i => b)
  }

  lemma {:induction false} RepeatedEvenBytes(bytes: seq<Byte>, b: Byte)
    requires !Odd(b) && bytes != [] && forall i :: 1 <= i < |bytes| ==> bytes[i] == b
    ensures OddWeight(bytes) <==> Odd(bytes[0])
    decreases |bytes|
  {
    if |bytes| > 1 {
      RepeatedEvenBytes(bytes[..|bytes| - 1], b);
    } else {
      assert bytes[..0] == [];
    }
  }

  /** It is set under the key of the empty name, and removed under another one. */
  lemma LongNameHasTwoKeys()
    ensures KeyForAccess(LongName()) == KeyForAccess([]) != KeyForRemove(LongName())
  {
    var name := LongName();
    RepeatedEvenBytes(name, 'b' as int);
    OddSuffixChangesHash([], name);
    assert name[..0] == [] && [] + name == name;
  }

  /** Two names of exactly 64 KiB that differ in one byte share their access key, so at least
      one of them is stored under a key that remove never looks for. */
  lemma LongNamesCannotBeRemoved(name: seq<Byte>, i: nat, b: Byte)
    requires |name| == 65536 && i < |name| && b != name[i]
    ensures KeyForAccess(name) == KeyForAccess(name[i := b])
    ensures KeyForAccess(name) != KeyForRemove(name)
            || KeyForAccess(name[i := b]) != KeyForRemove(name[i := b])
  {
    assert name[..0] == name[i := b][..0];
    OneByteApartNeverCollide(name, i, b);
  }
}
