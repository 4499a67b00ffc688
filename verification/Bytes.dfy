/** Byte strings: the little-endian integers of pkg/util/slice, concatenation, and the
    stream cipher of pkg/crypto/ciph seen as XOR with a keystream. */
module Bytes {
  newtype byte = x: int | 0 <= x < 256
  type Bytes = seq<byte>

  /** The w-byte little-endian form of n, as PutUint16/32 write it (higher bits are dropped). */
  function LittleEndian(n: nat, w: nat): (b: Bytes)
    ensures |b| == w
  {
    if w == 0 then [] else [(n % 256) as byte] + LittleEndian(n / 256, w - 1)
  }

  function FromLittleEndian(b: Bytes): (r: nat)
  {
    if b == [] then 0 else b[0] as int + 256 * FromLittleEndian(b[1..])
  }

  function Pow256(w: nat): (p: nat)
    ensures p > 0
  {
    if w == 0 then 1 else 256 * Pow256(w - 1)
  }

  lemma {:induction false} ModOfProduct(n: nat, m: nat)
    requires m > 0
    ensures n % (256 * m) == n % 256 + 256 * (n / 256 % m)
  {
    var q, r := n / 256 / m, n / 256 % m;
    assert n == 256 * (q * m + r) + n % 256;
    var rest := n % 256 + 256 * r;
    assert 0 <= rest < 256 * m;
    assert n == q * (256 * m) + rest;
    RemainderIsUnique(n, 256 * m, q, rest);
  }

  lemma {:induction false} RemainderIsUnique(n: int, d: int, q: int, r: int)
    requires d > 0 && 0 <= r < d && n == q * d + r
    ensures n / d == q && n % d == r
  {
    var q', r' := n / d, n % d;
    assert n == q' * d + r' && (q - q') * d == r' - r;
    ProductLeavesInterval(q - q', d);
  }

  lemma {:induction false} ProductLeavesInterval(k: int, d: int)
    requires d > 0
    ensures k >= 1 ==> k * d >= d
    ensures k <= -1 ==> k * d <= -d
  {
  }

  /** Reading back an integer written little-endian gives it modulo its width. */
  lemma {:induction false} LittleEndianRoundTrip(n: nat, w: nat)
    ensures FromLittleEndian(LittleEndian(n, w)) == n % Pow256(w)
  {
    if w > 0 {
      assert LittleEndian(n, w)[1..] == LittleEndian(n / 256, w - 1);
      LittleEndianRoundTrip(n / 256, w - 1);
      ModOfProduct(n, Pow256(w - 1));
    }
  }

  // ---------------------------------------------------------------- concatenation

  function Flatten(chunks: seq<Bytes>): (r: Bytes)
  {
    if chunks == [] then [] else chunks[0] + Flatten(chunks[1..])
  }

  ghost predicate AllOfLength(chunks: seq<Bytes>, size: nat)
  {
    forall i :: 0 <= i < |chunks| ==> |chunks[i]| == size
  }

  lemma {:induction false} FlattenAppend(a: seq<Bytes>, b: seq<Bytes>)
    ensures Flatten(a + b) == Flatten(a) + Flatten(b)
  {
    if a == [] {
      assert a + b == b;
    } else {
      assert (a + b)[1..] == a[1..] + b;
      FlattenAppend(a[1..], b);
    }
  }

  lemma {:induction false} FlattenLength(chunks: seq<Bytes>, size: nat)
    requires AllOfLength(chunks, size)
    ensures |Flatten(chunks)| == |chunks| * size
  {
    if chunks != [] {
      FlattenLength(chunks[1..], size);
      assert |chunks| * size == size + (|chunks| - 1) * size;
    }
  }

  /** slice.Cat: packs the chunks together in order. */
  method Cat(chunks: seq<Bytes>) returns (pkt: Bytes)
    ensures pkt == Flatten(chunks)
  {
    pkt := [];
    for i := 0 to |chunks|
      invariant pkt == Flatten(chunks[..i])
    {
      assert chunks[..i + 1] == chunks[..i] + [chunks[i]];
      FlattenAppend(chunks[..i], [chunks[i]]);
      assert Flatten([chunks[i]]) == chunks[i];
      pkt := pkt + chunks[i];
    }
    assert chunks[..|chunks|] == chunks;
  }

  // ---------------------------------------------------------------- stream cipher

  function XorBits(a: nat, b: nat, width: nat): (r: nat)
  {
    if width == 0 then 0 else (a + b) % 2 + 2 * XorBits(a / 2, b / 2, width - 1)
  }

  function Pow2(width: nat): (r: nat)
  {
    if width == 0 then 1 else 2 * Pow2(width - 1)
  }

  lemma {:induction false} XorBounded(a: nat, b: nat, width: nat)
    ensures XorBits(a, b, width) < Pow2(width)
  {
    if width > 0 {
      XorBounded(a / 2, b / 2, width - 1);
    }
  }

  lemma {:induction false} XorLowBit(a: nat, b: nat, bit: nat, width: nat)
    requires bit == a % 2 && width > 0
    ensures XorBits(a, b, width) == (bit + b) % 2 + 2 * XorBits(a / 2, b / 2, width - 1)
  {
  }

  lemma {:induction false} ParityFacts(a: nat, b: nat, c: nat)
    ensures ((a + b) % 2 + b) % 2 == a % 2
    ensures ((a + b) % 2 + c) % 2 == (a + b + c) % 2
  {
  }

  lemma {:induction false} Halves(bit: nat, rest: nat)
    requires bit < 2
    ensures (bit + 2 * rest) / 2 == rest && (bit + 2 * rest) % 2 == bit
  {
  }

  lemma {:induction false} XorBitsTwice(a: nat, b: nat, width: nat)
    requires a < Pow2(width)
    ensures XorBits(XorBits(a, b, width), b, width) == a
  {
    if width > 0 {
      Halves((a + b) % 2, XorBits(a / 2, b / 2, width - 1));
      ParityFacts(a, b, 0);
      XorLowBit(XorBits(a, b, width), b, (a + b) % 2, width);
      XorBitsTwice(a / 2, b / 2, width - 1);
    }
  }

  lemma {:induction false} XorBitsSwap(a: nat, b: nat, c: nat, width: nat)
    ensures XorBits(XorBits(a, b, width), c, width) == XorBits(XorBits(a, c, width), b, width)
  {
    if width > 0 {
      Halves((a + b) % 2, XorBits(a / 2, b / 2, width - 1));
      Halves((a + c) % 2, XorBits(a / 2, c / 2, width - 1));
      ParityFacts(a, b, c);
      ParityFacts(a, c, b);
      XorLowBit(XorBits(a, b, width), c, (a + b) % 2, width);
      XorLowBit(XorBits(a, c, width), b, (a + c) % 2, width);
      XorBitsSwap(a / 2, b / 2, c / 2, width - 1);
    }
  }

  /** Exclusive or of two bytes. */
  function Xor(a: byte, b: byte): (r: byte)
  {
    XorBounded(a as nat, b as nat, 8);
    assert Pow2(8) == 256;
    XorBits(a as nat, b as nat, 8) as byte
  }

  lemma {:induction false} XorTwice(a: byte, b: byte)
    ensures Xor(Xor(a, b), b) == a
  {
    assert Pow2(8) == 256;
    XorBitsTwice(a as nat, b as nat, 8);
  }

  lemma {:induction false} XorSwap(a: byte, b: byte, c: byte)
    ensures Xor(Xor(a, b), c) == Xor(Xor(a, c), b)
  {
    XorBitsSwap(a as nat, b as nat, c as nat, 8);
  }

  /** Bit i of a number. */
  function Bit(n: nat, i: nat): (r: nat)
    ensures r < 2
  {
    if i == 0 then n % 2 else Bit(n / 2, i - 1)
  }

  lemma {:induction false} XorBitsAt(a: nat, b: nat, width: nat, i: nat)
    requires i < width
    ensures Bit(XorBits(a, b, width), i) == if Bit(a, i) != Bit(b, i) then 1 else 0
    decreases i
  {
    Halves((a + b) % 2, XorBits(a / 2, b / 2, width - 1));
    if i == 0 {
      TwoBits(a, b);
    } else {
      XorBitsAt(a / 2, b / 2, width - 1, i - 1);
    }
  }

  lemma {:induction false} TwoBits(a: nat, b: nat)
    ensures (a + b) % 2 == if a % 2 != b % 2 then 1 else 0
  {
  }

  /** A bit of the result is set exactly when one of the two bits is. */
  lemma {:induction false} XorIsExclusive(a: byte, b: byte, i: nat)
    requires i < 8
    ensures Bit(Xor(a, b) as nat, i) == 1 <==> Bit(a as nat, i) != Bit(b as nat, i)
  {
    XorBitsAt(a as nat, b as nat, 8, i);
  }

  lemma {:induction false} XorBitsCommute(a: nat, b: nat, width: nat)
    ensures XorBits(a, b, width) == XorBits(b, a, width)
  {
    if width > 0 {
      XorBitsCommute(a / 2, b / 2, width - 1);
    }
  }

  lemma {:induction false} XorBitsZero(b: nat, width: nat)
    requires b < Pow2(width)
    ensures XorBits(0, b, width) == b
  {
    if width > 0 {
      XorBitsZero(b / 2, width - 1);
    }
  }

  lemma {:induction false} XorLaws(a: byte, b: byte, c: byte)
    ensures Xor(0, b) == b && Xor(a, b) == Xor(b, a)
    ensures Xor(a, b) == Xor(a, c) ==> b == c
  {
    assert Pow2(8) == 256;
    XorBitsZero(b as nat, 8);
    XorBitsCommute(a as nat, b as nat, 8);
    XorBitsCommute(a as nat, c as nat, 8);
    XorTwice(b, a);
    XorTwice(c, a);
  }

  /** ciph.Encipher: XOR with a keystream that starts at index 0 at the start of the range. */
  function Encipher(s: Bytes, stream: nat -> byte): (r: Bytes)
    ensures |r| == |s|
    ensures forall i :: 0 <= i < |s| ==> r[i] == Xor(s[i], stream(i))
  {
    seq(|s|, i requires 0 <= i < |s| => Xor(s[i], stream(i)))
  }

  lemma {:induction false} EncipherTwice(s: Bytes, stream: nat -> byte)
    ensures Encipher(Encipher(s, stream), stream) == s
  {
    forall i | 0 <= i < |s|
      ensures Xor(Xor(s[i], stream(i)), stream(i)) == s[i]
    {
      XorTwice(s[i], stream(i));
    }
  }

  lemma {:induction false} EncipherSwap(s: Bytes, a: nat -> byte, b: nat -> byte)
    ensures Encipher(Encipher(s, a), b) == Encipher(Encipher(s, b), a)
  {
    forall i | 0 <= i < |s|
      ensures Xor(Xor(s[i], a(i)), b(i)) == Xor(Xor(s[i], b(i)), a(i))
    {
      XorSwap(s[i], a(i), b(i));
    }
  }

  /** A keystream acts on a prefix as it does on the whole. */
  lemma {:induction false} EncipherPrefix(s: Bytes, t: Bytes, stream: nat -> byte)
    requires s <= t
    ensures Encipher(s, stream) <= Encipher(t, stream)
  {
  }

  /** Zeros become the keystream, and where two keystreams differ so do the bytes they make: what goes out depends on
      every byte of the keystream. */
  lemma {:induction false} EncipherHides(s: Bytes, a: nat -> byte, b: nat -> byte)
    ensures (forall i :: 0 <= i < |s| ==> s[i] == 0) ==> forall i :: 0 <= i < |s| ==> Encipher(s, a)[i] == a(i)
    ensures forall i :: 0 <= i < |s| ==> (Encipher(s, a)[i] == Encipher(s, b)[i] <==> a(i) == b(i))
  {
    forall i | 0 <= i < |s|
      ensures s[i] == 0 ==> Encipher(s, a)[i] == a(i)
      ensures Encipher(s, a)[i] == Encipher(s, b)[i] <==> a(i) == b(i)
    {
      XorLaws(s[i], a(i), b(i));
    }
  }

  /** The low byte stands first. */
  lemma {:induction false} LittleEndianOrder(n: nat, w: nat)
    requires w > 0
    ensures LittleEndian(n, w)[0] as int == n % 256 && LittleEndian(n, w)[1..] == LittleEndian(n / 256, w - 1)
  {
  }
}
