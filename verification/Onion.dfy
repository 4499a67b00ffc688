/** Onion messages: the splice buffer, the Crypt, Forward and Reverse layers, and how a relay peels them
    (pkg/util/splice, pkg/codec/onion/crypt, pkg/codec/onion/forward, pkg/codec/ont). */
module Onion {
  import opened Options
  import opened Bytes
  import opened Buffers
  import opened Crypto

  const MAGIC_LEN: nat := 4
  const CRYPT_MAGIC: Bytes := [99, 114, 121, 112]
  const FORWARD_MAGIC: Bytes := [102, 111, 114, 119]
  const REVERSE_MAGIC: Bytes := [114, 118, 114, 115]
  const CRYPT_LEN: nat := MAGIC_LEN + IV_LEN + CLOAK_LEN + PUB_LEN
  /** Bytes an address field takes up: a length byte and twenty bytes of padded address. */
  const ADDR_LEN: nat := 21

  /** The keys and nonce of one Crypt; the blinder is the random part of its cloak. */
  datatype Seal = Seal(header: Pub, payload: Pub, from: Prv, iv: Bytes, blinder: Bytes)
  {
    predicate Valid()
    {
      |iv| == IV_LEN && |blinder| == BLIND_LEN
    }
  }

  datatype Onion =
    | Crypt(seal: Seal, depth: nat, inner: Onion)
    | Forward(addr: Bytes, inner: Onion)
    | Reverse(addr: Bytes, inner: Onion)
    | Core(bytes: Bytes)

  /** Len of an onion, as declared. */
  function Len(o: Onion): (r: nat)
  {
    match o
    case Crypt(_, _, inner) => CRYPT_LEN + Len(inner)
    case Forward(_, inner) => MAGIC_LEN + ADDR_LEN + Len(inner)
    case Reverse(_, inner) => MAGIC_LEN + ADDR_LEN + Len(inner)
    case Core(bytes) => |bytes|
  }

  /** The address field as Splice.Multiaddr writes it; a long address is not cut to fit. */
  function AddrField(addr: Bytes): (r: Bytes)
  {
    [(|addr| % 256) as byte] + (if |addr| < 20 then addr + seq(20 - |addr|, _ => 0) else addr)
  }

  /** The address field byte by byte: the length modulo 256, the address, zeros up to twenty bytes of it. */
  lemma {:induction false} AddrFieldBytes(addr: Bytes, i: nat)
    ensures var f := AddrField(addr);
            && |f| == 1 + (if |addr| < 20 then 20 else |addr|) && f[0] as int == |addr| % 256
            && (i < |f| - 1 ==> f[1 + i] == if i < |addr| then addr[i] else 0)
  {
  }

  function CryptHead(w: Suite, k: Seal): (h: Bytes)
    requires w.Lawful() && k.Valid()
    ensures |h| == CRYPT_LEN
  {
    CRYPT_MAGIC + k.iv + w.Cloak(k.blinder, k.header) + w.derivePub(k.from)
  }

  /** Where Crypt.Encode changes from header to payload key: at the end for depth 0, past d-1 routing
      layers for depth d. */
  function CutAt(depth: nat, layerLen: nat, len: nat): (r: nat)
  {
    if depth == 0 then len else (depth - 1) * layerLen
  }

  /** The bytes inside a Crypt: up to the cut under the header key, beyond it under the payload key. */
  function CryptBody(w: Suite, k: Seal, cut: nat, inside: Bytes): (r: Bytes)
    requires cut <= |inside|
    ensures |r| == |inside|
  {
    Encipher(inside[..cut], w.Block(k.from, k.header, k.iv)) + Encipher(inside[cut..], w.Block(k.from, k.payload, k.iv))
  }

  /** The bytes Encode writes for an onion, whatever its addresses. */
  function Written(o: Onion): (n: nat)
  {
    match o
    case Crypt(_, _, inner) => CRYPT_LEN + Written(inner)
    case Forward(addr, inner) => MAGIC_LEN + |AddrField(addr)| + Written(inner)
    case Reverse(addr, inner) => MAGIC_LEN + |AddrField(addr)| + Written(inner)
    case Core(bytes) => |bytes|
  }

  ghost predicate ShortAddresses(o: Onion)
  {
    match o
    case Crypt(_, _, inner) => ShortAddresses(inner)
    case Forward(addr, inner) => |addr| <= 20 && ShortAddresses(inner)
    case Reverse(addr, inner) => |addr| <= 20 && ShortAddresses(inner)
    case Core(_) => true
  }

  /** The bytes written are those declared when no address is longer than twenty bytes, and more otherwise. */
  lemma {:induction false} WrittenIsLen(o: Onion)
    ensures Written(o) >= Len(o)
    ensures Written(o) == Len(o) <==> ShortAddresses(o)
  {
    match o
    case Crypt(_, _, inner) => WrittenIsLen(inner);
    case Forward(_, inner) => WrittenIsLen(inner);
    case Reverse(_, inner) => WrittenIsLen(inner);
    case Core(_) =>
  }

  ghost predicate SealsValid(o: Onion)
  {
    match o
    case Crypt(k, _, inner) => k.Valid() && SealsValid(inner)
    case Forward(_, inner) => SealsValid(inner)
    case Reverse(_, inner) => SealsValid(inner)
    case Core(_) => true
  }

  /** Every write and every enciphered range of Encode, started at `at`, stays within the buffer. */
  ghost predicate Fits(o: Onion, at: nat, end: nat, layerLen: nat)
  {
    match o
    case Crypt(_, depth, inner) =>
      at + CRYPT_LEN + CutAt(depth, layerLen, 0) <= end && Fits(inner, at + CRYPT_LEN, end, layerLen)
    case Forward(addr, inner) => Fits(inner, at + MAGIC_LEN + |AddrField(addr)|, end, layerLen)
    case Reverse(addr, inner) => Fits(inner, at + MAGIC_LEN + |AddrField(addr)|, end, layerLen)
    case Core(bytes) => at + |bytes| <= end
  }

  /** Layers whose cuts fall no further than the end of what they wrap. */
  ghost predicate Encodable(o: Onion, layerLen: nat)
  {
    match o
    case Crypt(k, depth, inner) =>
      k.Valid() && CutAt(depth, layerLen, Written(inner)) <= Written(inner) && Encodable(inner, layerLen)
    case Forward(_, inner) => Encodable(inner, layerLen)
    case Reverse(_, inner) => Encodable(inner, layerLen)
    case Core(_) => true
  }

  lemma {:induction false} FitsWritten(o: Onion, at: nat, end: nat, layerLen: nat)
    ensures Fits(o, at, end, layerLen) ==> at + Written(o) <= end
    ensures SealsValid(o) && at + Written(o) == end ==> (Fits(o, at, end, layerLen) <==> Encodable(o, layerLen))
  {
    match o
    case Crypt(_, _, inner) => FitsWritten(inner, at + CRYPT_LEN, end, layerLen);
    case Forward(addr, inner) => FitsWritten(inner, at + MAGIC_LEN + |AddrField(addr)|, end, layerLen);
    case Reverse(addr, inner) => FitsWritten(inner, at + MAGIC_LEN + |AddrField(addr)|, end, layerLen);
    case Core(_) =>
  }

  /** The bytes of a whole encoded onion. */
  ghost function Image(w: Suite, o: Onion, layerLen: nat): (r: Bytes)
    requires w.Lawful() && Encodable(o, layerLen)
    ensures |r| == Written(o)
  {
    match o
    case Crypt(k, depth, inner) =>
      CryptHead(w, k) + CryptBody(w, k, CutAt(depth, layerLen, Written(inner)), Image(w, inner, layerLen))
    case Forward(addr, inner) => FORWARD_MAGIC + AddrField(addr) + Image(w, inner, layerLen)
    case Reverse(addr, inner) => REVERSE_MAGIC + AddrField(addr) + Image(w, inner, layerLen)
    case Core(bytes) => bytes
  }

  /** The bytes are the image of the onion. */
  ghost predicate Holds(w: Suite, o: Onion, layerLen: nat, bytes: Bytes)
    requires w.Lawful()
  {
    Encodable(o, layerLen) && bytes == Image(w, o, layerLen)
  }

  // ---------------------------------------------------------------- the splice buffer

  /** BudgeUp on the buffer's bytes: the rest moves to the front, noise fills the end. */
  function Budged(buf: Bytes, start: nat, noise: Bytes): (r: Bytes)
    requires start <= |buf| && |noise| == start
    ensures |r| == |buf|
  {
    buf[start..] + noise
  }

  /** The bytes from the cursor on stand in front, the noise behind them. */
  lemma {:induction false} BudgedParts(buf: Bytes, start: nat, noise: Bytes)
    requires start <= |buf| && |noise| == start
    ensures var r := Budged(buf, start, noise); buf[start..] <= r && r[|buf| - start..] == noise
  {
  }

  class Splice {
    const b: array<byte>
    var c: nat

    constructor (length: nat)
      ensures fresh(b) && b.Length == length && c == 0
    {
      b := new byte[length];
      c := 0;
    }

    /** splice.NewFrom: a cursor over bytes that are already there. */
    constructor From(b: array<byte>)
      ensures this.b == b && c == 0
    {
      this.b := b;
      c := 0;
    }

    /** Magic, IV, Cloak, Pubkey, Byte and RawBytes: copy at the cursor and move past. Slicing past the end of the
        buffer is a panic, reported as false. */
    method Put(src: Bytes) returns (ok: bool)
      requires c <= b.Length
      modifies this`c, b
      ensures c <= b.Length && (ok <==> old(c) + |src| <= b.Length)
      ensures ok ==> c == old(c) + |src| && b[..c] == old(b[..c]) + src
      ensures !ok ==> c == old(c) && b[..c] == old(b[..c])
    {
      ok := c + |src| <= b.Length;
      if ok {
        CopyInto(b, c, src);
        c := c + |src|;
      }
    }

    /** Two writes in a row. */
    method PutBoth(x: Bytes, y: Bytes) returns (ok: bool)
      requires c <= b.Length
      modifies this`c, b
      ensures c <= b.Length && (ok <==> old(c) + |x| + |y| <= b.Length)
      ensures ok ==> c == old(c) + |x| + |y| && b[..c] == old(b[..c]) + (x + y)
      ensures old(c) <= c && b[..old(c)] == old(b[..c])
    {
      ghost var before := b[..c];
      ok := Put(x);
      if ok {
        ok := Put(y);
        assert before + x + y == before + (x + y);
      }
    }

    method PutMultiaddr(addr: Bytes) returns (ok: bool)
      requires c <= b.Length
      modifies this`c, b
      ensures c <= b.Length && (ok <==> old(c) + |AddrField(addr)| <= b.Length)
      ensures ok ==> c == old(c) + |AddrField(addr)| && b[..c] == old(b[..c]) + AddrField(addr)
      ensures old(c) <= c && b[..old(c)] == old(b[..c])
    {
      var raw := addr;
      if |addr| < 20 {
        raw := addr + seq(20 - |addr|, _ => 0);
      }
      ok := PutBoth([(|addr| % 256) as byte], raw);
    }

    /** The Read methods: the next n bytes, moving past them. */
    method Take(n: nat) returns (r: Bytes)
      requires c + n <= b.Length
      modifies this`c
      ensures c == old(c) + n && r == b[old(c)..c]
    {
      r := b[c..c + n];
      c := c + n;
    }

    /** copy(s.GetAll(), s.GetFrom(start)), then noise over the bytes left at the end. */
    method BudgeUp(noise: Bytes)
      requires c <= b.Length && |noise| == c
      modifies b
      ensures b[..] == Budged(old(b[..]), c, noise)
    {
      ghost var was := b[..];
      CopyRanges(b, 0, c, b.Length - c);
      assert b[..b.Length - c] == was[c..];
      CopyInto(b, b.Length - c, noise);
      assert b[..b.Length] == b[..];
    }

    /** Encode of each kind of layer: heads outward, then ciphers inward. It goes through exactly when everything fits,
        and an onion that fills the buffer to its end leaves its image there. */
    method Encode(w: Suite, o: Onion, layerLen: nat) returns (ok: bool)
      requires w.Lawful() && SealsValid(o) && c <= b.Length
      modifies this`c, b
      ensures c <= b.Length && old(c) <= c && b[..old(c)] == old(b[..c])
      ensures ok <==> Fits(o, old(c), b.Length, layerLen)
      ensures ok ==> c == old(c) + Written(o)
      ensures ok && c == b.Length ==> Holds(w, o, layerLen, b[old(c)..])
      decreases o, 0
    {
      match o {
        case Core(bytes) =>
          ghost var at, before := c, b[..c];
          ok := Put(bytes);
          if ok && c == b.Length {
            assert b[..c] == b[..] && b[..] == before + bytes;
            assert b[at..] == b[..][at..];
          }
        case Forward(addr, inner) => ok := EncodeAddressed(w, FORWARD_MAGIC, addr, inner, layerLen);
        case Reverse(addr, inner) => ok := EncodeAddressed(w, REVERSE_MAGIC, addr, inner, layerLen);
        case Crypt(k, depth, inner) => ok := EncodeCrypt(w, k, depth, inner, layerLen);
      }
    }

    /** Forward.Encode and Reverse.Encode. */
    method EncodeAddressed(w: Suite, magic: Bytes, addr: Bytes, inner: Onion, layerLen: nat) returns (ok: bool)
      requires w.Lawful() && |magic| == MAGIC_LEN && SealsValid(inner) && c <= b.Length
      modifies this`c, b
      ensures c <= b.Length && old(c) <= c && b[..old(c)] == old(b[..c])
      ensures ok <==> Fits(inner, old(c) + MAGIC_LEN + |AddrField(addr)|, b.Length, layerLen)
      ensures ok ==> c == old(c) + MAGIC_LEN + |AddrField(addr)| + Written(inner)
      ensures ok && c == b.Length ==>
                Encodable(inner, layerLen) && b[old(c)..] == magic + AddrField(addr) + Image(w, inner, layerLen)
      decreases inner, 1
    {
      ghost var before := b[..c];
      FitsWritten(inner, c + MAGIC_LEN + |AddrField(addr)|, b.Length, layerLen);
      ok := PutHead(magic, addr);
      if !ok {
        return;
      }
      ghost var at := c;
      ok := Encode(w, inner, layerLen);
      Behind(b[..], before, magic + AddrField(addr), at);
    }

    method PutHead(magic: Bytes, addr: Bytes) returns (ok: bool)
      requires c <= b.Length
      modifies this`c, b
      ensures c <= b.Length && (ok <==> old(c) + |magic| + |AddrField(addr)| <= b.Length)
      ensures ok ==> c == old(c) + |magic| + |AddrField(addr)| && b[..c] == old(b[..c]) + (magic + AddrField(addr))
      ensures old(c) <= c && b[..old(c)] == old(b[..c])
    {
      ghost var before := b[..c];
      ok := Put(magic);
      if ok {
        ok := PutMultiaddr(addr);
        assert before + magic + AddrField(addr) == before + (magic + AddrField(addr));
      }
    }

    /** Crypt.Encode. */
    method EncodeCrypt(w: Suite, k: Seal, depth: nat, inner: Onion, layerLen: nat) returns (ok: bool)
      requires w.Lawful() && k.Valid() && SealsValid(inner) && c <= b.Length
      modifies this`c, b
      ensures c <= b.Length && old(c) <= c && b[..old(c)] == old(b[..c])
      ensures ok <==> Fits(Crypt(k, depth, inner), old(c), b.Length, layerLen)
      ensures ok ==> c == old(c) + CRYPT_LEN + Written(inner)
      ensures ok && c == b.Length ==> Holds(w, Crypt(k, depth, inner), layerLen, b[old(c)..])
      decreases inner, 2
    {
      ghost var before, head := b[..c], CryptHead(w, k);
      ok := PutCryptHead(w, k);
      if !ok {
        return;
      }
      ghost var at := c;
      ok := EncodeInside(w, k, depth, inner, layerLen);
      Behind(b[..], before, head, at);
    }

    /** What Crypt.Encode does behind its head: the inner layers, then the two ciphers over them. For depth 0 the header
        key covers everything to the end of the buffer. */
    method EncodeInside(w: Suite, k: Seal, depth: nat, inner: Onion, layerLen: nat) returns (ok: bool)
      requires w.Lawful() && SealsValid(inner) && c <= b.Length
      modifies this`c, b
      ensures c <= b.Length && old(c) <= c && b[..old(c)] == old(b[..c])
      ensures ok <==> old(c) + CutAt(depth, layerLen, 0) <= b.Length && Fits(inner, old(c), b.Length, layerLen)
      ensures ok ==> c == old(c) + Written(inner)
      ensures ok && c == b.Length ==>
                && Encodable(inner, layerLen) && CutAt(depth, layerLen, Written(inner)) <= Written(inner)
                && b[old(c)..] == CryptBody(w, k, CutAt(depth, layerLen, Written(inner)), Image(w, inner, layerLen))
      decreases inner, 1
    {
      var start := c;
      var end := if depth == 0 then b.Length else start + (depth - 1) * layerLen;
      ok := Encode(w, inner, layerLen);
      if !ok || end > b.Length {
        return false;
      }
      ghost var inside := b[start..];
      assert b[start..end] == inside[..end - start] && b[end..] == inside[end - start..];
      EncipherBody(w, k, start, end);
    }

    method PutCryptHead(w: Suite, k: Seal) returns (ok: bool)
      requires w.Lawful() && k.Valid() && c <= b.Length
      modifies this`c, b
      ensures c <= b.Length && (ok <==> old(c) + CRYPT_LEN <= b.Length)
      ensures ok ==> c == old(c) + CRYPT_LEN && b[..c] == old(b[..c]) + CryptHead(w, k)
      ensures old(c) <= c && b[..old(c)] == old(b[..c])
    {
      ghost var before := b[..c];
      var cloak, key := w.Cloak(k.blinder, k.header), w.derivePub(k.from);
      ok := PutBoth(CRYPT_MAGIC, k.iv);
      if ok {
        ghost var at := c;
        ok := PutBoth(cloak, key);
        assert before + (CRYPT_MAGIC + k.iv) + (cloak + key) == before + CryptHead(w, k);
        assert b[..|before|] == b[..at][..|before|];
      }
    }

    /** The two encipherments that end Crypt.Encode. */
    method EncipherBody(w: Suite, k: Seal, start: nat, end: nat)
      requires start <= end <= b.Length
      modifies b
      ensures b[..start] == old(b[..start])
      ensures b[start..] == Encipher(old(b[start..end]), w.Block(k.from, k.header, k.iv))
                          + Encipher(old(b[end..]), w.Block(k.from, k.payload, k.iv))
    {
      EncipherRange(b, start, end, w.Block(k.from, k.header, k.iv));
      if end != b.Length {
        EncipherRange(b, end, b.Length, w.Block(k.from, k.payload, k.iv));
      }
      assert b[start..] == b[start..end] + b[end..b.Length];
    }
  }

  /** A buffer whose bytes up to `at` are some bytes and a head. */
  lemma {:induction false} Behind(buf: Bytes, before: Bytes, head: Bytes, at: nat)
    requires at <= |buf| && buf[..at] == before + head
    ensures buf[..|before|] == before && buf[|before|..] == head + buf[at..]
  {
    assert buf == buf[..at] + buf[at..];
  }

  /** No Crypt with a depth, as outside routing headers. */
  ghost predicate Flat(o: Onion)
  {
    match o
    case Crypt(_, depth, inner) => depth == 0 && Flat(inner)
    case Forward(_, inner) => Flat(inner)
    case Reverse(_, inner) => Flat(inner)
    case Core(_) => true
  }

  /** Without depths only the space decides. */
  lemma {:induction false} FlatFits(o: Onion, at: nat, end: nat, layerLen: nat)
    requires Flat(o) && SealsValid(o)
    ensures Encodable(o, layerLen)
    ensures Fits(o, at, end, layerLen) <==> at + Written(o) <= end
  {
    match o
    case Crypt(_, _, inner) => FlatFits(inner, at + CRYPT_LEN, end, layerLen);
    case Forward(addr, inner) => FlatFits(inner, at + MAGIC_LEN + |AddrField(addr)|, end, layerLen);
    case Reverse(addr, inner) => FlatFits(inner, at + MAGIC_LEN + |AddrField(addr)|, end, layerLen);
    case Core(_) =>
  }

  /** codec.Encode: a buffer of the declared length, and nothing but a panic for an address too long for it. */
  method EncodeMessage(w: Suite, o: Onion, layerLen: nat) returns (r: Option<Splice>)
    requires w.Lawful() && SealsValid(o)
    ensures r.Some? <==> ShortAddresses(o) && Encodable(o, layerLen)
    ensures Flat(o) ==> (r.Some? <==> ShortAddresses(o))
    ensures r.Some? ==> fresh(r.value) && fresh(r.value.b) && Holds(w, o, layerLen, r.value.b[..])
  {
    var s := new Splice(Len(o));
    var ok := s.Encode(w, o, layerLen);
    WrittenIsLen(o);
    FitsWritten(o, 0, Len(o), layerLen);
    if Flat(o) {
      FlatFits(o, 0, Len(o), layerLen);
    }
    assert s.b[0..] == s.b[..];
    r := if ok then Some(s) else None;
  }
}
