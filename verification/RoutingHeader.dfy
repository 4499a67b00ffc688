/** The three-layer routing header: Reverse.Handle (pkg/codec/onion/reverse), the depths of Crypt.Encode
    (pkg/codec/onion/crypt) and FormatReply (pkg/hidden). */
module RoutingHeader {
  import opened Bytes
  import opened Buffers
  import opened Crypto
  import opened Onion
  import opened Peel

  /** What Encode writes for one Reverse and Crypt pair with a padded address. */
  const LAYER_LEN: nat := MAGIC_LEN + ADDR_LEN + CRYPT_LEN
  /** consts.ReverseCryptLen as the repository defines it. */
  const REVERSE_CRYPT_LEN: nat := MAGIC_LEN + 1 + (16 + 2) + CRYPT_LEN

  /** One hop of the header: where to send it next, its Crypt, and the two private keys of its session. */
  datatype Hop = Hop(addr: Bytes, seal: Seal, headerKey: Prv, payloadKey: Prv)
  {
    ghost predicate Valid(w: Suite)
    {
      && |addr| <= 20 && seal.Valid()
      && seal.header == w.derivePub(headerKey) && seal.payload == w.derivePub(payloadKey)
    }

    function HeaderStream(w: Suite): (r: nat -> byte)
    {
      w.Block(seal.from, seal.header, seal.iv)
    }

    function PayloadStream(w: Suite): (r: nat -> byte)
    {
      w.Block(seal.from, seal.payload, seal.iv)
    }

    /** The clear bytes of this layer. */
    function Head(w: Suite): (h: Bytes)
      requires w.Lawful() && seal.Valid() && |addr| <= 20
      ensures |h| == LAYER_LEN
    {
      REVERSE_MAGIC + AddrField(addr) + CryptHead(w, seal)
    }
  }

  function LayerOnion(h: Hop, depth: nat, inner: Onion): (r: Onion)
  {
    Reverse(h.addr, Crypt(h.seal, depth, inner))
  }

  /** Skins.RoutingHeader over some inner onion. */
  function HeaderOnion(h1: Hop, h2: Hop, h3: Hop, inner: Onion): (r: Onion)
  {
    LayerOnion(h1, 3, LayerOnion(h2, 2, LayerOnion(h3, 1, inner)))
  }

  // ---------------------------------------------------------------- Reverse.Handle

  /** The in-place part of Reverse.Handle: decipher two layers, move them up by one, pad, decipher the payload.
      `first` is the end of the layer just decoded, k the constant layer length. */
  function Shifted(buf: Bytes, first: nat, k: nat, header: nat -> byte, payload: nat -> byte, noise: Bytes): (r: Bytes)
    requires k <= first && first + 2 * k <= |buf| && |noise| == k
    ensures |r| == |buf|
  {
    buf[..first - k] + Encipher(buf[first..first + 2 * k], header) + noise + Encipher(buf[first + 2 * k..], payload)
  }

  /** Moving two deciphered layers up by one layer and padding behind them. */
  method MoveUp(b: array<byte>, first: nat, k: nat, noise: Bytes)
    requires k <= first && first + 2 * k <= b.Length && |noise| == k
    modifies b
    ensures b[..] == old(b[..first - k]) + old(b[first..first + 2 * k]) + noise + old(b[first + 2 * k..])
  {
    ghost var was := b[..];
    CopyRanges(b, first - k, first, k);
    CopyRanges(b, first, first + k, k);
    ghost var moved := b[..];
    CopyInto(b, first + k, noise);
    assert moved[..first + k] == was[..first - k] + was[first..first + 2 * k];
    assert moved[first + 2 * k..] == was[first + 2 * k..];
    assert b[..] == b[..first + 2 * k] + b[first + 2 * k..];
  }

  /** Deciphering two layers in place, then moving them up. */
  method DecipherAndMove(b: array<byte>, first: nat, k: nat, header: nat -> byte, noise: Bytes)
    requires k <= first && first + 2 * k <= b.Length && |noise| == k
    modifies b
    ensures b[..] == old(b[..])[..first - k] + Encipher(old(b[..])[first..first + 2 * k], header) + noise
                     + old(b[..])[first + 2 * k..]
  {
    ghost var was := b[..];
    EncipherRange(b, first, first + 2 * k, header);
    assert b[..first - k] == b[..first][..first - k] == was[..first - k];
    MoveUp(b, first, k, noise);
  }

  /** The payload key over everything past the header, if there is anything. */
  method DecipherPayload(b: array<byte>, last: nat, payload: nat -> byte)
    requires last <= b.Length
    modifies b
    ensures b[..] == old(b[..])[..last] + Encipher(old(b[..])[last..], payload)
  {
    ghost var was := b[..];
    assert was[last..] == b[last..b.Length] && was[..last] == b[..last];
    if last != b.Length {
      EncipherRange(b, last, b.Length, payload);
    }
    assert b[..] == b[..last] + b[last..b.Length];
  }

  /** The statements of Reverse.Handle from the first Encipher to the second. */
  method ShiftHeader(b: array<byte>, first: nat, k: nat, header: nat -> byte, payload: nat -> byte, noise: Bytes)
    requires k <= first && first + 2 * k <= b.Length && |noise| == k
    modifies b
    ensures b[..] == Shifted(old(b[..]), first, k, header, payload, noise)
  {
    ghost var was := b[..];
    DecipherAndMove(b, first, k, header, noise);
    ghost var head := was[..first - k] + Encipher(was[first..first + 2 * k], header) + noise;
    SplitAt(head, was[first + 2 * k..]);
    DecipherPayload(b, first + 2 * k, payload);
  }

  lemma {:induction false} SplitAt(p: Bytes, q: Bytes)
    ensures (p + q)[..|p|] == p && (p + q)[|p|..] == q
  {
  }

  // ---------------------------------------------------------------- what the header looks like

  /** One layer of the header over the bytes inside it. */
  function LayerImage(w: Suite, h: Hop, cut: nat, inside: Bytes): (r: Bytes)
    requires w.Lawful() && h.seal.Valid() && |h.addr| <= 20 && cut <= |inside|
    ensures |r| == LAYER_LEN + |inside|
  {
    h.Head(w) + CryptBody(w, h.seal, cut, inside)
  }

  /** The bytes of an encoded header: k is the constant layer length in Crypt.Encode. */
  function HeaderImage(w: Suite, k: nat, h1: Hop, h2: Hop, h3: Hop, core: Bytes): (r: Bytes)
    requires w.Lawful() && k <= LAYER_LEN
    requires forall h :: h == h1 || h == h2 || h == h3 ==> h.seal.Valid() && |h.addr| <= 20
    ensures |r| == 3 * LAYER_LEN + |core|
  {
    LayerImage(w, h1, 2 * k, LayerImage(w, h2, k, LayerImage(w, h3, 0, core)))
  }

  /** Encoding the three layers with depths 3, 2 and 1 gives that image. */
  lemma {:induction false} HeaderEncodes(w: Suite, k: nat, h1: Hop, h2: Hop, h3: Hop, core: Bytes)
    requires w.Lawful() && h1.Valid(w) && h2.Valid(w) && h3.Valid(w) && k <= LAYER_LEN
    ensures var o := HeaderOnion(h1, h2, h3, Core(core));
            && Encodable(o, k) && SealsValid(o) && ShortAddresses(o) && Len(o) == Written(o) == 3 * LAYER_LEN + |core|
            && Image(w, o, k) == HeaderImage(w, k, h1, h2, h3, core)
  {
    InnerLayersEncode(w, k, h2, h3, core);
    WrittenIsLen(HeaderOnion(h1, h2, h3, Core(core)));
    LayerEncodes(w, k, h1, 3, 2 * k, LayerOnion(h2, 2, LayerOnion(h3, 1, Core(core))),
                 LayerImage(w, h2, k, LayerImage(w, h3, 0, core)));
  }

  lemma {:induction false} InnerLayersEncode(w: Suite, k: nat, h2: Hop, h3: Hop, core: Bytes)
    requires w.Lawful() && h2.Valid(w) && h3.Valid(w) && k <= LAYER_LEN
    ensures var o := LayerOnion(h2, 2, LayerOnion(h3, 1, Core(core)));
            && SealsValid(o) && ShortAddresses(o) && Encodable(o, k) && Written(o) == 2 * LAYER_LEN + |core|
            && Image(w, o, k) == LayerImage(w, h2, k, LayerImage(w, h3, 0, core))
  {
    LayerEncodes(w, k, h3, 1, 0, Core(core), core);
    LayerEncodes(w, k, h2, 2, k, LayerOnion(h3, 1, Core(core)), LayerImage(w, h3, 0, core));
  }

  lemma {:induction false} LayerEncodes(w: Suite, k: nat, h: Hop, depth: nat, cut: nat, inner: Onion, inside: Bytes)
    requires w.Lawful() && h.Valid(w) && depth > 0 && Encodable(inner, k) && Image(w, inner, k) == inside
    requires cut == (depth - 1) * k && cut <= Written(inner) && SealsValid(inner) && ShortAddresses(inner)
    ensures var o := LayerOnion(h, depth, inner);
            && SealsValid(o) && ShortAddresses(o)
            && Encodable(o, k) && Written(o) == LAYER_LEN + Written(inner)
                && Image(w, o, k) == LayerImage(w, h, cut, inside)
  {
    var c := Crypt(h.seal, depth, inner);
    var body := CryptBody(w, h.seal, cut, inside);
    assert Encodable(c, k);
    assert Image(w, c, k) == CryptHead(w, h.seal) + body;
    assert REVERSE_MAGIC + AddrField(h.addr) + (CryptHead(w, h.seal) + body) == h.Head(w) + body;
  }

  // ---------------------------------------------------------------- one hop

  datatype Reply = Onward(buf: Bytes) | Delivered(buf: Bytes) | Refused

  /** The ranges Reverse.Handle takes of a buffer of n bytes lie inside it. */
  predicate InBounds(n: nat, k: nat)
  {
    k <= LAYER_LEN && LAYER_LEN + 2 * k <= n && LAYER_LEN - k + MAGIC_LEN <= n
  }

  /** After the shift: forward while another Reverse leads, else deliver the payload. */
  function Outcome(s: Bytes, k: nat, filler: Bytes): (r: Reply)
    requires InBounds(|s|, k) && |s| <= |filler|
  {
    var start, last := LAYER_LEN - k, LAYER_LEN + 2 * k;
    if s[start..start + 4] != REVERSE_MAGIC then Delivered(Budged(s, last, filler[..last]))
    else Onward(Budged(s, start, filler[..start]))
  }

  /** Reverse.Handle at the relay the layer is for. Ranges outside the buffer and unknown keys end the message. */
  function ReverseStep(w: Suite, buf: Bytes, k: nat, headerKey: Prv, payloadKey: Prv, noise: Bytes,
                       filler: Bytes): (r: Reply)
    requires w.Lawful() && |noise| == k && |filler| >= |buf|
  {
    if !InBounds(|buf|, k) then Refused
    else if buf[..4] != REVERSE_MAGIC || buf[25..29] != CRYPT_MAGIC then Refused
    else
      var iv, cloak, from := buf[29..45], buf[45..53], buf[53..86];
      if !w.onCurve(from) || !w.Match(cloak, w.derivePub(headerKey)) then Refused
      else Outcome(Shifted(buf, LAYER_LEN, k, w.Block(headerKey, from, iv), w.Block(payloadKey, from, iv), noise), k,
                   filler)
  }

  /** Recognise and Decode of the Reverse and the Crypt behind it. */
  method ReadLayer(s: Splice) returns (known: bool, iv: Bytes, cloak: Bytes, from: Bytes)
    requires s.b.Length >= LAYER_LEN
    modifies s`c
    ensures s.c == LAYER_LEN
    ensures var buf := s.b[..];
            && known == (buf[..4] == REVERSE_MAGIC && buf[25..29] == CRYPT_MAGIC)
            && iv == buf[29..45] && cloak == buf[45..53] && from == buf[53..86]
  {
    s.c := 0;
    var magic := s.Take(MAGIC_LEN);
    var _ := s.Take(ADDR_LEN);
    var inner := s.Take(MAGIC_LEN);
    iv := s.Take(IV_LEN);
    cloak := s.Take(CLOAK_LEN);
    from := s.Take(PUB_LEN);
    known := magic == REVERSE_MAGIC && inner == CRYPT_MAGIC;
  }

  method HandleReverse(w: Suite, s: Splice, k: nat, headerKey: Prv, payloadKey: Prv, noise: Bytes, filler: Bytes)
    returns (ghost r: Reply)
    requires w.Lawful() && |noise| == k && |filler| >= s.b.Length
    modifies s`c, s.b
    ensures r == ReverseStep(w, old(s.b[..]), k, headerKey, payloadKey, noise, filler)
    ensures s.b[..] == if r.Refused? then old(s.b[..]) else r.buf
  {
    ghost var was := s.b[..];
    r := ReverseStep(w, was, k, headerKey, payloadKey, noise, filler);
    if !InBounds(s.b.Length, k) {
      return;
    }
    var known, iv, cloak, from := ReadLayer(s);
    if !known || !w.onCurve(from) || !w.Match(cloak, w.derivePub(headerKey)) {
      return;
    }
    ShiftHeader(s.b, s.c, k, w.Block(headerKey, from, iv), w.Block(payloadKey, from, iv), noise);
    PassOn(s, k, filler);
  }

  /** The end of Reverse.Handle: the magic left in front decides how far to budge up. */
  method PassOn(s: Splice, k: nat, filler: Bytes)
    requires InBounds(s.b.Length, k) && LAYER_LEN == s.c && s.b.Length <= |filler|
    modifies s`c, s.b
    ensures s.b[..] == Outcome(old(s.b[..]), k, filler).buf
  {
    var start, last := s.c - k, s.c + 2 * k;
    assert s.b[start..start + 4] == s.b[..][start..start + 4];
    s.c := if s.b[start..start + 4] != REVERSE_MAGIC then last else start;
    s.BudgeUp(filler[..s.c]);
  }

  /** A hop whose clear layer leads the buffer recognises itself and derives the sender's streams. */
  lemma {:induction false} HopStep(w: Suite, h: Hop, buf: Bytes, k: nat, noise: Bytes, filler: Bytes)
    requires w.Lawful() && h.Valid(w) && h.Head(w) <= buf && |noise| == k && |filler| >= |buf|
    requires InBounds(|buf|, k)
    ensures ReverseStep(w, buf, k, h.headerKey, h.payloadKey, noise, filler)
         == Outcome(Shifted(buf, LAYER_LEN, k, h.HeaderStream(w), h.PayloadStream(w), noise), k, filler)
  {
    var head, crypt := h.Head(w), CryptHead(w, h.seal);
    assert buf[..86] == head;
    assert head[..4] == REVERSE_MAGIC && head[25..] == crypt;
    CryptHeadFields(w, h.seal, crypt);
    assert buf[25..86] == crypt;
    assert buf[25..29] == crypt[..4] && buf[29..45] == crypt[4..20];
    assert buf[45..53] == crypt[20..28] && buf[53..86] == crypt[28..61];
    w.CloakMatches(h.seal.blinder, h.seal.header);
  }

  /** What is no Reverse with a Crypt and a key on the curve behind it is refused. */
  lemma {:induction false} UnknownRefused(w: Suite, buf: Bytes, k: nat, headerKey: Prv, payloadKey: Prv, noise: Bytes,
                                          filler: Bytes)
    requires w.Lawful() && |noise| == k && |filler| >= |buf|
    requires |buf| < LAYER_LEN || buf[..4] != REVERSE_MAGIC || buf[25..29] != CRYPT_MAGIC || !w.onCurve(buf[53..86])
    ensures ReverseStep(w, buf, k, headerKey, payloadKey, noise, filler) == Refused
  {
  }

  /** A relay without the key leaves the layer alone. */
  lemma {:induction false} ForeignRefuses(w: Suite, h: Hop, buf: Bytes, k: nat, headerKey: Prv, payloadKey: Prv,
                                          noise: Bytes, filler: Bytes)
    requires w.Lawful() && h.Valid(w) && h.Head(w) <= buf && |noise| == k && |filler| >= |buf|
    requires var b := h.seal.blinder;
             w.sha256(b + h.seal.header)[..4] != w.sha256(b + w.derivePub(headerKey))[..4]
    ensures ReverseStep(w, buf, k, headerKey, payloadKey, noise, filler) == Refused
  {
    var crypt := CryptHead(w, h.seal);
    assert buf[..86] == h.Head(w) && h.Head(w)[25..] == crypt;
    CryptHeadFields(w, h.seal, crypt);
    assert buf[45..53] == crypt[20..28];
    w.CloakExact(h.seal.blinder, h.seal.header, w.derivePub(headerKey));
  }

  /** At its relay a layer is passed on exactly when the bytes deciphered to the front spell the magic of another one,
      and delivered otherwise; what goes to the front, and the filler behind it, follow from that. */
  lemma {:induction false} DeliveredWhen(w: Suite, h: Hop, buf: Bytes, k: nat, noise: Bytes, filler: Bytes)
    requires w.Lawful() && h.Valid(w) && h.Head(w) <= buf && |noise| == k && |filler| >= |buf| && InBounds(|buf|, k)
    requires k >= 2
    ensures var r := ReverseStep(w, buf, k, h.headerKey, h.payloadKey, noise, filler);
            var s := Shifted(buf, LAYER_LEN, k, h.HeaderStream(w), h.PayloadStream(w), noise);
            if Encipher(buf[LAYER_LEN..LAYER_LEN + 4], h.HeaderStream(w)) == REVERSE_MAGIC
            then r == Onward(s[LAYER_LEN - k..] + filler[..LAYER_LEN - k])
            else r == Delivered(s[LAYER_LEN + 2 * k..] + filler[..LAYER_LEN + 2 * k])
  {
    HopStep(w, h, buf, k, noise, filler);
    var s := Shifted(buf, LAYER_LEN, k, h.HeaderStream(w), h.PayloadStream(w), noise);
    var four := Encipher(buf[LAYER_LEN..LAYER_LEN + 4], h.HeaderStream(w));
    forall j | 0 <= j < 4
      ensures s[LAYER_LEN - k + j] == four[j]
    {
      assert s[LAYER_LEN - k + j] == Encipher(buf[LAYER_LEN..LAYER_LEN + 2 * k], h.HeaderStream(w))[j];
    }
    assert s[LAYER_LEN - k..LAYER_LEN - k + 4] == four;
  }

  // ---------------------------------------------------------------- the header over all hops

  /** The three payload encipherments of an encoded header. */
  function Wrapped(w: Suite, h1: Hop, h2: Hop, h3: Hop, core: Bytes): (r: Bytes)
    ensures |r| == |core|
  {
    Encipher(Encipher(Encipher(core, h3.PayloadStream(w)), h2.PayloadStream(w)), h1.PayloadStream(w))
  }

  /** With one layer length on both sides the cuts fall between the layers. */
  lemma {:induction false} HeaderClosedForm(w: Suite, h1: Hop, h2: Hop, h3: Hop, core: Bytes)
    requires w.Lawful() && h1.Valid(w) && h2.Valid(w) && h3.Valid(w)
    ensures HeaderImage(w, LAYER_LEN, h1, h2, h3, core)
         == h1.Head(w) + Encipher(h2.Head(w) + Encipher(h3.Head(w), h2.HeaderStream(w)), h1.HeaderStream(w))
            + Wrapped(w, h1, h2, h3, core)
  {
    var p3 := Encipher(core, h3.PayloadStream(w));
    var p2 := Encipher(p3, h2.PayloadStream(w));
    var head2 := h2.Head(w) + Encipher(h3.Head(w), h2.HeaderStream(w));
    LastLayer(w, h3, core);
    LayerSplits(w, h2, h3.Head(w), p3);
    LayerSplits(w, h1, head2, p2);
  }

  lemma {:induction false} LayerSplits(w: Suite, h: Hop, front: Bytes, rest: Bytes)
    requires w.Lawful() && h.Valid(w)
    ensures LayerImage(w, h, |front|, front + rest)
         == h.Head(w) + Encipher(front, h.HeaderStream(w)) + Encipher(rest, h.PayloadStream(w))
  {
    assert (front + rest)[..|front|] == front && (front + rest)[|front|..] == rest;
  }

  lemma {:induction false} LastLayer(w: Suite, h: Hop, core: Bytes)
    requires w.Lawful() && h.Valid(w)
    ensures LayerImage(w, h, 0, core) == h.Head(w) + Encipher(core, h.PayloadStream(w))
  {
    assert [] + core == core;
    LayerSplits(w, h, [], core);
    assert Encipher([], h.HeaderStream(w)) == [];
    assert h.Head(w) + [] == h.Head(w);
  }

  /** The buffer before a hop: its clear layer, two layers under its header key, the payload under its payload key. */
  ghost predicate AtHop(w: Suite, h: Hop, next: Bytes, payload: Bytes, buf: Bytes)
    requires w.Lawful() && h.Valid(w)
  {
    && |buf| == 3 * LAYER_LEN + |payload| && |next| <= 2 * LAYER_LEN
    && h.Head(w) <= buf
    && Encipher(next, h.HeaderStream(w)) <= buf[LAYER_LEN..]
    && buf[3 * LAYER_LEN..] == Encipher(payload, h.PayloadStream(w))
  }

  /** One hop with matching layer lengths: the layers for the next hops come forward in clear, the payload loses
      one encipherment, and the length stays. */
  lemma {:induction false} HopAdvances(w: Suite, h: Hop, next: Bytes, payload: Bytes, buf: Bytes, noise: Bytes)
    requires w.Lawful() && h.Valid(w) && AtHop(w, h, next, payload, buf) && |noise| == LAYER_LEN
    ensures var s := Shifted(buf, LAYER_LEN, LAYER_LEN, h.HeaderStream(w), h.PayloadStream(w), noise);
            && |s| == |buf| && next <= s && s[3 * LAYER_LEN..] == payload
  {
    var l := LAYER_LEN;
    var s := Shifted(buf, l, l, h.HeaderStream(w), h.PayloadStream(w), noise);
    var front := Encipher(buf[l..3 * l], h.HeaderStream(w));
    var sealed := Encipher(next, h.HeaderStream(w));
    assert sealed <= buf[l..3 * l] by {
      assert buf[l..3 * l] == buf[l..][..2 * l];
    }
    EncipherPrefix(sealed, buf[l..3 * l], h.HeaderStream(w));
    EncipherTwice(next, h.HeaderStream(w));
    EncipherTwice(payload, h.PayloadStream(w));
    assert s == front + noise + payload;
  }

  /** Three hops: after the first two the next Reverse layer leads in clear, after the third the payload is the
      plaintext, and the length never changes. */
  lemma {:induction false} HeaderTravels(w: Suite, h1: Hop, h2: Hop, h3: Hop, core: Bytes,
                                         n1: Bytes, n2: Bytes, n3: Bytes, filler: Bytes)
    requires w.Lawful() && h1.Valid(w) && h2.Valid(w) && h3.Valid(w)
    requires |n1| == |n2| == |n3| == LAYER_LEN && |filler| >= 3 * LAYER_LEN + |core|
    ensures var b0 := HeaderImage(w, LAYER_LEN, h1, h2, h3, core);
            var r1 := ReverseStep(w, b0, LAYER_LEN, h1.headerKey, h1.payloadKey, n1, filler);
            && r1.Onward? && |r1.buf| == |b0| && h2.Head(w) <= r1.buf
            && var r2 := ReverseStep(w, r1.buf, LAYER_LEN, h2.headerKey, h2.payloadKey, n2, filler);
            && r2.Onward? && |r2.buf| == |b0| && h3.Head(w) <= r2.buf
            && var r3 := ReverseStep(w, r2.buf, LAYER_LEN, h3.headerKey, h3.payloadKey, n3, filler);
            && !r3.Refused? && |r3.buf| == |b0|
            && (r3.Delivered? <==> !SpellsMagic(w, h2, h3, n1))
            && (r3.Delivered? ==> core <= r3.buf) && (r3.Onward? ==> r3.buf[3 * LAYER_LEN..] == core)
  {
    var b0 := HeaderImage(w, LAYER_LEN, h1, h2, h3, core);
    var p3 := Encipher(core, h3.PayloadStream(w));
    var p2 := Encipher(p3, h2.PayloadStream(w));
    var sealed3 := Encipher(h3.Head(w), h2.HeaderStream(w));
    HeaderStartsAtHop(w, h1, h2, h3, core);
    var b1 := Forwarded(w, h1, h2, sealed3, p2, b0, n1, filler);
    assert b1[3 * LAYER_LEN..] == p2;
    var b2 := Forwarded(w, h2, h3, [], p3, b1, n2, filler);
    HopStep(w, h3, b2, LAYER_LEN, n3, filler);
    assert Encipher([], h3.HeaderStream(w)) == [];
    HopAdvances(w, h3, [], core, b2, n3);
    LastHopDelivers(w, h1, h2, h3, b0, b1, b2, n1, n2, n3, filler);
  }

  /** The first padding, deciphered by the second and the third hop, happens to spell the magic of a layer. */
  ghost predicate SpellsMagic(w: Suite, h2: Hop, h3: Hop, n1: Bytes)
    requires |n1| == LAYER_LEN
  {
    forall j :: 0 <= j < 4 ==>
      Xor(Xor(n1[j], h2.HeaderStream(w)(LAYER_LEN + j)), h3.HeaderStream(w)(j)) == REVERSE_MAGIC[j]
  }

  /** What the third hop finds behind its layer is the first padding under the key of the second hop. */
  lemma {:induction false} PaddingArrives(w: Suite, h1: Hop, h2: Hop, b0: Bytes, b1: Bytes, b2: Bytes, n1: Bytes,
                                          n2: Bytes, filler: Bytes, j: nat)
    requires w.Lawful() && h1.Valid(w) && h2.Valid(w) && |n1| == |n2| == LAYER_LEN && j < LAYER_LEN
    requires h1.Head(w) <= b0 && h2.Head(w) <= b1 && InBounds(|b0|, LAYER_LEN) && |b1| == |b0| <= |filler|
    requires ReverseStep(w, b0, LAYER_LEN, h1.headerKey, h1.payloadKey, n1, filler) == Onward(b1)
    requires ReverseStep(w, b1, LAYER_LEN, h2.headerKey, h2.payloadKey, n2, filler) == Onward(b2)
    ensures |b2| == |b0| && b2[LAYER_LEN + j] == Xor(n1[j], h2.HeaderStream(w)(LAYER_LEN + j))
  {
    OnwardByte(w, h1, b0, LAYER_LEN, n1, filler, 2 * LAYER_LEN + j);
    OnwardByte(w, h2, b1, LAYER_LEN, n2, filler, LAYER_LEN + j);
  }

  lemma {:induction false} LastHopDelivers(w: Suite, h1: Hop, h2: Hop, h3: Hop, b0: Bytes, b1: Bytes, b2: Bytes,
                                           n1: Bytes, n2: Bytes, n3: Bytes, filler: Bytes)
    requires w.Lawful() && h1.Valid(w) && h2.Valid(w) && h3.Valid(w) && |n1| == |n2| == |n3| == LAYER_LEN
    requires h1.Head(w) <= b0 && h2.Head(w) <= b1 && h3.Head(w) <= b2
    requires InBounds(|b0|, LAYER_LEN) && |b1| == |b2| == |b0| <= |filler|
    requires ReverseStep(w, b0, LAYER_LEN, h1.headerKey, h1.payloadKey, n1, filler) == Onward(b1)
    requires ReverseStep(w, b1, LAYER_LEN, h2.headerKey, h2.payloadKey, n2, filler) == Onward(b2)
    ensures ReverseStep(w, b2, LAYER_LEN, h3.headerKey, h3.payloadKey, n3, filler).Delivered?
            <==> !SpellsMagic(w, h2, h3, n1)
  {
    var l := LAYER_LEN;
    DeliveredWhen(w, h3, b2, l, n3, filler);
    var four := Encipher(b2[l..l + 4], h3.HeaderStream(w));
    forall j | 0 <= j < 4
      ensures four[j] == Xor(Xor(n1[j], h2.HeaderStream(w)(l + j)), h3.HeaderStream(w)(j))
    {
      PaddingArrives(w, h1, h2, b0, b1, b2, n1, n2, filler, j);
    }
    assert four == REVERSE_MAGIC <==> forall j :: 0 <= j < 4 ==> four[j] == REVERSE_MAGIC[j];
  }

  lemma {:induction false} HeaderStartsAtHop(w: Suite, h1: Hop, h2: Hop, h3: Hop, core: Bytes)
    requires w.Lawful() && h1.Valid(w) && h2.Valid(w) && h3.Valid(w)
    ensures var next := h2.Head(w) + Encipher(h3.Head(w), h2.HeaderStream(w));
            var payload := Encipher(Encipher(core, h3.PayloadStream(w)), h2.PayloadStream(w));
            AtHop(w, h1, next, payload, HeaderImage(w, LAYER_LEN, h1, h2, h3, core))
  {
    HeaderClosedForm(w, h1, h2, h3, core);
  }

  /** A hop with another layer behind it forwards, and the next hop finds the buffer in the same shape. */
  lemma {:induction false} Forwarded(w: Suite, h: Hop, g: Hop, sealed: Bytes, payload: Bytes, buf: Bytes,
                                     noise: Bytes, filler: Bytes)
    returns (out: Bytes)
    requires w.Lawful() && h.Valid(w) && g.Valid(w) && |sealed| <= LAYER_LEN
    requires AtHop(w, h, g.Head(w) + sealed, payload, buf) && |noise| == LAYER_LEN && |filler| >= |buf|
    ensures ReverseStep(w, buf, LAYER_LEN, h.headerKey, h.payloadKey, noise, filler) == Onward(out)
    ensures |out| == |buf| && g.Head(w) + sealed <= out && out[3 * LAYER_LEN..] == payload
    ensures g.Head(w) <= out && sealed <= out[LAYER_LEN..]
  {
    HopStep(w, h, buf, LAYER_LEN, noise, filler);
    HopAdvances(w, h, g.Head(w) + sealed, payload, buf, noise);
    out := Shifted(buf, LAYER_LEN, LAYER_LEN, h.HeaderStream(w), h.PayloadStream(w), noise);
    assert g.Head(w)[..4] == REVERSE_MAGIC;
    var front := g.Head(w) + sealed;
    assert out[..|front|] == front;
    assert out[..LAYER_LEN] == front[..LAYER_LEN] == g.Head(w);
    assert out[0..4] == g.Head(w)[..4];
    assert out[LAYER_LEN..][..|sealed|] == front[LAYER_LEN..];
    assert out[0..] + filler[..0] == out;
  }

  // ---------------------------------------------------------------- replies

  /** hidden.FormatReply: header bytes in front, the response under the three ciphers in turn. */
  method FormatReply(w: Suite, header: Bytes, ciphers: seq<Bytes>, nonces: seq<Bytes>,
                     res: Bytes) returns (rb: array<byte>)
    requires |ciphers| == |nonces| == 3
    ensures fresh(rb)
    ensures rb[..] == header + ReplyPayload(w, ciphers, nonces, res)
  {
    var rl := |header|;
    rb := new byte[rl + |res|];
    CopyInto(rb, 0, header);
    CopyInto(rb, rl, res);
    ghost var done := res;
    assert rb[..rl] == header && rb[rl..rb.Length] == res;
    for i := 0 to 3
      invariant rb[..rl] == header && rb[rl..rb.Length] == done && |done| == |res|
      invariant done == ReplyUpTo(w, ciphers, nonces, res, i)
    {
      EncipherRange(rb, rl, rb.Length, w.keystream(ciphers[i], nonces[i]));
      done := Encipher(done, w.keystream(ciphers[i], nonces[i]));
    }
    assert rb[..] == rb[..rl] + rb[rl..rb.Length];
  }

  function ReplyUpTo(w: Suite, ciphers: seq<Bytes>, nonces: seq<Bytes>, res: Bytes, i: nat): (r: Bytes)
    requires i <= |ciphers| && i <= |nonces|
  {
    if i == 0 then res else Encipher(ReplyUpTo(w, ciphers, nonces, res, i - 1),
                                     w.keystream(ciphers[i - 1], nonces[i - 1]))
  }

  function ReplyPayload(w: Suite, ciphers: seq<Bytes>, nonces: seq<Bytes>, res: Bytes): (r: Bytes)
    requires |ciphers| == |nonces| == 3
  {
    ReplyUpTo(w, ciphers, nonces, res, 3)
  }

  /** crypto.GenCiphers for the hops of a header. */
  function Ciphers(w: Suite, h1: Hop, h2: Hop, h3: Hop): (r: seq<Bytes>)
  {
    [w.sharedSecret(h1.seal.from, h1.seal.payload), w.sharedSecret(h2.seal.from, h2.seal.payload),
     w.sharedSecret(h3.seal.from, h3.seal.payload)]
  }

  /** Replying through the header cut from any message gives the same bytes as encoding the reply under it: the
      responder applies the ciphers in hop order, the encoder in reverse, and the keystreams commute. */
  lemma {:induction false} ReplyIsHeader(w: Suite, h1: Hop, h2: Hop, h3: Hop, any: Bytes, res: Bytes)
    requires w.Lawful() && h1.Valid(w) && h2.Valid(w) && h3.Valid(w)
    ensures var header := HeaderImage(w, LAYER_LEN, h1, h2, h3, any)[..3 * LAYER_LEN];
            header + ReplyPayload(w, Ciphers(w, h1, h2, h3), [h1.seal.iv, h2.seal.iv, h3.seal.iv], res)
            == HeaderImage(w, LAYER_LEN, h1, h2, h3, res)
  {
    HeaderClosedForm(w, h1, h2, h3, any);
    HeaderClosedForm(w, h1, h2, h3, res);
    var p1, p2, p3 := h1.PayloadStream(w), h2.PayloadStream(w), h3.PayloadStream(w);
    ReplyPayloadIs(w, h1, h2, h3, res);
    EncipherSwap(Encipher(res, p1), p2, p3);
    EncipherSwap(res, p1, p3);
    EncipherSwap(Encipher(res, p3), p1, p2);
    var head := h1.Head(w) + Encipher(h2.Head(w) + Encipher(h3.Head(w), h2.HeaderStream(w)), h1.HeaderStream(w));
    assert (head + Wrapped(w, h1, h2, h3, any))[..3 * LAYER_LEN] == head;
  }

  lemma {:induction false} ReplyPayloadIs(w: Suite, h1: Hop, h2: Hop, h3: Hop, res: Bytes)
    ensures ReplyPayload(w, Ciphers(w, h1, h2, h3), [h1.seal.iv, h2.seal.iv, h3.seal.iv], res)
         == Encipher(Encipher(Encipher(res, h1.PayloadStream(w)), h2.PayloadStream(w)), h3.PayloadStream(w))
  {
    var c, n := Ciphers(w, h1, h2, h3), [h1.seal.iv, h2.seal.iv, h3.seal.iv];
    assert ReplyUpTo(w, c, n, res, 1) == Encipher(res, h1.PayloadStream(w));
    assert ReplyUpTo(w, c, n, res, 2) == Encipher(Encipher(res, h1.PayloadStream(w)), h2.PayloadStream(w));
  }

  // ---------------------------------------------------------------- the whole way of a message

  /** The three relays of a header, one after the other, on one buffer. */
  method ThreeHops(w: Suite, s: Splice, h1: Hop, h2: Hop, h3: Hop, n1: Bytes, n2: Bytes, n3: Bytes, filler: Bytes,
                   ghost core: Bytes)
    returns (ghost last: Reply)
    requires w.Lawful() && h1.Valid(w) && h2.Valid(w) && h3.Valid(w)
    requires |n1| == |n2| == |n3| == LAYER_LEN && |filler| >= 3 * LAYER_LEN + |core|
    requires s.b[..] == HeaderImage(w, LAYER_LEN, h1, h2, h3, core)
    modifies s`c, s.b
    ensures !last.Refused? && s.b[..] == last.buf && (last.Delivered? <==> !SpellsMagic(w, h2, h3, n1))
    ensures last.Delivered? ==> core <= s.b[..]
    ensures last.Onward? ==> s.b.Length >= 3 * LAYER_LEN && s.b[3 * LAYER_LEN..] == core
  {
    HeaderTravels(w, h1, h2, h3, core, n1, n2, n3, filler);
    ghost var r1 := HandleReverse(w, s, LAYER_LEN, h1.headerKey, h1.payloadKey, n1, filler);
    ghost var r2 := HandleReverse(w, s, LAYER_LEN, h2.headerKey, h2.payloadKey, n2, filler);
    last := HandleReverse(w, s, LAYER_LEN, h3.headerKey, h3.payloadKey, n3, filler);
    assert s.b[..][3 * LAYER_LEN..] == s.b[3 * LAYER_LEN..];
  }

  /** Encode a header over a message and send it through its three relays; the message comes out. */
  method SendThrough(w: Suite, h1: Hop, h2: Hop, h3: Hop, core: Bytes, n1: Bytes, n2: Bytes, n3: Bytes, filler: Bytes)
    returns (buf: Bytes, ghost last: Reply)
    requires w.Lawful() && h1.Valid(w) && h2.Valid(w) && h3.Valid(w)
    requires |n1| == |n2| == |n3| == LAYER_LEN && |filler| >= 3 * LAYER_LEN + |core|
    ensures |buf| == 3 * LAYER_LEN + |core| && !last.Refused? && (last.Delivered? <==> !SpellsMagic(w, h2, h3, n1))
    ensures if SpellsMagic(w, h2, h3, n1) then buf[3 * LAYER_LEN..] == core else core <= buf
  {
    HeaderEncodes(w, LAYER_LEN, h1, h2, h3, core);
    var encoded := EncodeMessage(w, HeaderOnion(h1, h2, h3, Core(core)), LAYER_LEN);
    var s := encoded.value;
    last := ThreeHops(w, s, h1, h2, h3, n1, n2, n3, filler, core);
    buf := s.b[..];
  }

  /** Cut the header off a message, put a reply behind it, and send that through; the reply comes out. */
  method ReplyThrough(w: Suite, h1: Hop, h2: Hop, h3: Hop, header: Bytes, ghost any: Bytes, res: Bytes,
                      n1: Bytes, n2: Bytes, n3: Bytes, filler: Bytes)
    returns (buf: Bytes, ghost last: Reply)
    requires w.Lawful() && h1.Valid(w) && h2.Valid(w) && h3.Valid(w)
    requires header == HeaderImage(w, LAYER_LEN, h1, h2, h3, any)[..3 * LAYER_LEN]
    requires |n1| == |n2| == |n3| == LAYER_LEN && |filler| >= 3 * LAYER_LEN + |res|
    ensures |buf| == 3 * LAYER_LEN + |res| && !last.Refused? && (last.Delivered? <==> !SpellsMagic(w, h2, h3, n1))
    ensures if SpellsMagic(w, h2, h3, n1) then buf[3 * LAYER_LEN..] == res else res <= buf
  {
    ReplyIsHeader(w, h1, h2, h3, any, res);
    var rb := FormatReply(w, header, Ciphers(w, h1, h2, h3), [h1.seal.iv, h2.seal.iv, h3.seal.iv], res);
    var s := new Splice.From(rb);
    last := ThreeHops(w, s, h1, h2, h3, n1, n2, n3, filler, res);
    buf := s.b[..];
  }

  // ---------------------------------------------------------------- when the two lengths disagree

  lemma {:induction false} ShiftParts(a: Bytes, b: Bytes, c: Bytes, k: nat, header: nat -> byte, payload: nat -> byte,
                                      noise: Bytes)
    requires k <= |a| && |b| == 2 * k && |noise| == k
    ensures Shifted(a + b + c, |a|, k, header, payload, noise)
         == a[..|a| - k] + (Encipher(b, header) + (noise + Encipher(c, payload)))
  {
    assert (a + b + c)[|a|..|a| + 2 * k] == b && (a + b + c)[|a| + 2 * k..] == c;
    assert (a + b + c)[..|a| - k] == a[..|a| - k];
  }

  lemma {:induction false} ShiftOfLayer(w: Suite, h: Hop, k: nat, front: Bytes, rest: Bytes, noise: Bytes)
    requires w.Lawful() && h.Valid(w) && k <= LAYER_LEN && |front| == 2 * k && |noise| == k
    ensures Shifted(LayerImage(w, h, 2 * k, front + rest), LAYER_LEN, k, h.HeaderStream(w), h.PayloadStream(w), noise)
         == h.Head(w)[..LAYER_LEN - k] + (front + (noise + rest))
  {
    LayerSplits(w, h, front, rest);
    ShiftParts(h.Head(w), Encipher(front, h.HeaderStream(w)), Encipher(rest, h.PayloadStream(w)), k,
               h.HeaderStream(w), h.PayloadStream(w), noise);
    EncipherTwice(front, h.HeaderStream(w));
    EncipherTwice(rest, h.PayloadStream(w));
  }

  lemma {:induction false} OutcomeFront(p: Bytes, q: Bytes, k: nat, filler: Bytes)
    requires InBounds(|p + q|, k) && |p + q| <= |filler|
    requires |p| == LAYER_LEN - k && q[..4] == REVERSE_MAGIC
    ensures Outcome(p + q, k, filler) == Onward(q + filler[..LAYER_LEN - k])
  {
    assert (p + q)[|p|..] == q && (p + q)[|p|..|p| + 4] == q[..4];
  }

  /** The buffer after the first hop, for any constant k: 2k bytes moved forward, then noise. */
  lemma {:induction false} FirstHop(w: Suite, k: nat, h1: Hop, front: Bytes, rest: Bytes, noise: Bytes, filler: Bytes)
    requires w.Lawful() && h1.Valid(w) && MAGIC_LEN <= k <= LAYER_LEN && |front| == 2 * k && |noise| == k
    requires front[..4] == REVERSE_MAGIC && |filler| >= LAYER_LEN + |front| + |rest|
    ensures ReverseStep(w, LayerImage(w, h1, 2 * k, front + rest), k, h1.headerKey, h1.payloadKey, noise, filler)
         == Onward((front + (noise + rest)) + filler[..LAYER_LEN - k])
  {
    HopStep(w, h1, LayerImage(w, h1, 2 * k, front + rest), k, noise, filler);
    ShiftOfLayer(w, h1, k, front, rest, noise);
    OutcomeFront(h1.Head(w)[..LAYER_LEN - k], front + (noise + rest), k, filler);
  }

  /** What Handle moves to the front, byte by byte: two deciphered layers, then padding. */
  lemma {:induction false} ShiftedByte(buf: Bytes, k: nat, header: nat -> byte, payload: nat -> byte, noise: Bytes,
                                       j: nat)
    requires k <= LAYER_LEN && LAYER_LEN + 2 * k <= |buf| && |noise| == k && j < 3 * k
    ensures Shifted(buf, LAYER_LEN, k, header, payload, noise)[LAYER_LEN - k + j]
         == if j < 2 * k then Xor(buf[LAYER_LEN + j], header(j)) else noise[j - 2 * k]
  {
  }

  /** What the next hop finds in front, byte by byte. */
  lemma {:induction false} OnwardByte(w: Suite, h: Hop, buf: Bytes, k: nat, noise: Bytes, filler: Bytes, j: nat)
    requires w.Lawful() && h.Valid(w) && h.Head(w) <= buf && |noise| == k && |filler| >= |buf| && InBounds(|buf|, k)
    requires j < 3 * k
    ensures var r := ReverseStep(w, buf, k, h.headerKey, h.payloadKey, noise, filler);
            r.Onward? ==> && |r.buf| == |buf|
                          && r.buf[j] == if j < 2 * k then Xor(buf[LAYER_LEN + j], h.HeaderStream(w)(j))
                              else noise[j - 2 * k]
  {
    HopStep(w, h, buf, k, noise, filler);
    ShiftedByte(buf, k, h.HeaderStream(w), h.PayloadStream(w), noise, j);
  }

  /** A hop whose next layer has its magic inside the two deciphered layers passes it on. */
  lemma {:induction false} MagicLeads(w: Suite, h: Hop, after: Bytes, buf: Bytes, k: nat, noise: Bytes, filler: Bytes)
    requires w.Lawful() && h.Valid(w) && h.Head(w) <= buf && |noise| == k && |filler| >= |buf| && InBounds(|buf|, k)
    requires k >= MAGIC_LEN && |after| >= 4 && after[..4] == REVERSE_MAGIC
    requires buf[LAYER_LEN..LAYER_LEN + 4] == Encipher(after[..4], h.HeaderStream(w))
    ensures ReverseStep(w, buf, k, h.headerKey, h.payloadKey, noise, filler).Onward?
  {
    var l, stream := LAYER_LEN, h.HeaderStream(w);
    var s := Shifted(buf, l, k, stream, h.PayloadStream(w), noise);
    HopStep(w, h, buf, k, noise, filler);
    forall j | 0 <= j < 4
      ensures s[l - k + j] == REVERSE_MAGIC[j]
    {
      ShiftedByte(buf, k, stream, h.PayloadStream(w), noise, j);
      XorTwice(after[..4][j], stream(j));
      assert buf[l + j] == buf[l..l + 4][j];
    }
    assert s[l - k..l - k + 4] == REVERSE_MAGIC;
  }

  /** The second hop turns the first noise byte into a byte of the third layer. */
  lemma {:induction false} SecondHop(w: Suite, k: nat, h2: Hop, after: Bytes, b1: Bytes, n1: byte, noise: Bytes,
                                     filler: Bytes)
    requires w.Lawful() && h2.Valid(w) && 45 <= k < LAYER_LEN && |noise| == k && |filler| >= |b1|
    requires |b1| >= LAYER_LEN + 2 * k && h2.Head(w) <= b1 && b1[2 * k] == n1
    requires |after| >= LAYER_LEN && after[..4] == REVERSE_MAGIC
    requires b1[LAYER_LEN..LAYER_LEN + 4] == Encipher(after[..4], h2.HeaderStream(w))
    ensures var r := ReverseStep(w, b1, k, h2.headerKey, h2.payloadKey, noise, filler);
            && r.Onward? && |r.buf| == |b1|
            && r.buf[2 * k - LAYER_LEN] == Xor(n1, h2.HeaderStream(w)(2 * k - LAYER_LEN))
  {
    MagicLeads(w, h2, after, b1, k, noise, filler);
    OnwardByte(w, h2, b1, k, noise, filler, 2 * k - LAYER_LEN);
  }

  /** The first two hops in a row. */
  function TwoHops(w: Suite, k: nat, h1: Hop, h2: Hop, buf: Bytes, n1: Bytes, n2: Bytes, filler: Bytes): (r: Reply)
    requires w.Lawful() && |n1| == |n2| == k && |filler| >= |buf|
  {
    var r1 := ReverseStep(w, buf, k, h1.headerKey, h1.payloadKey, n1, filler);
    if r1.Onward? then ReverseStep(w, r1.buf, k, h2.headerKey, h2.payloadKey, n2, filler) else r1
  }

  /** With a constant shorter than the layers Encode writes, some padding noise damages the third layer of any
      header. The repository's constant is one of these. */
  lemma {:induction false} HeaderBreaks(w: Suite, k: nat, h1: Hop, h2: Hop, h3: Hop, core: Bytes, n2: Bytes,
                                        filler: Bytes)
    returns (n1: Bytes)
    requires w.Lawful() && h1.Valid(w) && h2.Valid(w) && h3.Valid(w)
    requires 45 <= k < LAYER_LEN && |n2| == k && |filler| >= 3 * LAYER_LEN + |core|
    ensures |n1| == k
    ensures var r := TwoHops(w, k, h1, h2, HeaderImage(w, k, h1, h2, h3, core), n1, n2, filler);
            r.Onward? && |r.buf| >= LAYER_LEN && r.buf[2 * k - LAYER_LEN] != h3.Head(w)[2 * k - LAYER_LEN]
    ensures 45 <= REVERSE_CRYPT_LEN < LAYER_LEN
  {
    var at := 2 * k - LAYER_LEN;
    var after := LayerImage(w, h3, 0, core);
    var inside := LayerImage(w, h2, k, after);
    assert after[..4] == h3.Head(w)[..4] == REVERSE_MAGIC;
    BrokenFront(w, k, h2, after, inside);
    var byte := OtherByte(h2.HeaderStream(w)(at), h3.Head(w)[at]);
    n1 := seq(k, _ => byte);
    NoiseReaches(w, k, h1, h2, inside, after, n1, n2, filler);
  }

  lemma {:induction false} OtherByte(stream: byte, target: byte) returns (b: byte)
    ensures Xor(b, stream) != target
  {
    var zero: byte := 0;
    var one: byte := 1;
    XorTwice(zero, stream);
    XorTwice(one, stream);
    b := if Xor(zero, stream) != target then zero else one;
  }

  lemma {:induction false} NoiseReaches(w: Suite, k: nat, h1: Hop, h2: Hop, inside: Bytes, after: Bytes,
                                        n1: Bytes, n2: Bytes, filler: Bytes)
    requires w.Lawful() && h1.Valid(w) && h2.Valid(w) && 45 <= k < LAYER_LEN && |n1| == |n2| == k
    requires |inside| >= 2 * LAYER_LEN && |after| >= LAYER_LEN && |filler| >= LAYER_LEN + |inside|
    requires h2.Head(w) <= inside[..2 * k] && inside[..2 * k][..4] == REVERSE_MAGIC == after[..4]
    requires inside[..2 * k][LAYER_LEN..LAYER_LEN + 4] == Encipher(after[..4], h2.HeaderStream(w))
    ensures var r := TwoHops(w, k, h1, h2, LayerImage(w, h1, 2 * k, inside), n1, n2, filler);
            && r.Onward? && |r.buf| >= LAYER_LEN
            && r.buf[2 * k - LAYER_LEN] == Xor(n1[0], h2.HeaderStream(w)(2 * k - LAYER_LEN))
  {
    var front, rest := inside[..2 * k], inside[2 * k..];
    assert inside == front + rest;
    FirstHop(w, k, h1, front, rest, n1, filler);
    var b1 := (front + (n1 + rest)) + filler[..LAYER_LEN - k];
    FrontOf(h2.Head(w), front, n1 + rest, filler[..LAYER_LEN - k]);
    SecondHop(w, k, h2, after, b1, n1[0], n2, filler);
  }

  lemma {:induction false} FrontOf(head: Bytes, front: Bytes, rest: Bytes, end: Bytes)
    requires head <= front && |front| >= LAYER_LEN + 4 && rest != []
    ensures var b1 := (front + rest) + end;
            head <= b1 && b1[|front|] == rest[0] && b1[LAYER_LEN..LAYER_LEN + 4] == front[LAYER_LEN..LAYER_LEN + 4]
  {
  }

  lemma {:induction false} BrokenFront(w: Suite, k: nat, h2: Hop, after: Bytes, inside: Bytes)
    requires w.Lawful() && h2.Valid(w) && 45 <= k < LAYER_LEN <= |after| && inside == LayerImage(w, h2, k, after)
    ensures h2.Head(w) <= inside[..2 * k] && inside[..2 * k][..4] == REVERSE_MAGIC
    ensures inside[..2 * k][LAYER_LEN..LAYER_LEN + 4] == Encipher(after[..4], h2.HeaderStream(w))
  {
    var body := CryptBody(w, h2.seal, k, after);
    assert body[..4] == Encipher(after[..4], h2.HeaderStream(w)) by {
      assert after[..k][..4] == after[..4];
      EncipherPrefix(after[..4], after[..k], h2.HeaderStream(w));
    }
    assert h2.Head(w)[..4] == REVERSE_MAGIC;
    FrontBytes(h2.Head(w), body, 2 * k);
  }

  lemma {:induction false} FrontBytes(head: Bytes, body: Bytes, n: nat)
    requires |head| == LAYER_LEN && LAYER_LEN + 4 <= n <= |head + body|
    ensures head <= (head + body)[..n] && (head + body)[..n][..4] == head[..4]
    ensures (head + body)[..n][LAYER_LEN..LAYER_LEN + 4] == body[..4]
  {
  }

  /** After the first hop the second layer leads in clear, after the second hop the third. */
  ghost predicate LayersLead(w: Suite, k: nat, h1: Hop, h2: Hop, h3: Hop, buf: Bytes, n1: Bytes, n2: Bytes,
                             filler: Bytes)
    requires w.Lawful() && h2.Valid(w) && h3.Valid(w) && |n1| == |n2| == k && |filler| >= |buf|
  {
    var r1 := ReverseStep(w, buf, k, h1.headerKey, h1.payloadKey, n1, filler);
    && r1.Onward? && h2.Head(w) <= r1.buf && |r1.buf| <= |filler|
    && var r2 := ReverseStep(w, r1.buf, k, h2.headerKey, h2.payloadKey, n2, filler);
    r2.Onward? && h3.Head(w) <= r2.buf
  }

  /** What comes out of the last hop holds the message where the handler looks for it. */
  ghost predicate Out(r: Reply, k: nat, core: Bytes)
  {
    && !r.Refused?
    && (r.Delivered? ==> core <= r.buf)
    && (r.Onward? ==> 3 * k <= |r.buf| && core <= r.buf[3 * k..])
  }

  /** The layers lead forward, and the third hop brings the message out. */
  ghost predicate MessageOut(w: Suite, k: nat, h1: Hop, h2: Hop, h3: Hop, buf: Bytes, n1: Bytes, n2: Bytes, n3: Bytes,
                             filler: Bytes, core: Bytes)
    requires w.Lawful() && h2.Valid(w) && h3.Valid(w) && |n1| == |n2| == |n3| == k && |filler| >= |buf|
  {
    && LayersLead(w, k, h1, h2, h3, buf, n1, n2, filler)
    && var r2 := TwoHops(w, k, h1, h2, buf, n1, n2, filler);
    |r2.buf| <= |filler| && Out(ReverseStep(w, r2.buf, k, h3.headerKey, h3.payloadKey, n3, filler), k, core)
  }

  /** A message under the header encoded with layer constant k comes out whatever the padding. */
  ghost predicate Works(w: Suite, k: nat, h1: Hop, h2: Hop, h3: Hop, core: Bytes)
    requires w.Lawful() && h2.Valid(w) && h3.Valid(w)
  {
    var o := HeaderOnion(h1, h2, h3, Core(core));
    && Encodable(o, k)
    && forall n1: Bytes, n2: Bytes, n3: Bytes, filler: Bytes ::
         |n1| == |n2| == |n3| == k && |filler| >= Written(o) ==>
           MessageOut(w, k, h1, h2, h3, Image(w, o, k), n1, n2, n3, filler, core)
  }

  /** Padding stands behind the two deciphered layers, whatever was in the buffer. */
  lemma {:induction false} PaddingByte(w: Suite, headerKey: Prv, payloadKey: Prv, buf: Bytes, k: nat, noise: Bytes,
                                       filler: Bytes)
    requires w.Lawful() && |noise| == k > 0 && |filler| >= |buf|
    ensures var r := ReverseStep(w, buf, k, headerKey, payloadKey, noise, filler);
            r.Onward? ==> InBounds(|buf|, k) && |r.buf| == |buf| && r.buf[2 * k] == noise[0]
  {
    if InBounds(|buf|, k) {
      var iv, from := buf[29..45], buf[53..86];
      ShiftedByte(buf, k, w.Block(headerKey, from, iv), w.Block(payloadKey, from, iv), noise, 2 * k);
    }
  }

  /** Where padding shows, whatever is sent: in the second layer after one hop if it is longer than two constants, else
      in the third after two hops. */
  lemma {:induction false} SomePaddingBreaks(w: Suite, k: nat, h1: Hop, h2: Hop, h3: Hop, b0: Bytes, filler: Bytes)
    returns (n1: Bytes)
    requires w.Lawful() && h2.Valid(w) && h3.Valid(w) && 0 < k < LAYER_LEN && |filler| >= |b0|
    ensures |n1| == k && !LayersLead(w, k, h1, h2, h3, b0, n1, n1, filler)
  {
    var at := 2 * k - LAYER_LEN;
    var bad: byte;
    if at < 0 {
      bad := if h2.Head(w)[2 * k] == 0 then 1 else 0;
    } else {
      bad := OtherByte(h2.HeaderStream(w)(at), h3.Head(w)[at]);
    }
    n1 := seq(k, _ => bad);
    PaddingByte(w, h1.headerKey, h1.payloadKey, b0, k, n1, filler);
    var r1 := ReverseStep(w, b0, k, h1.headerKey, h1.payloadKey, n1, filler);
    if r1.Onward? && h2.Head(w) <= r1.buf && at >= 0 {
      OnwardByte(w, h2, r1.buf, k, n1, filler, at);
    }
  }

  /** A hop under constant 0, where everything behind its layer is under the payload key. */
  lemma {:induction false} ZeroHop(w: Suite, h: Hop, inside: Bytes, buf: Bytes, filler: Bytes)
    requires w.Lawful() && h.Valid(w) && |inside| >= 4 && inside[..4] == REVERSE_MAGIC
    requires h.Head(w) + Encipher(inside, h.PayloadStream(w)) <= buf && |filler| >= |buf|
    ensures var r := ReverseStep(w, buf, 0, h.headerKey, h.payloadKey, [], filler);
            r.Onward? && |r.buf| == |buf| && inside <= r.buf
  {
    var head, stream := h.Head(w), h.PayloadStream(w);
    var sealed := Encipher(inside, stream);
    var y := Encipher(buf[LAYER_LEN..], stream);
    assert head <= buf && sealed <= buf[LAYER_LEN..] by {
      assert buf[..LAYER_LEN] == head && buf[LAYER_LEN..][..|sealed|] == sealed;
    }
    HopStep(w, h, buf, 0, [], filler);
    EncipherPrefix(sealed, buf[LAYER_LEN..], stream);
    EncipherTwice(inside, stream);
    ZeroShift(buf, h.HeaderStream(w), stream);
    assert y[..4] == inside[..4];
    OutcomeFront(buf[..LAYER_LEN], y, 0, filler);
  }

  lemma {:induction false} ZeroShift(buf: Bytes, header: nat -> byte, payload: nat -> byte)
    requires |buf| >= LAYER_LEN
    ensures Shifted(buf, LAYER_LEN, 0, header, payload, []) == buf[..LAYER_LEN] + Encipher(buf[LAYER_LEN..], payload)
  {
    assert buf[LAYER_LEN..LAYER_LEN] == [];
  }

  lemma {:induction false} ZeroHopTo(w: Suite, h: Hop, g: Hop, rest: Bytes, buf: Bytes, filler: Bytes)
    requires w.Lawful() && h.Valid(w) && g.Valid(w) && |filler| >= |buf|
    requires LayerImage(w, h, 0, LayerImage(w, g, 0, rest)) <= buf
    ensures var r := ReverseStep(w, buf, 0, h.headerKey, h.payloadKey, [], filler);
            r.Onward? && |r.buf| == |buf| && LayerImage(w, g, 0, rest) <= r.buf && g.Head(w) <= r.buf
  {
    var inside := LayerImage(w, g, 0, rest);
    LastLayer(w, h, inside);
    assert g.Head(w) <= inside && inside[..4] == g.Head(w)[..4] == REVERSE_MAGIC;
    ZeroHop(w, h, inside, buf, filler);
  }

  /** The last hop under constant 0. */
  lemma {:induction false} ZeroEnd(w: Suite, h: Hop, core: Bytes, buf: Bytes, filler: Bytes)
    requires w.Lawful() && h.Valid(w) && LayerImage(w, h, 0, core) <= buf && |buf| >= LAYER_LEN + 4 && |filler| >= |buf|
    ensures Out(ReverseStep(w, buf, 0, h.headerKey, h.payloadKey, [], filler), 0, core)
  {
    var stream := h.PayloadStream(w);
    var sealed, y := Encipher(core, stream), Encipher(buf[LAYER_LEN..], stream);
    LastLayer(w, h, core);
    assert h.Head(w) <= buf && sealed <= buf[LAYER_LEN..] by {
      assert buf[..LAYER_LEN] == h.Head(w) && buf[LAYER_LEN..][..|sealed|] == sealed;
    }
    HopStep(w, h, buf, 0, [], filler);
    EncipherPrefix(sealed, buf[LAYER_LEN..], stream);
    EncipherTwice(core, stream);
    ZeroShift(buf, h.HeaderStream(w), stream);
    ZeroBudge(buf[..LAYER_LEN], y, filler[..LAYER_LEN]);
    assert core <= y + filler[..LAYER_LEN];
  }

  lemma {:induction false} ZeroBudge(head: Bytes, y: Bytes, filler: Bytes)
    requires |head| == |filler| == LAYER_LEN
    ensures Budged(head + y, LAYER_LEN, filler) == y + filler && (y + filler)[0..] == y + filler
  {
    assert (head + y)[LAYER_LEN..] == y;
  }

  lemma {:induction false} ZeroWorks(w: Suite, h1: Hop, h2: Hop, h3: Hop, core: Bytes, filler: Bytes)
    requires w.Lawful() && h1.Valid(w) && h2.Valid(w) && h3.Valid(w) && |filler| >= 3 * LAYER_LEN + |core|
    ensures MessageOut(w, 0, h1, h2, h3, HeaderImage(w, 0, h1, h2, h3, core), [], [], [], filler, core)
  {
    var b0 := HeaderImage(w, 0, h1, h2, h3, core);
    ZeroHopTo(w, h1, h2, LayerImage(w, h3, 0, core), b0, filler);
    var r1 := ReverseStep(w, b0, 0, h1.headerKey, h1.payloadKey, [], filler);
    ZeroHopTo(w, h2, h3, core, r1.buf, filler);
    var r2 := ReverseStep(w, r1.buf, 0, h2.headerKey, h2.payloadKey, [], filler);
    ZeroEnd(w, h3, core, r2.buf, filler);
  }

  lemma {:induction false} FullWorks(w: Suite, h1: Hop, h2: Hop, h3: Hop, core: Bytes, n1: Bytes, n2: Bytes, n3: Bytes,
                                     filler: Bytes)
    requires w.Lawful() && h1.Valid(w) && h2.Valid(w) && h3.Valid(w)
    requires |n1| == |n2| == |n3| == LAYER_LEN && |filler| >= 3 * LAYER_LEN + |core|
    ensures MessageOut(w, LAYER_LEN, h1, h2, h3, HeaderImage(w, LAYER_LEN, h1, h2, h3, core), n1, n2, n3, filler, core)
  {
    HeaderTravels(w, h1, h2, h3, core, n1, n2, n3, filler);
  }

  /** A longer constant reaches in front of the buffer, a shorter one lets padding into the layers. */
  lemma {:induction false} OtherLengthsFail(w: Suite, k: nat, h1: Hop, h2: Hop, h3: Hop, buf: Bytes, filler: Bytes)
    returns (n: Bytes)
    requires w.Lawful() && h2.Valid(w) && h3.Valid(w) && k != 0 && k != LAYER_LEN && |filler| >= |buf|
    ensures |n| == k && !LayersLead(w, k, h1, h2, h3, buf, n, n, filler)
  {
    if k < LAYER_LEN {
      n := SomePaddingBreaks(w, k, h1, h2, h3, buf, filler);
    } else {
      n := seq(k, _ => 0);
    }
  }

  lemma {:induction false} OthersDoNotWork(w: Suite, k: nat, h1: Hop, h2: Hop, h3: Hop, core: Bytes)
    requires w.Lawful() && h1.Valid(w) && h2.Valid(w) && h3.Valid(w) && k != 0 && k != LAYER_LEN
    ensures !Works(w, k, h1, h2, h3, core)
  {
    var o := HeaderOnion(h1, h2, h3, Core(core));
    if Encodable(o, k) {
      var b0 := Image(w, o, k);
      var filler: Bytes := seq(|b0|, _ => 0);
      var n := OtherLengthsFail(w, k, h1, h2, h3, b0, filler);
      assert !MessageOut(w, k, h1, h2, h3, b0, n, n, n, filler, core);
    }
  }

  /** For every constant and every message: the message comes out under any padding if and only if the constant is the
      length Encode writes, or 0, where no layer is under a header key. The repository's constant is neither. */
  lemma {:induction false} HeaderWorks(w: Suite, k: nat, h1: Hop, h2: Hop, h3: Hop, core: Bytes)
    requires w.Lawful() && h1.Valid(w) && h2.Valid(w) && h3.Valid(w)
    ensures Works(w, k, h1, h2, h3, core) <==> k == LAYER_LEN || k == 0
    ensures REVERSE_CRYPT_LEN != LAYER_LEN && REVERSE_CRYPT_LEN != 0
  {
    if k != 0 && k != LAYER_LEN {
      OthersDoNotWork(w, k, h1, h2, h3, core);
    } else {
      var o := HeaderOnion(h1, h2, h3, Core(core));
      HeaderEncodes(w, k, h1, h2, h3, core);
      forall n1: Bytes, n2: Bytes, n3: Bytes, filler: Bytes |
        |n1| == |n2| == |n3| == k && |filler| >= Written(o)
        ensures MessageOut(w, k, h1, h2, h3, Image(w, o, k), n1, n2, n3, filler, core)
      {
        if k == 0 {
          assert n1 == [] && n2 == [] && n3 == [];
          ZeroWorks(w, h1, h2, h3, core, filler);
        } else {
          FullWorks(w, h1, h2, h3, core, n1, n2, n3, filler);
        }
      }
    }
  }

  // ---------------------------------------------------------------- the same for replies

  /** A reply as GetRoutingHeaderFromCursor and FormatReply make it: as many bytes as three constants cut from a
      message, and the response under the three ciphers. */
  ghost function ReplyBuffer(w: Suite, k: nat, h1: Hop, h2: Hop, h3: Hop, image: Bytes, res: Bytes): (r: Bytes)
    requires 3 * k <= |image|
  {
    image[..3 * k] + ReplyPayload(w, Ciphers(w, h1, h2, h3), [h1.seal.iv, h2.seal.iv, h3.seal.iv], res)
  }

  /** A response comes out under any padding. */
  ghost predicate ReplyOut(w: Suite, k: nat, h1: Hop, h2: Hop, h3: Hop, image: Bytes, res: Bytes)
    requires w.Lawful() && h2.Valid(w) && h3.Valid(w) && 3 * k <= |image|
  {
    var rb := ReplyBuffer(w, k, h1, h2, h3, image, res);
    forall n1: Bytes, n2: Bytes, n3: Bytes, filler: Bytes ::
      |n1| == |n2| == |n3| == k && |filler| >= |rb| ==> MessageOut(w, k, h1, h2, h3, rb, n1, n2, n3, filler, res)
  }

  /** Replies can be made from the header of a message, and every response comes out. */
  ghost predicate RepliesWork(w: Suite, k: nat, h1: Hop, h2: Hop, h3: Hop, any: Bytes)
    requires w.Lawful() && h2.Valid(w) && h3.Valid(w)
  {
    var o := HeaderOnion(h1, h2, h3, Core(any));
    && Encodable(o, k) && 3 * k <= Written(o)
    && forall res: Bytes :: ReplyOut(w, k, h1, h2, h3, Image(w, o, k), res)
  }

  /** With a constant other than these, no response at all comes out under every padding. */
  lemma {:induction false} NoReplyOut(w: Suite, k: nat, h1: Hop, h2: Hop, h3: Hop, image: Bytes, res: Bytes)
    requires w.Lawful() && h2.Valid(w) && h3.Valid(w) && 3 * k <= |image| && k != 0 && k != LAYER_LEN
    ensures !ReplyOut(w, k, h1, h2, h3, image, res)
  {
    var rb := ReplyBuffer(w, k, h1, h2, h3, image, res);
    var filler: Bytes := seq(|rb|, _ => 0);
    var n := OtherLengthsFail(w, k, h1, h2, h3, rb, filler);
    assert !MessageOut(w, k, h1, h2, h3, rb, n, n, n, filler, res);
  }

  /** With constant 0 a reply has no header. */
  lemma {:induction false} BareReply(w: Suite, h1: Hop, h2: Hop, h3: Hop, image: Bytes)
    requires w.Lawful() && h2.Valid(w) && h3.Valid(w)
    ensures !ReplyOut(w, 0, h1, h2, h3, image, [])
  {
    var rb := ReplyBuffer(w, 0, h1, h2, h3, image, []);
    ReplyPayloadIs(w, h1, h2, h3, []);
    assert rb == [];
    assert !MessageOut(w, 0, h1, h2, h3, rb, [], [], [], [], []);
  }

  lemma {:induction false} FullReplyOut(w: Suite, h1: Hop, h2: Hop, h3: Hop, any: Bytes, res: Bytes)
    requires w.Lawful() && h1.Valid(w) && h2.Valid(w) && h3.Valid(w)
    ensures ReplyOut(w, LAYER_LEN, h1, h2, h3, HeaderImage(w, LAYER_LEN, h1, h2, h3, any), res)
  {
    var image := HeaderImage(w, LAYER_LEN, h1, h2, h3, any);
    var rb := ReplyBuffer(w, LAYER_LEN, h1, h2, h3, image, res);
    ReplyIsHeader(w, h1, h2, h3, any, res);
    assert rb == HeaderImage(w, LAYER_LEN, h1, h2, h3, res);
    forall n1: Bytes, n2: Bytes, n3: Bytes, filler: Bytes |
      |n1| == |n2| == |n3| == LAYER_LEN && |filler| >= |rb|
      ensures MessageOut(w, LAYER_LEN, h1, h2, h3, rb, n1, n2, n3, filler, res)
    {
      FullWorks(w, h1, h2, h3, res, n1, n2, n3, filler);
    }
  }

  /** For every constant and every message replied to: all responses come out under any padding if and only if the
      constant is the length Encode writes. */
  lemma {:induction false} ReplyWorks(w: Suite, k: nat, h1: Hop, h2: Hop, h3: Hop, any: Bytes)
    requires w.Lawful() && h1.Valid(w) && h2.Valid(w) && h3.Valid(w)
    ensures RepliesWork(w, k, h1, h2, h3, any) <==> k == LAYER_LEN
  {
    var o := HeaderOnion(h1, h2, h3, Core(any));
    if k == LAYER_LEN {
      HeaderEncodes(w, k, h1, h2, h3, any);
      forall res: Bytes
        ensures ReplyOut(w, k, h1, h2, h3, Image(w, o, k), res)
      {
        FullReplyOut(w, h1, h2, h3, any, res);
      }
    } else if Encodable(o, k) && 3 * k <= Written(o) {
      if k == 0 {
        BareReply(w, h1, h2, h3, Image(w, o, k));
      } else {
        NoReplyOut(w, k, h1, h2, h3, Image(w, o, k), []);
      }
    }
  }
}
