/** Relays taking an onion apart: Recognise, Decode, Decrypt and BudgeUp for Crypt and Forward layers. */
module Peel {
  import opened Options
  import opened Bytes
  import opened Buffers
  import opened Crypto
  import opened Onion

  /** One layer and, for a Crypt, the private key it is meant for. */
  datatype Layer = Sealed(seal: Seal, recipient: Prv) | Addressed(addr: Bytes)
  {
    ghost predicate Valid(w: Suite)
    {
      match this
      case Sealed(k, recipient) => k.Valid() && k.header == w.derivePub(recipient)
      case Addressed(addr) => |addr| <= 20
    }
  }

  /** ont.Assemble: each layer wraps the ones after it. */
  function Assemble(layers: seq<Layer>, core: Bytes): (r: Onion)
  {
    if layers == [] then Core(core)
    else match layers[0]
         case Sealed(k, _) => Crypt(k, 0, Assemble(layers[1..], core))
         case Addressed(addr) => Forward(addr, Assemble(layers[1..], core))
  }

  datatype Step = Decrypted(buf: Bytes) | Relayed(addr: Bytes, buf: Bytes) | Dropped(buf: Bytes)

  /** Crypt.Decode and Crypt.Handle on a buffer whose magic was recognised. */
  function PeelCrypt(w: Suite, buf: Bytes, key: Prv, noise: Bytes): (r: Step)
    requires w.Lawful() && |noise| == CRYPT_LEN && |buf| >= MAGIC_LEN
    ensures |r.buf| == |buf| && (r.Dropped? ==> r.buf == buf)
  {
    if |buf| < CRYPT_LEN then Dropped(buf)
    else
      var iv, cloak, from := buf[4..20], buf[20..28], buf[28..61];
      if !w.onCurve(from) || !w.Match(cloak, w.derivePub(key)) then Dropped(buf)
      else Decrypted(Encipher(buf[61..], w.Block(key, from, iv)) + noise)
  }

  /** Forward.Decode and Forward.Handle; whatever the length byte, the cursor ends up past the address field. */
  function PeelForward(buf: Bytes, noise: Bytes): (r: Step)
    requires |noise| == MAGIC_LEN + ADDR_LEN && |buf| >= MAGIC_LEN
    ensures |r.buf| == |buf| && (r.Dropped? ==> r.buf == buf)
  {
    if |buf| < 25 || 5 + (buf[4] as int) > |buf| then Dropped(buf)
    else Relayed(buf[5..5 + buf[4] as int], buf[25..] + noise)
  }

  /** One relay step: the magic decides. */
  function PeelStep(w: Suite, buf: Bytes, key: Prv, noise: Bytes): (r: Step)
    requires w.Lawful() && |noise| >= CRYPT_LEN
    ensures |r.buf| == |buf| && (r.Dropped? ==> r.buf == buf)
  {
    if |buf| < MAGIC_LEN then Dropped(buf)
    else if buf[..4] == CRYPT_MAGIC then PeelCrypt(w, buf, key, noise[..CRYPT_LEN])
    else if buf[..4] == FORWARD_MAGIC then PeelForward(buf, noise[..25])
    else Dropped(buf)
  }

  /** Bytes that begin with no known magic are left alone. */
  lemma {:induction false} UnknownDropped(w: Suite, buf: Bytes, key: Prv, noise: Bytes)
    requires w.Lawful() && |noise| >= CRYPT_LEN
    requires |buf| < MAGIC_LEN || (buf[..4] != CRYPT_MAGIC && buf[..4] != FORWARD_MAGIC)
    ensures PeelStep(w, buf, key, noise) == Dropped(buf)
  {
  }

  /** A Crypt whose key is not on the curve, or that is cut short, is left alone. */
  lemma {:induction false} BadCryptDropped(w: Suite, buf: Bytes, key: Prv, noise: Bytes)
    requires w.Lawful() && |noise| >= CRYPT_LEN && |buf| >= MAGIC_LEN && buf[..4] == CRYPT_MAGIC
    requires |buf| < CRYPT_LEN || !w.onCurve(buf[28..61])
    ensures PeelStep(w, buf, key, noise) == Dropped(buf)
  {
  }

  /** The key a relay needs for the next layer; a Forward needs none. */
  function KeyFor(l: Layer): (r: Prv)
  {
    if l.Sealed? then l.recipient else 0
  }

  lemma {:induction false} CryptHeadFields(w: Suite, k: Seal, buf: Bytes)
    requires w.Lawful() && k.Valid() && CryptHead(w, k) <= buf
    ensures buf[..4] == CRYPT_MAGIC && buf[4..20] == k.iv
    ensures buf[20..28] == w.Cloak(k.blinder, k.header) && buf[28..61] == w.derivePub(k.from)
  {
    var h := CryptHead(w, k);
    assert buf[..61] == h;
    assert h[..4] == CRYPT_MAGIC && h[4..20] == k.iv;
    assert h[20..28] == w.Cloak(k.blinder, k.header) && h[28..61] == w.derivePub(k.from);
  }

  /** The recipient of a Crypt finds itself in the cloak and exposes what is inside. */
  lemma {:induction false} CryptExposes(w: Suite, k: Seal, recipient: Prv, inside: Bytes, buf: Bytes, noise: Bytes)
    requires w.Lawful() && k.Valid() && k.header == w.derivePub(recipient) && |noise| == CRYPT_LEN
    requires CryptHead(w, k) + CryptBody(w, k, |inside|, inside) <= buf
    ensures var r := PeelCrypt(w, buf, recipient, noise);
            r.Decrypted? && inside <= r.buf
  {
    var head, body := CryptHead(w, k), CryptBody(w, k, |inside|, inside);
    var stream := w.Block(k.from, k.header, k.iv);
    assert inside[..|inside|] == inside && inside[|inside|..] == [];
    assert body == Encipher(inside, stream);
    assert head <= head + body;
    CryptHeadFields(w, k, buf);
    w.CloakMatches(k.blinder, k.header);
    assert body <= buf[61..] by {
      assert buf[61..][..|body|] == buf[..61 + |body|][61..] == body;
    }
    EncipherPrefix(body, buf[61..], stream);
    EncipherTwice(inside, stream);
    assert w.Block(recipient, w.derivePub(k.from), k.iv) == stream;
  }

  /** A relay takes a Crypt for its own exactly when its key gives the hash in the cloak; else it leaves the buffer. */
  lemma {:induction false} CryptNames(w: Suite, k: Seal, key: Prv, buf: Bytes, noise: Bytes)
    requires w.Lawful() && k.Valid() && CryptHead(w, k) <= buf && |noise| >= CRYPT_LEN
    ensures var r := PeelStep(w, buf, key, noise);
            var mine := w.sha256(k.blinder + k.header)[..4] == w.sha256(k.blinder + w.derivePub(key))[..4];
            if mine then r.Decrypted? && noise[..CRYPT_LEN] == r.buf[|buf| - CRYPT_LEN..] else r == Dropped(buf)
  {
    CryptHeadFields(w, k, buf);
    w.CloakExact(k.blinder, k.header, w.derivePub(key));
  }

  /** A Forward shows its address and exposes what is inside. */
  lemma {:induction false} ForwardExposes(addr: Bytes, inside: Bytes, buf: Bytes, noise: Bytes)
    requires |addr| <= 20 && |noise| == MAGIC_LEN + ADDR_LEN
    requires FORWARD_MAGIC + AddrField(addr) + inside <= buf
    ensures var r := PeelForward(buf, noise);
            r.Relayed? && r.addr == addr && inside <= r.buf
  {
    var head := FORWARD_MAGIC + AddrField(addr);
    assert buf[..25] == head && buf[4] == head[4] == AddrField(addr)[0];
    assert buf[5..5 + |addr|] == head[5..5 + |addr|] == addr;
    assert buf[25..][..|inside|] == (head + inside)[25..] == inside;
  }

  /** One relay step on an onion takes off exactly its outer layer. */
  lemma {:induction false} StepExposes(w: Suite, layers: seq<Layer>, core: Bytes, buf: Bytes, noise: Bytes)
    requires w.Lawful() && layers != [] && (forall i :: 0 <= i < |layers| ==> layers[i].Valid(w))
             && |noise| >= CRYPT_LEN
    requires Encodable(Assemble(layers, core), 0) && Image(w, Assemble(layers, core), 0) <= buf
    ensures var r := PeelStep(w, buf, KeyFor(layers[0]), noise);
            && (if layers[0].Sealed? then r.Decrypted? else r == Relayed(layers[0].addr, r.buf))
            && Encodable(Assemble(layers[1..], core), 0)
            && Image(w, Assemble(layers[1..], core), 0) <= r.buf
  {
    var o := Assemble(layers, core);
    var inside := Image(w, Assemble(layers[1..], core), 0);
    match layers[0]
    case Sealed(k, recipient) =>
      assert layers[0].Valid(w);
      assert Image(w, o, 0) == CryptHead(w, k) + CryptBody(w, k, |inside|, inside);
      CryptHeadFields(w, k, Image(w, o, 0));
      assert buf[..4] == Image(w, o, 0)[..4];
      CryptExposes(w, k, recipient, inside, buf, noise[..CRYPT_LEN]);
    case Addressed(addr) =>
      assert layers[0].Valid(w);
      assert Image(w, o, 0) == FORWARD_MAGIC + AddrField(addr) + inside;
      assert buf[..4] == FORWARD_MAGIC;
      ForwardExposes(addr, inside, buf, noise[..25]);
  }

  /** All addresses a chain of relays saw and the buffer they ended with. */
  function PeelAll(w: Suite, buf: Bytes, layers: seq<Layer>, noise: nat -> Bytes): (r: (seq<Bytes>, Bytes))
    requires w.Lawful() && forall i: nat :: |noise(i)| >= CRYPT_LEN
    ensures |r.1| == |buf|
    decreases |layers|
  {
    if layers == [] then ([], buf)
    else
      var step := PeelStep(w, buf, KeyFor(layers[0]), noise(|layers|));
      var (addrs, rest) := PeelAll(w, step.buf, layers[1..], noise);
      ((if step.Relayed? then [step.addr] else []) + addrs, rest)
  }

  function Addresses(layers: seq<Layer>): (r: seq<Bytes>)
  {
    if layers == [] then []
    else (if layers[0].Addressed? then [layers[0].addr] else []) + Addresses(layers[1..])
  }

  /** Any number of Crypt and Forward layers peel to the core at offset 0, and each relay learns its address. */
  lemma {:induction false} OnionPeels(w: Suite, layers: seq<Layer>, core: Bytes, buf: Bytes, noise: nat -> Bytes)
    requires w.Lawful() && (forall i :: 0 <= i < |layers| ==> layers[i].Valid(w))
             && forall i: nat :: |noise(i)| >= CRYPT_LEN
    requires Encodable(Assemble(layers, core), 0) && Image(w, Assemble(layers, core), 0) <= buf
    ensures var (addrs, rest) := PeelAll(w, buf, layers, noise);
            addrs == Addresses(layers) && |rest| == |buf| && core <= rest
    decreases |layers|
  {
    if layers != [] {
      StepExposes(w, layers, core, buf, noise(|layers|));
      OnionPeels(w, layers[1..], core, PeelStep(w, buf, KeyFor(layers[0]), noise(|layers|)).buf, noise);
    }
  }

  /** Valid layers can always be encoded, and Len counts exactly the bytes written. */
  lemma {:induction false} LayersEncodable(w: Suite, layers: seq<Layer>, core: Bytes)
    requires forall i :: 0 <= i < |layers| ==> layers[i].Valid(w)
    ensures var o := Assemble(layers, core); Encodable(o, 0) && SealsValid(o) && ShortAddresses(o)
  {
    if layers != [] {
      assert layers[0].Valid(w);
      LayersEncodable(w, layers[1..], core);
    }
  }

  // ---------------------------------------------------------------- the relay on its buffer

  method Handle(w: Suite, s: Splice, key: Prv, noise: Bytes) returns (addr: Option<Bytes>, ghost step: Step)
    requires w.Lawful() && |noise| >= CRYPT_LEN
    modifies s`c, s.b
    ensures step == PeelStep(w, old(s.b[..]), key, noise)
    ensures s.b[..] == step.buf && addr == if step.Relayed? then Some(step.addr) else None
  {
    ghost var was := s.b[..];
    step := PeelStep(w, was, key, noise);
    addr := None;
    s.c := 0;
    if s.b.Length < MAGIC_LEN {
      return;
    }
    var magic := s.Take(MAGIC_LEN);
    assert was[..4] == magic;
    if magic == CRYPT_MAGIC {
      HandleCrypt(w, s, key, noise[..CRYPT_LEN]);
    } else if magic == FORWARD_MAGIC {
      addr := HandleForward(s, noise[..25]);
    }
  }

  method HandleCrypt(w: Suite, s: Splice, key: Prv, noise: Bytes)
    requires w.Lawful() && |noise| == CRYPT_LEN && s.c == MAGIC_LEN <= s.b.Length
    modifies s`c, s.b
    ensures s.b[..] == PeelCrypt(w, old(s.b[..]), key, noise).buf
  {
    if s.b.Length - s.c < CRYPT_LEN - MAGIC_LEN {
      return;
    }
    ghost var was := s.b[..];
    var iv := s.Take(IV_LEN);
    var cloak := s.Take(CLOAK_LEN);
    var from := s.Take(PUB_LEN);
    assert iv == was[4..20] && cloak == was[20..28] && from == was[28..61];
    if !w.onCurve(from) || !w.Match(cloak, w.derivePub(key)) {
      return;
    }
    EncipherRange(s.b, s.c, s.b.Length, w.Block(key, from, iv));
    assert s.b[s.c..s.b.Length] == s.b[..][61..] && was[61..|was|] == was[61..];
    s.BudgeUp(noise);
  }

  method HandleForward(s: Splice, noise: Bytes) returns (addr: Option<Bytes>)
    requires |noise| == MAGIC_LEN + ADDR_LEN && s.c == MAGIC_LEN <= s.b.Length
    modifies s`c, s.b
    ensures var step := PeelForward(old(s.b[..]), noise);
            s.b[..] == step.buf && addr == if step.Relayed? then Some(step.addr) else None
  {
    if s.b.Length < 25 || 5 + s.b[4] as int > s.b.Length {
      return None;
    }
    var n := s.Take(1);
    var bytes := s.Take(n[0] as int);
    s.c := s.c + 20 - n[0] as int;
    s.BudgeUp(noise);
    addr := Some(bytes);
  }

  lemma {:induction false} AddressesStep(layers: seq<Layer>, i: nat)
    requires i < |layers|
    ensures Addresses(layers[..i + 1]) == Addresses(layers[..i])
            + (if layers[i].Addressed? then [layers[i].addr] else [])
  {
    var more := layers[..i + 1];
    if i == 0 {
      assert more[1..] == [] && layers[..0] == [];
      assert Addresses([]) == [];
    } else {
      assert more[1..] == layers[1..][..i] && layers[..i][1..] == layers[1..][..i - 1];
      AddressesStep(layers[1..], i - 1);
    }
  }

  /** codec.Encode of an assembled onion, then every relay in turn: the core comes out in front, and every Forward has
      told its relay where to send the rest. */
  method Travel(w: Suite, layers: seq<Layer>, core: Bytes, noise: nat -> Bytes) returns (addrs: seq<Bytes>, buf: Bytes)
    requires w.Lawful() && (forall i :: 0 <= i < |layers| ==> layers[i].Valid(w))
             && forall i: nat :: |noise(i)| >= CRYPT_LEN
    ensures addrs == Addresses(layers)
    ensures |buf| == Len(Assemble(layers, core)) && core <= buf
  {
    var o := Assemble(layers, core);
    LayersEncodable(w, layers, core);
    WrittenIsLen(o);
    var encoded := EncodeMessage(w, o, 0);
    var s := encoded.value;
    addrs := [];
    for i := 0 to |layers|
      invariant fresh(s) && fresh(s.b) && addrs == Addresses(layers[..i]) && s.b.Length == Len(o)
      invariant Encodable(Assemble(layers[i..], core), 0) && Image(w, Assemble(layers[i..], core), 0) <= s.b[..]
    {
      StepExposes(w, layers[i..], core, s.b[..], noise(i));
      assert layers[i..][1..] == layers[i + 1..];
      AddressesStep(layers, i);
      var addr, _ := Handle(w, s, KeyFor(layers[i]), noise(i));
      if addr.Some? {
        addrs := addrs + [addr.value];
      }
    }
    assert layers[..|layers|] == layers;
    buf := s.b[..];
  }
}
