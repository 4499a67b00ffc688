/** pkg/engine/packet/packet.go: the encrypted packet frame. */
module PacketCodec {
  import opened Bytes
  import opened Buffers
  import opened Crypto

  /** check, public key, cloak and nonce: what precedes the encrypted part. */
  const OVERHEAD: nat := 4 + PUB_LEN + CLOAK_LEN + IV_LEN
  /** PacketParams.GetOverhead: the frame without its data. */
  const FRAME_OVERHEAD: nat := OVERHEAD + ID_LEN + 7

  datatype Packet = Packet(id: Bytes, seqNo: nat, length: nat, parity: nat, data: Bytes)

  datatype Opened = Opened(packet: Packet) | TooSmall | OutOfBounds

  datatype Keys = Keys(from: Pub, to: Bytes) | BadFrame

  class PacketParams {
    var id: Bytes
    var to: Pub
    var from: Prv
    var parity: nat
    var seqNo: nat
    var length: nat
    var data: Bytes

    constructor (id: Bytes, to: Pub, parity: nat, data: Bytes)
      ensures this.id == id && this.to == to && this.parity == parity && this.data == data
    {
      this.id, this.to, this.from, this.parity := id, to, 0, parity;
      this.seqNo, this.length, this.data := 0, 0, data;
    }
  }

  /** The encrypted part of a frame, in clear. */
  function Body(p: Packet): (r: Bytes)
  {
    p.id + LittleEndian(p.seqNo, 2) + LittleEndian(p.length, 4) + [(p.parity % 256) as byte] + p.data
  }

  /** What goes on the wire: everything after the check, then the check in front. */
  function Sealed(w: Suite, from: Prv, to: Pub, blinder: Bytes, iv: Bytes, p: Packet): (r: Bytes)
    requires w.Lawful() && |blinder| == BLIND_LEN
  {
    var rest := w.derivePub(from) + w.Cloak(blinder, to) + iv + Encipher(Body(p), w.Block(from, to, iv));
    w.sha256(rest)[..4] + rest
  }

  /** DecodePacket as a function of the received bytes. */
  function Open(w: Suite, d: Bytes, from: Pub, to: Prv): (r: Opened)
  {
    if |d| < OVERHEAD then TooSmall
    else
      var iv := d[OVERHEAD - IV_LEN..OVERHEAD];
      var body := Encipher(d[OVERHEAD..], w.Block(to, from, iv));
      if |body| < ID_LEN + 7 then OutOfBounds
      else Opened(Packet(body[..8], FromLittleEndian(body[8..10]), FromLittleEndian(body[10..14]), body[14] as int,
                         body[15..]))
  }

  /** GetKeysFromPacket as a function of the received bytes. */
  function Recognise(w: Suite, d: Bytes): (r: Keys)
    requires w.Lawful()
  {
    if |d| < OVERHEAD || d[..4] != w.sha256(d[4..])[..4] || !w.onCurve(d[4..37]) then BadFrame
    else Keys(d[4..37], d[37..45])
  }

  /** The fields of a packet as the wire can carry them. */
  function OnWire(p: Packet): (r: Packet)
  {
    Packet(p.id, p.seqNo % 65536, p.length % 4294967296, p.parity % 256, p.data)
  }

  lemma {:induction false} BodyFields(p: Packet)
    requires |p.id| == ID_LEN
    ensures var b := Body(p);
            && |b| == 15 + |p.data|
            && b[..8] == p.id && b[15..] == p.data && b[14] as int == p.parity % 256
            && FromLittleEndian(b[8..10]) == p.seqNo % 65536
            && FromLittleEndian(b[10..14]) == p.length % 4294967296
  {
    var b := Body(p);
    assert b[8..10] == LittleEndian(p.seqNo, 2);
    assert b[10..14] == LittleEndian(p.length, 4);
    LittleEndianRoundTrip(p.seqNo, 2);
    LittleEndianRoundTrip(p.length, 4);
    assert Pow256(2) == 65536 && Pow256(4) == 4294967296;
  }

  /** The frame byte by byte: check, public key, cloak, nonce, and the body under the keystream the recipient shares. */
  lemma {:induction false} SealedFrame(w: Suite, from: Prv, to: Prv, blinder: Bytes, iv: Bytes, p: Packet, i: nat)
    requires w.Lawful() && |blinder| == BLIND_LEN && |iv| == IV_LEN && i < |Body(p)|
    ensures var d := Sealed(w, from, w.derivePub(to), blinder, iv, p);
            var stream := w.keystream(w.sharedSecret(to, w.derivePub(from)), iv);
            && |d| == OVERHEAD + |Body(p)|
            && d[..4] == w.sha256(d[4..])[..4] && d[4..37] == w.derivePub(from)
            && d[37..45] == w.Cloak(blinder, w.derivePub(to)) && d[45..61] == iv
            && d[OVERHEAD + i] == Xor(Body(p)[i], stream(i))
  {
    var pub, cloak := w.derivePub(from), w.Cloak(blinder, w.derivePub(to));
    var body := Encipher(Body(p), w.Block(from, w.derivePub(to), iv));
    var d := Sealed(w, from, w.derivePub(to), blinder, iv, p);
    w.BlockShared(from, to, iv);
    assert d[4..] == pub + cloak + iv + body;
    assert d[61..] == body && d[OVERHEAD + i] == d[61..][i];
  }

  /** A frame is refused exactly when it is too short, its check is not that of the bytes behind it, or its key is not
      on the curve; opening fails exactly for lack of a head or of the fields before the data. */
  lemma {:induction false} BadFrames(w: Suite, d: Bytes, from: Pub, to: Prv)
    requires w.Lawful()
    ensures Recognise(w, d) == BadFrame
            <==> |d| < OVERHEAD || d[..4] != w.sha256(d[4..])[..4] || !w.onCurve(d[4..37])
    ensures (Open(w, d, from, to) == TooSmall <==> |d| < OVERHEAD)
    ensures (Open(w, d, from, to) == OutOfBounds <==> OVERHEAD <= |d| < FRAME_OVERHEAD)
  {
  }

  /** The recipient opens what the sender sealed, the check passes, and the cloak names the recipient. */
  lemma {:induction false} SealOpen(w: Suite, from: Prv, to: Prv, blinder: Bytes, iv: Bytes, p: Packet)
    requires w.Lawful() && |blinder| == BLIND_LEN && |iv| == IV_LEN && |p.id| == ID_LEN
    ensures var d := Sealed(w, from, w.derivePub(to), blinder, iv, p);
            && |d| == FRAME_OVERHEAD + |p.data|
            && Recognise(w, d) == Keys(w.derivePub(from), w.Cloak(blinder, w.derivePub(to)))
            && w.Match(Recognise(w, d).to, w.derivePub(to))
            && Open(w, d, w.derivePub(from), to) == Opened(OnWire(p))
  {
    var pub, cloak := w.derivePub(from), w.Cloak(blinder, w.derivePub(to));
    var secret := w.Block(from, w.derivePub(to), iv);
    var rest := pub + cloak + iv + Encipher(Body(p), secret);
    var d := Sealed(w, from, w.derivePub(to), blinder, iv, p);
    BodyFields(p);
    w.CloakMatches(blinder, w.derivePub(to));
    assert d[4..] == rest && d[..4] == w.sha256(rest)[..4];
    assert d[4..37] == pub && d[37..45] == cloak && d[45..61] == iv;
    assert d[61..] == Encipher(Body(p), secret);
    EncipherTwice(Body(p), secret);
  }

  /** The cursor writes of EncodePacket before the encrypted part, past the check. */
  method WriteHead(pkt: array<byte>, key: Bytes, cloak: Bytes, iv: Bytes) returns (ghost head: Bytes)
    requires |key| == PUB_LEN && |cloak| == CLOAK_LEN && |iv| == IV_LEN && pkt.Length >= OVERHEAD
    modifies pkt
    ensures head == key + cloak + iv
    ensures pkt[..OVERHEAD][4..] == head
  {
    var c := 4;
    CopyInto(pkt, c, key);
    c := c + PUB_LEN;
    CopyInto(pkt, c, cloak);
    c := c + CLOAK_LEN;
    CopyInto(pkt, c, iv);
    head := key + cloak + iv;
    assert pkt[..OVERHEAD][4..] == head;
  }

  /** The cursor writes of EncodePacket that land in the encrypted part. */
  method WriteBody(pkt: array<byte>, start: nat, p: Packet)
    requires |p.id| == ID_LEN && pkt.Length == start + 15 + |p.data|
    modifies pkt
    ensures pkt[..start] == old(pkt[..start])
    ensures pkt[start..] == Body(p)
  {
    ghost var head := pkt[..start];
    var c := start;
    CopyInto(pkt, c, p.id);
    c := c + ID_LEN;
    CopyInto(pkt, c, LittleEndian(p.seqNo, 2));
    c := c + 2;
    CopyInto(pkt, c, LittleEndian(p.length, 4));
    c := c + 4;
    CopyInto(pkt, c, [(p.parity % 256) as byte]);
    c := c + 1;
    CopyInto(pkt, c, p.data);
    assert pkt[..] == head + Body(p);
  }

  method EncodePacket(w: Suite, ep: PacketParams, nonc: Bytes, blinder: Bytes) returns (pkt: array<byte>)
    requires w.Lawful() && |nonc| == IV_LEN && |blinder| == BLIND_LEN && |ep.id| == ID_LEN
    ensures fresh(pkt)
    ensures pkt[..] == Sealed(w, ep.from, ep.to, blinder, nonc, Packet(ep.id, ep.seqNo, ep.length, ep.parity, ep.data))
  {
    pkt := new byte[2 + 4 + |ep.data| + 1 + OVERHEAD + ID_LEN];
    ghost var head := WriteHead(pkt, w.derivePub(ep.from), w.Cloak(blinder, ep.to), nonc);
    var body := Packet(ep.id, ep.seqNo, ep.length, ep.parity, ep.data);
    WriteBody(pkt, OVERHEAD, body);
    assert pkt[OVERHEAD..pkt.Length] == Body(body);
    EncipherRange(pkt, OVERHEAD, pkt.Length, w.Block(ep.from, ep.to, nonc));
    ghost var sealed := Encipher(Body(body), w.Block(ep.from, ep.to, nonc));
    assert pkt[..] == pkt[..OVERHEAD] + sealed;
    var checkBytes := w.sha256(pkt[4..]);
    assert pkt[4..] == head + sealed;
    CopyInto(pkt, 0, checkBytes[..4]);
    assert pkt[..] == checkBytes[..4] + (head + sealed);
  }

  method DecodePacket(w: Suite, d: array<byte>, from: Pub, to: Prv) returns (f: Opened)
    modifies d
    ensures f == Open(w, old(d[..]), from, to)
  {
    if d.Length < OVERHEAD {
      return TooSmall;
    }
    var iv := d[OVERHEAD - IV_LEN..OVERHEAD];
    EncipherRange(d, OVERHEAD, d.Length, w.Block(to, from, iv));
    var data := d[OVERHEAD..];
    assert data == d[OVERHEAD..d.Length] && old(d[..])[OVERHEAD..] == old(d[OVERHEAD..d.Length]);
    if |data| < ID_LEN + 7 {
      return OutOfBounds;
    }
    var id, seqBytes, length := data[..8], data[8..10], data[10..14];
    f := Opened(Packet(id, FromLittleEndian(seqBytes), FromLittleEndian(length), data[14] as int, data[15..]));
  }
}
