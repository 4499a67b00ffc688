/** Key and signature strings (pkg/crypto/crypto.go): Based32 with the leading digits stripped, and put back as
    constants when read. */
module Keys {
  import opened Bytes
  import opened Base32
  import opened Based32
  import opened Options

  function PrvText(sha: Bytes -> Bytes, b: Bytes): (r: string)
    requires |sha(b)| == 32
  {
    Encoded(sha, b)[1..]
  }

  function PrvFrom(sha: Bytes -> Bytes, s: string): (r: Outcome)
  {
    Decode(sha, "a" + s)
  }

  function PubText(sha: Bytes -> Bytes, b: Bytes): (r: string)
    requires |b| == 33 && |sha(b)| == 32
  {
    Encoded(sha, b)[3..]
  }

  /** The bytes handed to PubFromBytes. */
  function PubFrom(sha: Bytes -> Bytes, s: string): (r: Outcome)
  {
    Decode(sha, "ayb" + s)
  }

  function SigText(sha: Bytes -> Bytes, b: Bytes): (r: string)
    requires |b| == 64 && |sha(b)| == 32
  {
    Encoded(sha, b)[2..]
  }

  /** Up to 64 of the decoded bytes are copied into the signature. */
  function SigFrom(sha: Bytes -> Bytes, s: string): (r: Outcome)
  {
    match Decode(sha, "aq" + s)
    case Payload(b) => Payload(if |b| > 64 then b[..64] else b + seq(64 - |b|, _ => 0))
    case other => other
  }

  // ---------------------------------------------------------------- the first group

  lemma {:induction false} FirstDigits(f: Bytes)
    requires |f| % 5 == 0 && f != []
    ensures |Digits(f)| >= 8
    ensures Digits(f)[0] as int == f[0] as int / 8
    ensures Digits(f)[2] as int == f[1] as int / 2 % 32
  {
  }

  /** A group whose first three digits are replaced keeps its last three bytes, and the low bit of the second. */
  lemma {:induction false} GroupHead(g: Bytes, p: seq<digit>)
    requires |g| == 5 && |p| == 3
    ensures var r := Ungroup(p + Group(g)[3..]);
            && r[2..] == g[2..] && r[0] as int == p[0] as int * 8 + p[1] as int / 4
            && r[1] as int == p[1] as int % 4 * 64 + p[2] as int * 2 + g[1] as int % 2
  {
    GroupRoundTrip(g);
    var d := Group(g);
    assert forall i :: 3 <= i < 8 ==> (p + d[3..])[i] == d[i];
    LowBit(g[1] as int, g[2] as int);
  }

  lemma {:induction false} LowBit(y: int, z: int)
    requires 0 <= y < 256 && 0 <= z < 256
    ensures (y % 2 * 16 + z / 16) / 16 == y % 2
  {
  }

  /** The frame read back with its first three digits and its last digit replaced. */
  function Patched(f: Bytes, p: seq<digit>): (r: Bytes)
    requires |f| % 5 == 0 && |f| >= 10 && |p| == 3
    ensures |r| == |f|
  {
    SameLength(|f|);
    var ds := Digits(f);
    Undigits(p + ds[3..|ds| - 1] + [16])
  }

  lemma {:induction false} PatchedGroups(g: Bytes, rest: Bytes, p: seq<digit>)
    requires |g| == 5 && |rest| % 5 == 0 && |rest| >= 5 && |p| == 3
    ensures Patched(g + rest, p) == Ungroup(p + Group(g)[3..]) + Mended(rest, 16)
  {
    DigitsCons(g, rest);
    SameLength(|rest|);
    var gd, rd := Group(g), Digits(rest);
    var tail := rd[..|rd| - 1] + [16];
    assert p + (gd + rd)[3..|gd + rd| - 1] + [16] == (p + gd[3..]) + tail;
    UndigitsCons(p + gd[3..], tail);
  }

  lemma {:induction false} PatchedBytes(f: Bytes, p: seq<digit>)
    requires |f| % 5 == 0 && |f| >= 10 && |p| == 3
    ensures Patched(f, p)[2..|f| - 1] == f[2..|f| - 1]
    ensures Patched(f, p)[0] as int == p[0] as int * 8 + p[1] as int / 4
    ensures Patched(f, p)[1] as int == p[1] as int % 4 * 64 + p[2] as int * 2 + f[1] as int % 2
  {
    var g, rest := f[..5], f[5..];
    assert f == g + rest;
    PatchedGroups(g, rest, p);
    GroupHead(g, p);
    LastDigit(rest, 16);
    Glue(Ungroup(p + Group(g)[3..]), g, Mended(rest, 16), rest);
  }

  lemma {:induction false} Glue(h: Bytes, g: Bytes, m: Bytes, rest: Bytes)
    requires |h| == |g| == 5 && |m| == |rest| > 0 && h[2..] == g[2..] && m[..|m| - 1] == rest[..|m| - 1]
    ensures (h + m)[2..|m| + 4] == (g + rest)[2..|m| + 4]
  {
    assert (h + m)[2..|m| + 4] == h[2..] + m[..|m| - 1];
    assert (g + rest)[2..|m| + 4] == g[2..] + rest[..|m| - 1];
  }

  /** Stripping k leading letters and putting the letters of p back. */
  lemma {:induction false} PatchedParses(sha: Bytes -> Bytes, b: Bytes, p: seq<digit>, k: nat)
    requires |sha(b)| == 32 && |b| >= 5 && |p| == 3 && k <= 3
    requires forall i :: k <= i < 3 ==> p[i] == Digits(Frame(sha, b))[i]
    ensures Parse(Text(p[..k]) + Encoded(sha, b)[k..]) == Some(Patched(Frame(sha, b), p))
  {
    var f := Frame(sha, b);
    SameLength(|f|);
    PatchText(Digits(f), p, k);
    ParseText(p + Digits(f)[3..|Digits(f)| - 1]);
  }

  lemma {:induction false} PatchText(ds: seq<digit>, p: seq<digit>, k: nat)
    requires |ds| > 3 && |p| == 3 && k <= 3 && forall i :: k <= i < 3 ==> p[i] == ds[i]
    ensures Text(p[..k]) + Text(ds[..|ds| - 1])[k..] == Text(p + ds[3..|ds| - 1])
  {
  }

  /** What decoding gives once the first two bytes of the frame are known. */
  lemma {:induction false} PatchedDecodes(sha: Bytes -> Bytes, b: Bytes, p: seq<digit>, c: nat)
    requires |b| >= 5 && |p| == 3 && forall x :: |sha(x)| == 32
    requires c == p[0] as int * 8 + p[1] as int / 4 && 2 <= c <= CheckLen(|b|)
    ensures var data := Patched(Frame(sha, b), p);
            Unframe(sha, data) == Payload(data[1..|data| - c])
  {
    var f := Frame(sha, b);
    PatchedBytes(f, p);
    CheckNeverFails(sha, Patched(f, p));
  }

  // ---------------------------------------------------------------- the three kinds of string

  lemma {:induction false} PrvLetter(sha: Bytes -> Bytes, b: Bytes)
    requires |b| == 32 && |sha(b)| == 32
    ensures "a" + PrvText(sha, b) == Encoded(sha, b)
  {
    FirstDigits(Frame(sha, b));
    LetterValue(0);
    assert Encoded(sha, b)[0] == 'a';
  }

  /** Every 32-byte private key survives its string: the stripped digit is always a. */
  lemma {:induction false} PrvRoundTrip(sha: Bytes -> Bytes, b: Bytes)
    requires |b| == 32 && forall x :: |sha(x)| == 32
    ensures PrvFrom(sha, PrvText(sha, b)) == Payload(b)
  {
    PrvLetter(sha, b);
    RoundTrip(sha, b);
  }

  /** A frame cut off behind n payload bytes, the first of them changed. */
  lemma {:induction false} Cut(f: Bytes, data: Bytes, b: Bytes, first: byte)
    requires b != [] && |f| == |data| > |b| + 2 && f[1..|b| + 1] == b && data[1] == first
    requires data[2..|f| - 1] == f[2..|f| - 1]
    ensures data[1..|b| + 1] == [first] + b[1..]
  {
    assert forall i :: 2 <= i < |b| + 1 ==> data[i] == data[2..|f| - 1][i - 2] == f[i] == f[1..|b| + 1][i - 1];
  }

  lemma {:induction false} PubLetters()
    ensures Text([0, 24, 1][..3]) == "ayb"
  {
    LetterValue(0);
    LetterValue(24);
    LetterValue(1);
  }

  lemma {:induction false} PubData(sha: Bytes -> Bytes, b: Bytes)
    requires |b| == 33 && forall x :: |sha(x)| == 32
    ensures Unframe(sha, Patched(Frame(sha, b), [0, 24, 1])) == Payload([2 + b[0] % 2] + b[1..])
  {
    var f, p := Frame(sha, b), [0, 24, 1];
    var data := Patched(f, p);
    PatchedBytes(f, p);
    PatchedDecodes(sha, b, p, 6);
    Cut(f, data, b, 2 + b[0] % 2);
  }

  /** A public key string gives back every byte but the first, of which only the low bit is kept. */
  lemma {:induction false} PubReadsBack(sha: Bytes -> Bytes, b: Bytes)
    requires |b| == 33 && forall x :: |sha(x)| == 32
    ensures PubFrom(sha, PubText(sha, b)) == Payload([2 + b[0] % 2] + b[1..])
  {
    PubLetters();
    PatchedParses(sha, b, [0, 24, 1], 3);
    PubData(sha, b);
    DecodeParsed(sha, "ayb" + PubText(sha, b), Patched(Frame(sha, b), [0, 24, 1]));
  }

  lemma {:induction false} NewFirst(b: Bytes, first: byte)
    requires b != []
    ensures [first] + b[1..] == b <==> first == b[0]
  {
    assert ([first] + b[1..])[0] == first;
    assert b == [b[0]] + b[1..];
  }

  /** So compressed keys, which start with 2 or 3, and nothing else, survive. */
  lemma {:induction false} PubRoundTrip(sha: Bytes -> Bytes, b: Bytes)
    requires |b| == 33 && forall x :: |sha(x)| == 32
    ensures PubFrom(sha, PubText(sha, b)) == Payload(b) <==> b[0] == 2 || b[0] == 3
  {
    PubReadsBack(sha, b);
    NewFirst(b, 2 + b[0] % 2);
  }

  lemma {:induction false} SigLetters(d: digit)
    ensures Text([0, 16, d][..2]) == "aq"
  {
    LetterValue(0);
    LetterValue(16);
  }

  lemma {:induction false} SigData(sha: Bytes -> Bytes, b: Bytes, d: digit)
    requires |b| == 64 && d as int == b[0] as int / 2 % 32 && forall x :: |sha(x)| == 32
    ensures Unframe(sha, Patched(Frame(sha, b), [0, 16, d])) == Payload([b[0] % 64] + b[1..] + [sha(b)[0]])
  {
    var f, p := Frame(sha, b), [0, 16, d];
    var data := Patched(f, p);
    PatchedBytes(f, p);
    PatchedDecodes(sha, b, p, 4);
    SixBits(b[0] as int);
    Cut(f, data, b, b[0] % 64);
    assert data[65] == data[2..69][63] == f[2..69][63] == sha(b)[0];
    assert data[1..66] == data[1..65] + [data[65]];
  }

  lemma {:induction false} SixBits(x: int)
    requires 0 <= x < 256
    ensures x / 2 % 32 * 2 + x % 2 == x % 64
  {
  }

  /** A signature string loses the two high bits of the first byte: aq is put back whatever was stripped. It also
      decodes with a check byte too many, which the copy drops. */
  lemma {:induction false} SigReadsBack(sha: Bytes -> Bytes, b: Bytes)
    requires |b| == 64 && forall x :: |sha(x)| == 32
    ensures Decode(sha, "aq" + SigText(sha, b)) == Payload([b[0] % 64] + b[1..] + [sha(b)[0]])
    ensures SigFrom(sha, SigText(sha, b)) == Payload([b[0] % 64] + b[1..])
  {
    var d := Digits(Frame(sha, b))[2];
    FirstDigits(Frame(sha, b));
    SigLetters(d);
    PatchedParses(sha, b, [0, 16, d], 2);
    SigData(sha, b, d);
    DecodeParsed(sha, "aq" + SigText(sha, b), Patched(Frame(sha, b), [0, 16, d]));
    CopyDrops([b[0] % 64] + b[1..], sha(b)[0]);
  }

  lemma {:induction false} CopyDrops(b: Bytes, extra: byte)
    ensures (b + [extra])[..|b|] == b
  {
  }

  /** A signature always has 64 bytes: the decoded ones as far as they go, then zeros. */
  lemma {:induction false} SigHas64(sha: Bytes -> Bytes, s: string, i: nat)
    requires i < 64
    ensures var decoded, sig := Decode(sha, "aq" + s), SigFrom(sha, s);
            if !decoded.Payload? then sig == decoded
            else && sig.Payload? && |sig.bytes| == 64
                 && sig.bytes[i] == if i < |decoded.bytes| then decoded.bytes[i] else 0
  {
  }

  /** A signature survives its string exactly when its first byte is below 64. */
  lemma {:induction false} SigRoundTrip(sha: Bytes -> Bytes, b: Bytes)
    requires |b| == 64 && forall x :: |sha(x)| == 32
    ensures SigFrom(sha, SigText(sha, b)) == Payload(b) <==> b[0] < 64
  {
    SigReadsBack(sha, b);
    NewFirst(b, b[0] % 64);
  }
}
