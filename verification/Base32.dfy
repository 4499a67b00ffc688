/** Base 32 digits of whole groups of five bytes (section 6 of RFC 4648), with the alphabet of pkg/util/b32. */
module Base32 {
  import opened Bytes
  import opened Options

  newtype digit = x: int | 0 <= x < 32

  const ALPHABET: string := "abcdefghijklmnopqrstuvwxyz234679"

  function Letter(d: digit): (r: char)
  {
    ALPHABET[d]
  }

  function Value(c: char): (r: Option<digit>)
  {
    if 'a' <= c <= 'z' then Some((c as int - 'a' as int) as digit)
    else
      match c
      case '2' => Some(26)
      case '3' => Some(27)
      case '4' => Some(28)
      case '6' => Some(29)
      case '7' => Some(30)
      case '9' => Some(31)
      case _ => None
  }

  lemma {:induction false} LetterValue(d: digit)
    ensures Value(Letter(d)) == Some(d)
  {
    var s := ALPHABET;
    assert s[26] == '2' && s[27] == '3' && s[28] == '4' && s[29] == '6' && s[30] == '7' && s[31] == '9';
  }

  /** No other character is a digit. */
  lemma {:induction false} ValueLetter(c: char)
    ensures Value(c).Some? <==> c in ALPHABET
    ensures Value(c).Some? ==> Letter(Value(c).value) == c
  {
    var s := ALPHABET;
    if Value(c).Some? {
      LetterValue(Value(c).value);
      assert Letter(Value(c).value) in s;
    }
    if c in s {
      var i :| 0 <= i < |s| && s[i] == c;
      LetterValue(i as digit);
    }
  }

  function Text(ds: seq<digit>): (s: string)
    ensures |s| == |ds| && forall i :: 0 <= i < |ds| ==> s[i] == Letter(ds[i])
  {
    seq(|ds|, i requires 0 <= i < |ds| => Letter(ds[i]))
  }

  predicate Readable(s: string)
  {
    forall i :: 0 <= i < |s| ==> Value(s[i]).Some?
  }

  function Values(s: string): (ds: seq<digit>)
    requires Readable(s)
    ensures |ds| == |s|
  {
    seq(|s|, i requires 0 <= i < |s| => Value(s[i]).value)
  }

  lemma {:induction false} TextValues(ds: seq<digit>)
    ensures Readable(Text(ds)) && Values(Text(ds)) == ds
  {
    forall i | 0 <= i < |ds|
      ensures Value(Text(ds)[i]) == Some(ds[i])
    {
      LetterValue(ds[i]);
    }
  }

  // ---------------------------------------------------------------- one group

  /** Forty bits as eight digits. */
  function Group(b: Bytes): (ds: seq<digit>)
    requires |b| == 5
    ensures |ds| == 8
  {
    [ (b[0] as int / 8) as digit,
      (b[0] as int % 8 * 4 + b[1] as int / 64) as digit,
      (b[1] as int / 2 % 32) as digit,
      (b[1] as int % 2 * 16 + b[2] as int / 16) as digit,
      (b[2] as int % 16 * 2 + b[3] as int / 128) as digit,
      (b[3] as int / 4 % 32) as digit,
      (b[3] as int % 4 * 8 + b[4] as int / 32) as digit,
      (b[4] as int % 32) as digit ]
  }

  /** Eight digits as forty bits. */
  function Ungroup(ds: seq<digit>): (b: Bytes)
    requires |ds| == 8
    ensures |b| == 5
  {
    [ (ds[0] as int * 8 + ds[1] as int / 4) as byte,
      (ds[1] as int % 4 * 64 + ds[2] as int * 2 + ds[3] as int / 16) as byte,
      (ds[3] as int % 16 * 16 + ds[4] as int / 2) as byte,
      (ds[4] as int % 2 * 128 + ds[5] as int * 4 + ds[6] as int / 8) as byte,
      (ds[6] as int % 8 * 32 + ds[7] as int) as byte ]
  }

  lemma {:induction false} Byte0(x: int, y: int)
    requires 0 <= x < 256 && 0 <= y < 256
    ensures x / 8 * 8 + (x % 8 * 4 + y / 64) / 4 == x
  {
    assert (x % 8 * 4 + y / 64) / 4 == x % 8;
  }

  lemma {:induction false} Byte1(x: int, y: int, z: int)
    requires 0 <= x < 256 && 0 <= y < 256 && 0 <= z < 256
    ensures (x % 8 * 4 + y / 64) % 4 * 64 + y / 2 % 32 * 2 + (y % 2 * 16 + z / 16) / 16 == y
  {
    assert (x % 8 * 4 + y / 64) % 4 == y / 64 && (y % 2 * 16 + z / 16) / 16 == y % 2;
  }

  lemma {:induction false} Byte2(y: int, z: int, w: int)
    requires 0 <= y < 256 && 0 <= z < 256 && 0 <= w < 256
    ensures (y % 2 * 16 + z / 16) % 16 * 16 + (z % 16 * 2 + w / 128) / 2 == z
  {
    assert (y % 2 * 16 + z / 16) % 16 == z / 16 && (z % 16 * 2 + w / 128) / 2 == z % 16;
  }

  lemma {:induction false} Byte3(z: int, w: int, v: int)
    requires 0 <= z < 256 && 0 <= w < 256 && 0 <= v < 256
    ensures (z % 16 * 2 + w / 128) % 2 * 128 + w / 4 % 32 * 4 + (w % 4 * 8 + v / 32) / 8 == w
  {
    assert (z % 16 * 2 + w / 128) % 2 == w / 128 && (w % 4 * 8 + v / 32) / 8 == w % 4;
  }

  lemma {:induction false} Byte4(w: int, v: int)
    requires 0 <= w < 256 && 0 <= v < 256
    ensures (w % 4 * 8 + v / 32) % 8 * 32 + v % 32 == v
  {
    assert (w % 4 * 8 + v / 32) % 8 == v / 32;
  }

  lemma {:induction false} GroupAt0(b: Bytes)
    requires |b| == 5
    ensures Ungroup(Group(b))[0] == b[0]
  {
    Byte0(b[0] as int, b[1] as int);
  }

  lemma {:induction false} GroupAt1(b: Bytes)
    requires |b| == 5
    ensures Ungroup(Group(b))[1] == b[1]
  {
    Byte1(b[0] as int, b[1] as int, b[2] as int);
  }

  lemma {:induction false} GroupAt2(b: Bytes)
    requires |b| == 5
    ensures Ungroup(Group(b))[2] == b[2]
  {
    Byte2(b[1] as int, b[2] as int, b[3] as int);
  }

  lemma {:induction false} GroupAt3(b: Bytes)
    requires |b| == 5
    ensures Ungroup(Group(b))[3] == b[3]
  {
    Byte3(b[2] as int, b[3] as int, b[4] as int);
  }

  lemma {:induction false} GroupAt4(b: Bytes)
    requires |b| == 5
    ensures Ungroup(Group(b))[4] == b[4]
  {
    Byte4(b[3] as int, b[4] as int);
  }

  lemma {:induction false} GroupRoundTrip(b: Bytes)
    requires |b| == 5
    ensures Ungroup(Group(b)) == b
  {
    var r := Ungroup(Group(b));
    assert r[0] == b[0] by { GroupAt0(b); }
    assert r[1] == b[1] by { GroupAt1(b); }
    assert r[2] == b[2] by { GroupAt2(b); }
    assert r[3] == b[3] by { GroupAt3(b); }
    assert r[4] == b[4] by { GroupAt4(b); }
  }

  function FortyBits(b: Bytes): (n: int)
    requires |b| == 5
  {
    b[0] as int * 0x1_0000_0000 + b[1] as int * 0x100_0000 + b[2] as int * 0x1_0000 + b[3] as int * 0x100 + b[4] as int
  }

  function EightDigits(d: seq<digit>): (n: int)
    requires |d| == 8
  {
    d[0] as int * 0x8_0000_0000 + d[1] as int * 0x4000_0000 + d[2] as int * 0x200_0000 + d[3] as int * 0x10_0000
    + d[4] as int * 0x8000 + d[5] as int * 0x400 + d[6] as int * 0x20 + d[7] as int
  }

  /** The five bytes and the eight digits are the same number, most significant first. */
  lemma {:induction false} GroupNumber(b: Bytes)
    requires |b| == 5
    ensures FortyBits(b) == EightDigits(Group(b))
  {
    SameNumber(b[0] as int, b[1] as int, b[2] as int, b[3] as int, b[4] as int);
  }

  lemma {:induction false} SameNumber(a: int, b: int, c: int, d: int, e: int)
    requires 0 <= a < 256 && 0 <= b < 256 && 0 <= c < 256 && 0 <= d < 256 && 0 <= e < 256
    ensures a * 0x1_0000_0000 + b * 0x100_0000 + c * 0x1_0000 + d * 0x100 + e
         == a / 8 * 0x8_0000_0000 + (a % 8 * 4 + b / 64) * 0x4000_0000 + b / 2 % 32 * 0x200_0000
            + (b % 2 * 16 + c / 16) * 0x10_0000 + (c % 16 * 2 + d / 128) * 0x8000 + d / 4 % 32 * 0x400
            + (d % 4 * 8 + e / 32) * 0x20 + e % 32
  {
    assert a == 8 * (a / 8) + a % 8;
    Middle(b);
    assert c == 16 * (c / 16) + c % 16;
    MiddleToo(d);
    assert e == 32 * (e / 32) + e % 32;
  }

  lemma {:induction false} Middle(b: int)
    requires 0 <= b < 256
    ensures b == 64 * (b / 64) + 2 * (b / 2 % 32) + b % 2
  {
  }

  lemma {:induction false} MiddleToo(d: int)
    requires 0 <= d < 256
    ensures d == 128 * (d / 128) + 4 * (d / 4 % 32) + d % 4
  {
  }

  // ---------------------------------------------------------------- all groups

  function Digits(b: Bytes): (ds: seq<digit>)
    requires |b| % 5 == 0
    ensures |ds| == |b| / 5 * 8
  {
    if b == [] then [] else Group(b[..5]) + Digits(b[5..])
  }

  function Undigits(ds: seq<digit>): (b: Bytes)
    requires |ds| % 8 == 0
    ensures |b| == |ds| / 8 * 5
  {
    if ds == [] then [] else Ungroup(ds[..8]) + Undigits(ds[8..])
  }

  lemma {:induction false} DigitsCons(g: Bytes, rest: Bytes)
    requires |g| == 5 && |rest| % 5 == 0
    ensures Digits(g + rest) == Group(g) + Digits(rest)
  {
    assert (g + rest)[..5] == g && (g + rest)[5..] == rest;
  }

  lemma {:induction false} UndigitsCons(g: seq<digit>, rest: seq<digit>)
    requires |g| == 8 && |rest| % 8 == 0
    ensures Undigits(g + rest) == Ungroup(g) + Undigits(rest)
  {
    assert (g + rest)[..8] == g && (g + rest)[8..] == rest;
  }

  lemma {:induction false} DigitsRoundTrip(b: Bytes)
    requires |b| % 5 == 0
    ensures Undigits(Digits(b)) == b
  {
    if b != [] {
      GroupRoundTrip(b[..5]);
      DigitsRoundTrip(b[5..]);
      UndigitsCons(Group(b[..5]), Digits(b[5..]));
      assert b == b[..5] + b[5..];
    }
  }

  /** Replacing the last digit of a group changes only its last byte. */
  lemma {:induction false} GroupTail(b: Bytes, d: digit)
    requires |b| == 5
    ensures Ungroup(Group(b)[..7] + [d])[..4] == b[..4]
  {
    GroupRoundTrip(b);
    assert forall i :: 0 <= i < 7 ==> (Group(b)[..7] + [d])[i] == Group(b)[i];
  }

  lemma {:induction false} SameLength(n: nat)
    requires n % 5 == 0
    ensures n / 5 * 8 % 8 == 0 && n / 5 * 8 / 8 * 5 == n
  {
  }

  /** The bytes read back after the last digit has been replaced. */
  function Mended(b: Bytes, d: digit): (r: Bytes)
    requires |b| % 5 == 0 && b != []
    ensures |r| == |b|
  {
    SameLength(|b|);
    var ds := Digits(b);
    Undigits(ds[..|ds| - 1] + [d])
  }

  /** Replacing the last digit changes nothing before the last byte. */
  lemma {:induction false} LastDigit(b: Bytes, d: digit)
    requires |b| % 5 == 0 && b != []
    ensures Mended(b, d)[..|b| - 1] == b[..|b| - 1]
  {
    var g, rest := b[..5], b[5..];
    assert b == g + rest;
    if rest == [] {
      OneGroup(b, d);
    } else {
      LastDigit(rest, d);
      GroupRoundTrip(g);
      MoreGroups(g, rest, d);
      assert (g + Mended(rest, d))[..|b| - 1] == g + Mended(rest, d)[..|rest| - 1];
    }
  }

  lemma {:induction false} OneGroup(b: Bytes, d: digit)
    requires |b| == 5
    ensures Mended(b, d)[..4] == b[..4]
  {
    assert b + [] == b && Group(b) + [] == Group(b);
    DigitsCons(b, []);
    var ds := Group(b)[..7] + [d];
    UndigitsCons(ds, []);
    assert ds + [] == ds && Ungroup(ds) + [] == Ungroup(ds);
    GroupTail(b, d);
  }

  lemma {:induction false} MoreGroups(g: Bytes, rest: Bytes, d: digit)
    requires |g| == 5 && |rest| % 5 == 0 && rest != [] && Ungroup(Group(g)) == g
    ensures Mended(g + rest, d) == g + Mended(rest, d)
  {
    DigitsCons(g, rest);
    SameLength(|rest|);
    var gd, rd := Group(g), Digits(rest);
    var tail := rd[..|rd| - 1] + [d];
    assert (gd + rd)[..|gd + rd| - 1] + [d] == gd + tail;
    UndigitsCons(gd, tail);
  }
}
