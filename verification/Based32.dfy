/** The Based32 codec of pkg/util/b32/based32: a length byte, the input and a check filling whole groups of five bytes,
    written in base 32 without the last digit. */
module Based32 {
  import opened Bytes
  import opened Buffers
  import opened Base32
  import opened Options

  /** getCheckLen */
  function CheckLen(n: nat): (c: nat)
    ensures 2 <= c <= 6 && (n + c + 1) % 5 == 0
  {
    5 - (2 + n) % 5 + 1
  }

  /** getCutPoint */
  function CutPoint(length: int, checkLen: int): (r: int)
  {
    length - checkLen - 1
  }

  function Frame(sha: Bytes -> Bytes, input: Bytes): (f: Bytes)
    requires |sha(input)| == 32
    ensures |f| % 5 == 0 && |f| == |input| + CheckLen(|input|) + 1
  {
    [CheckLen(|input|) as byte] + input + sha(input)[..CheckLen(|input|)]
  }

  function Encoded(sha: Bytes -> Bytes, input: Bytes): (s: string)
    requires |sha(input)| == 32
    ensures |s| == |Digits(Frame(sha, input))| - 1
  {
    var ds := Digits(Frame(sha, input));
    Text(ds[..|ds| - 1])
  }

  /** The encoder; nothing is returned for an empty input. */
  method Encode(sha: Bytes -> Bytes, input: Bytes) returns (output: Option<string>)
    requires |sha(input)| == 32
    ensures output == if input == [] then None else Some(Encoded(sha, input))
  {
    if |input| < 1 {
      return None;
    }
    var checkLen := CheckLen(|input|);
    var outputBytes := new byte[|input| + checkLen + 1](_ => 0);
    outputBytes[0] := checkLen as byte;
    CopyInto(outputBytes, 1, input);
    CopyInto(outputBytes, |input| + 1, sha(input)[..checkLen]);
    assert outputBytes[..] == Frame(sha, input);
    var digits := Digits(outputBytes[..]);
    output := Some(Text(digits[..|digits| - 1]));
  }

  datatype Outcome = Payload(bytes: Bytes) | Failed | Panic

  /** The bytes of a string of digits with the dropped digit put back as q. */
  function Parse(s: string): (data: Option<Bytes>)
    ensures data.Some? ==> |data.value| > 0
  {
    var t := s + "q";
    if |t| % 8 != 0 || !Readable(t) then None else Some(Undigits(Values(t)))
  }

  /** The rest of the decoder, with its check: the slices panic when the length byte leaves no payload or asks for more
      than a whole hash. */
  function Unframe(sha: Bytes -> Bytes, data: Bytes): (r: Outcome)
    requires |data| > 0
  {
    var checkLen := data[0] as int;
    var cut := CutPoint(|data|, checkLen);
    if |data| < checkLen + 1 then Failed
    else if cut < 1 || checkLen > |sha(data[1..cut])| then Panic
    else if data[cut..] == sha(data[1..cut])[..checkLen] then Failed
    else Payload(data[1..CutPoint(|data| + 1, checkLen)])
  }

  function Decode(sha: Bytes -> Bytes, s: string): (r: Outcome)
  {
    var data := Parse(s);
    if data.None? then Failed else Unframe(sha, data.value)
  }

  /** The check compares strings of different lengths, so it never refuses anything: what the decoder returns depends on
      the length byte alone. */
  lemma {:induction false} CheckNeverFails(sha: Bytes -> Bytes, data: Bytes)
    requires |data| > 0 && forall x :: |sha(x)| == 32
    ensures var c := data[0] as int;
            Unframe(sha, data) == if c + 1 > |data| then Failed
                                  else if c + 1 == |data| || c > 32 then Panic
                                  else Payload(data[1..|data| - c])
  {
    var c := data[0] as int;
    if c + 1 < |data| && c <= 32 {
      var cut := CutPoint(|data|, c);
      assert |data[cut..]| == c + 1;
      assert |sha(data[1..cut])[..c]| == c;
    }
  }

  /** Two codecs with different hashes decode every string alike. */
  lemma {:induction false} CheckUnused(sha: Bytes -> Bytes, other: Bytes -> Bytes, s: string)
    requires (forall x :: |sha(x)| == 32) && (forall x :: |other(x)| == 32)
    ensures Decode(sha, s) == Decode(other, s)
  {
    var data := Parse(s);
    if data.Some? {
      CheckNeverFails(sha, data.value);
      CheckNeverFails(other, data.value);
    }
  }

  /** Reading digits back after q has been appended. */
  lemma {:induction false} ParseText(ds: seq<digit>)
    requires (|ds| + 1) % 8 == 0
    ensures Parse(Text(ds)) == Some(Undigits(ds + [16]))
  {
    TextValues(ds + [16]);
    assert Letter(16) == 'q';
    assert Text(ds) + "q" == Text(ds + [16]);
  }

  lemma {:induction false} EncodedParses(sha: Bytes -> Bytes, input: Bytes)
    requires |sha(input)| == 32
    ensures Parse(Encoded(sha, input)) == Some(Mended(Frame(sha, input), 16))
  {
    var ds := Digits(Frame(sha, input));
    SameLength(|Frame(sha, input)|);
    ParseText(ds[..|ds| - 1]);
  }

  /** The frame that parsing a text gives back: the length of the check, the input, and the hash of the input up to the
      byte that lost its digit. */
  lemma {:induction false} FrameReadBack(sha: Bytes -> Bytes, input: Bytes)
    requires |sha(input)| == 32
    ensures var n, c, data := |input|, CheckLen(|input|), Mended(Frame(sha, input), 16);
            && |data| == n + c + 1
            && data[0] as int == c && data[1..n + 1] == input && data[n + 1..n + c] == sha(input)[..c - 1]
  {
    var f, n, c := Frame(sha, input), |input|, CheckLen(|input|);
    var data := Mended(f, 16);
    LastDigit(f, 16);
    FrameParts(f, data, input, sha(input)[..c], c);
  }

  lemma {:induction false} FrameParts(f: Bytes, data: Bytes, input: Bytes, sum: Bytes, c: nat)
    requires 2 <= c <= 6 && |sum| == c && f == [c as byte] + input + sum && |data| == |f|
    requires data[..|f| - 1] == f[..|f| - 1]
    ensures var n := |input|; data[0] as int == c && data[1..n + 1] == input && data[n + 1..n + c] == sum[..c - 1]
  {
    var n := |input|;
    assert data[0] == data[..|f| - 1][0];
    assert data[1..n + 1] == data[..|f| - 1][1..n + 1] == f[..|f| - 1][1..n + 1] == input;
    assert forall i :: 0 <= i < c - 1 ==> data[n + 1 + i] == data[..|f| - 1][n + 1 + i] == f[n + 1 + i] == sum[i];
  }

  /** A frame read back whole but for its last byte, which belongs to the check, gives the input. */
  lemma {:induction false} UnframeInput(sha: Bytes -> Bytes, input: Bytes, data: Bytes)
    requires input != [] && forall x :: |sha(x)| == 32
    requires var f := Frame(sha, input); |data| == |f| && data[..|f| - 1] == f[..|f| - 1]
    ensures Unframe(sha, data) == Payload(input)
  {
    var f, n, c := Frame(sha, input), |input|, CheckLen(|input|);
    CheckNeverFails(sha, data);
    assert data[0] == data[..|f| - 1][0] == f[0];
    assert data[1..n + 1] == data[..|f| - 1][1..n + 1] == f[1..n + 1] == input;
  }

  lemma {:induction false} DecodeParsed(sha: Bytes -> Bytes, s: string, data: Bytes)
    requires |data| > 0 && Parse(s) == Some(data)
    ensures Decode(sha, s) == Unframe(sha, data)
  {
  }

  /** Decoding inverts encoding for every non-empty input. */
  lemma {:induction false} RoundTrip(sha: Bytes -> Bytes, input: Bytes)
    requires input != [] && forall x :: |sha(x)| == 32
    ensures Decode(sha, Encoded(sha, input)) == Payload(input)
  {
    var f := Frame(sha, input);
    var data := Mended(f, 16);
    LastDigit(f, 16);
    UnframeInput(sha, input, data);
    EncodedParses(sha, input);
    DecodeParsed(sha, Encoded(sha, input), data);
  }
}
