/** Go's encoding/base64 with the standard alphabet of section 4 of RFC 4648, with and without padding. */
module Base64 {
  import opened Wrappers
  import opened Octets

  type Sextet = x: int | 0 <= x < 64

  /** RawStd leaves the padding out, as section 3.2 of RFC 4648 allows; Std writes it. */
  datatype Encoding = Std | RawStd

  // Bytes and groups of six bits

  function Sextet0(a: int): Sextet
    requires 0 <= a < 256
  {
    a / 4
  }

  function Sextet1(a: int, b: int): Sextet
    requires 0 <= a < 256 && 0 <= b < 256
  {
    a % 4 * 16 + b / 16
  }

  function Sextet2(b: int, c: int): Sextet
    requires 0 <= b < 256 && 0 <= c < 256
  {
    b % 16 * 4 + c / 64
  }

  function Sextet3(c: int): Sextet
    requires 0 <= c < 256
  {
    c % 64
  }

  function Group(a: int, b: int, c: int): (v: seq<Sextet>)
    requires 0 <= a < 256 && 0 <= b < 256 && 0 <= c < 256
    ensures |v| == 4
  {
    [Sextet0(a), Sextet1(a, b), Sextet2(b, c), Sextet3(c)]
  }

  /** Three bytes make four sextets; one or two left over make two or three, filled up with zero bits. */
  function Unpack(data: Bytes): (v: seq<Sextet>)
    ensures |v| % 4 != 1
  {
    if |data| == 0 then []
    else if |data| == 1 then [Sextet0(data[0]), Sextet1(data[0], 0)]
    else if |data| == 2 then [Sextet0(data[0]), Sextet1(data[0], data[1]), Sextet2(data[1], 0)]
    else Group(data[0], data[1], data[2]) + Unpack(data[3..])
  }

  function Byte0(x: int, y: int): Byte
    requires 0 <= x < 64 && 0 <= y < 64
  {
    x * 4 + y / 16
  }

  function Byte1(y: int, z: int): Byte
    requires 0 <= y < 64 && 0 <= z < 64
  {
    y % 16 * 16 + z / 4
  }

  function Byte2(z: int, w: int): Byte
    requires 0 <= z < 64 && 0 <= w < 64
  {
    z % 4 * 64 + w
  }

  /** The bits a short last group leaves over are ignored, whatever they are. */
  function Pack(v: seq<Sextet>): Bytes
    requires |v| % 4 != 1
  {
    if |v| == 0 then []
    else if |v| == 2 then [Byte0(v[0], v[1])]
    else if |v| == 3 then [Byte0(v[0], v[1]), Byte1(v[1], v[2])]
    else [Byte0(v[0], v[1]), Byte1(v[1], v[2]), Byte2(v[2], v[3])] + Pack(v[4..])
  }

  /** The four sextets are the 24 bits of the three bytes, in order. */
  lemma GroupIsNumber(a: int, b: int, c: int)
    requires 0 <= a < 256 && 0 <= b < 256 && 0 <= c < 256
    ensures var w: int, x: int, y: int, z: int := Sextet0(a), Sextet1(a, b), Sextet2(b, c), Sextet3(c);
            Group(a, b, c) == [w, x, y, z] && 262144 * w + 4096 * x + 64 * y + z == 65536 * a + 256 * b + c
  {
    assert a == 4 * (a / 4) + a % 4 && b == 16 * (b / 16) + b % 16 && c == 64 * (c / 64) + c % 64;
  }

  // The sextets of three bytes give them back, read two by two.

  lemma FirstByte(a: int, b: int)
    requires 0 <= a < 256 && 0 <= b < 256
    ensures Byte0(Sextet0(a), Sextet1(a, b)) == a
  {
  }

  lemma SecondByte(a: int, b: int, c: int)
    requires 0 <= a < 256 && 0 <= b < 256 && 0 <= c < 256
    ensures Byte1(Sextet1(a, b), Sextet2(b, c)) == b
  {
    var high, low, top := b / 16, b % 16, c / 64;
    assert 0 <= high < 16 && 0 <= low < 16 && 0 <= top < 4;
    assert (a % 4 * 16 + high) % 16 == high;
    assert (low * 4 + top) / 4 == low;
  }

  lemma ThirdByte(b: int, c: int)
    requires 0 <= b < 256 && 0 <= c < 256
    ensures Byte2(Sextet2(b, c), Sextet3(c)) == c
  {
  }

  lemma PackGroup(x: Sextet, y: Sextet, z: Sextet, w: Sextet, rest: seq<Sextet>)
    requires |rest| % 4 != 1
    ensures Pack([x, y, z, w] + rest) == [Byte0(x, y), Byte1(y, z), Byte2(z, w)] + Pack(rest)
  {
  }

  lemma UnpackGroup(a: Byte, b: Byte, c: Byte, rest: Bytes)
    ensures Unpack([a, b, c] + rest) == Group(a, b, c) + Unpack(rest)
  {
  }

  lemma {:induction false} PackOfUnpack(data: Bytes)
    ensures Pack(Unpack(data)) == data
  {
    if |data| == 0 {
    } else if |data| == 1 {
      assert data == [data[0]];
      PackOfUnpackOne(data[0]);
    } else if |data| == 2 {
      assert data == [data[0], data[1]];
      PackOfUnpackTwo(data[0], data[1]);
    } else {
      var a, b, c, rest := data[0], data[1], data[2], data[3..];
      PackOfUnpack(rest);
      assert data == [a, b, c] + rest;
      UnpackGroup(a, b, c, rest);
      PackGroup(Sextet0(a), Sextet1(a, b), Sextet2(b, c), Sextet3(c), Unpack(rest));
      FirstByte(a, b);
      SecondByte(a, b, c);
      ThirdByte(b, c);
    }
  }

  lemma PackOfUnpackOne(a: Byte)
    ensures Pack(Unpack([a])) == [a]
  {
  }

  lemma PackOfUnpackTwo(a: Byte, b: Byte)
    ensures Pack(Unpack([a, b])) == [a, b]
  {
    FirstByte(a, b);
    SecondByte(a, b, 0);
    assert Unpack([a, b]) == [Sextet0(a), Sextet1(a, b), Sextet2(b, 0)];
  }

  // Sextets and letters

  function Letter(v: Sextet): char {
    if v < 26 then 'A' + (v as char)
    else if v < 52 then 'a' + ((v - 26) as char)
    else if v < 62 then '0' + ((v - 52) as char)
    else if v == 62 then '+'
    else '/'
  }

  predicate IsLetter(c: char) {
    'A' <= c <= 'Z' || 'a' <= c <= 'z' || '0' <= c <= '9' || c == '+' || c == '/'
  }

  function LetterValue(c: char): Sextet
    requires IsLetter(c)
  {
    if 'A' <= c <= 'Z' then (c - 'A') as int
    else if 'a' <= c <= 'z' then (c - 'a') as int + 26
    else if '0' <= c <= '9' then (c - '0') as int + 52
    else if c == '+' then 62
    else 63
  }

  function Letters(v: seq<Sextet>): (s: string)
    ensures |s| == |v|
    ensures forall c :: c in s ==> IsLetter(c)
  {
    if v == [] then "" else [Letter(v[0])] + Letters(v[1..])
  }

  /** Any character outside the alphabet is corrupt input. */
  function ReadLetters(s: string): (r: Option<seq<Sextet>>)
    ensures r.Some? ==> |r.value| == |s|
  {
    if s == "" then Some([])
    else if !IsLetter(s[0]) then None
    else
      var rest := ReadLetters(s[1..]);
      if rest.None? then None else Some([LetterValue(s[0])] + rest.value)
  }

  lemma ReadOneLetter(x: Sextet, s: string, rest: seq<Sextet>)
    requires ReadLetters(s) == Some(rest)
    ensures ReadLetters([Letter(x)] + s) == Some([x] + rest)
  {
  }

  lemma {:induction false} LettersRoundTrip(v: seq<Sextet>)
    ensures ReadLetters(Letters(v)) == Some(v)
  {
    if v != [] {
      LettersRoundTrip(v[1..]);
      ReadOneLetter(v[0], Letters(v[1..]), v[1..]);
      assert v == [v[0]] + v[1..];
    }
  }

  // The two encodings

  function Padding(e: Encoding, n: nat): string {
    if e.RawStd? || n % 4 == 0 then "" else if n % 4 == 2 then "==" else "="
  }

  function Encode(e: Encoding, data: Bytes): string {
    var v := Unpack(data);
    Letters(v) + Padding(e, |v|)
  }

  /** Padding may only fill up the last group of four, with one or two signs. */
  function StripPadding(e: Encoding, s: string): Option<string> {
    var n := |s|;
    if e.RawStd? then Some(s)
    else if n % 4 != 0 then None
    else if n > 0 && s[n - 1] == '=' then
      (if s[n - 2] == '=' then Some(s[..n - 2]) else Some(s[..n - 1]))
    else Some(s)
  }

  /** The decoder skips carriage returns and line feeds wherever they stand. */
  function DropNewlines(s: string): string {
    if s == "" then ""
    else if s[0] == '\r' || s[0] == '\n' then DropNewlines(s[1..])
    else [s[0]] + DropNewlines(s[1..])
  }

  function Decode(e: Encoding, s: string): Option<Bytes> {
    var body := StripPadding(e, DropNewlines(s));
    if body.None? then None
    else
      var v := ReadLetters(body.value);
      if v.None? || |v.value| % 4 == 1 then None else Some(Pack(v.value))
  }

  /** The alphabet in order: capitals, small letters, digits, plus and slash. */
  lemma LetterIs(v: Sextet)
    ensures Letter(0) == 'A' && Letter(25) == 'Z' && Letter(26) == 'a' && Letter(51) == 'z'
    ensures Letter(52) == '0' && Letter(61) == '9' && Letter(62) == '+' && Letter(63) == '/'
    ensures v !in {25, 51, 61, 62, 63} ==> Letter(v + 1) as int == Letter(v) as int + 1
  {
  }

  lemma {:induction false} LettersRead(s: string, v: seq<Sextet>)
    requires ReadLetters(s) == Some(v)
    ensures s == Letters(v)
  {
    if s != "" {
      LettersRead(s[1..], v[1..]);
      assert v == [v[0]] + v[1..] && s == [s[0]] + s[1..];
    }
  }

  lemma StrippedPadding(e: Encoding, s: string, body: string)
    requires StripPadding(e, s) == Some(body) && |body| % 4 != 1 && (body == "" || IsLetter(body[|body| - 1]))
    ensures s == body + Padding(e, |body|)
  {
    var n := |s|;
    if e.Std? && n > 0 && s[n - 1] == '=' {
      assert s == s[..n - 1] + "=";
      if s[n - 2] == '=' {
        assert s[..n - 1] == s[..n - 2] + "=";
        assert "=" + "=" == "==";
      }
    }
  }

  lemma DecodedIs(e: Encoding, s: string, data: Bytes) returns (v: seq<Sextet>)
    requires Decode(e, s) == Some(data)
    ensures |v| % 4 != 1 && DropNewlines(s) == Letters(v) + Padding(e, |v|) && Pack(v) == data
  {
    var body := StripPadding(e, DropNewlines(s)).value;
    v := ReadLetters(body).value;
    LettersRead(body, v);
    assert body != "" ==> body[|body| - 1] in body;
    StrippedPadding(e, DropNewlines(s), body);
  }

  /** What decodes, and to what: line breaks aside a text of letters with exactly the padding of the encoding. */
  lemma DecodeExactly(e: Encoding, s: string, data: Bytes)
    ensures Decode(e, s) == Some(data)
            <==> exists v :: |v| % 4 != 1 && DropNewlines(s) == Letters(v) + Padding(e, |v|) && Pack(v) == data
  {
    if Decode(e, s) == Some(data) {
      var v := DecodedIs(e, s, data);
    }
    forall v | |v| % 4 != 1 && DropNewlines(s) == Letters(v) + Padding(e, |v|)
      ensures Decode(e, s) == Some(Pack(v))
    {
      LettersRoundTrip(v);
      assert v != [] ==> Letters(v)[|v| - 1] in Letters(v);
      PaddingRoundTrip(e, Letters(v));
    }
  }

  /** An encoding is made of letters and padding signs: no '$', no newline, no blank. */
  lemma EncodeAlphabet(e: Encoding, data: Bytes)
    ensures forall c :: c in Encode(e, data) ==> IsLetter(c) || c == '='
  {
  }

  lemma {:induction false} NoNewlinesToDrop(s: string)
    requires forall c :: c in s ==> IsLetter(c) || c == '='
    ensures DropNewlines(s) == s
  {
    if s != "" {
      NoNewlinesToDrop(s[1..]);
      assert s[0] in s;
    }
  }

  lemma PaddingRoundTrip(e: Encoding, s: string)
    requires |s| % 4 != 1
    requires s != "" ==> s[|s| - 1] != '='
    ensures StripPadding(e, s + Padding(e, |s|)) == Some(s)
  {
    var n := |s|;
    var padded := s + Padding(e, n);
    assert padded[..n] == s;
    if e.Std? && n % 4 == 2 {
      assert |padded| == n + 2 && |padded| % 4 == 0;
      assert padded[n] == '=' && padded[n + 1] == '=';
    } else if e.Std? && n % 4 == 3 {
      assert |padded| == n + 1 && |padded| % 4 == 0;
      assert padded[n - 1] == s[n - 1];
    } else {
      assert padded == s;
    }
  }

  /** Every byte string survives either encoding. */
  lemma RoundTrip(e: Encoding, data: Bytes)
    ensures Decode(e, Encode(e, data)) == Some(data)
  {
    var v := Unpack(data);
    EncodeAlphabet(e, data);
    NoNewlinesToDrop(Encode(e, data));
    LettersRoundTrip(v);
    if v != [] {
      assert Letters(v)[|v| - 1] in Letters(v);
    }
    PaddingRoundTrip(e, Letters(v));
    PackOfUnpack(data);
  }

  lemma {:induction false} DropNewlinesMiddle(before: string, after: string, newline: char)
    requires newline == '\r' || newline == '\n'
    ensures DropNewlines(before + [newline] + after) == DropNewlines(before + after)
  {
    if before == "" {
      assert before + [newline] + after == [newline] + after;
      assert ([newline] + after)[1..] == after;
      assert before + after == after;
    } else {
      DropNewlinesMiddle(before[1..], after, newline);
      assert (before + [newline] + after)[1..] == before[1..] + [newline] + after;
      assert (before + after)[1..] == before[1..] + after;
    }
  }

  /** A line break put anywhere into a text does not change what it decodes to. */
  lemma NewlinesIgnored(e: Encoding, before: string, after: string, newline: char)
    requires newline == '\r' || newline == '\n'
    ensures Decode(e, before + [newline] + after) == Decode(e, before + after)
  {
    DropNewlinesMiddle(before, after, newline);
  }
}
