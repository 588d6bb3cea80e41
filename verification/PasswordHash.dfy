/** The encoded Argon2id hash: printing it, scanning it back and checking a password against it. */
module PasswordHash {
  import opened Wrappers
  import opened Text
  import opened Octets
  import Base64

  type Uint8 = x: int | 0 <= x < 0x100
  type Uint32 = x: int | 0 <= x < 0x1_0000_0000

  /** The cost parameters that are written into the hash. */
  datatype Params = Params(memory: Uint32, iterations: Uint32, parallelism: Uint8)

  /** What an encoded hash holds. */
  datatype Stored = Stored(params: Params, salt: Bytes, hash: Bytes)

  /** NotDerivable stands for the panic of the key derivation on costs it does not take. */
  datatype HashError = InvalidHash | IncompatibleVersion | ScanError | CorruptBase64 | NotDerivable

  /** argon2.IDKey: password, salt, parameters and key length to a key. Nothing else about it is used. */
  type Kdf = (string, Bytes, Params, Uint32) -> Bytes

  const ARGON2_VERSION: nat := 19

  /** The one law asked of the key derivation: it fills the key length asked for. */
  ghost predicate FillsKey(kdf: Kdf) {
    forall password, salt, p, n :: |kdf(password, salt, p, n)| == n
  }

  /** The key derivation takes one round, one lane and one byte of key at least. */
  predicate Derivable(p: Params, keyLength: Uint32) {
    p.iterations >= 1 && p.parallelism >= 1 && keyLength >= 1
  }

  function ParamsText(p: Params): string {
    "m=" + Decimal(p.memory) + (",t=" + Decimal(p.iterations) + (",p=" + Decimal(p.parallelism)))
  }

  function HashPasswordWithParams(kdf: Kdf, password: string, p: Params, salt: Bytes, keyLength: Uint32): string
    requires Derivable(p, keyLength)
  {
    "$argon2id$v=" + Decimal(ARGON2_VERSION) + "$" + ParamsText(p) + "$" + Base64.Encode(Base64.RawStd, salt) + "$"
    + Base64.Encode(Base64.RawStd, kdf(password, salt, p, keyLength))
  }

  // Scanning with fmt.Sscanf

  /** The runes fmt's scanner takes for blanks, line feed apart. */
  predicate IsBlank(c: char) {
    var n := c as int;
    n == 0x09 || 0x0b <= n <= 0x0d || n == 0x20 || n == 0x85 || n == 0xa0 || n == 0x1680 || 0x2000 <= n <= 0x200a
    || n == 0x2028 || n == 0x2029 || n == 0x202f || n == 0x205f || n == 0x3000
  }

  /** A verb first skips blanks; a line feed there is an error. */
  function SkipSpace(s: string): Option<string> {
    if s == "" then Some(s)
    else if s[0] == '\n' then None
    else if IsBlank(s[0]) then SkipSpace(s[1..])
    else Some(s)
  }

  /** A literal of the format must match the input rune for rune. */
  function Literal(s: string, expected: string): Option<string> {
    if HasPrefix(s, expected) then Some(s[|expected|..]) else None
  }

  function DigitRun(s: string): (n: nat)
    ensures n <= |s|
    ensures forall c :: c in s[..n] ==> IsDigit(c)
  {
    if s == "" || !IsDigit(s[0]) then 0
    else
      assert s[..1 + DigitRun(s[1..])] == [s[0]] + s[1..][..DigitRun(s[1..])];
      1 + DigitRun(s[1..])
  }

  datatype Scanned = Scanned(value: int, rest: string)

  /** %d into an unsigned integer below limit: the longest run of digits, no sign. */
  function ScanUint(s: string, limit: nat): (r: Option<Scanned>)
    ensures r.Some? ==> 0 <= r.value.value < limit
  {
    var skipped := SkipSpace(s);
    if skipped.None? then None
    else
      var t := skipped.value;
      var n := DigitRun(t);
      if n == 0 || DecimalValue(t[..n]) >= limit then None else Some(Scanned(DecimalValue(t[..n]), t[n..]))
  }

  /** A number with an optional sign. */
  function ScanSigned(t: string): Option<Scanned> {
    var signed := t != "" && (t[0] == '+' || t[0] == '-');
    var digits := if signed then t[1..] else t;
    var n := DigitRun(digits);
    if n == 0 then None
    else
      var size: int := DecimalValue(digits[..n]);
      var v := if signed && t[0] == '-' then -size else size;
      if -0x8000_0000_0000_0000 <= v < 0x8000_0000_0000_0000 then Some(Scanned(v, digits[n..])) else None
  }

  /** %d into an int: as above, after an optional sign. */
  function ScanInt(s: string): Option<Scanned> {
    var skipped := SkipSpace(s);
    if skipped.None? then None else ScanSigned(skipped.value)
  }

  function ScanVersion(s: string): Option<int> {
    var a := Literal(s, "v=");
    if a.None? then None
    else
      var b := ScanInt(a.value);
      if b.None? then None else Some(b.value.value)
  }

  /** Whatever stands after the last number is left unread. */
  function ScanParams(s: string): Option<Params> {
    var a := Literal(s, "m=");
    if a.None? then None
    else
      var m := ScanUint(a.value, 0x1_0000_0000);
      if m.None? then None
      else
        var b := Literal(m.value.rest, ",t=");
        if b.None? then None
        else
          var t := ScanUint(b.value, 0x1_0000_0000);
          if t.None? then None
          else
            var c := Literal(t.value.rest, ",p=");
            if c.None? then None
            else
              var p := ScanUint(c.value, 0x100);
              if p.None? then None else Some(Params(m.value.value, t.value.value, p.value.value))
  }

  function ParseFields(vals: seq<string>): Result<Stored, HashError> {
    if |vals| != 6 then Err(InvalidHash)
    else
      var version := ScanVersion(vals[2]);
      if version.None? then Err(ScanError)
      else if version.value != ARGON2_VERSION then Err(IncompatibleVersion)
      else
        var params := ScanParams(vals[3]);
        if params.None? then Err(ScanError)
        else
          var salt := Base64.Decode(Base64.RawStd, vals[4]);
          var hash := Base64.Decode(Base64.RawStd, vals[5]);
          if salt.None? || hash.None? then Err(CorruptBase64)
          else Ok(Stored(params.value, salt.value, hash.value))
  }

  function Parse(encoded: string): Result<Stored, HashError> {
    ParseFields(Split(encoded, '$'))
  }

  /** The decoded length, truncated to 32 bits. */
  function KeyLength(st: Stored): Uint32 {
    |st.hash| % 0x1_0000_0000
  }

  /** The constant-time comparison. */
  predicate Derives(kdf: Kdf, password: string, st: Stored) {
    kdf(password, st.salt, st.params, KeyLength(st)) == st.hash
  }

  /** What is made of a hash once it is parsed. */
  function Verdict(kdf: Kdf, password: string, st: Stored): Result<bool, HashError> {
    if Derivable(st.params, KeyLength(st)) then Ok(Derives(kdf, password, st)) else Err(NotDerivable)
  }

  function VerifyPassword(kdf: Kdf, password: string, encoded: string): Result<bool, HashError> {
    match Parse(encoded)
    case Err(e) => Err(e)
    case Ok(st) => Verdict(kdf, password, st)
  }

  // Round trip

  lemma {:induction false} DigitRunStops(digits: string, rest: string)
    requires forall c :: c in digits ==> IsDigit(c)
    requires rest == "" || !IsDigit(rest[0])
    ensures DigitRun(digits + rest) == |digits|
  {
    if digits == "" {
      assert digits + rest == rest;
    } else {
      assert digits[0] in digits;
      DigitRunStops(digits[1..], rest);
      assert (digits + rest)[1..] == digits[1..] + rest;
    }
  }

  /** A printed number is scanned back, up to the first character that is no digit. */
  lemma ScanUintPrinted(n: nat, rest: string, limit: nat)
    requires n < limit
    requires rest == "" || !IsDigit(rest[0])
    ensures ScanUint(Decimal(n) + rest, limit) == Some(Scanned(n, rest))
  {
    var s := Decimal(n) + rest;
    assert s[0] in Decimal(n);
    assert SkipSpace(s) == Some(s);
    DigitRunStops(Decimal(n), rest);
    DecimalRoundTrip(n);
    assert s[..|Decimal(n)|] == Decimal(n);
    assert s[|Decimal(n)|..] == rest;
  }

  lemma LiteralMatches(expected: string, rest: string)
    ensures Literal(expected + rest, expected) == Some(rest)
  {
  }

  lemma ScanParamsPrinted(p: Params)
    ensures ScanParams(ParamsText(p)) == Some(p)
  {
    var afterP := Decimal(p.parallelism);
    var afterT := Decimal(p.iterations) + (",p=" + afterP);
    var afterM := Decimal(p.memory) + (",t=" + afterT);
    assert ",t=" + Decimal(p.iterations) + (",p=" + afterP) == ",t=" + afterT;
    assert ParamsText(p) == "m=" + afterM;
    LiteralMatches("m=", afterM);
    ScanUintPrinted(p.memory, ",t=" + afterT, 0x1_0000_0000);
    LiteralMatches(",t=", afterT);
    ScanUintPrinted(p.iterations, ",p=" + afterP, 0x1_0000_0000);
    LiteralMatches(",p=", afterP);
    ScanUintPrinted(p.parallelism, "", 0x100);
    assert afterP + "" == afterP;
  }

  lemma ScanVersionPrinted()
    ensures ScanVersion("v=" + Decimal(ARGON2_VERSION)) == Some(ARGON2_VERSION)
  {
    var d := Decimal(ARGON2_VERSION);
    LiteralMatches("v=", d);
    assert d[0] in d;
    assert SkipSpace(d) == Some(d);
    DigitRunStops(d, "");
    assert d + "" == d;
    DecimalRoundTrip(ARGON2_VERSION);
    assert d[..|d|] == d;
  }

  function Fields(p: Params, salt: Bytes, hash: Bytes): seq<string> {
    ["", "argon2id", "v=" + Decimal(ARGON2_VERSION), ParamsText(p),
     Base64.Encode(Base64.RawStd, salt), Base64.Encode(Base64.RawStd, hash)]
  }

  lemma FieldsHoldNoDollar(p: Params, salt: Bytes, hash: Bytes)
    ensures forall i :: 0 <= i < 6 ==> '$' !in Fields(p, salt, hash)[i]
  {
  }

  lemma JoinCons(head: string, tail: seq<string>)
    requires |tail| > 0
    ensures Join([head] + tail, '$') == head + "$" + Join(tail, '$')
  {
  }

  lemma HashText(kdf: Kdf, password: string, p: Params, salt: Bytes, n: Uint32)
    requires Derivable(p, n)
    ensures HashPasswordWithParams(kdf, password, p, salt, n)
            == Join(Fields(p, salt, kdf(password, salt, p, n)), '$')
  {
    var f := Fields(p, salt, kdf(password, salt, p, n));
    JoinCons(f[4], [f[5]]);
    JoinCons(f[3], [f[4], f[5]]);
    JoinCons(f[2], [f[3], f[4], f[5]]);
    JoinCons(f[1], [f[2], f[3], f[4], f[5]]);
    JoinCons(f[0], [f[1], f[2], f[3], f[4], f[5]]);
    assert f == [f[0]] + ([f[1]] + ([f[2]] + ([f[3]] + ([f[4]] + [f[5]]))));
    HashTextFlat(f[2][2..], f[3], f[4], f[5]);
  }

  lemma HashTextFlat(v: string, m: string, salt: string, hash: string)
    ensures "$argon2id$v=" + v + "$" + m + "$" + salt + "$" + hash
            == "" + "$" + ("argon2id" + "$" + (("v=" + v) + "$" + (m + "$" + (salt + "$" + hash))))
  {
  }

  /** An encoded hash parses back to exactly the parameters, salt and key it was made of. */
  lemma ParseOfHash(kdf: Kdf, password: string, p: Params, salt: Bytes, n: Uint32)
    requires Derivable(p, n)
    ensures Parse(HashPasswordWithParams(kdf, password, p, salt, n))
            == Ok(Stored(p, salt, kdf(password, salt, p, n)))
  {
    var hash := kdf(password, salt, p, n);
    HashText(kdf, password, p, salt, n);
    FieldsHoldNoDollar(p, salt, hash);
    SplitJoin(Fields(p, salt, hash), '$');
    ScanVersionPrinted();
    ScanParamsPrinted(p);
    Base64.RoundTrip(Base64.RawStd, salt);
    Base64.RoundTrip(Base64.RawStd, hash);
  }

  /** The parts between the dollar signs, salt and key in unpadded base64. */
  lemma HashLayout(kdf: Kdf, password: string, p: Params, salt: Bytes, n: Uint32)
    requires Derivable(p, n)
    ensures var parts := Split(HashPasswordWithParams(kdf, password, p, salt, n), '$');
            && |parts| == 6 && parts[0] == "" && parts[1] == "argon2id" && parts[2] == "v=19"
            && parts[3] == "m=" + Decimal(p.memory) + ",t=" + Decimal(p.iterations) + ",p=" + Decimal(p.parallelism)
            && Base64.Decode(Base64.RawStd, parts[4]) == Some(salt)
            && Base64.Decode(Base64.RawStd, parts[5]) == Some(kdf(password, salt, p, n))
  {
    HashSplits(kdf, password, p, salt, n);
    var parts := Split(HashPasswordWithParams(kdf, password, p, salt, n), '$');
    FieldsRead(parts, p, salt, kdf(password, salt, p, n));
  }

  lemma FieldsRead(parts: seq<string>, p: Params, salt: Bytes, hash: Bytes)
    requires |parts| == 6 && parts[3] == ParamsText(p)
    requires parts[4] == Base64.Encode(Base64.RawStd, salt) && parts[5] == Base64.Encode(Base64.RawStd, hash)
    ensures parts[3] == "m=" + Decimal(p.memory) + ",t=" + Decimal(p.iterations) + ",p=" + Decimal(p.parallelism)
    ensures Base64.Decode(Base64.RawStd, parts[4]) == Some(salt) && Base64.Decode(Base64.RawStd, parts[5]) == Some(hash)
  {
    Base64.RoundTrip(Base64.RawStd, salt);
    Base64.RoundTrip(Base64.RawStd, hash);
    ParamsTextFlat(Decimal(p.memory), Decimal(p.iterations), Decimal(p.parallelism));
  }

  lemma HashSplits(kdf: Kdf, password: string, p: Params, salt: Bytes, n: Uint32)
    requires Derivable(p, n)
    ensures Split(HashPasswordWithParams(kdf, password, p, salt, n), '$')
            == ["", "argon2id", "v=19", ParamsText(p), Base64.Encode(Base64.RawStd, salt),
                Base64.Encode(Base64.RawStd, kdf(password, salt, p, n))]
  {
    var hash := kdf(password, salt, p, n);
    HashText(kdf, password, p, salt, n);
    FieldsHoldNoDollar(p, salt, hash);
    SplitJoin(Fields(p, salt, hash), '$');
    assert Decimal(1) == "1";
    assert Decimal(19) == "19" && "v=" + "19" == "v=19";
  }

  lemma ParamsTextFlat(m: string, t: string, p: string)
    ensures "m=" + m + (",t=" + t + (",p=" + p)) == "m=" + m + ",t=" + t + ",p=" + p
  {
  }

  lemma VerdictIs(kdf: Kdf, candidate: string, st: Stored, n: Uint32)
    requires |st.hash| == n && Derivable(st.params, n)
    ensures Verdict(kdf, candidate, st) == Ok(kdf(candidate, st.salt, st.params, n) == st.hash)
  {
    assert KeyLength(st) == n;
  }

  /** A password is checked against the hash of another by comparing the two derived keys, so every
      password verifies against its own hash. */
  lemma VerifyAgainstHash(kdf: Kdf, candidate: string, password: string, p: Params, salt: Bytes, n: Uint32)
    requires FillsKey(kdf) && Derivable(p, n)
    ensures VerifyPassword(kdf, candidate, HashPasswordWithParams(kdf, password, p, salt, n))
            == Ok(kdf(candidate, salt, p, n) == kdf(password, salt, p, n))
  {
    var hash := kdf(password, salt, p, n);
    ParseOfHash(kdf, password, p, salt, n);
    VerdictIs(kdf, candidate, Stored(p, salt, hash), n);
  }

  /** The verdict on a candidate is right exactly if its key does not collide with the password's. */
  lemma OnlyThePasswordVerifies(kdf: Kdf, candidate: string, password: string, p: Params, salt: Bytes, n: Uint32)
    requires FillsKey(kdf) && Derivable(p, n)
    ensures VerifyPassword(kdf, candidate, HashPasswordWithParams(kdf, password, p, salt, n)) == Ok(candidate == password)
            <==> (kdf(candidate, salt, p, n) == kdf(password, salt, p, n) ==> candidate == password)
  {
    VerifyAgainstHash(kdf, candidate, password, p, salt, n);
  }

  // What the parser accepts

  /** Tab, vertical tab, form feed, carriage return, space, next line, and the space separators of Unicode. */
  const BLANKS: set<int> :=
    {0x09, 0x0b, 0x0c, 0x0d, 0x20, 0x85, 0xa0, 0x1680, 0x2000, 0x2001, 0x2002, 0x2003, 0x2004, 0x2005, 0x2006, 0x2007, 0x2008,
     0x2009, 0x200a, 0x2028, 0x2029, 0x202f, 0x205f, 0x3000}

  lemma BlankExactly(c: char)
    ensures IsBlank(c) <==> c as int in BLANKS
  {
  }

  ghost predicate Blanks(s: string) {
    forall i :: 0 <= i < |s| ==> s[i] as int in BLANKS
  }

  /** Blanks, then the number in decimal. */
  ghost predicate SpellsUint(text: string, v: int) {
    exists blanks, digits :: text == blanks + digits && Blanks(blanks) && v >= 0 && Digits(digits, v)
  }

  /** The same under an optional sign. */
  ghost predicate SpellsInt(text: string, v: int) {
    exists blanks, number :: text == blanks + number && Blanks(blanks) && Spells(number, v)
  }

  /** A number ends where the digits do. */
  predicate Stops(rest: string) {
    rest == "" || !IsDigit(rest[0])
  }

  predicate Starts(t: string) {
    t == "" || (t[0] != '\n' && !IsBlank(t[0]))
  }

  lemma {:induction false} SkipsBlanks(blanks: string, t: string)
    requires Blanks(blanks) && Starts(t)
    ensures SkipSpace(blanks + t) == Some(t)
  {
    if blanks == "" {
      assert blanks + t == t;
    } else {
      BlankExactly(blanks[0]);
      SkipsBlanks(blanks[1..], t);
      assert (blanks + t)[1..] == blanks[1..] + t;
    }
  }

  lemma SkipsTo(blanks: string, number: string, rest: string)
    requires Blanks(blanks) && Starts(number + rest)
    ensures SkipSpace(blanks + number + rest) == Some(number + rest)
  {
    SkipsBlanks(blanks, number + rest);
    assert blanks + number + rest == blanks + (number + rest);
  }

  lemma {:induction false} SkippedBlanks(s: string, t: string) returns (blanks: string)
    requires SkipSpace(s) == Some(t)
    ensures s == blanks + t && Blanks(blanks) && Starts(t)
  {
    blanks := "";
    if s != "" && IsBlank(s[0]) {
      BlankExactly(s[0]);
      blanks := SkippedBlanks(s[1..], t);
      blanks := [s[0]] + blanks;
    }
  }

  lemma {:induction false} DigitRunEnds(s: string)
    ensures Stops(s[DigitRun(s)..])
  {
    if s != "" && IsDigit(s[0]) {
      DigitRunEnds(s[1..]);
      assert s[1 + DigitRun(s[1..])..] == s[1..][DigitRun(s[1..])..];
    }
  }

  /** The digits a run takes, and what it leaves. */
  lemma RunOfDigits(digits: string, n: nat, rest: string)
    requires Digits(digits, n) && Stops(rest)
    ensures DigitRun(digits + rest) == |digits| > 0 && (digits + rest)[..|digits|] == digits && DecimalValue(digits) == n
    ensures (digits + rest)[|digits|..] == rest && IsDigit((digits + rest)[0])
  {
    DigitsExactly(digits, n);
    DigitRunStops(digits, rest);
    assert digits[0] in digits;
  }

  lemma DigitsOfRun(s: string)
    requires DigitRun(s) > 0
    ensures Digits(s[..DigitRun(s)], DecimalValue(s[..DigitRun(s)])) && Stops(s[DigitRun(s)..])
  {
    DigitsExactly(s[..DigitRun(s)], DecimalValue(s[..DigitRun(s)]));
    DigitRunEnds(s);
  }

  lemma DigitStarts(s: string)
    requires s != "" && (IsDigit(s[0]) || s[0] == '+' || s[0] == '-')
    ensures Starts(s)
  {
  }

  lemma ScansUint(text: string, v: int, rest: string, limit: nat)
    requires SpellsUint(text, v) && v < limit && Stops(rest)
    ensures ScanUint(text + rest, limit) == Some(Scanned(v, rest))
  {
    var blanks, digits :| text == blanks + digits && Blanks(blanks) && v >= 0 && Digits(digits, v);
    RunOfDigits(digits, v, rest);
    DigitStarts(digits + rest);
    SkipsTo(blanks, digits, rest);
  }

  lemma ScannedUint(s: string, limit: nat, v: int, rest: string) returns (text: string)
    requires ScanUint(s, limit) == Some(Scanned(v, rest))
    ensures s == text + rest && SpellsUint(text, v) && v < limit && Stops(rest)
  {
    var t := SkipSpace(s).value;
    var blanks := SkippedBlanks(s, t);
    var digits := t[..DigitRun(t)];
    DigitsOfRun(t);
    text := blanks + digits;
    assert t == digits + rest;
  }

  lemma ScansSigned(number: string, v: int, rest: string)
    requires Spells(number, v) && -0x8000_0000_0000_0000 <= v < 0x8000_0000_0000_0000 && Stops(rest)
    ensures ScanSigned(number + rest) == Some(Scanned(v, rest)) && Starts(number + rest)
  {
    if v >= 0 && Digits(number, v) {
      RunOfDigits(number, v, rest);
    } else {
      SignedRun(number, if v < 0 then -v else v, rest);
    }
  }

  lemma SignedRun(number: string, size: nat, rest: string)
    requires number != "" && (number[0] == '+' || number[0] == '-') && Digits(number[1..], size) && Stops(rest)
    ensures var v: int := if number[0] == '-' then -(size as int) else size;
            -0x8000_0000_0000_0000 <= v < 0x8000_0000_0000_0000 ==> ScanSigned(number + rest) == Some(Scanned(v, rest))
    ensures Starts(number + rest)
  {
    RunOfDigits(number[1..], size, rest);
    assert (number + rest)[1..] == number[1..] + rest && (number + rest)[0] == number[0];
  }

  lemma ScannedSigned(t: string, v: int, rest: string) returns (number: string)
    requires ScanSigned(t) == Some(Scanned(v, rest))
    ensures t == number + rest && Spells(number, v) && Stops(rest)
    ensures -0x8000_0000_0000_0000 <= v < 0x8000_0000_0000_0000
  {
    if t[0] == '+' || t[0] == '-' {
      var n := DigitRun(t[1..]);
      DigitsOfRun(t[1..]);
      number := t[..1 + n];
      assert number[1..] == t[1..][..n];
    } else {
      DigitsOfRun(t);
      number := t[..DigitRun(t)];
    }
  }

  lemma ScansInt(text: string, v: int, rest: string)
    requires SpellsInt(text, v) && -0x8000_0000_0000_0000 <= v < 0x8000_0000_0000_0000 && Stops(rest)
    ensures ScanInt(text + rest) == Some(Scanned(v, rest))
  {
    var blanks, number :| text == blanks + number && Blanks(blanks) && Spells(number, v);
    ScansSigned(number, v, rest);
    SkipsTo(blanks, number, rest);
  }

  lemma ScannedInt(s: string, v: int, rest: string) returns (text: string)
    requires ScanInt(s) == Some(Scanned(v, rest))
    ensures s == text + rest && SpellsInt(text, v) && Stops(rest)
    ensures -0x8000_0000_0000_0000 <= v < 0x8000_0000_0000_0000
  {
    var t := SkipSpace(s).value;
    var blanks := SkippedBlanks(s, t);
    var number := ScannedSigned(t, v, rest);
    text := blanks + number;
  }

  /** The third field: the version, then anything that does not go on with a digit. */
  ghost predicate VersionSpelled(s: string, v: int) {
    && -0x8000_0000_0000_0000 <= v < 0x8000_0000_0000_0000
    && exists text, rest :: s == "v=" + (text + rest) && SpellsInt(text, v) && Stops(rest)
  }

  lemma VersionExactly(s: string, v: int)
    ensures ScanVersion(s) == Some(v) <==> VersionSpelled(s, v)
  {
    if ScanVersion(s) == Some(v) {
      var scanned := ScanInt(s[2..]).value;
      var text := ScannedInt(s[2..], v, scanned.rest);
      assert s == "v=" + (text + scanned.rest);
    }
    if VersionSpelled(s, v) {
      var text, rest :| s == "v=" + (text + rest) && SpellsInt(text, v) && Stops(rest);
      ScansInt(text, v, rest);
      LiteralMatches("v=", text + rest);
    }
  }

  /** The fourth field: the three costs, then anything that does not go on with a digit. */
  ghost predicate ParamsSpelled(s: string, p: Params) {
    exists m, t, l, rest ::
      s == "m=" + (m + (",t=" + (t + (",p=" + (l + rest)))))
      && SpellsUint(m, p.memory) && SpellsUint(t, p.iterations) && SpellsUint(l, p.parallelism) && Stops(rest)
  }

  lemma LiteralIs(s: string, expected: string)
    requires Literal(s, expected).Some?
    ensures s == expected + Literal(s, expected).value
  {
  }

  lemma ScansParams(m: string, t: string, l: string, rest: string, p: Params)
    requires SpellsUint(m, p.memory) && SpellsUint(t, p.iterations) && SpellsUint(l, p.parallelism) && Stops(rest)
    ensures ScanParams("m=" + (m + (",t=" + (t + (",p=" + (l + rest)))))) == Some(p)
  {
    var afterT := ",p=" + (l + rest);
    var afterM := ",t=" + (t + afterT);
    LiteralMatches("m=", m + afterM);
    ScansUint(m, p.memory, afterM, 0x1_0000_0000);
    LiteralMatches(",t=", t + afterT);
    ScansUint(t, p.iterations, afterT, 0x1_0000_0000);
    LiteralMatches(",p=", l + rest);
    ScansUint(l, p.parallelism, rest, 0x100);
  }

  lemma ScannedParams(s: string, p: Params)
    requires ScanParams(s) == Some(p)
    ensures ParamsSpelled(s, p)
  {
    LiteralIs(s, "m=");
    var a := Literal(s, "m=").value;
    var afterM := ScanUint(a, 0x1_0000_0000).value.rest;
    var m := ScannedUint(a, 0x1_0000_0000, p.memory, afterM);
    LiteralIs(afterM, ",t=");
    var b := Literal(afterM, ",t=").value;
    var afterT := ScanUint(b, 0x1_0000_0000).value.rest;
    var t := ScannedUint(b, 0x1_0000_0000, p.iterations, afterT);
    LiteralIs(afterT, ",p=");
    var c := Literal(afterT, ",p=").value;
    var rest := ScanUint(c, 0x100).value.rest;
    var l := ScannedUint(c, 0x100, p.parallelism, rest);
    assert s == "m=" + (m + (",t=" + (t + (",p=" + (l + rest)))));
  }

  lemma ParamsExactly(s: string, p: Params)
    ensures ScanParams(s) == Some(p) <==> ParamsSpelled(s, p)
  {
    if ScanParams(s) == Some(p) {
      ScannedParams(s, p);
    }
    if ParamsSpelled(s, p) {
      var m, t, l, rest :|
        s == "m=" + (m + (",t=" + (t + (",p=" + (l + rest)))))
        && SpellsUint(m, p.memory) && SpellsUint(t, p.iterations) && SpellsUint(l, p.parallelism) && Stops(rest);
      ScansParams(m, t, l, rest, p);
    }
  }

  /** Which strings parse, and to what: six fields, of which the first two say nothing; version 19; the costs; salt and key
      in unpadded base64. */
  ghost predicate Encodes(encoded: string, st: Stored) {
    var parts := Split(encoded, '$');
    && |parts| == 6 && VersionSpelled(parts[2], 19) && ParamsSpelled(parts[3], st.params)
    && Base64.Decode(Base64.RawStd, parts[4]) == Some(st.salt) && Base64.Decode(Base64.RawStd, parts[5]) == Some(st.hash)
  }

  lemma ParseExactly(encoded: string, st: Stored)
    ensures Parse(encoded) == Ok(st) <==> Encodes(encoded, st)
  {
    var parts := Split(encoded, '$');
    if |parts| == 6 {
      VersionExactly(parts[2], 19);
      ParamsExactly(parts[3], st.params);
    }
  }

  /** A password verifies against a string if and only if that encodes costs, salt and key under which it derives the key. */
  lemma VerifiesExactly(kdf: Kdf, password: string, encoded: string)
    ensures VerifyPassword(kdf, password, encoded) == Ok(true)
            <==> exists st :: Encodes(encoded, st) && st.params.iterations >= 1 && st.params.parallelism >= 1
                   && |st.hash| % 0x1_0000_0000 >= 1
                   && kdf(password, st.salt, st.params, |st.hash| % 0x1_0000_0000) == st.hash
    ensures VerifyPassword(kdf, password, encoded) == Err(NotDerivable)
            <==> exists st :: Encodes(encoded, st)
                   && (st.params.iterations == 0 || st.params.parallelism == 0 || |st.hash| % 0x1_0000_0000 == 0)
  {
    forall st
      ensures Encodes(encoded, st) <==> Parse(encoded) == Ok(st)
    {
      ParseExactly(encoded, st);
    }
  }

  /** What does not verify, and why not. */
  lemma RefusedFor(kdf: Kdf, password: string, encoded: string)
    ensures var parts := Split(encoded, '$'); var r := VerifyPassword(kdf, password, encoded);
            && (r == Err(InvalidHash) <==> |parts| != 6)
            && (r == Err(IncompatibleVersion) <==> |parts| == 6 && exists v :: v != 19 && VersionSpelled(parts[2], v))
            && (r == Err(CorruptBase64) <==>
                  |parts| == 6 && VersionSpelled(parts[2], 19) && (exists p :: ParamsSpelled(parts[3], p))
                  && (Base64.Decode(Base64.RawStd, parts[4]).None? || Base64.Decode(Base64.RawStd, parts[5]).None?))
            && (r == Err(ScanError) <==>
                  |parts| == 6 && ((forall v :: !VersionSpelled(parts[2], v))
                                   || (VersionSpelled(parts[2], 19) && forall p :: !ParamsSpelled(parts[3], p))))
  {
    var parts := Split(encoded, '$');
    if |parts| == 6 {
      forall v
        ensures VersionSpelled(parts[2], v) <==> ScanVersion(parts[2]) == Some(v)
      {
        VersionExactly(parts[2], v);
      }
      forall p
        ensures ParamsSpelled(parts[3], p) <==> ScanParams(parts[3]) == Some(p)
      {
        ParamsExactly(parts[3], p);
      }
    }
  }

  /** The verdict depends on the last four fields only: the algorithm name in front is never looked at. */
  lemma AlgorithmNameIgnored(kdf: Kdf, password: string, first: string, name: string, tail: seq<string>)
    requires |tail| == 4
    requires '$' !in first && '$' !in name && forall i :: 0 <= i < 4 ==> '$' !in tail[i]
    ensures VerifyPassword(kdf, password, Join([first, name] + tail, '$'))
            == VerifyPassword(kdf, password, Join(["", "argon2id"] + tail, '$'))
  {
    var given, usual := [first, name] + tail, ["", "argon2id"] + tail;
    SplitJoin(given, '$');
    SplitJoin(usual, '$');
    SameTailSameParse(given, usual);
  }

  lemma SameTailSameParse(a: seq<string>, b: seq<string>)
    requires |a| == |b| == 6 && a[2] == b[2] && a[3] == b[3] && a[4] == b[4] && a[5] == b[5]
    ensures ParseFields(a) == ParseFields(b)
  {
  }

  /** A string without exactly five dollar signs is refused before anything is scanned. */
  lemma {:induction false} FieldCount(encoded: string)
    ensures |Split(encoded, '$')| == 1 + multiset(encoded)['$']
    ensures multiset(encoded)['$'] != 5 ==> Parse(encoded) == Err(InvalidHash)
  {
    if encoded != "" {
      FieldCount(encoded[1..]);
      assert encoded == [encoded[0]] + encoded[1..];
    }
  }
}
