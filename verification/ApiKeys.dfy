/** Client API keys: how they are made, indexed by prefix and found again from a request's token. */
module ApiKeys {
  import opened Wrappers
  import opened Text
  import opened Octets
  import Base64
  import PasswordHash

  const LIVE_PREFIX := "dm_live_"
  const PREFIX_LENGTH := 16
  const RANDOM_BYTES := 24

  const DEFAULT_PARAMS := PasswordHash.Params(64 * 1024, 3, 4)
  const SALT_LENGTH := 16
  const KEY_LENGTH: PasswordHash.Uint32 := 32

  /** A row of api_keys, as far as authentication reads it. */
  datatype KeyRow = KeyRow(id: string, prefix: string, hash: string, revoked: bool)

  function HexDigit(d: nat): char
    requires d < 16
  {
    if d < 10 then '0' + (d as char) else 'a' + ((d - 10) as char)
  }

  /** hex.EncodeToString. */
  function Hex(data: Bytes): (s: string)
    ensures |s| == 2 * |data|
    ensures forall c :: c in s ==> '0' <= c <= '9' || 'a' <= c <= 'f'
  {
    if data == [] then "" else [HexDigit(data[0] / 16), HexDigit(data[0] % 16)] + Hex(data[1..])
  }

  /** The value of a hexadecimal digit. */
  function HexValue(c: char): int {
    if '0' <= c <= '9' then c as int - '0' as int
    else if 'a' <= c <= 'f' then c as int - 'a' as int + 10
    else -1
  }

  /** Each byte is two digits, the high one first. */
  lemma {:induction false} HexReads(data: Bytes, i: nat)
    requires i < |data|
    ensures 16 * HexValue(Hex(data)[2 * i]) + HexValue(Hex(data)[2 * i + 1]) == data[i]
  {
    if i > 0 {
      HexReads(data[1..], i - 1);
      assert Hex(data)[2 * i] == Hex(data[1..])[2 * (i - 1)];
    }
  }

  function Secret(random: Bytes): (s: string)
    requires |random| == RANDOM_BYTES
    ensures |s| == 56
  {
    LIVE_PREFIX + Hex(random)
  }

  /** The fixed prefix, then the random bytes in hexadecimal; so different bytes make different secrets. */
  lemma SecretSpells(random: Bytes, i: nat)
    requires |random| == RANDOM_BYTES && i < 24
    ensures var s := Secret(random);
            s[..8] == "dm_live_" && 16 * HexValue(s[8 + 2 * i]) + HexValue(s[8 + 2 * i + 1]) == random[i]
  {
    HexReads(random, i);
  }

  lemma SecretInjective(a: Bytes, b: Bytes)
    requires |a| == RANDOM_BYTES && |b| == RANDOM_BYTES && Secret(a) == Secret(b)
    ensures a == b
  {
    forall i | 0 <= i < RANDOM_BYTES
      ensures a[i] == b[i]
    {
      SecretSpells(a, i);
      SecretSpells(b, i);
    }
  }

  /** The row GenerateAPIKey leads to, for the random bytes of the secret and of the salt. */
  function GenerateAPIKey(kdf: PasswordHash.Kdf, id: string, random: Bytes, salt: Bytes): KeyRow
    requires |random| == RANDOM_BYTES && |salt| == SALT_LENGTH
  {
    var secret := Secret(random);
    KeyRow(id, secret[..PREFIX_LENGTH],
           PasswordHash.HashPasswordWithParams(kdf, secret, DEFAULT_PARAMS, salt, KEY_LENGTH), false)
  }

  /** The row is found by the first sixteen characters of the secret, and holds a hash at the default costs. */
  lemma IssuedRow(kdf: PasswordHash.Kdf, id: string, random: Bytes, salt: Bytes)
    requires PasswordHash.FillsKey(kdf) && |random| == 24 && |salt| == 16
    ensures var row := GenerateAPIKey(kdf, id, random, salt); var parts := Split(row.hash, '$');
            && row.id == id && !row.revoked && row.prefix == Secret(random)[..16]
            && |parts| == 6 && parts[3] == "m=" + "65536" + ",t=" + "3" + ",p=" + "4"
            && exists key :: Base64.Decode(Base64.RawStd, parts[5]) == Some(key) && |key| == 32
  {
    PasswordHash.HashLayout(kdf, Secret(random), DEFAULT_PARAMS, salt, KEY_LENGTH);
    DefaultCosts();
    assert |kdf(Secret(random), salt, DEFAULT_PARAMS, KEY_LENGTH)| == 32;
  }

  lemma DefaultCosts()
    ensures Decimal(DEFAULT_PARAMS.memory) == "65536"
    ensures Decimal(DEFAULT_PARAMS.iterations) == "3" && Decimal(DEFAULT_PARAMS.parallelism) == "4"
  {
    assert Decimal(65) == "65";
    assert Decimal(655) == "655";
    assert Decimal(6553) == "6553";
  }

  predicate IsSpace(c: char) {
    c == ' ' || c == '\t' || c == '\n' || c == '\r' || c as int == 0x0b || c as int == 0x0c
  }

  function TrimLeft(s: string): string {
    if s != "" && IsSpace(s[0]) then TrimLeft(s[1..]) else s
  }

  function TrimRight(s: string): string {
    if s != "" && IsSpace(s[|s| - 1]) then TrimRight(s[..|s| - 1]) else s
  }

  function TrimSpace(s: string): string {
    TrimRight(TrimLeft(s))
  }

  /** The lookup key is taken from the trimmed token. */
  function ExtractPrefix(token: string): string {
    var t := TrimSpace(token);
    if |t| >= PREFIX_LENGTH then t[..PREFIX_LENGTH] else t
  }

  /** The white space of ASCII. */
  predicate Blank(s: string) {
    forall i :: 0 <= i < |s| ==> s[i] as int in {9, 10, 11, 12, 13, 32}
  }

  lemma {:induction false} TrimsLeft(a: string, t: string)
    requires Blank(a) && (t == "" || !Blank([t[0]]))
    ensures TrimLeft(a + t) == t
  {
    if a == "" {
      assert a + t == t;
    } else {
      TrimsLeft(a[1..], t);
      assert (a + t)[1..] == a[1..] + t;
    }
  }

  lemma {:induction false} TrimsRight(t: string, b: string)
    requires Blank(b) && (t == "" || !Blank([t[|t| - 1]]))
    ensures TrimRight(t + b) == t
  {
    if b == "" {
      assert t + b == t;
    } else {
      var n := |b| - 1;
      TrimsRight(t, b[..n]);
      assert (t + b)[..|t + b| - 1] == t + b[..n];
    }
  }

  /** Blanks around a token make no difference to where it is looked up: by its first sixteen characters, or all of
      it if there are fewer. */
  lemma PrefixOfToken(a: string, t: string, b: string)
    requires Blank(a) && Blank(b) && t != "" && !Blank([t[0]]) && !Blank([t[|t| - 1]])
    ensures TrimSpace(a + t + b) == t
    ensures ExtractPrefix(a + t + b) == if |t| >= 16 then t[..16] else t
  {
    assert a + t + b == a + (t + b) && (t + b)[0] == t[0];
    TrimsLeft(a, t + b);
    TrimsRight(t, b);
  }

  /** What the query and the loop together ask of a row: the password check uses the untrimmed token. */
  predicate Hit(kdf: PasswordHash.Kdf, row: KeyRow, token: string) {
    row.prefix == ExtractPrefix(token) && !row.revoked && PasswordHash.VerifyPassword(kdf, token, row.hash) == Ok(true)
  }

  function Candidates(table: seq<KeyRow>, prefix: string): seq<KeyRow> {
    if table == [] then []
    else (if table[0].prefix == prefix && !table[0].revoked then [table[0]] else []) + Candidates(table[1..], prefix)
  }

  lemma {:induction false} CandidatesExactly(table: seq<KeyRow>, prefix: string)
    ensures forall row :: row in Candidates(table, prefix) <==> row in table && row.prefix == prefix && !row.revoked
  {
    if table != [] {
      CandidatesExactly(table[1..], prefix);
      assert table == [table[0]] + table[1..];
    }
  }

  /** The rows the prefix query returns, collected one by one. */
  method GetAPIKeysByPrefix(table: seq<KeyRow>, prefix: string) returns (keys: seq<KeyRow>)
    ensures keys == Candidates(table, prefix)
    ensures forall row :: row in keys <==> row in table && row.prefix == prefix && !row.revoked
  {
    keys := [];
    var i := 0;
    while i < |table|
      invariant 0 <= i <= |table|
      invariant keys + Candidates(table[i..], prefix) == Candidates(table, prefix)
    {
      assert table[i..][1..] == table[i + 1..];
      if table[i].prefix == prefix && !table[i].revoked {
        keys := keys + [table[i]];
      }
      i := i + 1;
    }
    assert table[i..] == [];
    CandidatesExactly(table, prefix);
  }

  /** The candidate loop: the first row that verifies. */
  method FirstVerified(candidates: seq<KeyRow>, verifies: KeyRow -> bool) returns (matched: Option<KeyRow>)
    ensures matched.Some? ==> matched.value in candidates && verifies(matched.value)
    ensures matched.None? ==> forall row :: row in candidates ==> !verifies(row)
  {
    matched := None;
    var i := 0;
    while i < |candidates|
      invariant 0 <= i <= |candidates|
      invariant forall j :: 0 <= j < i ==> !verifies(candidates[j])
    {
      if verifies(candidates[i]) {
        matched := Some(candidates[i]);
        return;
      }
      i := i + 1;
    }
  }

  /** The authentication step: look up by prefix, then check the candidates until one matches. */
  method MatchKey(kdf: PasswordHash.Kdf, table: seq<KeyRow>, token: string) returns (matched: Option<KeyRow>)
    ensures matched.Some? ==> matched.value in table && Hit(kdf, matched.value, token)
    ensures matched.None? ==> forall row :: row in table ==> !Hit(kdf, row, token)
  {
    var prefix := ExtractPrefix(token);
    var candidates := GetAPIKeysByPrefix(table, prefix);
    matched := FirstVerified(candidates, (row: KeyRow) => PasswordHash.VerifyPassword(kdf, token, row.hash) == Ok(true));
  }

  /** A generated secret has no blank at either end, so trimming leaves it alone. */
  lemma SecretIsTrimmed(random: Bytes)
    requires |random| == RANDOM_BYTES
    ensures TrimSpace(Secret(random)) == Secret(random)
  {
    var s := Secret(random);
    assert s[0] == 'd';
    assert s[|s| - 1] == Hex(random)[|Hex(random)| - 1];
    assert s[|s| - 1] in Hex(random);
    assert TrimLeft(s) == s;
  }

  /** The token's key under a salt is not that of another secret. */
  ghost predicate NoCollision(kdf: PasswordHash.Kdf, token: string, secret: string, salt: Bytes) {
    kdf(token, salt, DEFAULT_PARAMS, KEY_LENGTH) == kdf(secret, salt, DEFAULT_PARAMS, KEY_LENGTH) ==> token == secret
  }

  /** For every token there is a key derivation of which all this is true against every secret at once. */
  lemma SomeKdfFits(token: string) returns (kdf: PasswordHash.Kdf)
    ensures PasswordHash.FillsKey(kdf)
    ensures forall secret, salt :: NoCollision(kdf, token, secret, salt)
  {
    kdf := (password: string, salt: Bytes, p: PasswordHash.Params, n: PasswordHash.Uint32) =>
      seq(n, i => (if password == token then 1 else 0) as Byte);
    forall secret, salt
      ensures NoCollision(kdf, token, secret, salt)
    {
      assert kdf(token, salt, DEFAULT_PARAMS, KEY_LENGTH)[0] == 1;
      assert token != secret ==> kdf(secret, salt, DEFAULT_PARAMS, KEY_LENGTH)[0] == 0;
    }
  }

  /** The prefix lookup agrees with comparing the token to the secret itself: for a row made by
      GenerateAPIKey, revoked since or not, it is hit exactly by its own secret while unrevoked, as long as
      the token's key does not collide with the secret's. */
  lemma LookupAgreesWithSecret(kdf: PasswordHash.Kdf, id: string, random: Bytes, salt: Bytes, revoked: bool, token: string)
    requires PasswordHash.FillsKey(kdf)
    requires |random| == RANDOM_BYTES && |salt| == SALT_LENGTH
    requires NoCollision(kdf, token, Secret(random), salt)
    ensures Hit(kdf, GenerateAPIKey(kdf, id, random, salt).(revoked := revoked), token)
            <==> !revoked && token == Secret(random)
  {
    SecretIsTrimmed(random);
    PasswordHash.OnlyThePasswordVerifies(kdf, token, Secret(random), DEFAULT_PARAMS, salt, KEY_LENGTH);
  }

  /** What is known of an issued key besides its row. */
  datatype Issued = Issued(id: string, random: Bytes, salt: Bytes, revoked: bool)

  ghost predicate Lengths(k: Issued) {
    |k.random| == RANDOM_BYTES && |k.salt| == SALT_LENGTH
  }

  ghost function RowOf(kdf: PasswordHash.Kdf, k: Issued): KeyRow
    requires Lengths(k)
  {
    GenerateAPIKey(kdf, k.id, k.random, k.salt).(revoked := k.revoked)
  }

  ghost predicate TableOf(kdf: PasswordHash.Kdf, issued: seq<Issued>, table: seq<KeyRow>) {
    && |issued| == |table|
    && (forall i :: 0 <= i < |issued| ==> Lengths(issued[i]))
    && (forall i :: 0 <= i < |issued| ==> table[i] == RowOf(kdf, issued[i]))
  }

  /** On a table of generated keys the indexed lookup finds a key exactly when a scan of all the
      secrets would, and what it finds is a key with that secret. All that is asked of the key derivation is
      that the one token does not collide with an issued secret under that secret's salt. */
  method MatchIssuedKey(kdf: PasswordHash.Kdf, ghost issued: seq<Issued>, table: seq<KeyRow>, token: string)
    returns (matched: Option<KeyRow>)
    requires PasswordHash.FillsKey(kdf) && TableOf(kdf, issued, table)
    requires forall i :: 0 <= i < |issued| ==> NoCollision(kdf, token, Secret(issued[i].random), issued[i].salt)
    ensures matched.Some? <==> exists i :: 0 <= i < |issued| && !issued[i].revoked && Secret(issued[i].random) == token
    ensures matched.Some? ==> exists i :: 0 <= i < |issued| && table[i] == matched.value
                                && !issued[i].revoked && Secret(issued[i].random) == token
  {
    matched := MatchKey(kdf, table, token);
    forall i | 0 <= i < |issued|
      ensures Hit(kdf, table[i], token) <==> !issued[i].revoked && Secret(issued[i].random) == token
    {
      var k := issued[i];
      LookupAgreesWithSecret(kdf, k.id, k.random, k.salt, k.revoked, token);
    }
    if matched.Some? {
      var i :| 0 <= i < |table| && table[i] == matched.value;
      assert Hit(kdf, table[i], token);
    } else {
      assert forall i :: 0 <= i < |table| ==> table[i] in table;
    }
  }
}
