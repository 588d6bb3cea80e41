/** Splitting, joining and decimal printing of strings, as Go's strings and fmt packages do them. */
module Text {

  predicate HasPrefix(s: string, prefix: string) {
    |prefix| <= |s| && s[..|prefix|] == prefix
  }

  predicate HasSuffix(s: string, suffix: string) {
    |suffix| <= |s| && s[|s| - |suffix|..] == suffix
  }

  /** strings.Contains for a two-character needle. */
  predicate ContainsPair(s: string, a: char, b: char) {
    exists i :: 0 <= i < |s| - 1 && s[i] == a && s[i + 1] == b
  }

  /** strings.Split on a one-character separator: always at least one part. */
  function Split(s: string, sep: char): (parts: seq<string>)
    ensures |parts| > 0
  {
    if s == "" then [""]
    else
      var rest := Split(s[1..], sep);
      if s[0] == sep then [""] + rest else [[s[0]] + rest[0]] + rest[1..]
  }

  /** strings.Join. */
  function Join(parts: seq<string>, sep: char): string {
    if |parts| == 0 then ""
    else if |parts| == 1 then parts[0]
    else parts[0] + [sep] + Join(parts[1..], sep)
  }

  lemma SplitCons(c: char, rest: string, sep: char)
    ensures Split([c] + rest, sep)
            == if c == sep then [""] + Split(rest, sep) else [[c] + Split(rest, sep)[0]] + Split(rest, sep)[1..]
  {
  }

  lemma {:induction false} SplitAppend(a: string, b: string, sep: char)
    ensures Split(a + [sep] + b, sep) == Split(a, sep) + Split(b, sep)
  {
    if a == "" {
      SplitCons(sep, b, sep);
      assert a + [sep] + b == [sep] + b;
    } else {
      var c, tail := a[0], a[1..];
      SplitAppend(tail, b, sep);
      SplitCons(c, tail, sep);
      SplitCons(c, tail + [sep] + b, sep);
      assert a == [c] + tail;
      assert a + [sep] + b == [c] + (tail + [sep] + b);
      SplitJoined(c, Split(tail, sep), Split(b, sep), sep);
    }
  }

  lemma SplitJoined(c: char, x: seq<string>, y: seq<string>, sep: char)
    requires |x| > 0
    ensures (if c == sep then [""] + (x + y) else [[c] + (x + y)[0]] + (x + y)[1..])
            == (if c == sep then [""] + x else [[c] + x[0]] + x[1..]) + y
  {
  }

  lemma {:induction false} SplitPlain(s: string, sep: char)
    requires sep !in s
    ensures Split(s, sep) == [s]
  {
    if s != "" {
      SplitPlain(s[1..], sep);
      assert [s[0]] + s[1..] == s;
    }
  }

  /** Splitting undoes joining when no part holds the separator. */
  lemma {:induction false} SplitJoin(parts: seq<string>, sep: char)
    requires |parts| > 0
    requires forall i :: 0 <= i < |parts| ==> sep !in parts[i]
    ensures Split(Join(parts, sep), sep) == parts
  {
    SplitPlain(parts[0], sep);
    if |parts| > 1 {
      SplitJoin(parts[1..], sep);
      SplitAppend(parts[0], Join(parts[1..], sep), sep);
      assert [parts[0]] + parts[1..] == parts;
    } else {
      assert parts == [parts[0]];
    }
  }

  /** Joining undoes splitting, and no part of a split holds the separator. */
  lemma {:induction false} JoinSplit(s: string, sep: char)
    ensures Join(Split(s, sep), sep) == s
    ensures forall i :: 0 <= i < |Split(s, sep)| ==> sep !in Split(s, sep)[i]
  {
    if s != "" {
      JoinSplit(s[1..], sep);
      var rest := Split(s[1..], sep);
      if s[0] == sep {
        assert ([""] + rest)[1..] == rest;
        assert Join([""] + rest, sep) == "" + [sep] + Join(rest, sep);
        assert s == [sep] + s[1..];
      } else {
        var parts := [[s[0]] + rest[0]] + rest[1..];
        assert parts[1..] == rest[1..];
        if |rest| == 1 {
          assert Join(rest, sep) == rest[0];
          assert s == [s[0]] + s[1..];
        } else {
          assert Join(parts, sep) == [s[0]] + rest[0] + [sep] + Join(rest[1..], sep);
          assert Join(parts, sep) == [s[0]] + (rest[0] + [sep] + Join(rest[1..], sep));
          assert s == [s[0]] + s[1..];
        }
      }
    }
  }

  // Decimal numbers

  predicate IsDigit(c: char) { '0' <= c <= '9' }

  function DigitChar(d: nat): char
    requires d < 10
  {
    '0' + (d as char)
  }

  function DigitValue(c: char): nat
    requires IsDigit(c)
  {
    (c - '0') as nat
  }

  /** The %d verb for a natural number. */
  function Decimal(n: nat): (s: string)
    ensures |s| > 0
    ensures forall c :: c in s ==> IsDigit(c)
  {
    if n < 10 then [DigitChar(n)] else Decimal(n / 10) + [DigitChar(n % 10)]
  }

  /** The value of a run of decimal digits. */
  function DecimalValue(s: string): nat
    requires forall c :: c in s ==> IsDigit(c)
  {
    if s == "" then 0 else 10 * DecimalValue(s[..|s| - 1]) + DigitValue(s[|s| - 1])
  }

  lemma {:induction false} DecimalRoundTrip(n: nat)
    ensures DecimalValue(Decimal(n)) == n
  {
    if n < 10 {
      assert Decimal(n)[..0] == "";
    } else {
      DecimalRoundTrip(n / 10);
      assert Decimal(n)[..|Decimal(n)| - 1] == Decimal(n / 10);
    }
  }

  /** Decimal digits, padded with zeros to a width; larger numbers take what they need. */
  function Pad(n: nat, w: nat): string
    decreases n + w
  {
    if n < 10 && w <= 1 then [DigitChar(n)] else Pad(n / 10, if w > 0 then w - 1 else 0) + [DigitChar(n % 10)]
  }

  lemma {:induction false} PadDigits(n: nat, w: nat)
    ensures |Pad(n, w)| > 0 && forall c :: c in Pad(n, w) ==> IsDigit(c)
    decreases n + w
  {
    if !(n < 10 && w <= 1) {
      PadDigits(n / 10, if w > 0 then w - 1 else 0);
    }
  }

  lemma {:induction false} PadReads(n: nat, width: nat)
    requires forall c :: c in Pad(n, width) ==> IsDigit(c)
    ensures DecimalValue(Pad(n, width)) == n
    decreases n + width
  {
    if !(n < 10 && width <= 1) {
      var w := if width > 0 then width - 1 else 0;
      var front := Pad(n / 10, w);
      PadDigits(n / 10, w);
      PadReads(n / 10, w);
      assert Pad(n, width)[..|Pad(n, width)| - 1] == front;
    }
  }

  /** The number in decimal, with zeros in front or not. */
  ghost predicate Digits(s: string, n: nat) {
    exists w: nat :: s == Pad(n, w)
  }

  /** A number under an optional sign. */
  ghost predicate Spells(s: string, v: int) {
    || (v >= 0 && Digits(s, v))
    || (v >= 0 && s != "" && s[0] == '+' && Digits(s[1..], v))
    || (v <= 0 && s != "" && s[0] == '-' && Digits(s[1..], -v))
  }

  lemma PadGrows(n: nat, d: nat, w: nat)
    requires d < 10 && w >= 1
    ensures Pad(10 * n + d, w + 1) == Pad(n, w) + [DigitChar(d)]
  {
    assert (10 * n + d) / 10 == n && (10 * n + d) % 10 == d;
  }

  lemma {:induction false} DigitsArePadded(s: string)
    requires s != "" && forall c :: c in s ==> IsDigit(c)
    ensures s == Pad(DecimalValue(s), |s|)
  {
    var front, last := s[..|s| - 1], s[|s| - 1];
    assert s == front + [last];
    LastDigit(front, last);
    if front != "" {
      DigitsArePadded(front);
      PadGrows(DecimalValue(front), DigitValue(last), |front|);
    }
  }

  lemma LastDigit(front: string, last: char)
    requires (forall c :: c in front ==> IsDigit(c)) && IsDigit(last)
    ensures DecimalValue(front + [last]) == 10 * DecimalValue(front) + DigitValue(last)
    ensures DigitChar(DigitValue(last)) == last
    ensures front == "" ==> DecimalValue(front) == 0
  {
    assert (front + [last])[..|front|] == front;
  }

  lemma DigitsExactly(s: string, n: nat)
    ensures Digits(s, n) <==> s != "" && (forall c :: c in s ==> IsDigit(c)) && DecimalValue(s) == n
  {
    if Digits(s, n) {
      var w: nat :| s == Pad(n, w);
      PadDigits(n, w);
      PadReads(n, w);
    } else if s != "" && forall c :: c in s ==> IsDigit(c) {
      DigitsArePadded(s);
    }
  }

  lemma DigitFirst(s: string, n: nat)
    requires Digits(s, n)
    ensures s != "" && IsDigit(s[0])
  {
    DigitsExactly(s, n);
  }
}
