/**
 * String helpers with the behaviour of the JavaScript string methods the
 * gateway calls: `startsWith`, `endsWith`, `split` on a one-character
 * separator, and the decimal rendering of a non-negative integer.
 */
module Text {

  predicate StartsWith(s: string, prefix: string) {
    |prefix| <= |s| && s[..|prefix|] == prefix
  }

  /** `s.endsWith(suffix)`: case-sensitive, and true when `s == suffix`. */
  predicate EndsWith(s: string, suffix: string) {
    |suffix| <= |s| && s[|s| - |suffix|..] == suffix
  }

  /** Position of the first occurrence of `c` in `s`. */
  function FirstIndex(s: string, c: char): (i: nat)
    requires c in s
    ensures i < |s| && s[i] == c
    ensures c !in s[..i]
  {
    if s[0] == c then 0
    else
      var j := FirstIndex(s[1..], c);
      assert s[..1 + j] == [s[0]] + s[1..][..j];
      1 + j
  }

  /** An occurrence with none before it is the first one. */
  lemma {:induction false} FirstIndexOf(s: string, c: char, j: nat)
    requires j < |s| && s[j] == c && c !in s[..j]
    ensures FirstIndex(s, c) == j
  {
    if j > 0 {
      assert s[..j] == [s[0]] + s[1..][..j - 1];
      FirstIndexOf(s[1..], c, j - 1);
    }
  }

  /** The inverse of `split`: the parts glued back together with `sep`. */
  function Join(parts: seq<string>, sep: char): string
    requires |parts| >= 1
  {
    if |parts| == 1 then parts[0] else parts[0] + [sep] + Join(parts[1..], sep)
  }

  /**
   * `s.split(sep)` for a one-character separator: never empty, no part
   * holds the separator, and joining the parts gives `s` back.
   */
  function Split(s: string, sep: char): (parts: seq<string>)
    ensures |parts| >= 1
    ensures forall p <- parts :: sep !in p
    ensures Join(parts, sep) == s
    decreases |s|
  {
    if sep !in s then [s]
    else
      var i := FirstIndex(s, sep);
      var rest := Split(s[i + 1..], sep);
      assert s == s[..i] + [sep] + s[i + 1..];
      [s[..i]] + rest
  }

  /** Splitting undoes joining parts that do not contain the separator. */
  lemma {:induction false} SplitJoin(parts: seq<string>, sep: char)
    requires |parts| >= 1
    requires forall p <- parts :: sep !in p
    ensures Split(Join(parts, sep), sep) == parts
  {
    if |parts| > 1 {
      var s := Join(parts, sep);
      var rest := Join(parts[1..], sep);
      assert s == parts[0] + [sep] + rest;
      assert s[|parts[0]|] == sep;
      assert s[..|parts[0]|] == parts[0];
      FirstIndexOf(s, sep, |parts[0]|);
      var i := FirstIndex(s, sep);
      assert s[..i] == parts[0];
      assert s[i + 1..] == rest;
      SplitJoin(parts[1..], sep);
      assert parts == [parts[0]] + parts[1..];
    }
  }

  predicate IsDigit(c: char) {
    '0' <= c <= '9'
  }

  function DigitChar(d: nat): (c: char)
    requires d < 10
    ensures IsDigit(c)
  {
    ('0' as int + d) as char
  }

  /** `String(n)` for a non-negative integer: its decimal digits, no leading zero. */
  function NatToDecimal(n: nat): (s: string)
    ensures |s| >= 1
    ensures forall c <- s :: IsDigit(c)
    ensures s[0] == '0' <==> n == 0
    ensures n == 0 ==> s == "0"
  {
    if n < 10 then [DigitChar(n)] else NatToDecimal(n / 10) + [DigitChar(n % 10)]
  }

  /** The number a string of decimal digits denotes. */
  function DecimalValue(s: string): nat
    requires forall c <- s :: IsDigit(c)
  {
    if s == [] then 0
    else
      assert IsDigit(s[|s| - 1]) by { assert s[|s| - 1] in s; }
      DecimalValue(s[..|s| - 1]) * 10 + (s[|s| - 1] as int - '0' as int)
  }

  /** Reading back a rendered number gives the number. */
  lemma {:induction false} DecimalRoundTrip(n: nat)
    ensures DecimalValue(NatToDecimal(n)) == n
  {
    var s := NatToDecimal(n);
    if n >= 10 {
      DecimalRoundTrip(n / 10);
      assert s[..|s| - 1] == NatToDecimal(n / 10);
    }
  }
}
