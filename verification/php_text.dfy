/** The small part of PHP's string and number semantics the upload helper relies on:
    `empty()` on strings, decimal rendering of integers, the digit runs matched by
    `[0-9]+$`, `trim`, `join`/`implode`, `explode` and the `(int)` cast. */
module PhpText {

  datatype Option<+T> = None | Some(value: T)

  /** PHP's `empty($s)` for a string value: only "" and "0" are empty. */
  predicate IsEmpty(s: string) {
    s == "" || s == "0"
  }

  /** A field of a course data row; a missing (or null) field reads as "", which
      empty() treats like the empty string. */
  function Field(data: map<string, string>, key: string): string {
    if key in data then data[key] else ""
  }

  predicate IsDigit(c: char) {
    '0' <= c <= '9'
  }

  predicate AllDigits(s: string) {
    forall i :: 0 <= i < |s| ==> IsDigit(s[i])
  }

  function DigitChar(d: nat): (c: char)
    requires d < 10
    ensures IsDigit(c)
  {
    ('0' as int + d) as char
  }

  /** The value of a decimal digit (0 for any other character). */
  function DigitValue(c: char): (d: nat)
    ensures d < 10
  {
    if IsDigit(c) then (c as int - '0' as int) as nat else 0
  }

  lemma DigitRoundTrip(d: nat)
    requires d < 10
    ensures DigitValue(DigitChar(d)) == d
  {
  }

  /** The decimal text PHP produces for a non-negative integer (`(string) $n`). */
  function Dec(n: nat): (r: string)
    ensures r != [] && AllDigits(r)
    ensures n >= 10 ==> r[0] != '0'
    decreases n
  {
    if n < 10 then [DigitChar(n)] else Dec(n / 10) + [DigitChar(n % 10)]
  }

  /** The integer value of a run of decimal digits (leading zeros allowed). */
  function Val(s: string): nat
    decreases |s|
  {
    if s == [] then 0 else Val(s[..|s| - 1]) * 10 + DigitValue(s[|s| - 1])
  }

  lemma {:induction false} ValDec(n: nat)
    ensures Val(Dec(n)) == n
    decreases n
  {
    if n >= 10 {
      ValDec(n / 10);
      var d := Dec(n);
      assert d[..|d| - 1] == Dec(n / 10);
      DigitRoundTrip(n % 10);
    } else {
      DigitRoundTrip(n);
    }
  }

  /** Dec is injective: different numbers have different decimal texts. */
  lemma DecInjective(m: nat, n: nat)
    requires Dec(m) == Dec(n)
    ensures m == n
  {
    ValDec(m);
    ValDec(n);
  }

  function Pow10(k: nat): (p: nat)
    ensures p >= 1
  {
    if k == 0 then 1 else 10 * Pow10(k - 1)
  }

  /** A number whose decimal text has at most k digits is below 10^k. */
  lemma {:induction false} DecLengthBound(n: nat, k: nat)
    requires |Dec(n)| <= k
    ensures n < Pow10(k)
    decreases n
  {
    if n >= 10 {
      assert |Dec(n / 10)| == |Dec(n)| - 1;
      DecLengthBound(n / 10, k - 1);
    }
  }

  /** The characters PHP's trim() removes by default: " \t\n\r\0\x0B". */
  predicate IsTrimmable(c: char) {
    c == ' ' || c == '\t' || c == '\n' || c == '\r' || c == '\0' || c == '\U{000B}'
  }

  function TrimLeft(s: string): string
    decreases |s|
  {
    if s != [] && IsTrimmable(s[0]) then TrimLeft(s[1..]) else s
  }

  function TrimRight(s: string): string
    decreases |s|
  {
    if s != [] && IsTrimmable(s[|s| - 1]) then TrimRight(s[..|s| - 1]) else s
  }

  /** PHP's trim() with its default character list. */
  function Trim(s: string): string {
    TrimRight(TrimLeft(s))
  }

  lemma {:induction false} TrimLeftProps(s: string)
    ensures var r := TrimLeft(s); |r| <= |s| && r == s[|s| - |r|..] && (r == [] || !IsTrimmable(r[0]))
    decreases |s|
  {
    if s != [] && IsTrimmable(s[0]) {
      TrimLeftProps(s[1..]);
    }
  }

  lemma {:induction false} TrimRightProps(s: string)
    ensures var r := TrimRight(s); r <= s && (r == [] || !IsTrimmable(r[|r| - 1]))
    decreases |s|
  {
    if s != [] && IsTrimmable(s[|s| - 1]) {
      TrimRightProps(s[..|s| - 1]);
    }
  }

  /** trim() leaves a string that neither starts nor ends with a trimmable character. */
  lemma TrimResult(s: string)
    ensures Trim(s) == [] || (!IsTrimmable(Trim(s)[0]) && !IsTrimmable(Trim(s)[|Trim(s)| - 1]))
  {
    var l := TrimLeft(s);
    TrimLeftProps(s);
    TrimRightProps(l);
    assert Trim(s) <= l;
  }

  /** Everything trim() strips on the left is trimmable. */
  lemma {:induction false} TrimLeftStrips(s: string)
    ensures forall i :: 0 <= i < |s| - |TrimLeft(s)| ==> IsTrimmable(s[i])
    decreases |s|
  {
    if s != [] && IsTrimmable(s[0]) {
      TrimLeftStrips(s[1..]);
      forall i | 1 <= i < |s| - |TrimLeft(s)| ensures IsTrimmable(s[i]) {
        assert s[i] == s[1..][i - 1];
      }
    }
  }

  /** Stripping on the right stops at the last non-trimmable character. */
  lemma {:induction false} TrimRightKeeps(s: string, k: nat)
    requires k < |s| && !IsTrimmable(s[k])
    ensures |TrimRight(s)| > k
    decreases |s|
  {
    if IsTrimmable(s[|s| - 1]) {
      TrimRightKeeps(s[..|s| - 1], k);
    }
  }

  /** A non-trimmable character at k survives trim(): at most k characters are
      stripped on the left, and the result reaches past that character. */
  lemma TrimKeeps(s: string, k: nat)
    requires k < |s| && !IsTrimmable(s[k])
    ensures |s| - |TrimLeft(s)| <= k
    ensures |Trim(s)| > k - (|s| - |TrimLeft(s)|)
  {
    var m := |s| - |TrimLeft(s)|;
    TrimLeftStrips(s);
    TrimLeftProps(s);
    assert TrimLeft(s)[k - m] == s[k];
    TrimRightKeeps(TrimLeft(s), k - m);
  }

  /** PHP's join($sep, $parts) / implode. */
  function Join(parts: seq<string>, sep: string): string
    decreases |parts|
  {
    if parts == [] then ""
    else if |parts| == 1 then parts[0]
    else parts[0] + sep + Join(parts[1..], sep)
  }

  /** Joining one more part appends the separator and that part. */
  lemma {:induction false} JoinSnoc(parts: seq<string>, x: string, sep: string)
    requires parts != []
    ensures Join(parts + [x], sep) == Join(parts, sep) + sep + x
    decreases |parts|
  {
    if |parts| == 1 {
      assert (parts + [x])[1..] == [x];
    } else {
      JoinSnoc(parts[1..], x, sep);
      assert (parts + [x])[1..] == parts[1..] + [x];
    }
  }

  /** PHP's explode($sep, $s): split at every non-overlapping occurrence of sep,
      scanning left to right. */
  function Explode(s: string, sep: string): (r: seq<string>)
    requires sep != []
    ensures |r| >= 1
    decreases |s|
  {
    if sep <= s then [""] + Explode(s[|sep|..], sep)
    else if s == [] then [""]
    else
      var rest := Explode(s[1..], sep);
      [[s[0]] + rest[0]] + rest[1..]
  }

  /** Prepending text to the first part prepends it to the joined string. */
  lemma JoinPrependFirst(a: string, parts: seq<string>, sep: string)
    requires parts != []
    ensures Join([a + parts[0]] + parts[1..], sep) == a + Join(parts, sep)
  {
    var q := [a + parts[0]] + parts[1..];
    if |parts| > 1 {
      assert q[1..] == parts[1..];
    }
  }

  /** explode is undone by join with the same separator. */
  lemma {:induction false} JoinExplode(s: string, sep: string)
    requires sep != []
    ensures Join(Explode(s, sep), sep) == s
    decreases |s|, 1
  {
    if sep <= s {
      JoinExplodeAtSep(s, sep);
    } else if s != [] {
      JoinExplodeAtChar(s, sep);
    }
  }

  /** The case where s starts with the separator: an empty first part. */
  lemma {:induction false} JoinExplodeAtSep(s: string, sep: string)
    requires sep != [] && sep <= s
    ensures Join(Explode(s, sep), sep) == s
    decreases |s|, 0
  {
    var tail := s[|sep|..];
    JoinExplode(tail, sep);
    JoinEmptyFirst(Explode(tail, sep), sep);
    assert s == sep + tail;
  }

  /** An empty first part contributes only the separator. */
  lemma JoinEmptyFirst(rest: seq<string>, sep: string)
    requires rest != []
    ensures Join([""] + rest, sep) == sep + Join(rest, sep)
  {
    var parts := [""] + rest;
    assert parts[1..] == rest;
    assert "" + sep == sep;
  }

  /** The case where s starts with a character that does not begin a separator. */
  lemma {:induction false} JoinExplodeAtChar(s: string, sep: string)
    requires sep != [] && !(sep <= s) && s != []
    ensures Join(Explode(s, sep), sep) == s
    decreases |s|, 0
  {
    var rest := Explode(s[1..], sep);
    JoinExplode(s[1..], sep);
    JoinPrependFirst([s[0]], rest, sep);
    assert s == [s[0]] + s[1..];
  }

  predicate IsIntSpace(c: char) {
    c == ' ' || c == '\t' || c == '\n' || c == '\r' || c == '\U{000B}' || c == '\U{000C}'
  }

  function SkipSpace(s: string): (r: string)
    ensures |r| <= |s|
    decreases |s|
  {
    if s != [] && IsIntSpace(s[0]) then SkipSpace(s[1..]) else s
  }

  function DigitPrefix(s: string): (r: string)
    ensures r <= s && AllDigits(r)
    ensures |r| < |s| ==> !IsDigit(s[|r|])
    decreases |s|
  {
    if s != [] && IsDigit(s[0]) then [s[0]] + DigitPrefix(s[1..]) else []
  }

  lemma {:induction false} DigitPrefixAll(s: string)
    requires AllDigits(s)
    ensures DigitPrefix(s) == s
    decreases |s|
  {
    if s != [] {
      DigitPrefixAll(s[1..]);
    }
  }

  /** The text the anchor `$` sees as the end: PCRE's `$` also matches just
      before one final "\n". */
  function StripFinalNewline(s: string): (e: string)
    ensures e <= s
  {
    if s != [] && s[|s| - 1] == '\n' then s[..|s| - 1] else s
  }

  /** Where the run of digits starting at position j ends. */
  function DigitsEnd(t: string, j: nat): (k: nat)
    requires j <= |t|
    ensures j <= k <= |t|
    decreases |t| - j
  {
    if j < |t| && IsDigit(t[j]) then DigitsEnd(t, j + 1) else j
  }

  lemma {:induction false} DigitsEndRun(t: string, j: nat)
    requires j <= |t|
    ensures AllDigits(t[j..DigitsEnd(t, j)])
    ensures DigitsEnd(t, j) < |t| ==> !IsDigit(t[DigitsEnd(t, j)])
    decreases |t| - j
  {
    if j < |t| && IsDigit(t[j]) {
      DigitsEndRun(t, j + 1);
      var k := DigitsEnd(t, j);
      assert t[j..k] == [t[j]] + t[j + 1..k];
    }
  }

  /** A digit run d written at j and followed by a non-digit (or the end) is
      exactly the run DigitsEnd finds. */
  lemma {:induction false} DigitsEndOver(t: string, j: nat, d: string)
    requires j + |d| <= |t| && t[j..j + |d|] == d && AllDigits(d)
    requires j + |d| == |t| || !IsDigit(t[j + |d|])
    ensures DigitsEnd(t, j) == j + |d|
    decreases |d|
  {
    if d != [] {
      assert t[j] == d[0];
      assert t[j + 1..j + 1 + |d[1..]|] == d[1..];
      DigitsEndOver(t, j + 1, d[1..]);
    }
  }

  /** PHP's (int) cast of a string in its integer form: leading white space, an
      optional sign and the longest run of decimal digits; anything else gives 0. */
  function Intval(s: string): int {
    var t := SkipSpace(s);
    if t != [] && t[0] == '-' then 0 - Val(DigitPrefix(t[1..]))
    else if t != [] && t[0] == '+' then Val(DigitPrefix(t[1..]))
    else Val(DigitPrefix(t))
  }

  /** Casting the decimal text of n back to an integer gives n. */
  lemma IntvalDec(n: nat)
    ensures Intval(Dec(n)) == n
  {
    var d := Dec(n);
    assert !IsIntSpace(d[0]);
    assert SkipSpace(d) == d;
    DigitPrefixAll(d);
    ValDec(n);
  }
}
