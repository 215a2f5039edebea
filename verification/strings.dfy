/**
 * The Python string and integer operations the benchmark scripts rely on, written out
 * over `string` (= seq<char>) and `nat`: `str.split` on a one-character separator,
 * `str.join`, `str.replace`, `str.startswith` / `str.endswith`, `str.strip`,
 * `str.lower`, `int()` on a run of ASCII digits, and the format specifications
 * `{:0w}` (zero padding) and `{:_}` (digit grouping with underscores).
 */
module Strings {

  datatype Option<+T> = None | Some(value: T)

  /** The outcome of an operation that raises an exception in the scripts. */
  datatype Result<+T, +E> = Success(value: T) | Failure(error: E)

  // ---------------------------------------------------------------------------
  // Prefixes, suffixes, occurrences

  predicate StartsWith(s: string, p: string) {
    |p| <= |s| && s[..|p|] == p
  }

  predicate EndsWith(s: string, p: string) {
    |p| <= |s| && s[|s| - |p|..] == p
  }

  /** Python's `p in s`. */
  predicate Occurs(s: string, p: string)
    decreases |s|
  {
    StartsWith(s, p) || (|s| > 0 && Occurs(s[1..], p))
  }

  /** Python's `s.replace(p, r)`: every non-overlapping occurrence, scanning left to right. */
  function ReplaceAll(s: string, p: string, r: string): string
    requires |p| > 0
    decreases |s|
  {
    if StartsWith(s, p) then r + ReplaceAll(s[|p|..], p, r)
    else if s == [] then []
    else [s[0]] + ReplaceAll(s[1..], p, r)
  }

  /** Replacing a pattern that does not occur changes nothing. */
  lemma {:induction false} ReplaceAllAbsent(s: string, p: string, r: string)
    requires |p| > 0 && !Occurs(s, p)
    ensures ReplaceAll(s, p, r) == s
    decreases |s|
  {
    if s != [] {
      ReplaceAllAbsent(s[1..], p, r);
    }
  }

  /**
   * Replacing a pattern appended to `a` replaces only that copy, when `a` holds no
   * occurrence and no occurrence can start in `a` and run into the appended copy.
   */
  lemma {:induction false} ReplaceAllSuffix(a: string, p: string, r: string)
    requires |p| > 0 && !Occurs(a, p)
    requires forall k | 0 < k < |p| :: !EndsWith(a, p[..k])
    ensures ReplaceAll(a + p, p, r) == a + r
    decreases |a|
  {
    if a == [] {
      assert a + p == p && p[|p|..] == [];
    } else {
      var s := a + p;
      assert !StartsWith(a, p) && !Occurs(a[1..], p);
      NoMatchAtSeam(a, p);
      assert s[1..] == a[1..] + p;
      SuffixFreeTail(a, p);
      ReplaceAllSuffix(a[1..], p, r);
      assert ReplaceAll(s, p, r) == [s[0]] + ReplaceAll(s[1..], p, r);
      assert [a[0]] + (a[1..] + r) == a + r;
    }
  }

  /** No occurrence starts at the front of `a + p` when none lies in `a` or runs from `a` into `p`. */
  lemma NoMatchAtSeam(a: string, p: string)
    requires |a| > 0 && |p| > 0 && !StartsWith(a, p)
    requires forall k | 0 < k < |p| :: !EndsWith(a, p[..k])
    ensures !StartsWith(a + p, p)
  {
    var s := a + p;
    if |a| >= |p| {
      assert s[..|p|] == a[..|p|];
    } else {
      assert s[..|p|][..|a|] == a && a[0..] == a;
      assert !EndsWith(a, p[..|a|]);
    }
  }

  /** Dropping the first character keeps `a` free of proper prefixes of `p` at its end. */
  lemma SuffixFreeTail(a: string, p: string)
    requires |a| > 0 && forall k | 0 < k < |p| :: !EndsWith(a, p[..k])
    ensures forall k | 0 < k < |p| :: !EndsWith(a[1..], p[..k])
  {
    forall k | 0 < k < |p| ensures !EndsWith(a[1..], p[..k]) {
      EndsWithOfTail(a, p[..k]);
    }
  }

  /** A suffix of `a` without its first character is a suffix of `a`. */
  lemma EndsWithOfTail(a: string, q: string)
    requires |a| > 0
    ensures EndsWith(a[1..], q) ==> EndsWith(a, q)
  {
    var t := a[1..];
    if |q| <= |t| {
      assert t[|t| - |q|..] == a[|a| - |q|..];
    }
  }

  /** A one-character pattern cannot straddle a seam, so replacing it distributes over `+`. */
  lemma {:induction false} ReplaceAllAppend(a: string, b: string, p: string, r: string)
    requires |p| == 1
    ensures ReplaceAll(a + b, p, r) == ReplaceAll(a, p, r) + ReplaceAll(b, p, r)
    decreases |a|
  {
    if a != [] {
      assert (a + b)[1..] == a[1..] + b;
      assert StartsWith(a + b, p) == StartsWith(a, p);
      ReplaceAllAppend(a[1..], b, p, r);
    } else {
      assert a + b == b;
    }
  }

  /**
   * A pattern that does not contain `c` occurs in `a + [c] + b` only if it occurs in
   * `a` or in `b`.
   */
  lemma {:induction false} OccursAcrossSeparator(a: string, c: char, b: string, p: string)
    requires |p| > 0 && c !in p
    requires !Occurs(a, p) && !Occurs(b, p)
    ensures !Occurs(a + [c] + b, p)
    decreases |a|
  {
    var s := a + [c] + b;
    if |p| <= |a| {
      assert s[..|p|] == a[..|p|];
    } else if |p| <= |s| {
      assert s[..|p|][|a|] == c;
    }
    assert !StartsWith(s, p);
    if a == [] {
      assert s[1..] == b;
    } else {
      assert s[1..] == a[1..] + [c] + b;
      OccursAcrossSeparator(a[1..], c, b, p);
    }
  }

  /** A pattern starting with a character that `s` lacks does not occur in `s`. */
  lemma {:induction false} OccursNeedsFirstChar(s: string, p: string)
    requires |p| > 0 && p[0] !in s
    ensures !Occurs(s, p)
    decreases |s|
  {
    if s != [] && |p| <= |s| {
      assert s[..|p|][0] == s[0];
    }
    if s != [] {
      OccursNeedsFirstChar(s[1..], p);
    }
  }

  // ---------------------------------------------------------------------------
  // split and join on one character

  /** Python's `s.split(sep)` for a one-character separator: one more part than separators. */
  function Split(s: string, sep: char): (parts: seq<string>)
    ensures |parts| > 0
    decreases |s|
  {
    if s == [] then [""]
    else
      var rest := Split(s[1..], sep);
      if s[0] == sep then [""] + rest else [[s[0]] + rest[0]] + rest[1..]
  }

  /** Python's `sep.join(parts)`. */
  function Join(sep: char, parts: seq<string>): string
    decreases |parts|
  {
    if |parts| == 0 then ""
    else if |parts| == 1 then parts[0]
    else parts[0] + [sep] + Join(sep, parts[1..])
  }

  /** No part of a split holds the separator. */
  lemma {:induction false} SplitPartsLackSeparator(s: string, sep: char)
    ensures forall part <- Split(s, sep) :: sep !in part
    decreases |s|
  {
    if s != [] {
      SplitPartsLackSeparator(s[1..], sep);
    }
  }

  /** Joining the parts of a split gives back the string. */
  lemma {:induction false} JoinSplit(s: string, sep: char)
    ensures Join(sep, Split(s, sep)) == s
    decreases |s|
  {
    if s != [] {
      var rest := Split(s[1..], sep);
      JoinSplit(s[1..], sep);
      if s[0] == sep {
        assert ([""] + rest)[1..] == rest;
      } else {
        var parts := [[s[0]] + rest[0]] + rest[1..];
        if |rest| > 1 {
          assert parts[1..] == rest[1..];
          assert Join(sep, rest) == rest[0] + [sep] + Join(sep, rest[1..]);
        }
      }
    }
  }

  /** A split has one part more than the string has separators. */
  lemma {:induction false} SplitCount(s: string, sep: char)
    ensures |Split(s, sep)| == multiset(s)[sep] + 1
    decreases |s|
  {
    if s != [] {
      SplitCount(s[1..], sep);
      assert s == [s[0]] + s[1..];
      assert multiset(s) == multiset([s[0]]) + multiset(s[1..]);
    }
  }

  /** Splitting `x + t` where `x` has no separator glues `x` onto the first part of `t`. */
  lemma {:induction false} SplitPrefix(x: string, t: string, sep: char)
    requires sep !in x
    ensures Split(x + t, sep) == [x + Split(t, sep)[0]] + Split(t, sep)[1..]
    decreases |x|
  {
    if x != [] {
      assert (x + t)[0] == x[0] && x[0] != sep;
      assert (x + t)[1..] == x[1..] + t;
      SplitPrefix(x[1..], t, sep);
      assert [x[0]] + (x[1..] + Split(t, sep)[0]) == x + Split(t, sep)[0];
    } else {
      var st := Split(t, sep);
      assert x + t == t && x + st[0] == st[0];
      assert st == [st[0]] + st[1..];
    }
  }

  /** Splitting a join of separator-free parts gives back the parts. */
  lemma {:induction false} SplitJoin(xs: seq<string>, sep: char)
    requires |xs| > 0
    requires forall x <- xs :: sep !in x
    ensures Split(Join(sep, xs), sep) == xs
    decreases |xs|
  {
    if |xs| == 1 {
      SplitPrefix(xs[0], "", sep);
      assert xs[0] + "" == xs[0];
    } else {
      var tail := Join(sep, xs[1..]);
      SplitJoin(xs[1..], sep);
      assert xs[0] + [sep] + tail == xs[0] + ([sep] + tail);
      SplitPrefix(xs[0], [sep] + tail, sep);
      assert ([sep] + tail)[1..] == tail;
      assert Split([sep] + tail, sep) == [""] + Split(tail, sep);
      assert Join(sep, xs) == xs[0] + [sep] + tail;
      assert xs[0] + "" == xs[0];
      assert xs == [xs[0]] + xs[1..];
    }
  }

  // ---------------------------------------------------------------------------
  // strip and lower

  /** The ASCII characters for which Python's `str.isspace()` holds. */
  predicate IsSpace(c: char) {
    c == ' ' || 9 <= c as int <= 13 || 28 <= c as int <= 31
  }

  function StripLeft(s: string): string
    decreases |s|
  {
    if s != [] && IsSpace(s[0]) then StripLeft(s[1..]) else s
  }

  function StripRight(s: string): string
    decreases |s|
  {
    if s != [] && IsSpace(s[|s| - 1]) then StripRight(s[..|s| - 1]) else s
  }

  /** Python's `s.strip()`, restricted to ASCII whitespace. */
  function Strip(s: string): string {
    StripRight(StripLeft(s))
  }

  lemma {:induction false} StripLeftInfix(s: string) returns (i: nat)
    ensures i <= |s| && StripLeft(s) == s[i..]
    ensures forall k | 0 <= k < i :: IsSpace(s[k])
    ensures StripLeft(s) == [] || !IsSpace(StripLeft(s)[0])
    decreases |s|
  {
    if s != [] && IsSpace(s[0]) {
      var j := StripLeftInfix(s[1..]);
      i := j + 1;
    } else {
      i := 0;
    }
  }

  lemma {:induction false} StripRightInfix(s: string) returns (j: nat)
    ensures j <= |s| && StripRight(s) == s[..j]
    ensures forall k | j <= k < |s| :: IsSpace(s[k])
    ensures StripRight(s) == [] || !IsSpace(StripRight(s)[|StripRight(s)| - 1])
    decreases |s|
  {
    if s != [] && IsSpace(s[|s| - 1]) {
      j := StripRightInfix(s[..|s| - 1]);
    } else {
      j := |s|;
    }
  }

  /**
   * `Strip(s)` is the piece `s[i..j]` of `s` left when the whitespace runs at both ends
   * are cut off: it neither starts nor ends with whitespace, and everything cut is whitespace.
   */
  lemma StripInfix(s: string) returns (i: nat, j: nat)
    ensures i <= j <= |s| && Strip(s) == s[i..j]
    ensures forall k | 0 <= k < i :: IsSpace(s[k])
    ensures forall k | j <= k < |s| :: IsSpace(s[k])
    ensures Strip(s) == [] || (!IsSpace(Strip(s)[0]) && !IsSpace(Strip(s)[|Strip(s)| - 1]))
  {
    i := StripLeftInfix(s);
    var t := s[i..];
    var j' := StripRightInfix(t);
    j := i + j';
    assert Strip(s) == t[..j'] == s[i..j];
    forall k | j <= k < |s| ensures IsSpace(s[k]) {
      assert s[k] == t[k - i];
    }
  }

  /** A string that neither starts nor ends with whitespace is left alone by `Strip`. */
  lemma StripIdentity(s: string)
    requires s == [] || (!IsSpace(s[0]) && !IsSpace(s[|s| - 1]))
    ensures Strip(s) == s
  {
  }

  /** `Strip(s)` is empty exactly when `s` is nothing but whitespace. */
  lemma StripEmptyIff(s: string)
    ensures Strip(s) == [] <==> forall k | 0 <= k < |s| :: IsSpace(s[k])
  {
    var i, j := StripInfix(s);
    if Strip(s) != [] {
      assert !IsSpace(s[i]);
    }
  }

  function LowerChar(c: char): char {
    if 'A' <= c <= 'Z' then (c as int - 'A' as int + 'a' as int) as char else c
  }

  /** Python's `s.lower()`, restricted to ASCII letters. */
  function Lower(s: string): (r: string)
    ensures |r| == |s|
  {
    seq(|s|, i requires 0 <= i < |s| => LowerChar(s[i]))
  }

  // ---------------------------------------------------------------------------
  // Decimal numerals

  predicate IsDigit(c: char) {
    '0' <= c <= '9'
  }

  predicate AllDigits(s: string) {
    forall k | 0 <= k < |s| :: IsDigit(s[k])
  }

  function DigitChar(d: nat): char
    requires d < 10
  {
    ('0' as int + d) as char
  }

  /** The value of a run of ASCII digits (leading zeros allowed, as `int()` allows them). */
  function Value(s: string): nat
    requires AllDigits(s)
    decreases |s|
  {
    if s == [] then 0 else Value(s[..|s| - 1]) * 10 + (s[|s| - 1] as int - '0' as int)
  }

  /** The number of decimal digits of `n`, that is, floor(log10 n) + 1 for n >= 1. */
  function NumDigits(n: nat): (k: nat)
    ensures k >= 1
    decreases n
  {
    if n < 10 then 1 else 1 + NumDigits(n / 10)
  }

  function Pow10(k: nat): (p: nat)
    ensures p >= 1
  {
    if k == 0 then 1 else 10 * Pow10(k - 1)
  }

  /** Python's `str(n)` for a natural number. */
  function Decimal(n: nat): (s: string)
    ensures |s| == NumDigits(n) && AllDigits(s)
    decreases n
  {
    (if n < 10 then "" else Decimal(n / 10)) + [DigitChar(n % 10)]
  }

  /** Reading back a formatted number gives the number. */
  lemma {:induction false} ValueDecimal(n: nat)
    ensures Value(Decimal(n)) == n
    decreases n
  {
    var s := Decimal(n);
    var init := if n < 10 then "" else Decimal(n / 10);
    var d := n % 10;
    assert s == init + [DigitChar(d)];
    assert s[..|s| - 1] == init && s[|s| - 1] == DigitChar(d);
    assert DigitChar(d) as int - '0' as int == d;
    assert Value(s) == Value(init) * 10 + d;
    if n >= 10 {
      ValueDecimal(n / 10);
    }
  }

  /** The value of a concatenation: the left digits are shifted by the length of the right ones. */
  lemma {:induction false} ValueAppend(a: string, b: string)
    requires AllDigits(a) && AllDigits(b)
    ensures AllDigits(a + b) && Value(a + b) == Value(a) * Pow10(|b|) + Value(b)
    decreases |b|
  {
    if b == [] {
      assert a + b == a;
    } else {
      var b' := b[..|b| - 1];
      assert (a + b)[..|a + b| - 1] == a + b';
      ValueAppend(a, b');
      var d := b[|b| - 1] as int - '0' as int;
      assert b[..|b| - 1] == b' && (a + b)[|a + b| - 1] == b[|b| - 1];
      assert Value(a + b) == Value(a + b') * 10 + d;
      assert Value(b) == Value(b') * 10 + d;
      ShiftByTen(Value(a), Pow10(|b'|), Value(b'), d);
    }
  }

  lemma ShiftByTen(x: int, p: int, y: int, d: int)
    ensures (x * p + y) * 10 + d == x * (10 * p) + (y * 10 + d)
  {
  }

  function Zeros(k: nat): (s: string)
    ensures |s| == k && AllDigits(s)
  {
    seq(k, _ => '0')
  }

  /** Leading zeros do not change the value. */
  lemma ValueZerosPrefix(k: nat, s: string)
    requires AllDigits(s)
    ensures AllDigits(Zeros(k) + s) && Value(Zeros(k) + s) == Value(s)
  {
    ValueAppend(Zeros(k), s);
    ValueOfZeros(k);
  }

  lemma {:induction false} ValueOfZeros(k: nat)
    ensures Value(Zeros(k)) == 0
    decreases k
  {
    if k > 0 {
      assert Zeros(k)[..k - 1] == Zeros(k - 1);
      ValueOfZeros(k - 1);
    }
  }

  /** Python's `"{:0w}".format(v)`: `v` in decimal, left-padded with zeros to at least `w` characters. */
  function ZeroPad(v: nat, w: nat): (s: string)
    ensures AllDigits(s)
    ensures |s| == if w > NumDigits(v) then w else NumDigits(v)
  {
    Zeros(if w > NumDigits(v) then w - NumDigits(v) else 0) + Decimal(v)
  }

  /** The padded numeral still reads as `v`, so padding to a common width is injective. */
  lemma ValueZeroPad(v: nat, w: nat)
    ensures Value(ZeroPad(v, w)) == v
  {
    ValueZerosPrefix(if w > NumDigits(v) then w - NumDigits(v) else 0, Decimal(v));
    ValueDecimal(v);
  }

  lemma {:induction false} NumDigitsMonotone(a: nat, b: nat)
    requires a <= b
    ensures NumDigits(a) <= NumDigits(b)
    decreases b
  {
    if a >= 10 {
      NumDigitsMonotone(a / 10, b / 10);
    }
  }

  /** Digits of `n` grouped in threes from the right with `_`, as Python's `f"{n:_}"`. */
  function Grouped(n: nat): (s: string)
    decreases n
  {
    if n < 1000 then Decimal(n) else Grouped(n / 1000) + "_" + ZeroPad(n % 1000, 3)
  }

  /** Python's `f"{n:_}"` for any integer. */
  function FormatGrouped(n: int): string {
    if n < 0 then "-" + Grouped(-n) else Grouped(n)
  }

  lemma {:induction false} DigitsLackChar(s: string, c: char)
    requires AllDigits(s) && !IsDigit(c)
    ensures !Occurs(s, [c])
    decreases |s|
  {
    if s != [] {
      assert s[..1][0] == s[0];
    }
    if s != [] {
      DigitsLackChar(s[1..], c);
    }
  }

  /** Removing underscores from `hi + "_" + lo`, where `lo` is all digits. */
  lemma UngroupStep(hi: string, lo: string)
    requires AllDigits(lo)
    ensures ReplaceAll(hi + "_" + lo, "_", "") == ReplaceAll(hi, "_", "") + lo
  {
    ReplaceAllAppend(hi + "_", lo, "_", "");
    ReplaceAllAppend(hi, "_", "_", "");
    assert ReplaceAll("_", "_", "") == "";
    DigitsLackChar(lo, '_');
    ReplaceAllAbsent(lo, "_", "");
  }

  /** A group of three digits below a prefix worth `n / 1000` makes up `n`. */
  lemma ValueOfGroup(hi: string, n: nat)
    requires n >= 1000 && AllDigits(hi) && Value(hi) == n / 1000
    ensures AllDigits(hi + ZeroPad(n % 1000, 3)) && Value(hi + ZeroPad(n % 1000, 3)) == n
  {
    var lo := ZeroPad(n % 1000, 3);
    NumDigitsMonotone(n % 1000, 999);
    assert |lo| == 3;
    ValueAppend(hi, lo);
    ValueZeroPad(n % 1000, 3);
    assert Pow10(3) == 1000;
  }

  /** Removing the underscores from a grouped numeral leaves a numeral with the same value. */
  lemma {:induction false} GroupedUngroups(n: nat)
    ensures |ReplaceAll(Grouped(n), "_", "")| > 0
    ensures AllDigits(ReplaceAll(Grouped(n), "_", ""))
    ensures Value(ReplaceAll(Grouped(n), "_", "")) == n
    decreases n
  {
    if n < 1000 {
      DigitsLackChar(Decimal(n), '_');
      ReplaceAllAbsent(Decimal(n), "_", "");
      ValueDecimal(n);
    } else {
      var hi := Grouped(n / 1000);
      GroupedUngroups(n / 1000);
      UngroupStep(hi, ZeroPad(n % 1000, 3));
      ValueOfGroup(ReplaceAll(hi, "_", ""), n);
    }
  }

  /**
   * Removing the underscores leaves a run of digits exactly when the text holds nothing
   * but digits and underscores, and leaves something exactly when not all of it is `_`.
   */
  lemma {:induction false} UngroupDigits(c: string)
    ensures AllDigits(ReplaceAll(c, "_", "")) <==> forall k | 0 <= k < |c| :: IsDigit(c[k]) || c[k] == '_'
    ensures |ReplaceAll(c, "_", "")| > 0 <==> exists k | 0 <= k < |c| :: c[k] != '_'
    decreases |c|
  {
    if c != [] {
      UngroupDigits(c[1..]);
      assert StartsWith(c, "_") <==> c[0] == '_' by {
        assert c[..1] == [c[0]];
      }
      var tail := ReplaceAll(c[1..], "_", "");
      var head: string := if c[0] == '_' then "" else [c[0]];
      assert ReplaceAll(c, "_", "") == head + tail;
      assert forall k | 1 <= k < |c| :: c[k] == c[1..][k - 1];
      if exists k | 0 <= k < |c| :: c[k] != '_' {
        var k :| 0 <= k < |c| && c[k] != '_';
        if k > 0 {
          assert c[1..][k - 1] != '_';
        }
      }
      if exists k | 0 <= k < |c[1..]| :: c[1..][k] != '_' {
        var k :| 0 <= k < |c[1..]| && c[1..][k] != '_';
        assert c[k + 1] != '_';
      }
      if forall k | 0 <= k < |c| :: IsDigit(c[k]) || c[k] == '_' {
        assert forall k | 0 <= k < |c[1..]| :: IsDigit(c[1..][k]) || c[1..][k] == '_' by {
          forall k | 0 <= k < |c[1..]| ensures IsDigit(c[1..][k]) || c[1..][k] == '_' {
            assert c[1..][k] == c[k + 1];
          }
        }
      }
      if AllDigits(ReplaceAll(c, "_", "")) {
        assert AllDigits(tail) by {
          forall k | 0 <= k < |tail| ensures IsDigit(tail[k]) {
            assert tail[k] == (head + tail)[|head| + k];
          }
        }
        if c[0] != '_' {
          assert (head + tail)[0] == c[0];
        }
      }
    }
  }

  /** A grouped numeral is made of digits and underscores only. */
  lemma {:induction false} GroupedChars(n: nat)
    ensures forall k | 0 <= k < |Grouped(n)| :: IsDigit(Grouped(n)[k]) || Grouped(n)[k] == '_'
    decreases n
  {
    if n >= 1000 {
      GroupedChars(n / 1000);
      var hi, lo := Grouped(n / 1000), ZeroPad(n % 1000, 3);
      assert Grouped(n) == hi + "_" + lo;
      forall k | 0 <= k < |Grouped(n)| ensures IsDigit(Grouped(n)[k]) || Grouped(n)[k] == '_' {
        if k < |hi| {
          assert Grouped(n)[k] == hi[k];
        } else if k > |hi| {
          assert Grouped(n)[k] == lo[k - |hi| - 1];
        }
      }
    }
  }

  /** Python's `int(s)`, restricted to a non-empty run of ASCII digits. */
  function ParseNat(s: string): (r: Option<nat>)
    ensures r.Some? <==> |s| > 0 && AllDigits(s)
  {
    if |s| > 0 && AllDigits(s) then Some(Value(s)) else None
  }
}
