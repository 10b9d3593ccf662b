/** Python string and list primitives the digest pipeline is built from:
    whitespace classification, `str.strip`, slicing, `"\n".join`,
    `str.split("\n")` and `str(int)`. */
module PyStr {

  datatype Option<+T> = None | Some(value: T)

  function Min(a: int, b: int): int { if a < b then a else b }

  /** `str.isspace()`; the `\s` class of `re` on str patterns is the same set. */
  predicate IsSpace(c: char) {
    c == ' ' || ('\t' <= c <= '\r') || ('\U{1C}' <= c <= '\U{1F}')
    || c == '\U{85}' || c == '\U{A0}' || c == '\U{1680}'
    || ('\U{2000}' <= c <= '\U{200A}') || c == '\U{2028}' || c == '\U{2029}'
    || c == '\U{202F}' || c == '\U{205F}' || c == '\U{3000}'
  }

  /** How many characters `s.lstrip(chars)` removes, where `drop` says which
      characters are in `chars`: the length of the longest dropped prefix. */
  function LeadingDropped(s: string, drop: char -> bool): (n: nat)
    ensures n <= |s|
    ensures forall i :: 0 <= i < n ==> drop(s[i])
    ensures n < |s| ==> !drop(s[n])
  {
    if s != [] && drop(s[0]) then
      var n := 1 + LeadingDropped(s[1..], drop);
      assert forall i :: 1 <= i < n ==> drop(s[i]) by {
        forall i | 1 <= i < n ensures drop(s[i]) {
          assert s[i] == s[1..][i - 1];
        }
      }
      n
    else 0
  }

  /** How many characters `s.rstrip(chars)` removes: the length of the longest
      dropped suffix. */
  function TrailingDropped(s: string, drop: char -> bool): (n: nat)
    ensures n <= |s|
    ensures forall i :: |s| - n <= i < |s| ==> drop(s[i])
    ensures n < |s| ==> !drop(s[|s| - n - 1])
  {
    if s != [] && drop(s[|s| - 1]) then
      var n := 1 + TrailingDropped(s[..|s| - 1], drop);
      assert forall i :: |s| - n <= i < |s| - 1 ==> drop(s[i]) by {
        forall i | |s| - n <= i < |s| - 1 ensures drop(s[i]) {
          assert s[i] == s[..|s| - 1][i];
        }
      }
      n
    else 0
  }

  /** Every character of `s` is one `drop` removes. */
  predicate AllDropped(s: string, drop: char -> bool) {
    forall i :: 0 <= i < |s| ==> drop(s[i])
  }

  /** `s.strip(chars)`: the slice of `s` starting after the dropped prefix that
      neither starts nor ends with a dropped character, everything outside it
      being dropped characters. */
  function Strip(s: string, drop: char -> bool): (r: string)
    ensures LeadingDropped(s, drop) + |r| <= |s|
    ensures r == s[LeadingDropped(s, drop)..LeadingDropped(s, drop) + |r|]
    ensures AllDropped(s[..LeadingDropped(s, drop)], drop)
    ensures AllDropped(s[LeadingDropped(s, drop) + |r|..], drop)
    ensures r != [] ==> !drop(r[0]) && !drop(r[|r| - 1])
  {
    var k := LeadingDropped(s, drop);
    var m := TrailingDropped(s[k..], drop);
    StripBounds(s, k, m, drop);
    s[k..|s| - m]
  }

  /** The facts `Strip` promises, for the dropped prefix `k` and the dropped
      suffix `m` of what follows it. */
  lemma StripBounds(s: string, k: nat, m: nat, drop: char -> bool)
    requires k <= |s| && (k < |s| ==> !drop(s[k]))
    requires forall i :: 0 <= i < k ==> drop(s[i])
    requires m <= |s| - k
    requires forall i :: |s| - k - m <= i < |s| - k ==> drop(s[k..][i])
    requires m < |s| - k ==> !drop(s[k..][|s| - k - m - 1])
    ensures AllDropped(s[..k], drop) && AllDropped(s[|s| - m..], drop)
    ensures |s| - m > k ==> !drop(s[k]) && !drop(s[|s| - m - 1])
  {
    forall i | |s| - m <= i < |s| ensures drop(s[i]) {
      assert s[i] == s[k..][i - k];
    }
    assert AllDropped(s[..k], drop) by {
      forall i | 0 <= i < k ensures drop(s[..k][i]) {
        assert s[..k][i] == s[i];
      }
    }
    if |s| - m > k {
      assert s[|s| - m - 1] == s[k..][|s| - k - m - 1];
    }
  }

  lemma {:induction false} LeadingDroppedPadded(front: string, rest: string, drop: char -> bool)
    requires forall i :: 0 <= i < |front| ==> drop(front[i])
    requires rest != [] && !drop(rest[0])
    ensures LeadingDropped(front + rest, drop) == |front|
  {
    if front != [] {
      assert (front + rest)[1..] == front[1..] + rest;
      LeadingDroppedPadded(front[1..], rest, drop);
    } else {
      assert front + rest == rest;
    }
  }

  lemma {:induction false} TrailingDroppedPadded(rest: string, back: string, drop: char -> bool)
    requires forall i :: 0 <= i < |back| ==> drop(back[i])
    requires rest != [] && !drop(rest[|rest| - 1])
    ensures TrailingDropped(rest + back, drop) == |back|
  {
    if back != [] {
      var init := back[..|back| - 1];
      assert (rest + back)[..|rest + back| - 1] == rest + init;
      TrailingDroppedPadded(rest, init, drop);
    } else {
      assert rest + back == rest;
    }
  }

  /** Stripping text padded with dropped characters on both sides gives the
      text back, provided it neither starts nor ends with one. */
  lemma StripPadded(front: string, core: string, back: string, drop: char -> bool)
    requires forall i :: 0 <= i < |front| ==> drop(front[i])
    requires forall i :: 0 <= i < |back| ==> drop(back[i])
    requires core != [] && !drop(core[0]) && !drop(core[|core| - 1])
    ensures Strip(front + core + back, drop) == core
  {
    var s := front + core + back;
    assert s == front + (core + back);
    LeadingDroppedPadded(front, core + back, drop);
    assert s[|front|..] == core + back;
    TrailingDroppedPadded(core, back, drop);
    assert s[|front|..|s| - |back|] == core;
  }

  /** `s.startswith(prefix)`. */
  predicate StartsWith(s: string, prefix: string) {
    |prefix| <= |s| && s[..|prefix|] == prefix
  }

  /** Length of the Python slice `xs[:n]` on a sequence of length `len`. */
  function PrefixLength(len: nat, n: int): (k: nat)
    ensures k <= len
  {
    if n >= 0 then Min(n, len) else if len + n > 0 then len + n else 0
  }

  /** `xs[:n]`, negative `n` counting from the end as Python does. */
  function Take<T>(xs: seq<T>, n: int): seq<T> {
    xs[..PrefixLength(|xs|, n)]
  }

  /** A prefix one element longer. */
  lemma PrefixStep<T>(xs: seq<T>, i: nat)
    requires i < |xs|
    ensures xs[..i + 1] == xs[..i] + [xs[i]]
  {
  }

  /** `sep.join(parts)`. */
  function Join(parts: seq<string>, sep: string): string {
    if parts == [] then ""
    else if |parts| == 1 then parts[0]
    else parts[0] + sep + Join(parts[1..], sep)
  }

  /** A joined list starts with its first part. */
  lemma JoinStartsWithFirst(parts: seq<string>, sep: string)
    requires parts != []
    ensures StartsWith(Join(parts, sep), parts[0])
  {
    if |parts| > 1 {
      var j := Join(parts, sep);
      assert j == parts[0] + (sep + Join(parts[1..], sep));
      assert j[..|parts[0]|] == parts[0];
    }
  }

  /** `s.split("\n")`: the pieces between newline characters, at least one. */
  function SplitLines(s: string): (r: seq<string>)
    ensures |r| >= 1
  {
    if s == [] then [""]
    else if s[0] == '\n' then [""] + SplitLines(s[1..])
    else
      var rest := SplitLines(s[1..]);
      [[s[0]] + rest[0]] + rest[1..]
  }

  predicate NoNewline(s: string) { forall i :: 0 <= i < |s| ==> s[i] != '\n' }

  lemma {:induction false} SplitLinesNoNewline(s: string)
    requires NoNewline(s)
    ensures SplitLines(s) == [s]
  {
    if s != [] {
      assert s[0] != '\n';
      SplitLinesNoNewline(s[1..]);
      assert [s[0]] + s[1..] == s;
    }
  }

  lemma {:induction false} SplitLinesAfterLine(a: string, b: string)
    requires NoNewline(a)
    ensures SplitLines(a + "\n" + b) == [a] + SplitLines(b)
  {
    if a == [] {
      assert a + "\n" + b == "\n" + b;
      assert ("\n" + b)[1..] == b;
    } else {
      assert (a + "\n" + b)[1..] == a[1..] + "\n" + b;
      SplitLinesAfterLine(a[1..], b);
      assert [a[0]] + a[1..] == a;
    }
  }

  /** Splitting a newline-joined list of newline-free lines gives the lines back. */
  lemma {:induction false} SplitJoinLines(lines: seq<string>)
    requires lines != []
    requires forall k :: 0 <= k < |lines| ==> NoNewline(lines[k])
    ensures SplitLines(Join(lines, "\n")) == lines
  {
    if |lines| == 1 {
      SplitLinesNoNewline(lines[0]);
    } else {
      SplitLinesAfterLine(lines[0], Join(lines[1..], "\n"));
      SplitJoinLines(lines[1..]);
    }
  }

  predicate IsDigit(c: char) { '0' <= c <= '9' }

  function DigitValue(c: char): (d: nat)
    requires IsDigit(c)
    ensures d < 10
  {
    c as int - '0' as int
  }

  function DigitChar(d: nat): (c: char)
    requires d < 10
    ensures IsDigit(c) && DigitValue(c) == d
  {
    (d + '0' as int) as char
  }

  /** `str(n)` for a non-negative integer: its decimal digits, no leading zero. */
  function NatToString(n: nat): (r: string)
    ensures |r| >= 1 && forall i :: 0 <= i < |r| ==> IsDigit(r[i])
    ensures r[0] == '0' ==> n == 0
  {
    if n < 10 then [DigitChar(n)] else NatToString(n / 10) + [DigitChar(n % 10)]
  }

  /** `str(i)` for any integer. */
  function IntToString(i: int): string {
    if i < 0 then "-" + NatToString(-i) else NatToString(i)
  }

  /** `int(s)` for a string of decimal digits. */
  function ParseNat(s: string): nat
    requires forall i :: 0 <= i < |s| ==> IsDigit(s[i])
  {
    if s == [] then 0 else 10 * ParseNat(s[..|s| - 1]) + DigitValue(s[|s| - 1])
  }

  lemma {:induction false} ParseNatToString(n: nat)
    ensures ParseNat(NatToString(n)) == n
  {
    if n >= 10 {
      var r := NatToString(n);
      assert r[..|r| - 1] == NatToString(n / 10);
      ParseNatToString(n / 10);
    }
  }

  /** `n` written with exactly `k` digits, zero-padded; `n < 10^k`. */
  function PaddedDigits(n: nat, k: nat): (r: string)
    ensures |r| == k
  {
    if k == 0 then "" else PaddedDigits(n / 10, k - 1) + [DigitChar(n % 10)]
  }

  function Pow10(k: nat): (p: nat)
    ensures p >= 1
  {
    if k == 0 then 1 else 10 * Pow10(k - 1)
  }

  /** The decimal form of `a * 10^k + b`, `b < 10^k`, is that of `a` followed
      by `b` padded to `k` digits. */
  lemma {:induction false} NatToStringShift(a: nat, k: nat, b: nat)
    requires a >= 1 && b < Pow10(k)
    ensures NatToString(a * Pow10(k) + b) == NatToString(a) + PaddedDigits(b, k)
  {
    if k > 0 {
      var m := a * Pow10(k - 1);
      var n := a * Pow10(k) + b;
      ShiftDigit(a, k, b);
      assert n / 10 == m + b / 10 && n % 10 == b % 10 && n >= 10;
      NatToStringShift(a, k - 1, b / 10);
    }
  }

  /** Arithmetic behind one step of NatToStringShift. */
  lemma ShiftDigit(a: nat, k: nat, b: nat)
    requires a >= 1 && k >= 1 && b < Pow10(k)
    ensures var n := a * Pow10(k) + b; var m := a * Pow10(k - 1);
      n >= 10 && n / 10 == m + b / 10 && n % 10 == b % 10 && b / 10 < Pow10(k - 1)
  {
    var p := Pow10(k - 1);
    var m := a * p;
    assert m >= 1;
    assert a * Pow10(k) == 10 * m;
    var n := 10 * m + b;
    assert n == 10 * (m + b / 10) + b % 10;
  }

  /** A number with exactly `k` digits is its own `k`-digit padding. */
  lemma {:induction false} PaddedDigitsExact(n: nat, k: nat)
    requires k >= 1 && Pow10(k - 1) <= n < Pow10(k)
    ensures PaddedDigits(n, k) == NatToString(n)
  {
    if k > 1 {
      PaddedDigitsExact(n / 10, k - 1);
    }
  }
}
