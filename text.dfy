/** String helpers shared by the models: Python's `str.strip`, ASCII lower-casing,
    decimal rendering and parsing, zero padding and `str.replace`. */
module Text {

  /** The characters Python's `str.isspace` (and so `str.strip()` and the regular
      expression class `\s`) treats as whitespace. */
  predicate IsSpace(c: char) {
    || ('\U{0009}' <= c <= '\U{000D}')
    || ('\U{001C}' <= c <= '\U{0020}')
    || c == '\U{0085}' || c == '\U{00A0}' || c == '\U{1680}'
    || ('\U{2000}' <= c <= '\U{200A}')
    || c == '\U{2028}' || c == '\U{2029}' || c == '\U{202F}' || c == '\U{205F}' || c == '\U{3000}'
  }

  /** The position of the first non-whitespace character of `s` at or after `i`, or `|s|`. */
  function SkipSpaces(s: string, i: nat): (j: nat)
    requires i <= |s|
    ensures i <= j <= |s| && (j < |s| ==> !IsSpace(s[j]))
    decreases |s| - i
  {
    if i < |s| && IsSpace(s[i]) then SkipSpaces(s, i + 1) else i
  }

  /** One past the last non-whitespace character of `s[i..j]`, or `i` when there is none. */
  function BackSpaces(s: string, i: nat, j: nat): (k: nat)
    requires i <= j <= |s|
    ensures i <= k <= j && (k > i ==> !IsSpace(s[k - 1]))
    decreases j
  {
    if j > i && IsSpace(s[j - 1]) then BackSpaces(s, i, j - 1) else j
  }

  /** `s.strip()`: `s` without its leading and trailing whitespace. The result neither
      starts nor ends with whitespace. */
  function Trim(s: string): (r: string)
    ensures |r| <= |s|
    ensures |r| == 0 || (!IsSpace(r[0]) && !IsSpace(r[|r| - 1]))
  {
    var i := SkipSpaces(s, 0);
    s[i..BackSpaces(s, i, |s|)]
  }

  lemma {:induction false} SkipSpacesSkipsSpaces(s: string, i: nat)
    requires i <= |s|
    ensures forall k :: i <= k < SkipSpaces(s, i) ==> IsSpace(s[k])
    decreases |s| - i
  {
    if i < |s| && IsSpace(s[i]) {
      SkipSpacesSkipsSpaces(s, i + 1);
    }
  }

  lemma {:induction false} BackSpacesSkipsSpaces(s: string, i: nat, j: nat)
    requires i <= j <= |s|
    ensures forall k :: BackSpaces(s, i, j) <= k < j ==> IsSpace(s[k])
    decreases j
  {
    if j > i && IsSpace(s[j - 1]) {
      BackSpacesSkipsSpaces(s, i, j - 1);
    }
  }

  /** `strip` keeps one contiguous piece of its argument and drops only whitespace
      around it. */
  lemma {:induction false} TrimSlice(s: string)
    ensures var i := SkipSpaces(s, 0);
      && i + |Trim(s)| <= |s| && Trim(s) == s[i..i + |Trim(s)|]
      && forall k :: (0 <= k < i || i + |Trim(s)| <= k < |s|) ==> IsSpace(s[k])
  {
    var i := SkipSpaces(s, 0);
    SkipSpacesSkipsSpaces(s, 0);
    BackSpacesSkipsSpaces(s, i, |s|);
  }

  /** Only an all-whitespace string strips to the empty string. */
  lemma {:induction false} TrimEmpty(s: string)
    ensures Trim(s) == [] <==> forall k :: 0 <= k < |s| ==> IsSpace(s[k])
  {
    TrimSlice(s);
  }

  /** A string without outer whitespace is its own strip. */
  lemma {:induction false} TrimUnpadded(s: string)
    requires s == [] || (!IsSpace(s[0]) && !IsSpace(s[|s| - 1]))
    ensures Trim(s) == s
  {
    assert s[0..|s|] == s;
  }

  /** Stripping twice is stripping once. */
  lemma {:induction false} TrimIdempotent(s: string)
    ensures Trim(Trim(s)) == Trim(s)
  {
    TrimUnpadded(Trim(s));
  }

  /** A string none of whose characters is whitespace is unchanged by strip. */
  lemma {:induction false} TrimNoSpace(s: string)
    requires forall k :: 0 <= k < |s| ==> !IsSpace(s[k])
    ensures Trim(s) == s
  {
    if s != [] {
      TrimUnpadded(s);
    }
  }

  /** `SkipSpaces` from `i` stops at the first non-whitespace character. */
  lemma {:induction false} SkipSpacesAt(s: string, i: nat, j: nat)
    requires i <= j <= |s| && (j < |s| ==> !IsSpace(s[j]))
    requires forall k :: i <= k < j ==> IsSpace(s[k])
    ensures SkipSpaces(s, i) == j
    decreases j - i
  {
    if i < j {
      SkipSpacesAt(s, i + 1, j);
    }
  }

  /** `BackSpaces` down to `i` stops just after the last non-whitespace character. */
  lemma {:induction false} BackSpacesAt(s: string, i: nat, j: nat, k: nat)
    requires i <= j <= k <= |s| && (j > i ==> !IsSpace(s[j - 1]))
    requires forall m :: j <= m < k ==> IsSpace(s[m])
    ensures BackSpaces(s, i, k) == j
    decreases k - j
  {
    if j < k {
      BackSpacesAt(s, i, j, k - 1);
    }
  }

  lemma {:induction false} BackSpacesPast(s: string, i: nat, j: nat, k: nat)
    requires i <= j <= k <= |s|
    requires forall m :: j <= m < k ==> IsSpace(s[m])
    ensures BackSpaces(s, i, k) == BackSpaces(s, i, j)
    decreases k - j
  {
    if j < k {
      BackSpacesPast(s, i, j, k - 1);
    }
  }

  lemma {:induction false} BackSpacesPrefix(x: string, b: string, i: nat, k: nat)
    requires i <= k <= |x|
    ensures BackSpaces(x + b, i, k) == BackSpaces(x, i, k)
    decreases k
  {
    if k > i {
      assert (x + b)[k - 1] == x[k - 1];
      BackSpacesPrefix(x, b, i, k - 1);
    }
  }

  lemma {:induction false} BackSpacesShift(a: string, x: string, i: nat, k: nat)
    requires i <= k <= |x|
    ensures BackSpaces(a + x, |a| + i, |a| + k) == |a| + BackSpaces(x, i, k)
    decreases k
  {
    if k > i {
      assert (a + x)[|a| + k - 1] == x[k - 1];
      BackSpacesShift(a, x, i, k - 1);
    }
  }

  lemma {:induction false} SliceShift<T>(a: seq<T>, x: seq<T>, i: nat, j: nat)
    requires i <= j <= |x|
    ensures (a + x)[|a| + i..|a| + j] == x[i..j]
  {
  }

  lemma {:induction false} SlicePrefix<T>(x: seq<T>, b: seq<T>, i: nat, j: nat)
    requires i <= j <= |x|
    ensures (x + b)[i..j] == x[i..j]
  {
  }

  lemma {:induction false} SkipSpacesShift(a: string, x: string)
    requires forall k :: 0 <= k < |a| ==> IsSpace(a[k])
    ensures SkipSpaces(a + x, 0) == |a| + SkipSpaces(x, 0)
  {
    var s := a + x;
    var i := SkipSpaces(x, 0);
    SkipSpacesSkipsSpaces(x, 0);
    assert forall k :: 0 <= k < |a| + i ==> IsSpace(s[k]) by {
      forall k | 0 <= k < |a| + i ensures IsSpace(s[k]) {
        if k >= |a| {
          assert s[k] == x[k - |a|];
        }
      }
    }
    if i < |x| {
      assert s[|a| + i] == x[i];
    }
    SkipSpacesAt(s, 0, |a| + i);
  }

  /** Leading whitespace does not change the result of strip. */
  lemma {:induction false} TrimPadLeft(a: string, x: string)
    requires forall k :: 0 <= k < |a| ==> IsSpace(a[k])
    ensures Trim(a + x) == Trim(x)
  {
    var i := SkipSpaces(x, 0);
    var j := BackSpaces(x, i, |x|);
    var s := a + x;
    assert |s| == |a| + |x|;
    SkipSpacesShift(a, x);
    BackSpacesShift(a, x, i, |x|);
    TrimAt(s, |a| + i, |a| + j);
    SliceShift(a, x, i, j);
  }

  lemma {:induction false} TrimAt(s: string, i: nat, j: nat)
    requires SkipSpaces(s, 0) == i && i <= |s| && BackSpaces(s, i, |s|) == j
    ensures i <= j <= |s| && Trim(s) == s[i..j]
  {
  }

  /** Trailing whitespace does not change the result of strip. */
  lemma {:induction false} TrimPadRight(x: string, b: string)
    requires forall k :: 0 <= k < |b| ==> IsSpace(b[k])
    ensures Trim(x + b) == Trim(x)
  {
    var s := x + b;
    var i := SkipSpaces(x, 0);
    SkipSpacesSkipsSpaces(x, 0);
    assert forall k :: i <= k < |s| ==> IsSpace(s[k]) || k < |x| by {
      forall k | i <= k < |s| && k >= |x| ensures IsSpace(s[k]) {
        assert s[k] == b[k - |x|];
      }
    }
    if i == |x| {
      SkipSpacesAt(s, 0, |s|);
    } else {
      assert s[i] == x[i];
      SkipSpacesAt(s, 0, i);
      var j := BackSpaces(x, i, |x|);
      BackSpacesPast(s, i, |x|, |s|);
      BackSpacesPrefix(x, b, i, |x|);
      SlicePrefix(x, b, i, j);
      assert Trim(s) == s[i..j];
    }
  }

  /** Whitespace added on either side does not change the result of strip. */
  lemma {:induction false} TrimPadded(a: string, x: string, b: string)
    requires forall k :: 0 <= k < |a| ==> IsSpace(a[k])
    requires forall k :: 0 <= k < |b| ==> IsSpace(b[k])
    ensures Trim(a + x + b) == Trim(x)
  {
    TrimPadRight(a + x, b);
    TrimPadLeft(a, x);
  }

  /** Python's `str.lower` restricted to ASCII: `A`..`Z` become `a`..`z`. */
  function LowerChar(c: char): char {
    if 'A' <= c <= 'Z' then (c as int - 'A' as int + 'a' as int) as char else c
  }

  /** `s.lower()`, character by character. */
  function Lower(s: string): (r: string)
    ensures |r| == |s| && forall k :: 0 <= k < |s| ==> r[k] == LowerChar(s[k])
    decreases |s|
  {
    if |s| == 0 then [] else Lower(s[..|s| - 1]) + [LowerChar(s[|s| - 1])]
  }

  predicate IsDigit(c: char) {
    '0' <= c <= '9'
  }

  predicate AllDigits(s: string) {
    forall k :: 0 <= k < |s| ==> IsDigit(s[k])
  }

  function DigitChar(d: nat): (c: char)
    requires d < 10
    ensures IsDigit(c)
  {
    ('0' as int + d) as char
  }

  function DigitValue(c: char): (d: nat)
    requires IsDigit(c)
    ensures d < 10 && DigitChar(d) == c
  {
    c as int - '0' as int
  }

  /** The value of a string of decimal digits. */
  function DecimalValue(s: string): nat
    requires AllDigits(s)
  {
    if s == [] then 0 else DecimalValue(s[..|s| - 1]) * 10 + DigitValue(s[|s| - 1])
  }

  /** Python's `str(n)` for a natural number: its decimal digits, without leading zeros. */
  function Decimal(n: nat): (r: string)
    ensures |r| >= 1 && AllDigits(r)
    ensures r[0] == '0' ==> n == 0
  {
    if n < 10 then [DigitChar(n)] else Decimal(n / 10) + [DigitChar(n % 10)]
  }

  /** Reading a rendered number back gives the number. */
  lemma {:induction false} DecimalRoundTrip(n: nat)
    ensures DecimalValue(Decimal(n)) == n
  {
    if n >= 10 {
      var d := Decimal(n);
      assert d[..|d| - 1] == Decimal(n / 10);
      DecimalRoundTrip(n / 10);
    }
  }

  function Zeros(k: nat): (r: string)
    ensures |r| == k && forall j :: 0 <= j < k ==> r[j] == '0'
  {
    seq(k, j => '0')
  }

  /** `s` left-padded with `'0'` to at least `width` characters, as a `0w` format spec does. */
  function ZeroPad(s: string, width: nat): (r: string)
    ensures |r| == if |s| >= width then |s| else width
    ensures r[|r| - |s|..] == s
    ensures forall j :: 0 <= j < |r| - |s| ==> r[j] == '0'
  {
    if |s| >= width then s else Zeros(width - |s|) + s
  }

  /** Leading zeros do not change a decimal value. */
  lemma {:induction false} DecimalValueLeadingZeros(k: nat, s: string)
    requires AllDigits(s)
    ensures AllDigits(Zeros(k) + s) && DecimalValue(Zeros(k) + s) == DecimalValue(s)
    decreases |s|
  {
    var t := Zeros(k) + s;
    if s == [] {
      assert t == Zeros(k);
      ZerosValue(k);
    } else {
      var p := s[..|s| - 1];
      assert t[..|t| - 1] == Zeros(k) + p;
      DecimalValueLeadingZeros(k, p);
    }
  }

  lemma {:induction false} ZerosValue(k: nat)
    ensures AllDigits(Zeros(k)) && DecimalValue(Zeros(k)) == 0
  {
    if k > 0 {
      assert Zeros(k)[..k - 1] == Zeros(k - 1);
      ZerosValue(k - 1);
    }
  }

  /** `pat` occurs somewhere in `s`. */
  predicate Occurs(pat: string, s: string)
    decreases |s|
  {
    |s| >= |pat| && (s[..|pat|] == pat || (|s| > 0 && Occurs(pat, s[1..])))
  }

  /** Python's `s.replace(pat, rep)` for a non-empty `pat`: scans left to right and
      replaces each non-overlapping occurrence. */
  function Replace(s: string, pat: string, rep: string): (r: string)
    requires |pat| > 0
    ensures !Occurs(pat, s) ==> r == s
    decreases |s|
  {
    if |s| < |pat| then s
    else if s[..|pat|] == pat then rep + Replace(s[|pat|..], pat, rep)
    else [s[0]] + Replace(s[1..], pat, rep)
  }

  /** `pat` starts at position `k` of `s`. */
  predicate OccursAt(pat: string, s: string, k: nat) {
    k + |pat| <= |s| && s[k..k + |pat|] == pat
  }

  /** Where no occurrence of `pat` starts inside `x`, `str.replace` copies `x` and
      goes on with what follows. */
  lemma {:induction false} ReplaceCopy(x: string, y: string, pat: string, rep: string)
    requires |pat| > 0 && forall j :: 0 <= j < |x| ==> !OccursAt(pat, x + y, j)
    ensures Replace(x + y, pat, rep) == x + Replace(y, pat, rep)
    decreases |x|
  {
    if |x| == 0 {
      assert x + y == y;
    } else {
      CopyHead(x, y, pat, rep);
      CopyShift(x, y, pat);
      ReplaceCopy(x[1..], y, pat, rep);
      Reattach(x, Replace(y, pat, rep));
    }
  }

  /** The first character of `x + y` is copied when no occurrence starts there. */
  lemma {:induction false} CopyHead(x: string, y: string, pat: string, rep: string)
    requires |x| > 0 && |pat| > 0 && !OccursAt(pat, x + y, 0)
    ensures Replace(x + y, pat, rep) == [x[0]] + Replace(x[1..] + y, pat, rep)
  {
    var s := x + y;
    assert s[1..] == x[1..] + y;
    if |s| < |pat| {
      assert x + y == [x[0]] + (x[1..] + y);
    } else {
      assert s[0..|pat|] == s[..|pat|];
    }
  }

  /** The occurrences that do not start in `x` do not start in `x[1..]` either. */
  lemma {:induction false} CopyShift(x: string, y: string, pat: string)
    requires |x| > 0 && forall j :: 0 <= j < |x| ==> !OccursAt(pat, x + y, j)
    ensures forall j :: 0 <= j < |x| - 1 ==> !OccursAt(pat, x[1..] + y, j)
  {
    assert (x + y)[1..] == x[1..] + y;
    forall j | 0 <= j < |x| - 1 ensures !OccursAt(pat, x[1..] + y, j) {
      ShiftOccurs(pat, x + y, j);
    }
  }

  lemma {:induction false} Reattach(x: string, z: string)
    requires |x| > 0
    ensures [x[0]] + (x[1..] + z) == x + z
  {
    assert [x[0]] + x[1..] == x;
  }

  /** `str.replace` at the first occurrence of `pat`: what comes before it is copied,
      the occurrence becomes `rep`, and the scan goes on after it. */
  lemma {:induction false} ReplaceFirst(a: string, b: string, pat: string, rep: string)
    requires |pat| > 0 && forall j :: 0 <= j < |a| ==> !OccursAt(pat, a + pat + b, j)
    ensures Replace(a + pat + b, pat, rep) == a + rep + Replace(b, pat, rep)
  {
    Regroup(a, pat, b);
    ReplaceCopy(a, pat + b, pat, rep);
    ReplaceHere(pat, b, rep);
  }

  lemma {:induction false} Regroup(a: string, x: string, b: string)
    ensures a + x + b == a + (x + b)
  {
  }

  /** An occurrence at the very start is replaced. */
  lemma {:induction false} ReplaceHere(pat: string, b: string, rep: string)
    requires |pat| > 0
    ensures Replace(pat + b, pat, rep) == rep + Replace(b, pat, rep)
  {
    var s := pat + b;
    assert s[..|pat|] == pat && s[|pat|..] == b;
  }

  /** An occurrence at `j + 1` of `s` is one at `j` of `s[1..]`. */
  lemma {:induction false} ShiftOccurs(pat: string, s: string, j: nat)
    requires |s| > 0
    ensures OccursAt(pat, s[1..], j) <==> OccursAt(pat, s, j + 1)
  {
    if j + 1 + |pat| <= |s| {
      assert s[1..][j..j + |pat|] == s[j + 1..j + 1 + |pat|];
    }
  }

  /** `u` and `v` differ at a position both have. */
  predicate Differ(u: string, v: string) {
    exists d :: 0 <= d < |u| && d < |v| && u[d] != v[d]
  }

  /** No occurrence of `pat` that starts before a text `y` reaches into it. */
  predicate NoOverlapInto(pat: string, y: string) {
    forall m :: 1 <= m < |pat| ==> Differ(pat[m..], y)
  }

  /** No occurrence of `pat` starts inside `x`, not even one running past its end. */
  predicate NoStartWithin(pat: string, x: string) {
    forall o :: 0 <= o < |x| ==> Differ(x[o..], pat)
  }

  /** No occurrence of `pat` overlaps `x`, wherever `x` sits. */
  predicate Apart(pat: string, x: string) {
    NoOverlapInto(pat, x) && NoStartWithin(pat, x)
  }

  lemma {:induction false} DifferExtend(u: string, x: string, b: string)
    requires Differ(u, x)
    ensures Differ(u, x + b)
  {
    var d :| 0 <= d < |u| && d < |x| && u[d] != x[d];
    assert (x + b)[d] == x[d];
  }

  lemma {:induction false} NoOverlapExtend(pat: string, x: string, b: string)
    requires NoOverlapInto(pat, x)
    ensures NoOverlapInto(pat, x + b)
  {
    forall m | 1 <= m < |pat| ensures Differ(pat[m..], x + b) {
      DifferExtend(pat[m..], x, b);
    }
  }

  /** Every place where `s` has `c` is in `ps`. */
  predicate OnlyAt(s: string, c: char, ps: set<nat>) {
    forall k :: 0 <= k < |s| && s[k] == c ==> k in ps
  }

  /** `u[m..]` and `v` differ `d` places in. */
  lemma {:induction false} DiffersAt(u: string, m: nat, v: string, d: nat)
    requires m + d < |u| && d < |v| && u[m + d] != v[d]
    ensures Differ(u[m..], v)
  {
    assert u[m..][d] == u[m + d];
  }

  /** `pat` cannot run into `y` when each later place of `pat` holding `y`'s first
      character, all of them in `ps`, differs from `y` further on. */
  lemma {:induction false} NoOverlapVia(pat: string, y: string, ps: set<nat>)
    requires 0 < |y| && OnlyAt(pat, y[0], ps)
    requires forall m :: m in ps && 1 <= m < |pat| ==> Differ(pat[m..], y)
    ensures NoOverlapInto(pat, y)
  {
    forall m | 1 <= m < |pat| ensures Differ(pat[m..], y) {
      if pat[m] != y[0] {
        assert pat[m..][0] != y[0];
      }
    }
  }

  /** No occurrence of `pat` starts in `x` when each place of `x` holding `pat`'s first
      character, all of them in `ps`, differs from `pat` further on. */
  lemma {:induction false} NoStartVia(pat: string, x: string, ps: set<nat>)
    requires 0 < |pat| && OnlyAt(x, pat[0], ps)
    requires forall o :: o in ps && 0 <= o < |x| ==> Differ(x[o..], pat)
    ensures NoStartWithin(pat, x)
  {
    forall o | 0 <= o < |x| ensures Differ(x[o..], pat) {
      if x[o] != pat[0] {
        assert x[o..][0] != pat[0];
      }
    }
  }

  /** When no occurrence of `pat` runs from `a` into `y`, replacing in `a + y` replaces
      in `a` and in `y` separately. */
  lemma {:induction false} ReplaceSplit(a: string, y: string, pat: string, rep: string)
    requires |pat| > 0 && NoOverlapInto(pat, y)
    ensures Replace(a + y, pat, rep) == Replace(a, pat, rep) + Replace(y, pat, rep)
    decreases |a|
  {
    if |a| == 0 {
      assert a + y == y;
    } else if |pat| <= |a| && a[..|pat|] == pat {
      var rest := a[|pat|..];
      assert a == pat + rest;
      ReplaceSplit(rest, y, pat, rep);
      SplitAtMatch(pat, rest, y, rep);
    } else {
      NoMatchStart(a, y, pat);
      ReplaceSplit(a[1..], y, pat, rep);
      SplitAtCopy(a, y, pat, rep);
    }
  }

  /** The step of `ReplaceSplit` where `a` begins with `pat`. */
  lemma {:induction false} SplitAtMatch(pat: string, rest: string, y: string, rep: string)
    requires |pat| > 0
    requires Replace(rest + y, pat, rep) == Replace(rest, pat, rep) + Replace(y, pat, rep)
    ensures Replace(pat + rest + y, pat, rep) == Replace(pat + rest, pat, rep) + Replace(y, pat, rep)
  {
    assert pat + rest + y == pat + (rest + y);
    ReplaceHere(pat, rest + y, rep);
    ReplaceHere(pat, rest, rep);
  }

  /** The step of `ReplaceSplit` where the head of `a` is copied. */
  lemma {:induction false} SplitAtCopy(a: string, y: string, pat: string, rep: string)
    requires 0 < |a| && |pat| > 0 && !OccursAt(pat, a + y, 0) && !OccursAt(pat, a, 0)
    requires Replace(a[1..] + y, pat, rep) == Replace(a[1..], pat, rep) + Replace(y, pat, rep)
    ensures Replace(a + y, pat, rep) == Replace(a, pat, rep) + Replace(y, pat, rep)
  {
    CopyHead(a, y, pat, rep);
    CopyAlone(a, pat, rep);
  }

  /** A head where `pat` does not start is copied. */
  lemma {:induction false} CopyAlone(a: string, pat: string, rep: string)
    requires 0 < |a| && |pat| > 0 && !OccursAt(pat, a, 0)
    ensures Replace(a, pat, rep) == [a[0]] + Replace(a[1..], pat, rep)
  {
    if |a| >= |pat| {
      assert a[0..|pat|] == a[..|pat|];
    }
  }

  /** No occurrence starts at the head of `a + y` when `a` does not begin with `pat` and
      none runs from `a` into `y`. */
  lemma {:induction false} NoMatchStart(a: string, y: string, pat: string)
    requires 0 < |a| && 0 < |pat| && NoOverlapInto(pat, y)
    requires !(|pat| <= |a| && a[..|pat|] == pat)
    ensures !OccursAt(pat, a + y, 0) && !OccursAt(pat, a, 0)
  {
    var s := a + y;
    if |pat| <= |a| {
      assert s[0..|pat|] == a[..|pat|];
      assert a[0..|pat|] == a[..|pat|];
    } else if |pat| <= |s| {
      NoMatchAcross(a, y, pat);
      assert s[0..|pat|] == s[..|pat|];
    }
  }

  /** An occurrence at the start of `a + y` that runs past `a` would reach into `y`. */
  lemma {:induction false} NoMatchAcross(a: string, y: string, pat: string)
    requires 0 < |a| < |pat| <= |a + y| && NoOverlapInto(pat, y)
    ensures (a + y)[..|pat|] != pat
  {
    var s := a + y;
    var m := |a|;
    assert Differ(pat[m..], y);
    var d :| 0 <= d < |pat[m..]| && d < |y| && pat[m..][d] != y[d];
    assert s[m + d] == y[d];
    assert s[..|pat|][m + d] != pat[m + d];
  }

  /** When no occurrence of `pat` starts inside `x`, replacing in `x + b` copies `x`. */
  lemma {:induction false} ReplaceSkip(x: string, b: string, pat: string, rep: string)
    requires |pat| > 0 && NoStartWithin(pat, x)
    ensures Replace(x + b, pat, rep) == x + Replace(b, pat, rep)
  {
    forall j | 0 <= j < |x| ensures !OccursAt(pat, x + b, j) {
      NoStartAt(pat, x, b, j);
    }
    ReplaceCopy(x, b, pat, rep);
  }

  lemma {:induction false} NoStartAt(pat: string, x: string, b: string, j: nat)
    requires j < |x| && NoStartWithin(pat, x)
    ensures !OccursAt(pat, x + b, j)
  {
    assert Differ(x[j..], pat);
    var d :| 0 <= d < |x[j..]| && d < |pat| && x[j..][d] != pat[d];
    assert (x + b)[j + d] == x[j + d];
    if j + |pat| <= |x + b| {
      assert (x + b)[j..j + |pat|][d] != pat[d];
    }
  }

  /** A text that no occurrence of `pat` can overlap comes through `str.replace`
      unchanged, and each side of it is replaced on its own. */
  lemma {:induction false} ReplaceKeeps(a: string, x: string, b: string, pat: string, rep: string)
    requires |pat| > 0 && Apart(pat, x)
    ensures Replace(a + x + b, pat, rep) == Replace(a, pat, rep) + x + Replace(b, pat, rep)
  {
    NoOverlapExtend(pat, x, b);
    assert a + x + b == a + (x + b);
    ReplaceSplit(a, x + b, pat, rep);
    ReplaceSkip(x, b, pat, rep);
  }

  /** An occurrence of a pattern that cannot overlap itself is replaced, and each side
      of it is replaced on its own. */
  lemma {:induction false} ReplaceAt(a: string, b: string, pat: string, rep: string)
    requires |pat| > 0 && NoOverlapInto(pat, pat)
    ensures Replace(a + pat + b, pat, rep) == Replace(a, pat, rep) + rep + Replace(b, pat, rep)
  {
    NoOverlapExtend(pat, pat, b);
    assert a + pat + b == a + (pat + b);
    ReplaceSplit(a, pat + b, pat, rep);
    var s := pat + b;
    assert s[..|pat|] == pat && s[|pat|..] == b;
  }

  /** `s` with every `c` replaced by `rep`, one character at a time. */
  function ReplaceChar(s: string, c: char, rep: string): string
    decreases |s|
  {
    if |s| == 0 then [] else (if s[0] == c then rep else [s[0]]) + ReplaceChar(s[1..], c, rep)
  }

  /** `str.replace` of a one-character pattern substitutes that character everywhere. */
  lemma {:induction false} ReplaceSingle(s: string, c: char, rep: string)
    ensures Replace(s, [c], rep) == ReplaceChar(s, c, rep)
    decreases |s|
  {
    if |s| > 0 {
      assert s[..1] == [s[0]];
      ReplaceSingle(s[1..], c, rep);
    }
  }

  lemma {:induction false} ReplaceCharAppend(a: string, b: string, c: char, rep: string)
    ensures ReplaceChar(a + b, c, rep) == ReplaceChar(a, c, rep) + ReplaceChar(b, c, rep)
    decreases |a|
  {
    if |a| == 0 {
      assert a + b == b;
    } else {
      assert (a + b)[1..] == a[1..] + b;
      ReplaceCharAppend(a[1..], b, c, rep);
    }
  }

  /** A pattern holding a character that `s` lacks does not occur in `s`. */
  lemma {:induction false} AbsentCharNoOccurrence(pat: string, s: string, c: char)
    requires c in pat && c !in s
    ensures !Occurs(pat, s)
    decreases |s|
  {
    if |s| >= |pat| {
      var k :| 0 <= k < |pat| && pat[k] == c;
      assert s[..|pat|][k] == s[k];
      if |s| > 0 {
        assert forall j :: 0 <= j < |s| - 1 ==> s[1..][j] == s[j + 1];
        AbsentCharNoOccurrence(pat, s[1..], c);
      }
    }
  }
}
