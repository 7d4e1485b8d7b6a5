/**
 * NextPalindrome: the smallest palindrome strictly greater than a positive integer
 * given as a decimal string without leading zeros.
 */
module NextPalindrome {
  import opened Wrappers

  // ---------- decimal digit strings ----------

  predicate IsDigit(c: char)
  {
    '0' <= c <= '9'
  }

  predicate Digits(s: string)
  {
    forall i :: 0 <= i < |s| ==> IsDigit(s[i])
  }

  /** The input format `[1-9][0-9]*`: a positive integer without leading zeros. */
  predicate Canonical(s: string)
  {
    |s| >= 1 && '1' <= s[0] <= '9' && Digits(s)
  }

  /** Reads the same both ways: positions i and j with i + j == |s| - 1 hold the same digit. */
  predicate IsPalindrome(s: string)
  {
    forall i, j :: 0 <= i < |s| && 0 <= j < |s| && i + j == |s| - 1 ==> s[i] == s[j]
  }

  predicate AllNines(s: string)
  {
    forall i :: 0 <= i < |s| ==> s[i] == '9'
  }

  /** The value of a decimal digit (other characters count as 0). */
  function Digit(c: char): (d: nat)
    ensures d <= 9
  {
    if IsDigit(c) then c as int - '0' as int else 0
  }

  function Pow10(n: nat): (r: int)
    ensures r >= 1
  {
    if n == 0 then 1 else 10 * Pow10(n - 1)
  }

  /** The number a digit string denotes. */
  function Value(s: string): (v: nat)
    ensures v < Pow10(|s|)
  {
    if s == [] then 0 else Value(s[..|s| - 1]) * 10 + Digit(s[|s| - 1])
  }

  /** Java's comparison of equal-length char arrays at their first difference. */
  predicate LexLess(a: string, b: string)
    requires |a| == |b|
  {
    |a| > 0 && (a[0] < b[0] || (a[0] == b[0] && LexLess(a[1..], b[1..])))
  }

  /** The number of leading positions a palindrome of length n is free to choose. */
  function Half(n: nat): (h: nat)
    ensures n <= 2 * h <= n + 1
  {
    if n <= 1 then n else Half(n - 2) + 1
  }

  /** `mirror`: the left half copied onto the right half. */
  function Mirrored(s: string): (r: string)
    ensures |r| == |s|
    ensures forall k :: 0 <= k < |s| ==> r[k] == s[MirrorIndex(|s|, k)]
  {
    seq(|s|, k requires 0 <= k < |s| => s[MirrorIndex(|s|, k)])
  }

  /** The position of the left half that `mirror` copies onto position k. */
  function MirrorIndex(n: nat, k: nat): (i: nat)
    requires k < n
    ensures i < Half(n) && (i == k || i == n - 1 - k)
  {
    if k <= n - 1 - k then k else n - 1 - k
  }

  /** Add one with carry, keeping the length (the carry out of an all-nines string is lost). */
  function IncDigits(s: string): (r: string)
    requires Digits(s)
    ensures |r| == |s|
  {
    if s == [] then []
    else if s[|s| - 1] == '9' then
      assert Digits(s[..|s| - 1]);
      IncDigits(s[..|s| - 1]) + ['0']
    else s[..|s| - 1] + [(s[|s| - 1] as int + 1) as char]
  }

  function Zeros(k: nat): (r: string)
    ensures |r| == k && forall i :: 0 <= i < k ==> r[i] == '0'
  {
    seq(k, _ => '0')
  }

  /** The result of `nextPalindrome` for a valid input, case by case. */
  function NextPal(s: string): (r: string)
    requires Digits(s) && |s| >= 1
  {
    var n := |s|;
    if n == 1 then
      if s == "9" then "11" else [(s[0] as int + 1) as char]
    else if AllNines(s) then "1" + Zeros(n - 1) + "1"
    else if LexLess(s, Mirrored(s)) then Mirrored(s)
    else Mirrored(IncDigits(s[..Half(n)]) + s[Half(n)..])
  }

  // ---------- arithmetic on Pow10 and Value ----------

  lemma {:induction false} PowMono(i: nat, j: nat)
    requires i <= j
    ensures Pow10(i) <= Pow10(j)
  {
    if i < j {
      PowMono(i, j - 1);
    }
  }

  /** One more digit on the right: the value is shifted and the digit added. */
  lemma ValueSnoc(a: string, j: nat)
    requires j < |a|
    ensures Value(a[..j + 1]) == Value(a[..j]) * 10 + Digit(a[j])
  {
    assert a[..j + 1][..j] == a[..j];
  }

  /** A smaller prefix makes a smaller string, whatever follows. */
  lemma {:induction false} PrefixLess(a: string, b: string, k: nat)
    requires |a| == |b| && k <= |a| && Value(a[..k]) < Value(b[..k])
    ensures Value(a) < Value(b)
    decreases |a| - k
  {
    if k == |a| {
      assert a[..k] == a && b[..k] == b;
    } else {
      ValueSnoc(a, k);
      ValueSnoc(b, k);
      PrefixLess(a, b, k + 1);
    }
  }

  /** Equal-length digit strings of equal value are equal. */
  lemma {:induction false} ValueInjective(a: string, b: string)
    requires Digits(a) && Digits(b) && |a| == |b| && Value(a) == Value(b)
    ensures a == b
  {
    if a != [] {
      var n := |a|;
      var ia, ib := a[..n - 1], b[..n - 1];
      assert Digits(ia) && Digits(ib);
      ShiftInjective(Value(ia), Digit(a[n - 1]), Value(ib), Digit(b[n - 1]));
      ValueInjective(ia, ib);
      DigitInjective(a[n - 1], b[n - 1]);
      SameParts(a, b);
    }
  }

  /** Equal all but the last character, and equal there too. */
  lemma SameParts(a: string, b: string)
    requires |a| == |b| >= 1 && a[..|a| - 1] == b[..|b| - 1] && a[|a| - 1] == b[|b| - 1]
    ensures a == b
  {
    assert a == a[..|a| - 1] + [a[|a| - 1]] && b == b[..|b| - 1] + [b[|b| - 1]];
  }

  lemma DigitInjective(c: char, d: char)
    requires IsDigit(c) && IsDigit(d) && Digit(c) == Digit(d)
    ensures c == d
  {
  }

  lemma ShiftInjective(x: nat, d: nat, y: nat, e: nat)
    requires d <= 9 && e <= 9 && x * 10 + d == y * 10 + e
    ensures x == y && d == e
  {
  }

  /** The first position where two different equal-length strings differ. */
  lemma {:induction false} FirstDiff(a: string, b: string) returns (k: nat)
    requires |a| == |b| && a != b
    ensures k < |a| && a[..k] == b[..k] && a[k] != b[k]
  {
    if a[0] != b[0] {
      k := 0;
    } else {
      assert a == [a[0]] + a[1..] && b == [b[0]] + b[1..];
      var j := FirstDiff(a[1..], b[1..]);
      k := j + 1;
      assert a[..k] == [a[0]] + a[1..][..j] && b[..k] == [b[0]] + b[1..][..j];
    }
  }

  /** LexLess holds exactly when the first difference favours the right-hand side. */
  lemma {:induction false} LexAt(a: string, b: string, k: nat)
    requires |a| == |b| && k < |a| && a[..k] == b[..k] && a[k] != b[k]
    ensures LexLess(a, b) <==> a[k] < b[k]
  {
    if k > 0 {
      assert a[0] == a[..k][0] && b[0] == b[..k][0];
      assert a[1..][..k - 1] == a[..k][1..] && b[1..][..k - 1] == b[..k][1..];
      LexAt(a[1..], b[1..], k - 1);
    }
  }

  lemma {:induction false} LexSelf(a: string)
    ensures !LexLess(a, a)
  {
    if a != [] {
      LexSelf(a[1..]);
    }
  }

  /** On equal-length digit strings, Java's character comparison is numeric comparison. */
  lemma LexValue(a: string, b: string)
    requires Digits(a) && Digits(b) && |a| == |b|
    ensures LexLess(a, b) <==> Value(a) < Value(b)
  {
    if a == b {
      LexSelf(a);
    } else {
      var k := FirstDiff(a, b);
      LexAt(a, b, k);
      ValueSnoc(a, k);
      ValueSnoc(b, k);
      if a[k] < b[k] {
        PrefixLess(a, b, k + 1);
      } else {
        PrefixLess(b, a, k + 1);
      }
    }
  }

  /** A number without leading zeros has as many digits as its size says. */
  lemma {:induction false} CanonicalLower(s: string)
    requires Canonical(s)
    ensures Value(s) >= Pow10(|s| - 1)
  {
    if |s| > 1 {
      CanonicalLower(s[..|s| - 1]);
    }
  }

  /** A digit string whose value reaches 10^(n-1) has no leading zero. */
  lemma {:induction false} LeadingDigit(s: string)
    requires |s| >= 1 && Value(s) >= Pow10(|s| - 1)
    ensures s[0] != '0'
  {
    if |s| > 1 && s[0] == '0' {
      ZeroLeads(s[..|s| - 1]);
    }
  }

  lemma {:induction false} ZeroLeads(s: string)
    requires |s| >= 1 && s[0] == '0'
    ensures Value(s) < Pow10(|s| - 1)
  {
    if |s| > 1 {
      ZeroLeads(s[..|s| - 1]);
    }
  }

  /** Numbers without leading zeros: a value range pins down the length. */
  lemma CanonicalLength(t: string, n: nat)
    requires Canonical(t) && n >= 1
    requires Pow10(n - 1) <= Value(t) < Pow10(n)
    ensures |t| == n
  {
    CanonicalLower(t);
    if |t| < n {
      PowMono(|t|, n - 1);
    } else if |t| > n {
      PowMono(n, |t| - 1);
    }
  }

  /** A string shorter than a number without leading zeros denotes a smaller number. */
  lemma ShorterSmaller(t: string, s: string)
    requires Canonical(s) && |t| < |s|
    ensures Value(t) < Value(s)
  {
    CanonicalLower(s);
    PowMono(|t|, |s| - 1);
  }

  /** A number strictly between two numbers of the same length has that length too. */
  lemma LengthBetween(s: string, t: string, r: string)
    requires Canonical(s) && Canonical(t) && |r| == |s|
    requires Value(s) < Value(t) < Value(r)
    ensures |t| == |s|
  {
    if |t| < |s| {
      ShorterSmaller(t, s);
    } else if |t| > |s| {
      ShorterSmaller(r, t);
    }
  }

  lemma {:induction false} NinesValue(s: string)
    requires AllNines(s)
    ensures Digits(s) && Value(s) == Pow10(|s|) - 1
  {
    if s != [] {
      assert AllNines(s[..|s| - 1]);
      NinesValue(s[..|s| - 1]);
    }
  }

  /** "1" followed by k zeros is 10^k. */
  lemma {:induction false} OneZerosValue(k: nat)
    ensures Canonical("1" + Zeros(k)) && Value("1" + Zeros(k)) == Pow10(k)
  {
    if k > 0 {
      var r := "1" + Zeros(k);
      assert r[..|r| - 1] == "1" + Zeros(k - 1);
      OneZerosValue(k - 1);
    }
  }

  // ---------- mirror ----------

  lemma MirroredSpec(s: string)
    ensures IsPalindrome(Mirrored(s))
    ensures Mirrored(s)[..Half(|s|)] == s[..Half(|s|)]
    ensures Digits(s) ==> Digits(Mirrored(s))
    ensures |s| >= 1 ==> Mirrored(s)[0] == s[0]
  {
    var n, m, h := |s|, Mirrored(s), Half(|s|);
    forall i, j | 0 <= i < n && 0 <= j < n && i + j == n - 1
      ensures m[i] == m[j]
    {
      assert MirrorIndex(n, i) == MirrorIndex(n, j);
    }
    forall k | 0 <= k < h
      ensures m[..h][k] == s[..h][k]
    {
      assert k <= n - 1 - k;
    }
    if Digits(s) {
      forall k | 0 <= k < n
        ensures IsDigit(m[k])
      {
      }
    }
  }

  /** A palindrome is the mirror of any string sharing its free half. */
  lemma PalindromeOfHalf(p: string, s: string)
    requires IsPalindrome(p) && |p| == |s| && p[..Half(|p|)] == s[..Half(|s|)]
    ensures p == Mirrored(s)
  {
    var n := |p|;
    forall k | 0 <= k < n
      ensures p[k] == Mirrored(s)[k]
    {
      if k <= n - 1 - k {
        assert k < Half(n) && p[..Half(n)][k] == s[..Half(n)][k];
      } else {
        assert n - 1 - k < Half(n) && p[..Half(n)][n - 1 - k] == s[..Half(n)][n - 1 - k];
      }
    }
  }

  /**
   * A palindrome above s, of the same length, is either the mirror of s or has a larger
   * free half.
   */
  lemma PalindromeAbove(s: string, t: string)
    requires Digits(s) && Digits(t) && |s| == |t| && IsPalindrome(t) && Value(s) < Value(t)
    ensures t == Mirrored(s) || Value(s[..Half(|s|)]) < Value(t[..Half(|s|)])
  {
    var h := Half(|s|);
    if Value(t[..h]) < Value(s[..h]) {
      PrefixLess(t, s, h);
    } else if Value(t[..h]) == Value(s[..h]) {
      SameHalf(s, t);
    }
  }

  lemma SameHalf(s: string, t: string)
    requires Digits(s) && Digits(t) && |s| == |t| && IsPalindrome(t)
    requires Value(t[..Half(|s|)]) == Value(s[..Half(|s|)])
    ensures t == Mirrored(s)
  {
    var h := Half(|s|);
    assert Digits(s[..h]) && Digits(t[..h]);
    ValueInjective(t[..h], s[..h]);
    PalindromeOfHalf(t, s);
  }

  // ---------- increment ----------

  lemma {:induction false} IncDigitsValue(s: string)
    requires Digits(s) && !AllNines(s)
    ensures Digits(IncDigits(s)) && Value(IncDigits(s)) == Value(s) + 1
  {
    var n := |s|;
    var init := s[..n - 1];
    assert Digits(init);
    var r := IncDigits(s);
    assert Value(s) == Value(init) * 10 + Digit(s[n - 1]);
    if s[n - 1] == '9' {
      assert !AllNines(init);
      IncDigitsValue(init);
      assert r[..n - 1] == IncDigits(init) && r[n - 1] == '0';
      assert Value(r) == Value(IncDigits(init)) * 10;
    } else {
      assert r[..n - 1] == init;
      DigitSucc(s[n - 1]);
      assert Value(r) == Value(init) * 10 + Digit(s[n - 1]) + 1;
    }
  }

  lemma DigitSucc(c: char)
    requires IsDigit(c) && c != '9'
    ensures IsDigit((c as int + 1) as char) && Digit((c as int + 1) as char) == Digit(c) + 1
  {
  }

  /** The carry of `incrementMiddle`: trailing nines become zeros and the digit before them grows. */
  lemma {:induction false} IncDigitsShape(s: string, i: nat)
    requires Digits(s) && i < |s| && s[i] != '9'
    requires forall j :: i < j < |s| ==> s[j] == '9'
    ensures IncDigits(s) == s[..i] + [(s[i] as int + 1) as char] + Zeros(|s| - 1 - i)
    decreases |s|
  {
    var n := |s|;
    if i < n - 1 {
      assert Digits(s[..n - 1]);
      IncDigitsShape(s[..n - 1], i);
      assert s[..n - 1][..i] == s[..i];
      assert Zeros(n - 1 - i) == Zeros(n - 2 - i) + ['0'];
    } else {
      assert s[..n - 1] == s[..i];
    }
  }

  // ---------- the result ----------

  /**
   * When the mirror of s is not greater, some digit of the free half of s is not 9, so
   * the carry of `incrementMiddle` stops inside the array.
   */
  lemma CarryStaysInside(s: string)
    requires Digits(s) && |s| >= 2 && !AllNines(s) && !LexLess(s, Mirrored(s))
    ensures !AllNines(s[..Half(|s|)])
  {
    var n := |s|;
    var h := Half(n);
    if AllNines(s[..h]) {
      var m := Mirrored(s);
      MirrorOfNines(s);
      NinesValue(m);
      LexValue(s, m);
      ValueInjective(s, m);
      assert false;
    }
  }

  /** When the free half is all nines, so is the mirror. */
  lemma MirrorOfNines(s: string)
    requires AllNines(s[..Half(|s|)])
    ensures AllNines(Mirrored(s))
  {
    var n, h, m := |s|, Half(|s|), Mirrored(s);
    forall k | 0 <= k < n
      ensures m[k] == '9'
    {
      var i := MirrorIndex(n, k);
      assert s[..h][i] == s[i];
    }
  }

  /** `nextPalindrome` on a single digit and on all nines. */
  lemma NextPalShapes(s: string)
    requires Digits(s) && |s| >= 1
    ensures |s| == 1 && s[0] != '9' ==> NextPal(s) == [(s[0] as int + 1) as char]
    ensures AllNines(s) ==> NextPal(s) == "1" + Zeros(|s| - 1) + "1"
    ensures |s| >= 2 && !AllNines(s) ==> |NextPal(s)| == |s|
  {
    if |s| == 1 && s == "9" {
      assert Zeros(0) == [];
    }
  }

  /** "1", n-1 zeros, "1" has the value 10^n + 1. */
  lemma OneZerosOneValue(n: nat)
    requires n >= 1
    ensures Canonical("1" + Zeros(n - 1) + "1") && IsPalindrome("1" + Zeros(n - 1) + "1")
    ensures Value("1" + Zeros(n - 1) + "1") == Pow10(n) + 1
  {
    var r := "1" + Zeros(n - 1) + "1";
    OneZerosValue(n - 1);
    assert r[..|r| - 1] == "1" + Zeros(n - 1);
  }

  /** 10^n itself is not a palindrome. */
  lemma PowerNotPalindrome(t: string, n: nat)
    requires n >= 1 && Canonical(t) && Value(t) == Pow10(n)
    ensures !IsPalindrome(t)
  {
    PowMono(n, n + 1);
    CanonicalLength(t, n + 1);
    assert Digits(t[..n]);
    assert Digit(t[n]) == 0;
    assert t[0] != t[|t| - 1 - 0];
  }

  /**
   * r is the next palindrome after s: a number without leading zeros, a palindrome,
   * strictly greater than s, and no palindrome lies strictly between the two.
   */
  ghost predicate IsNextPalindrome(s: string, r: string)
    requires Canonical(s)
  {
    Canonical(r) && IsPalindrome(r) && Value(s) < Value(r) &&
    forall t :: Canonical(t) && IsPalindrome(t) ==> !(Value(s) < Value(t) < Value(r))
  }

  /**
   * The same among digit strings of one fixed length (leading zeros allowed): r is the
   * next palindrome of the length of s.
   */
  ghost predicate IsNextOfLength(s: string, r: string)
  {
    Digits(r) && |r| == |s| && IsPalindrome(r) && Value(s) < Value(r) &&
    forall t :: Digits(t) && |t| == |s| && IsPalindrome(t) ==> !(Value(s) < Value(t) < Value(r))
  }

  lemma NextOfNines(s: string)
    requires Canonical(s) && AllNines(s)
    ensures IsNextPalindrome(s, "1" + Zeros(|s| - 1) + "1")
  {
    var n := |s|;
    var r := "1" + Zeros(n - 1) + "1";
    NinesValue(s);
    OneZerosOneValue(n);
    forall t | Canonical(t) && IsPalindrome(t) ensures !(Value(s) < Value(t) < Value(r)) {
      if Value(s) < Value(t) < Value(r) {
        PowerNotPalindrome(t, n);
      }
    }
  }

  /** When the mirror of s is greater than s, it is the next palindrome of that length. */
  lemma MirrorNext(s: string)
    requires Digits(s) && |s| >= 2 && LexLess(s, Mirrored(s))
    ensures IsNextOfLength(s, Mirrored(s))
  {
    var m := Mirrored(s);
    MirroredSpec(s);
    LexValue(s, m);
    forall t | Digits(t) && |t| == |s| && IsPalindrome(t) ensures !(Value(s) < Value(t) < Value(m)) {
      MirrorNoneBetween(s, t);
    }
  }

  lemma MirrorNoneBetween(s: string, t: string)
    requires Digits(s) && Digits(t) && |t| == |s| && IsPalindrome(t)
    ensures !(Value(s) < Value(t) < Value(Mirrored(s)))
  {
    var m := Mirrored(s);
    if Value(s) < Value(t) < Value(m) {
      PalindromeAbove(s, t);
      MirroredSpec(s);
      PrefixLess(m, t, Half(|s|));
    }
  }

  /** Otherwise the mirror of s with its free half incremented is the next one. */
  lemma IncrementNext(s: string)
    requires Digits(s) && |s| >= 2 && !AllNines(s) && !LexLess(s, Mirrored(s))
    ensures IsNextOfLength(s, Mirrored(IncDigits(s[..Half(|s|)]) + s[Half(|s|)..]))
  {
    var r := Mirrored(IncDigits(s[..Half(|s|)]) + s[Half(|s|)..]);
    MirroredSpec(s);
    LexValue(s, Mirrored(s));
    IncrementedMirror(s);
    PrefixLess(s, r, Half(|s|));
    forall t | Digits(t) && |t| == |s| && IsPalindrome(t) ensures !(Value(s) < Value(t) < Value(r)) {
      NoneBetween(s, t, r);
    }
  }

  /** The incremented mirror is a palindrome whose free half is one more than that of s. */
  lemma IncrementedMirror(s: string)
    requires Digits(s) && |s| >= 2 && !AllNines(s) && !LexLess(s, Mirrored(s))
    ensures var r := Mirrored(IncDigits(s[..Half(|s|)]) + s[Half(|s|)..]);
      Digits(r) && |r| == |s| && IsPalindrome(r) &&
      Value(r[..Half(|s|)]) == Value(s[..Half(|s|)]) + 1
  {
    var h := Half(|s|);
    CarryStaysInside(s);
    IncrementedHalf(s, h);
    MirroredSpec(IncDigits(s[..h]) + s[h..]);
  }

  lemma IncrementedHalf(s: string, h: nat)
    requires Digits(s) && h <= |s| && !AllNines(s[..h])
    ensures var inc := IncDigits(s[..h]) + s[h..];
      Digits(inc) && |inc| == |s| && inc[..h] == IncDigits(s[..h]) &&
      Value(inc[..h]) == Value(s[..h]) + 1
  {
    var inc := IncDigits(s[..h]) + s[h..];
    IncDigitsValue(s[..h]);
    assert inc[..h] == IncDigits(s[..h]);
    DigitsAppend(IncDigits(s[..h]), s[h..]);
  }

  lemma DigitsAppend(a: string, b: string)
    requires Digits(a) && Digits(b)
    ensures Digits(a + b)
  {
  }

  /** Beyond one digit and all nines, `nextPalindrome` keeps the length and is the next one. */
  lemma NextSameLength(s: string)
    requires Digits(s) && |s| >= 2 && !AllNines(s)
    ensures IsNextOfLength(s, NextPal(s))
  {
    if LexLess(s, Mirrored(s)) {
      MirrorNext(s);
    } else {
      IncrementNext(s);
    }
  }

  /** For a number without leading zeros, the next one of its length is the next one overall. */
  lemma NextOfLengthIsNext(s: string, r: string)
    requires Canonical(s) && IsNextOfLength(s, r)
    ensures IsNextPalindrome(s, r)
  {
    AboveCanonical(s, r);
    forall t | Canonical(t) && IsPalindrome(t) ensures !(Value(s) < Value(t) < Value(r)) {
      if Value(s) < Value(t) < Value(r) {
        LengthBetween(s, t, r);
      }
    }
  }

  /** A number above a canonical one of the same length is canonical too. */
  lemma AboveCanonical(s: string, r: string)
    requires Canonical(s) && Digits(r) && |r| == |s| && Value(s) < Value(r)
    ensures Canonical(r)
  {
    CanonicalLower(s);
    LeadingDigit(r);
  }

  /**
   * No palindrome of the same length lies between s and r when the mirror of s is not
   * above s and the free half of r is one more than that of s.
   */
  lemma NoneBetween(s: string, t: string, r: string)
    requires Digits(s) && Digits(t) && Digits(r) && |t| == |s| && |r| == |s|
    requires IsPalindrome(t) && IsPalindrome(r)
    requires Value(Mirrored(s)) <= Value(s)
    requires Value(r[..Half(|s|)]) == Value(s[..Half(|s|)]) + 1
    ensures !(Value(s) < Value(t) < Value(r))
  {
    var h := Half(|s|);
    if Value(s) < Value(t) < Value(r) {
      PalindromeAbove(s, t);
      if Value(t[..h]) == Value(r[..h]) {
        ValueInjective(t[..h], r[..h]);
        PalindromeOfHalf(t, r);
        PalindromeOfHalf(r, r);
      } else {
        PrefixLess(r, t, h);
      }
    }
  }

  /** The main theorem: `nextPalindrome` returns the next palindrome. */
  lemma NextPalIsNext(s: string)
    requires Canonical(s)
    ensures IsNextPalindrome(s, NextPal(s))
  {
    var n := |s|;
    if n == 1 && s != "9" {
      assert Value(s) == Digit(s[0]);
      assert Value(NextPal(s)) == Digit(s[0]) + 1;
    } else if AllNines(s) {
      assert s == "9" ==> NextPal(s) == "1" + Zeros(0) + "1";
      NextOfNines(s);
    } else {
      NextSameLength(s);
      NextOfLengthIsNext(s, NextPal(s));
    }
  }

  /** On any digit string, `nextPalindrome`'s cases give a larger digit string. */
  /** Every result of `nextPalindrome` reads the same both ways, leading zeros or not. */
  lemma NextPalPalindrome(s: string)
    requires Digits(s) && |s| >= 1
    ensures IsPalindrome(NextPal(s))
  {
    if |s| == 1 && s[0] != '9' {
      SingletonPalindrome([(s[0] as int + 1) as char]);
    } else if AllNines(s) {
      assert s == "9" ==> NextPal(s) == "1" + Zeros(0) + "1";
      OneZerosOneValue(|s|);
    } else {
      NextSameLength(s);
    }
  }

  lemma SingletonPalindrome(r: string)
    requires |r| == 1
    ensures IsPalindrome(r)
  {
  }

  lemma NextPalAbove(s: string)
    requires Digits(s) && |s| >= 1
    ensures Digits(NextPal(s)) && Value(s) < Value(NextPal(s))
  {
    if |s| == 1 && s[0] != '9' {
      SingleDigitAbove(s);
    } else if AllNines(s) {
      NinesAbove(s);
    } else {
      NextSameLength(s);
    }
  }

  lemma SingleDigitAbove(s: string)
    requires Digits(s) && |s| == 1 && s[0] != '9'
    ensures Digits(NextPal(s)) && Value(s) < Value(NextPal(s))
  {
    DigitSucc(s[0]);
    assert Value(s) == Digit(s[0]);
    assert Value(NextPal(s)) == Digit(s[0]) + 1;
  }

  lemma NinesAbove(s: string)
    requires |s| >= 1 && AllNines(s)
    ensures Digits(NextPal(s)) && Value(s) < Value(NextPal(s))
  {
    NinesValue(s);
    NinesNext(s);
  }

  lemma NinesNext(s: string)
    requires |s| >= 1 && AllNines(s)
    ensures Digits(NextPal(s)) && Value(NextPal(s)) == Pow10(|s|) + 1
  {
    NinesValue(s);
    NextPalShapes(s);
    OneZerosOneValue(|s|);
  }

  // ---------- the imperative helpers ----------

  /** `allNines`: a read-only scan. */
  method AllNinesScan(a: array<char>) returns (r: bool)
    ensures r == AllNines(a[..])
  {
    for i := 0 to a.Length
      invariant forall j :: 0 <= j < i ==> a[j] == '9'
    {
      if a[i] != '9' {
        return false;
      }
    }
    return true;
  }

  /** `isGreater`: whether a is greater than b at the first difference. */
  method IsGreater(a: array<char>, b: array<char>) returns (r: bool)
    requires a.Length <= b.Length
    ensures r == LexLess(b[..a.Length], a[..])
  {
    for i := 0 to a.Length
      invariant a[..i] == b[..i]
      invariant LexLess(b[..a.Length], a[..]) == LexLess(b[i..a.Length], a[i..])
    {
      assert b[i..a.Length][1..] == b[i + 1..a.Length] && a[i..][1..] == a[i + 1..];
      if a[i] > b[i] {
        return true;
      }
      if a[i] < b[i] {
        return false;
      }
      assert a[..i + 1] == b[..i + 1];
    }
    return false;
  }

  /** `mirror`: copies a[i] onto a[n-1-i] while i < n-1-i. */
  method Mirror(a: array<char>)
    modifies a
    ensures a[..] == Mirrored(old(a[..]))
  {
    ghost var s := a[..];
    var i, j := 0, a.Length - 1;
    while i < j
      invariant 0 <= i && j == a.Length - 1 - i && i <= a.Length
      invariant forall k :: 0 <= k < a.Length ==> a[k] == (if k < i || k > j then Mirrored(s)[k] else s[k])
    {
      a[j] := a[i];
      i, j := i + 1, j - 1;
    }
  }

  /**
   * `incrementMiddle`: adds one with carry to the first Half(n) digits. The carry must stop
   * inside the array (otherwise Java indexes a[-1]).
   */
  method IncrementMiddle(a: array<char>)
    requires a.Length >= 1 && Digits(a[..])
    requires !AllNines(a[..Half(a.Length)])
    modifies a
    ensures a[..] == IncDigits(old(a[..Half(a.Length)])) + old(a[Half(a.Length)..])
  {
    ghost var s := a[..];
    var mid := (a.Length - 1) / 2;
    assert mid + 1 == Half(a.Length);
    var i := mid;
    while i >= 0 && a[i] == '9'
      invariant -1 <= i <= mid
      invariant forall k :: 0 <= k < a.Length ==> a[k] == (if i < k <= mid then '0' else s[k])
      invariant forall k :: i < k <= mid ==> s[k] == '9'
    {
      a[i] := '0';
      i := i - 1;
    }
    a[i] := (a[i] as int + 1) as char;
    CarryResult(s, a[..], i, mid);
  }

  /** The array after the carry loop: digit i grew, the nines after it up to mid became zeros. */
  lemma CarryResult(s: string, t: string, i: nat, mid: nat)
    requires Digits(s) && |t| == |s| && i <= mid < |s| && s[i] != '9'
    requires forall k :: i < k <= mid ==> s[k] == '9'
    requires forall k :: 0 <= k < |s| ==>
      t[k] == (if k == i then (s[i] as int + 1) as char else if i < k <= mid then '0' else s[k])
    ensures t == IncDigits(s[..mid + 1]) + s[mid + 1..]
  {
    IncDigitsShape(s[..mid + 1], i);
    assert s[..mid + 1][..i] == s[..i];
  }

  /** "1", then n-1 zeros, then "1", built with a string builder. */
  method OneZerosOne(n: nat) returns (r: string)
    requires n >= 1
    ensures r == "1" + Zeros(n - 1) + "1"
  {
    var sb := "1";
    for i := 0 to n - 1
      invariant sb == "1" + Zeros(i)
    {
      sb := sb + "0";
    }
    return sb + "1";
  }

  /** `nextPalindrome`: rejects malformed input, then follows the cases of `NextPal`. */
  method NextPalindromeOf(s: string) returns (r: Result<string>)
    ensures !Canonical(s) ==> r == Err(IllegalArgumentException)
    ensures Canonical(s) ==> r == Ok(NextPal(s))
  {
    if !Canonical(s) {
      return Err(IllegalArgumentException);
    }
    var n := |s|;
    var arr := new char[n](k requires 0 <= k < n => s[k]);
    assert arr[..] == s;
    if n == 1 {
      if s == "9" {
        return Ok("11");
      }
      return Ok([(arr[0] as int + 1) as char]);
    }
    var nines := AllNinesScan(arr);
    if nines {
      var ones := OneZerosOne(n);
      return Ok(ones);
    }
    var mirrored := new char[n](k requires 0 <= k < n => s[k]);
    Mirror(mirrored);
    var greater := IsGreater(mirrored, arr);
    assert arr[..] == s && arr[..n] == s && mirrored[..] == Mirrored(s);
    if greater {
      return Ok(mirrored[..]);
    }
    var inc := IncrementAndMirror(s);
    return Ok(inc);
  }

  /** The last case of `nextPalindrome`: increment the first half, then mirror. */
  method IncrementAndMirror(s: string) returns (r: string)
    requires Digits(s) && |s| >= 2 && !AllNines(s) && !LexLess(s, Mirrored(s))
    ensures Digits(s[..Half(|s|)]) && r == Mirrored(IncDigits(s[..Half(|s|)]) + s[Half(|s|)..])
  {
    var n := |s|;
    var inc := new char[n](k requires 0 <= k < n => s[k]);
    assert inc[..] == s;
    CarryStaysInside(s);
    IncrementMiddle(inc);
    Mirror(inc);
    return inc[..];
  }
}
