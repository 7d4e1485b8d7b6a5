/**
 * NextPalindromeDecimal: the next palindrome of a decimal string that may carry one '.'.
 * A '.' exactly at index |s|/2 is kept as the centre of the palindrome; any other '.' is
 * dropped and the digits are treated as an integer.
 */
module NextPalindromeDecimal {
  import opened Wrappers
  import opened NextPalindrome

  // ---------- the input format and the string helpers ----------

  /** The format `[0-9]*\.?[0-9]+`: digits and at most one '.', ending in a digit. */
  predicate ValidDecimal(s: string)
  {
    |s| >= 1 && IsDigit(s[|s| - 1]) &&
    (forall i :: 0 <= i < |s| ==> IsDigit(s[i]) || s[i] == '.') &&
    (forall i, j :: 0 <= i < j < |s| && s[i] == '.' ==> s[j] != '.')
  }

  /** `String.indexOf('.')`: the first '.', or -1. */
  function DotIndex(s: string): (i: int)
    ensures -1 <= i < |s|
    ensures i == -1 <==> forall k :: 0 <= k < |s| ==> s[k] != '.'
    ensures i >= 0 ==> s[i] == '.' && forall k :: 0 <= k < i ==> s[k] != '.'
  {
    if s == [] then -1
    else if s[0] == '.' then 0
    else
      var j := DotIndex(s[1..]);
      if j == -1 then -1 else j + 1
  }

  /** `String.replace(".", "")`. */
  function RemoveDots(s: string): (r: string)
    ensures forall k :: 0 <= k < |r| ==> r[k] != '.'
  {
    if s == [] then []
    else (if s[0] == '.' then [] else [s[0]]) + RemoveDots(s[1..])
  }

  /** `new StringBuilder(s).reverse()`. */
  function Reverse(s: string): (r: string)
    ensures |r| == |s| && forall i :: 0 <= i < |s| ==> r[i] == s[|s| - 1 - i]
  {
    seq(|s|, i requires 0 <= i < |s| => s[|s| - 1 - i])
  }

  /** `String.compareTo`: the difference of the first differing characters, else of the lengths. */
  function CompareTo(a: string, b: string): int
  {
    if a == [] || b == [] then |a| - |b|
    else if a[0] != b[0] then a[0] as int - b[0] as int
    else CompareTo(a[1..], b[1..])
  }

  /** `compare`: by length first (`Integer.compare`), then by `compareTo`. */
  function Compare(a: string, b: string): int
  {
    if |a| != |b| then (if |a| < |b| then -1 else 1) else CompareTo(a, b)
  }

  /** `increment`: add one with carry; all nines grow by one digit. */
  function Increment(l: string): (r: string)
    requires Digits(l)
  {
    if AllNines(l) then "1" + Zeros(|l|) else IncDigits(l)
  }

  /** The palindrome with x on the left of a central '.'. */
  function AroundDot(x: string): string
  {
    x + "." + Reverse(x)
  }

  lemma ValidNoDot(s: string)
    requires ValidDecimal(s) && DotIndex(s) == -1
    ensures Digits(s)
  {
  }

  lemma {:induction false} RemoveNoDots(s: string)
    requires forall k :: 0 <= k < |s| ==> s[k] != '.'
    ensures RemoveDots(s) == s
  {
    if s != [] {
      RemoveNoDots(s[1..]);
    }
  }

  lemma {:induction false} RemoveDotsAppend(a: string, b: string)
    ensures RemoveDots(a + b) == RemoveDots(a) + RemoveDots(b)
  {
    if a != [] {
      var ab := a + b;
      assert ab[0] == a[0] && ab[1..] == a[1..] + b;
      RemoveDotsAppend(a[1..], b);
    } else {
      assert a + b == b;
    }
  }

  /** Every character of a valid decimal other than its one '.' is a digit. */
  lemma OnlyDot(s: string, d: nat)
    requires ValidDecimal(s) && d < |s| && s[d] == '.'
    ensures forall k :: 0 <= k < |s| && k != d ==> IsDigit(s[k])
  {
    forall k | 0 <= k < |s| && k != d
      ensures IsDigit(s[k])
    {
      if k < d {
        assert s[k] != '.' by { assert s[d] != '.' || s[k] != '.'; }
      } else {
        assert s[k] != '.';
      }
    }
  }

  lemma SplitRemove(p: string, q: string)
    requires Digits(p) && Digits(q)
    ensures RemoveDots(p + "." + q) == p + q
  {
    var t := "." + q;
    assert t[0] == '.' && t[1..] == q;
    assert RemoveDots(t) == RemoveDots(q);
    assert p + "." + q == p + t;
    RemoveDotsAppend(p, t);
    RemoveNoDots(p);
    RemoveNoDots(q);
  }

  /** With its only '.' at d, dropping it leaves the two digit runs side by side. */
  lemma RemoveTheDot(s: string, d: nat)
    requires ValidDecimal(s) && d < |s| && s[d] == '.'
    ensures d < |s| - 1 && RemoveDots(s) == s[..d] + s[d + 1..]
    ensures Digits(s[..d]) && Digits(s[d + 1..]) && |s[d + 1..]| >= 1
  {
    OnlyDot(s, d);
    assert s == s[..d] + "." + s[d + 1..];
    SplitRemove(s[..d], s[d + 1..]);
  }

  /** Dropping the only '.' leaves at least one digit and nothing else. */
  lemma DigitsWithoutDot(s: string, d: nat)
    requires ValidDecimal(s) && d < |s| && s[d] == '.'
    ensures Digits(RemoveDots(s)) && |RemoveDots(s)| >= 1 && Digits(s[..d])
  {
    RemoveTheDot(s, d);
    DigitsAppend(s[..d], s[d + 1..]);
  }

  // ---------- the result ----------

  /** The result of `nextPalindromeWithDecimal` for a valid input, case by case. */
  function NextDecimal(s: string): (r: string)
    requires ValidDecimal(s)
  {
    var d := DotIndex(s);
    if d == -1 then
      ValidNoDot(s);
      NextPal(s)
    else if d != |s| / 2 then
      DigitsWithoutDot(s, d);
      NextPal(RemoveDots(s))
    else
      DigitsWithoutDot(s, d);
      CentredNext(s[..d], s)
  }

  /** The centred case: mirror the left part around the '.', or its increment if that is not larger. */
  function CentredNext(l: string, s: string): string
    requires Digits(l)
  {
    if Compare(AroundDot(l), s) > 0 then AroundDot(l) else AroundDot(Increment(l))
  }

  // ---------- properties ----------

  lemma {:induction false} CompareToLex(a: string, b: string)
    requires |a| == |b|
    ensures CompareTo(a, b) > 0 <==> LexLess(b, a)
    ensures CompareTo(a, b) == 0 <==> a == b
  {
    if a != [] {
      CompareToLex(a[1..], b[1..]);
      if a[0] == b[0] {
        assert a == [a[0]] + a[1..] && b == [b[0]] + b[1..];
      }
    }
  }

  /** `compare` orders by length, then lexicographically. */
  lemma CompareOrder(a: string, b: string)
    ensures Compare(a, b) > 0 <==> |a| > |b| || (|a| == |b| && LexLess(b, a))
    ensures Compare(a, b) == 0 <==> a == b
  {
    if |a| == |b| {
      CompareToLex(a, b);
    }
  }

  /** `increment` adds one: the value grows by one; all nines become "1" and |l| zeros. */
  lemma IncrementValue(l: string)
    requires Digits(l)
    ensures Digits(Increment(l)) && Value(Increment(l)) == Value(l) + 1
    ensures AllNines(l) ==> |Increment(l)| == |l| + 1
    ensures !AllNines(l) ==> |Increment(l)| == |l|
  {
    if AllNines(l) {
      NinesValue(l);
      OneZerosValue(|l|);
    } else {
      IncDigitsValue(l);
    }
  }

  lemma {:induction false} ReverseDigits(x: string)
    requires Digits(x)
    ensures Digits(Reverse(x))
  {
  }

  /** The centred result is a palindrome, with its '.' in the middle. */
  lemma AroundDotPalindrome(x: string)
    ensures IsPalindrome(AroundDot(x)) && |AroundDot(x)| == 2 * |x| + 1
    ensures AroundDot(x)[|x|] == '.'
  {
    var r := AroundDot(x);
    var n := |x|;
    forall i, j | 0 <= i < |r| && 0 <= j < |r| && i + j == |r| - 1
      ensures r[i] == r[j]
    {
      if i < n {
        assert r[i] == x[i] && r[j] == Reverse(x)[j - n - 1];
      } else if i > n {
        assert r[j] == x[j] && r[i] == Reverse(x)[i - n - 1];
      }
    }
  }

  /** Mirroring the incremented left half beats an input that starts with that half. */
  lemma AroundIncrementGreater(s: string, l: string)
    requires Digits(l) && |s| == 2 * |l| + 1 && s[..|l|] == l
    ensures Compare(AroundDot(Increment(l)), s) > 0
  {
    var x := Increment(l);
    IncrementValue(l);
    AroundDotPalindrome(x);
    CompareOrder(AroundDot(x), s);
    if !AllNines(l) {
      LexValue(l, x);
      assert AroundDot(x)[..|l|] == x;
      LexPrefix(s, AroundDot(x), |l|);
    }
  }

  /** Inputs with a centred '.' always come out greater under `compare`. */
  lemma CentredGreater(s: string)
    requires ValidDecimal(s) && DotIndex(s) == |s| / 2
    ensures Compare(NextDecimal(s), s) > 0
  {
    var d := DotIndex(s);
    RemoveTheDot(s, d);
    var l := s[..d];
    if Compare(AroundDot(l), s) <= 0 {
      AroundDotPalindrome(l);
      CompareOrder(AroundDot(l), s);
      AroundIncrementGreater(s, l);
    }
  }

  /** A lexicographically smaller prefix decides the order of equal-length strings. */
  lemma {:induction false} LexPrefix(a: string, b: string, k: nat)
    requires |a| == |b| && k <= |a| && LexLess(a[..k], b[..k])
    ensures LexLess(a, b)
  {
    if a[0] == b[0] {
      assert a[..k][1..] == a[1..][..k - 1] && b[..k][1..] == b[1..][..k - 1];
      LexPrefix(a[1..], b[1..], k - 1);
    }
  }

  // ---------- the numeric reading of a decimal string ----------

  /** The number of digits after the '.'. */
  function Frac(s: string): nat
  {
    var d := DotIndex(s);
    if d == -1 then 0 else |s| - 1 - d
  }

  /** x * 10^k, one factor of ten at a time. */
  function Scaled(x: nat, k: nat): nat
  {
    if k == 0 then x else Scaled(x, k - 1) * 10
  }

  /** a < b as decimal numbers: a's digits over 10^Frac(a) against b's digits over 10^Frac(b). */
  predicate NumLess(a: string, b: string)
  {
    Scaled(Value(RemoveDots(a)), Frac(b)) < Scaled(Value(RemoveDots(b)), Frac(a))
  }

  lemma {:induction false} ScaledMono(x: nat, y: nat, k: nat)
    requires x < y
    ensures Scaled(x, k) < Scaled(y, k)
  {
    if k > 0 {
      ScaledMono(x, y, k - 1);
    }
  }

  lemma {:induction false} ScaledGrow(x: nat, k: nat)
    ensures x <= Scaled(x, k)
  {
    if k > 0 {
      ScaledGrow(x, k - 1);
    }
  }

  lemma {:induction false} ScaledShift(x: nat, k: nat)
    ensures Scaled(x, k + 1) == Scaled(x * 10, k)
  {
    if k > 0 {
      ScaledShift(x, k - 1);
    }
  }

  // ---------- the corrected result ----------

  /**
   * As `NextDecimal`, but a '.' counts as centred only when |s| is odd: an even-length string
   * has no middle character, so its '.' is dropped like any other.
   */
  function NextDecimalFixed(s: string): (r: string)
    requires ValidDecimal(s)
  {
    if EvenCentred(s) then
      DigitsWithoutDot(s, |s| / 2);
      NextPal(RemoveDots(s))
    else
      NextDecimal(s)
  }

  /** The inputs the code as written mishandles: even length, '.' at index |s|/2. */
  predicate EvenCentred(s: string)
  {
    DotIndex(s) == |s| / 2 && |s| % 2 == 0
  }

  /** Past a common prefix of length k, the tails decide the order. */
  lemma {:induction false} LexCommonPrefix(x: string, y: string, k: nat)
    requires |x| == |y| && k <= |x| && x[..k] == y[..k]
    ensures LexLess(x, y) <==> LexLess(x[k..], y[k..])
  {
    if k > 0 {
      assert x[0] == x[..k][0] == y[..k][0] == y[0];
      assert x[1..][..k - 1] == x[..k][1..] && y[1..][..k - 1] == y[..k][1..];
      LexCommonPrefix(x[1..], y[1..], k - 1);
      assert x[1..][k - 1..] == x[k..] && y[1..][k - 1..] == y[k..];
    }
  }

  /** A string of digits has no '.'. */
  lemma DigitsNoDot(t: string)
    requires Digits(t)
    ensures DotIndex(t) == -1 && RemoveDots(t) == t && Frac(t) == 0
  {
    RemoveNoDots(t);
  }

  /** The first '.' of a string is where `indexOf` finds it. */
  lemma DotAt(r: string, k: nat)
    requires k < |r| && r[k] == '.' && forall j :: 0 <= j < k ==> r[j] != '.'
    ensures DotIndex(r) == k
  {
  }

  /** Where the characters of p + "." + q come from. */
  lemma PartsIndex(p: string, q: string)
    ensures |p + "." + q| == |p| + 1 + |q| && (p + "." + q)[|p|] == '.'
    ensures forall k :: 0 <= k < |p| ==> (p + "." + q)[k] == p[k]
    ensures forall k :: 0 <= k < |q| ==> (p + "." + q)[|p| + 1 + k] == q[k]
  {
  }

  /** A string whose one '.' at d is followed by a digit and surrounded by digits is valid. */
  lemma ValidAt(r: string, d: nat)
    requires d < |r| - 1 && r[d] == '.' && forall k :: 0 <= k < |r| && k != d ==> IsDigit(r[k])
    ensures ValidDecimal(r) && DotIndex(r) == d && Frac(r) == |r| - 1 - d
  {
    DotAt(r, d);
  }

  /** Digits, a '.', then at least one digit: a valid decimal whose only '.' is at |p|. */
  lemma ValidOfParts(p: string, q: string)
    requires Digits(p) && Digits(q) && |q| >= 1
    ensures ValidDecimal(p + "." + q) && DotIndex(p + "." + q) == |p|
    ensures Frac(p + "." + q) == |q| && RemoveDots(p + "." + q) == p + q
  {
    PartsDigits(p, q);
    ValidAt(p + "." + q, |p|);
    SplitRemove(p, q);
  }

  lemma PartsDigits(p: string, q: string)
    requires Digits(p) && Digits(q) && |q| >= 1
    ensures |p + "." + q| - 1 > |p| && (p + "." + q)[|p|] == '.'
    ensures forall k :: 0 <= k < |p + "." + q| && k != |p| ==> IsDigit((p + "." + q)[k])
  {
    var r := p + "." + q;
    PartsIndex(p, q);
    forall k | 0 <= k < |r| && k != |p|
      ensures IsDigit(r[k])
    {
      if k > |p| {
        assert r[|p| + 1 + (k - |p| - 1)] == q[k - |p| - 1];
      }
    }
  }

  /** The centred palindrome around a '.' is itself a valid decimal with the '.' at |x|. */
  lemma AroundDotParts(x: string)
    requires Digits(x) && |x| >= 1
    ensures ValidDecimal(AroundDot(x)) && IsPalindrome(AroundDot(x))
    ensures Frac(AroundDot(x)) == |x| && RemoveDots(AroundDot(x)) == x + Reverse(x)
  {
    AroundDotPalindrome(x);
    ReverseDigits(x);
    ValidOfParts(x, Reverse(x));
  }

  /** The integer paths: a palindrome above the digits is above the decimal too. */
  lemma IntegerAbove(s: string, t: string)
    requires RemoveDots(s) == t && Digits(t) && |t| >= 1
    ensures ValidDecimal(NextPal(t)) && IsPalindrome(NextPal(t)) && NumLess(s, NextPal(t))
  {
    var r := NextPal(t);
    NextPalAbove(t);
    NextPalPalindrome(t);
    DigitsNoDot(r);
    ScaledGrow(Value(r), Frac(s));
  }

  /** If `compare` puts l.reverse(l) above l.q at the same length, its digits are the larger number. */
  lemma MirrorDigitsAbove(l: string, q: string)
    requires Digits(l) && Digits(q) && |q| == |l|
    requires LexLess(l + "." + q, l + "." + Reverse(l))
    ensures Value(l + q) < Value(l + Reverse(l))
  {
    var r := Reverse(l);
    DropDot(l, q, r);
    ReverseDigits(l);
    DigitsAppend(l, q);
    DigitsAppend(l, r);
    LexValue(l + q, l + r);
  }

  /** The same '.' after the same prefix does not change the order. */
  lemma DropDot(l: string, a: string, b: string)
    requires |a| == |b| && LexLess(l + "." + a, l + "." + b)
    ensures LexLess(l + a, l + b)
  {
    LexDropPrefix(l + ".", a, b);
    LexAddPrefix(l, a, b);
  }

  lemma LexDropPrefix(p: string, a: string, b: string)
    requires |a| == |b| && LexLess(p + a, p + b)
    ensures LexLess(a, b)
  {
    SplitAt(p, a);
    SplitAt(p, b);
    LexCommonPrefix(p + a, p + b, |p|);
  }

  lemma LexAddPrefix(p: string, a: string, b: string)
    requires |a| == |b| && LexLess(a, b)
    ensures LexLess(p + a, p + b)
  {
    SplitAt(p, a);
    SplitAt(p, b);
    LexCommonPrefix(p + a, p + b, |p|);
  }

  lemma SplitAt(p: string, a: string)
    ensures (p + a)[..|p|] == p && (p + a)[|p|..] == a
  {
  }

  /** Incrementing a left part that is not all nines gives larger digits at the same length. */
  lemma IncrementDigitsAbove(l: string, q: string)
    requires Digits(l) && Digits(q) && |q| == |l| && !AllNines(l)
    ensures |Increment(l)| == |l| && Value(l + q) < Value(Increment(l) + Reverse(Increment(l)))
  {
    var x := Increment(l);
    IncrementValue(l);
    LexValue(l, x);
    ReverseDigits(x);
    DigitsAppend(l, q);
    DigitsAppend(x, Reverse(x));
    assert (l + q)[..|l|] == l && (x + Reverse(x))[..|l|] == x;
    LexPrefix(l + q, x + Reverse(x), |l|);
    LexValue(l + q, x + Reverse(x));
  }

  /** Incrementing an all-nines left part gains a digit, and ten times the old digits are still below. */
  lemma CarryDigitsAbove(l: string, q: string)
    requires Digits(l) && Digits(q) && |q| == |l| && AllNines(l)
    ensures |Increment(l)| == |l| + 1 && Value(l + q) * 10 < Value(Increment(l) + Reverse(Increment(l)))
  {
    var x := "1" + Zeros(|l|);
    assert Increment(l) == x;
    var a, b := l + q, x + Reverse(x);
    LeadingOneBound(x);
    TenTimesBelow(Value(a), |a|, Value(b), |b| - 1);
  }

  lemma TenTimesBelow(v: nat, n: nat, w: nat, m: nat)
    requires v < Pow10(n) && m == n + 1 && Pow10(m) <= w
    ensures v * 10 < w
  {
  }

  /** A digit string opening with '1', followed by its reversal, is at least 10^(2|x|-1). */
  lemma LeadingOneBound(x: string)
    requires Digits(x) && |x| >= 1 && x[0] == '1'
    ensures Value(x + Reverse(x)) >= Pow10(|x + Reverse(x)| - 1)
  {
    var w := x + Reverse(x);
    assert Canonical(w) by {
      ReverseDigits(x);
      DigitsAppend(x, Reverse(x));
      assert w[0] == x[0];
    }
    CanonicalLower(w);
  }

  /** The centred case of the corrected result, once the input is split around its '.'. */
  lemma CentredAbove(s: string, l: string, q: string)
    requires Digits(l) && Digits(q) && |q| == |l| >= 1 && s == l + "." + q
    ensures ValidDecimal(CentredNext(l, s)) && IsPalindrome(CentredNext(l, s))
    ensures NumLess(s, CentredNext(l, s))
  {
    ValidOfParts(l, q);
    var v := Value(l + q);
    if Compare(AroundDot(l), s) > 0 {
      AroundDotParts(l);
      CompareOrder(AroundDot(l), s);
      MirrorDigitsAbove(l, q);
      ScaledMono(v, Value(l + Reverse(l)), |l|);
    } else {
      var x := Increment(l);
      IncrementValue(l);
      AroundDotParts(x);
      if AllNines(l) {
        CarryDigitsAbove(l, q);
        ScaledShift(v, |l|);
        ScaledMono(v * 10, Value(x + Reverse(x)), |l|);
      } else {
        IncrementDigitsAbove(l, q);
        ScaledMono(v, Value(x + Reverse(x)), |l|);
      }
    }
  }

  /** The corrected result is a valid decimal palindrome that is larger as a number. */
  lemma NextDecimalFixedAbove(s: string)
    requires ValidDecimal(s)
    ensures ValidDecimal(NextDecimalFixed(s)) && IsPalindrome(NextDecimalFixed(s))
    ensures NumLess(s, NextDecimalFixed(s))
  {
    var d := DotIndex(s);
    if d == -1 {
      ValidNoDot(s);
      RemoveNoDots(s);
      IntegerAbove(s, s);
    } else if d != |s| / 2 || EvenCentred(s) {
      RemoveTheDot(s, d);
      IntegerAbove(s, RemoveDots(s));
    } else {
      RemoveTheDot(s, d);
      assert s == s[..d] + "." + s[d + 1..];
      CentredAbove(s, s[..d], s[d + 1..]);
    }
  }

  /** As written, "12.5" gives "12.21", which is a smaller number. */
  lemma EvenCentredBelow()
    ensures ValidDecimal("12.5") && NextDecimal("12.5") == "12.21"
    ensures NumLess("12.21", "12.5") && !NumLess("12.5", "12.21")
  {
    EvenCentredResult();
    EvenCentredNumbers();
  }

  lemma EvenCentredResult()
    ensures ValidDecimal("12.5") && NextDecimal("12.5") == "12.21"
  {
    ValidOfParts("12", "5");
    assert "12" + "." + "5" == "12.5";
    assert "12.5"[..2] == "12";
    assert Reverse("12") == "21";
    assert AroundDot("12") == "12.21";
  }

  lemma EvenCentredNumbers()
    ensures Value(RemoveDots("12.5")) == 125 && Frac("12.5") == 1
    ensures Value(RemoveDots("12.21")) == 1221 && Frac("12.21") == 2
  {
    ValidOfParts("12", "5");
    ValidOfParts("12", "21");
    assert "12" + "." + "5" == "12.5" && "12" + "." + "21" == "12.21";
    assert "12" + "5" == "125" && "12" + "21" == "1221";
    Value125();
    Value1221();
  }

  lemma Value125()
    ensures Value("125") == 125
  {
    assert "125"[..2] == "12" && "12"[..1] == "1" && "1"[..0] == "";
  }

  lemma Value1221()
    ensures Value("1221") == 1221
  {
    assert "1221"[..3] == "122" && "122"[..2] == "12" && "12"[..1] == "1" && "1"[..0] == "";
  }

  /** As written, every valid input still yields a valid decimal that reads the same both ways. */
  lemma NextDecimalPalindrome(s: string)
    requires ValidDecimal(s)
    ensures ValidDecimal(NextDecimal(s)) && IsPalindrome(NextDecimal(s))
  {
    if EvenCentred(s) {
      var d := DotIndex(s);
      RemoveTheDot(s, d);
      AroundDotParts(s[..d]);
    } else {
      NextDecimalFixedAbove(s);
    }
  }

  // ---------- the imperative code ----------

  /** `compareArr`: the difference at the first differing position, else 0. */
  method CompareArr(a: array<char>, b: array<char>) returns (r: int)
    requires a.Length <= b.Length
    ensures r == CompareTo(a[..], b[..a.Length])
  {
    for i := 0 to a.Length
      invariant CompareTo(a[..], b[..a.Length]) == CompareTo(a[i..], b[i..a.Length])
    {
      assert a[i..][1..] == a[i + 1..] && b[i..a.Length][1..] == b[i + 1..a.Length];
      if a[i] != b[i] {
        return a[i] as int - b[i] as int;
      }
    }
    return 0;
  }

  /** `nextIntegerPalindrome`: `nextPalindrome` without its check, comparing with `compareArr`. */
  method NextIntegerPalindrome(s: string) returns (r: string)
    requires Digits(s) && |s| >= 1
    ensures r == NextPal(s)
  {
    var n := |s|;
    var arr := new char[n](k requires 0 <= k < n => s[k]);
    assert arr[..] == s;
    if n == 1 {
      if arr[0] == '9' {
        return "11";
      }
      return [(arr[0] as int + 1) as char];
    }
    var nines := AllNinesScan(arr);
    if nines {
      r := OneZerosOne(n);
      return;
    }
    var mirrored := new char[n](k requires 0 <= k < n => s[k]);
    Mirror(mirrored);
    var c := CompareArr(mirrored, arr);
    assert arr[..n] == s && mirrored[..] == Mirrored(s);
    CompareToLex(Mirrored(s), s);
    if c > 0 {
      return mirrored[..];
    }
    r := IncrementAndMirror(s);
  }

  /** `increment`: carry from the last digit; all nines become "1" followed by |l| zeros. */
  method IncrementString(l: string) returns (r: string)
    requires Digits(l)
    ensures r == Increment(l)
  {
    var n := |l|;
    var arr := new char[n](k requires 0 <= k < n => l[k]);
    assert arr[..] == l;
    var i := n - 1;
    while i >= 0 && arr[i] == '9'
      invariant -1 <= i < n
      invariant forall k :: 0 <= k < n ==> arr[k] == (if i < k then '0' else l[k])
      invariant forall k :: i < k < n ==> l[k] == '9'
    {
      arr[i] := '0';
      i := i - 1;
    }
    if i >= 0 {
      arr[i] := (arr[i] as int + 1) as char;
      CarryResult(l, arr[..], i, n - 1);
      assert l[..n] == l && l[n..] == [];
      return arr[..];
    }
    return "1" + Zeros(n);
  }

  /** `nextPalindromeWithDecimal`: rejects malformed input, then follows the cases of `NextDecimal`. */
  method NextPalindromeWithDecimal(s: string) returns (r: Result<string>)
    ensures !ValidDecimal(s) ==> r == Err(IllegalArgumentException)
    ensures ValidDecimal(s) ==> r == Ok(NextDecimal(s))
  {
    if !ValidDecimal(s) {
      return Err(IllegalArgumentException);
    }
    var d := DotIndex(s);
    if d == -1 {
      ValidNoDot(s);
      var p := NextIntegerPalindrome(s);
      return Ok(p);
    }
    RemoveTheDot(s, d);
    if d != |s| / 2 {
      var p := NextIntegerPalindrome(RemoveDots(s));
      return Ok(p);
    }
    var l := s[..d];
    var mirrored := l + "." + Reverse(l);
    if Compare(mirrored, s) > 0 {
      return Ok(mirrored);
    }
    var inc := IncrementString(l);
    return Ok(inc + "." + Reverse(inc));
  }
}
