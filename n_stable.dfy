/** The longest "m-stable" window of an array: the longest contiguous run
  * in which any two values differ by at most m. Four solutions of
  * decreasing cost: all pairs of every window, the minimum and maximum of
  * every window, a running minimum and maximum per start, and a sliding
  * window over a sorted multiset of counts. */
module NStable {

  const MAX_INT: int := 0x7fff_ffff
  const MIN_INT: int := -0x8000_0000

  /** Every value fits a Java `int`. */
  predicate JavaInts(arr: seq<int>) {
    forall k :: 0 <= k < |arr| ==> MIN_INT <= arr[k] <= MAX_INT
  }

  function Abs(x: int): int {
    if x < 0 then -x else x
  }

  function Min(a: int, b: int): int {
    if a <= b then a else b
  }

  function Max(a: int, b: int): int {
    if a >= b then a else b
  }

  // ----- the specification -----

  /** Any two values of arr[a..b] (inclusive) differ by at most m: no
    * value exceeds another by more than m. */
  ghost predicate Stable(arr: seq<int>, a: int, b: int, m: int)
    requires 0 <= a && b < |arr|
  {
    forall x, y :: a <= x <= b && a <= y <= b ==> arr[x] - arr[y] <= m
  }

  /** arr[a..a+len-1] is a stable window of length len >= 1. */
  ghost predicate StableRun(arr: seq<int>, a: int, len: int, m: int) {
    0 <= a && 1 <= len && a + len <= |arr| && Stable(arr, a, a + len - 1, m)
  }

  /** Some stable window among the first n values has length r (or r is 0). */
  ghost predicate Attained(arr: seq<int>, n: int, m: int, r: int) {
    r == 0 || exists a :: a + r <= n && StableRun(arr, a, r, m)
  }

  /** r is the length of a longest stable window among the first n values. */
  ghost predicate IsLongest(arr: seq<int>, n: int, m: int, r: int)
    requires n <= |arr|
  {
    (forall a, b :: 0 <= a <= b < n && Stable(arr, a, b, m) ==> b - a + 1 <= r)
    && Attained(arr, n, m, r)
  }

  /** There is only one longest length, so solutions meeting `IsLongest`
    * all return the same value. */
  lemma LongestUnique(arr: seq<int>, n: int, m: int, r1: int, r2: int)
    requires n <= |arr|
    requires IsLongest(arr, n, m, r1) && IsLongest(arr, n, m, r2)
    ensures r1 == r2
  {
    if r1 != 0 {
      var a :| a + r1 <= n && StableRun(arr, a, r1, m);
      assert r1 <= r2;
    }
    if r2 != 0 {
      var a :| a + r2 <= n && StableRun(arr, a, r2, m);
      assert r2 <= r1;
    }
  }

  /** With m >= 0 every single value is a stable window, so a non-empty
    * array has an answer in [1, n]; no values give 0. */
  lemma LongestBounds(arr: seq<int>, n: int, m: int, r: int)
    requires n <= |arr| && IsLongest(arr, n, m, r)
    ensures n <= 0 ==> r == 0
    ensures m >= 0 && n >= 1 ==> 1 <= r <= n
  {
    if n >= 1 && m >= 0 {
      assert Stable(arr, 0, 0, m);
    }
    if r != 0 {
      var a :| a + r <= n && StableRun(arr, a, r, m);
    }
  }

  /** Windows (a, b) scanned so far in row order, start a then end b: every
    * start before i, and start i with an end before j. */
  ghost predicate Covers(arr: seq<int>, n: int, m: int, r: int, i: int, j: int)
    requires n <= |arr|
  {
    forall a, b :: 0 <= a <= b < n && (a < i || (a == i && b < j)) && Stable(arr, a, b, m) ==> b - a + 1 <= r
  }

  /** One window examined: its length is kept when it is stable. */
  lemma ScanStep(arr: seq<int>, n: int, m: int, r: int, i: int, j: int)
    requires n <= |arr| && 0 <= i <= j < n
    requires Covers(arr, n, m, r, i, j) && Attained(arr, n, m, r)
    ensures var r' := if Stable(arr, i, j, m) then Max(r, j - i + 1) else r;
      Covers(arr, n, m, r', i, j + 1) && Attained(arr, n, m, r')
  {
    if Stable(arr, i, j, m) && j - i + 1 > r {
      assert StableRun(arr, i, j - i + 1, m);
    }
  }

  /** All ends of start i examined: move to the next start. */
  lemma NextStart(arr: seq<int>, n: int, m: int, r: int, i: int)
    requires n <= |arr| && Covers(arr, n, m, r, i, n)
    ensures Covers(arr, n, m, r, i + 1, i + 1)
  {
  }

  /** All starts examined. */
  lemma ScanDone(arr: seq<int>, n: int, m: int, r: int)
    requires n <= |arr| && Covers(arr, n, m, r, if n < 0 then 0 else n, if n < 0 then 0 else n)
    requires Attained(arr, n, m, r)
    ensures IsLongest(arr, n, m, r)
  {
  }

  // ----- window minimum and maximum -----

  /** Least of arr[i..j] (inclusive). */
  function WindowMin(arr: seq<int>, i: int, j: int): (r: int)
    requires 0 <= i <= j < |arr|
    ensures forall x :: i <= x <= j ==> r <= arr[x]
    decreases j - i
  {
    if j == i then arr[i] else Min(WindowMin(arr, i, j - 1), arr[j])
  }

  /** Greatest of arr[i..j] (inclusive). */
  function WindowMax(arr: seq<int>, i: int, j: int): (r: int)
    requires 0 <= i <= j < |arr|
    ensures forall x :: i <= x <= j ==> arr[x] <= r
    decreases j - i
  {
    if j == i then arr[i] else Max(WindowMax(arr, i, j - 1), arr[j])
  }

  /** The minimum is one of the window's values. */
  lemma {:induction false} MinAt(arr: seq<int>, i: int, j: int) returns (x: int)
    requires 0 <= i <= j < |arr|
    ensures i <= x <= j && arr[x] == WindowMin(arr, i, j)
    decreases j - i
  {
    if j == i {
      x := i;
    } else {
      x := MinAt(arr, i, j - 1);
      if arr[j] < arr[x] {
        x := j;
      }
    }
  }

  /** The maximum is one of the window's values. */
  lemma {:induction false} MaxAt(arr: seq<int>, i: int, j: int) returns (x: int)
    requires 0 <= i <= j < |arr|
    ensures i <= x <= j && arr[x] == WindowMax(arr, i, j)
    decreases j - i
  {
    if j == i {
      x := i;
    } else {
      x := MaxAt(arr, i, j - 1);
      if arr[j] > arr[x] {
        x := j;
      }
    }
  }

  /** A window is stable exactly when its maximum minus its minimum is at
    * most m. */
  lemma StableSpan(arr: seq<int>, i: int, j: int, m: int)
    requires 0 <= i <= j < |arr|
    ensures Stable(arr, i, j, m) <==> WindowMax(arr, i, j) - WindowMin(arr, i, j) <= m
  {
    var x := MaxAt(arr, i, j);
    var y := MinAt(arr, i, j);
    assert arr[x] - arr[y] == WindowMax(arr, i, j) - WindowMin(arr, i, j);
  }

  /** One more value folded into a running minimum and maximum that start
    * at Integer.MAX_VALUE and Integer.MIN_VALUE. */
  lemma RunningMinMax(arr: seq<int>, i: int, j: int, min: int, max: int)
    requires 0 <= i <= j < |arr| && JavaInts(arr)
    requires j == i ==> min == MAX_INT && max == MIN_INT
    requires j > i ==> min == WindowMin(arr, i, j - 1) && max == WindowMax(arr, i, j - 1)
    ensures Min(min, arr[j]) == WindowMin(arr, i, j) && Max(max, arr[j]) == WindowMax(arr, i, j)
  {
  }

  // ----- solutionOne: every pair of every window -----

  /** The two innermost loops: whether every pair of arr[i..j] is within m. */
  method PairsWithin(arr: seq<int>, i: int, j: int, m: int) returns (valid: bool)
    requires 0 <= i <= j < |arr|
    ensures valid == Stable(arr, i, j, m)
  {
    valid := true;
    var x := i;
    while x <= j && valid
      invariant i <= x <= j + 1
      invariant valid ==> forall x', y :: i <= x' < x && i <= y <= j ==> arr[x'] - arr[y] <= m
      invariant !valid ==> !Stable(arr, i, j, m)
    {
      var y := i;
      while y <= j
        invariant i <= y <= j + 1
        invariant valid
        invariant forall y' :: i <= y' < y ==> arr[x] - arr[y'] <= m
      {
        if Abs(arr[x] - arr[y]) > m {
          valid := false;
          break;
        }
        y := y + 1;
      }
      x := x + 1;
    }
  }

  /** O(n^4): the longest window all of whose pairs are within m. */
  method SolutionOne(n: int, arr: seq<int>, m: int) returns (maxSize: int)
    requires n <= |arr|
    ensures IsLongest(arr, n, m, maxSize)
  {
    maxSize := 0;
    var i := 0;
    while i < n
      invariant 0 <= i && (n >= 0 ==> i <= n)
      invariant Covers(arr, n, m, maxSize, i, i) && Attained(arr, n, m, maxSize)
    {
      var j := i;
      while j < n
        invariant i <= j <= n
        invariant Covers(arr, n, m, maxSize, i, j) && Attained(arr, n, m, maxSize)
      {
        var valid := PairsWithin(arr, i, j, m);
        ScanStep(arr, n, m, maxSize, i, j);
        if valid {
          maxSize := Max(maxSize, j - i + 1);
        }
        j := j + 1;
      }
      NextStart(arr, n, m, maxSize, i);
      i := i + 1;
    }
    ScanDone(arr, n, m, maxSize);
  }

  // ----- solutionTwo: minimum and maximum of every window -----

  /** The innermost loop: minimum and maximum of arr[i..j], starting from
    * Integer.MAX_VALUE and Integer.MIN_VALUE. */
  method MinMax(arr: seq<int>, i: int, j: int) returns (min: int, max: int)
    requires 0 <= i <= j < |arr| && JavaInts(arr)
    ensures min == WindowMin(arr, i, j) && max == WindowMax(arr, i, j)
  {
    min, max := MAX_INT, MIN_INT;
    var k := i;
    while k <= j
      invariant i <= k <= j + 1
      invariant k == i ==> min == MAX_INT && max == MIN_INT
      invariant k > i ==> min == WindowMin(arr, i, k - 1) && max == WindowMax(arr, i, k - 1)
    {
      RunningMinMax(arr, i, k, min, max);
      min := Min(arr[k], min);
      max := Max(arr[k], max);
      k := k + 1;
    }
  }

  /** O(n^3): the longest window whose maximum minus minimum is at most m. */
  method SolutionTwo(n: int, arr: seq<int>, m: int) returns (maxSize: int)
    requires n <= |arr| && JavaInts(arr)
    ensures IsLongest(arr, n, m, maxSize)
  {
    maxSize := 0;
    var i := 0;
    while i < n
      invariant 0 <= i && (n >= 0 ==> i <= n)
      invariant Covers(arr, n, m, maxSize, i, i) && Attained(arr, n, m, maxSize)
    {
      var j := i;
      while j < n
        invariant i <= j <= n
        invariant Covers(arr, n, m, maxSize, i, j) && Attained(arr, n, m, maxSize)
      {
        var min, max := MinMax(arr, i, j);
        StableSpan(arr, i, j, m);
        ScanStep(arr, n, m, maxSize, i, j);
        if max - min <= m {
          maxSize := Max(maxSize, j - i + 1);
        }
        j := j + 1;
      }
      NextStart(arr, n, m, maxSize, i);
      i := i + 1;
    }
    ScanDone(arr, n, m, maxSize);
  }

  // ----- solutionThree: running minimum and maximum -----

  /** O(n^2): the minimum and maximum are carried along as the end moves. */
  method SolutionThree(n: int, arr: seq<int>, m: int) returns (maxSize: int)
    requires n <= |arr| && JavaInts(arr)
    ensures IsLongest(arr, n, m, maxSize)
  {
    maxSize := 0;
    var i := 0;
    while i < n
      invariant 0 <= i && (n >= 0 ==> i <= n)
      invariant Covers(arr, n, m, maxSize, i, i) && Attained(arr, n, m, maxSize)
    {
      var min, max := MAX_INT, MIN_INT;
      var j := i;
      while j < n
        invariant i <= j <= n
        invariant j == i ==> min == MAX_INT && max == MIN_INT
        invariant j > i ==> min == WindowMin(arr, i, j - 1) && max == WindowMax(arr, i, j - 1)
        invariant Covers(arr, n, m, maxSize, i, j) && Attained(arr, n, m, maxSize)
      {
        RunningMinMax(arr, i, j, min, max);
        min := Min(min, arr[j]);
        max := Max(max, arr[j]);
        StableSpan(arr, i, j, m);
        ScanStep(arr, n, m, maxSize, i, j);
        if max - min <= m {
          maxSize := Max(maxSize, j - i + 1);
        }
        j := j + 1;
      }
      NextStart(arr, n, m, maxSize, i);
      i := i + 1;
    }
    ScanDone(arr, n, m, maxSize);
  }

  // ----- solutionFourth: sliding window over a multiset -----

  /** `TreeMap.lastKey` on the value -> count map, seen as a multiset. */
  method LastKey(freq: multiset<int>) returns (k: int)
    requires freq != multiset{}
    ensures k in freq && forall v :: v in freq ==> v <= k
  {
    var rest := freq;
    k := Element(freq);
    while rest != multiset{}
      invariant rest <= freq && k in freq
      invariant forall v :: v in freq && v !in rest ==> v <= k
      decreases |rest|
    {
      var v := Element(rest);
      if v > k {
        k := v;
      }
      rest := rest[v := 0];
    }
  }

  /** `TreeMap.firstKey` on the value -> count map, seen as a multiset. */
  method FirstKey(freq: multiset<int>) returns (k: int)
    requires freq != multiset{}
    ensures k in freq && forall v :: v in freq ==> k <= v
  {
    var rest := freq;
    k := Element(freq);
    while rest != multiset{}
      invariant rest <= freq && k in freq
      invariant forall v :: v in freq && v !in rest ==> k <= v
      decreases |rest|
    {
      var v := Element(rest);
      if v < k {
        k := v;
      }
      rest := rest[v := 0];
    }
  }

  /** Some member of a non-empty multiset. */
  method Element(s: multiset<int>) returns (v: int)
    requires s != multiset{}
    ensures v in s
  {
    if forall w :: w !in s {
      assert false;
    }
    var w :| w in s;
    v := w;
  }

  /** The values of arr[left..right] (inclusive) and their counts. */
  function Window(arr: seq<int>, left: int, right: int): multiset<int>
    requires 0 <= left <= right + 1 <= |arr|
  {
    multiset(arr[left..right + 1])
  }

  /** A member of the window's multiset sits at some index of the window. */
  lemma InWindow(arr: seq<int>, left: int, right: int, v: int)
    requires 0 <= left <= right < |arr|
    ensures v in Window(arr, left, right) <==> exists x :: left <= x <= right && arr[x] == v
  {
    var w := arr[left..right + 1];
    if v in multiset(w) {
      var k :| 0 <= k < |w| && w[k] == v;
      assert arr[left + k] == v;
    }
    forall x | left <= x <= right
      ensures arr[x] in multiset(w)
    {
      assert w[x - left] == arr[x];
    }
  }

  /** With the window's largest and least values at hand, the window is
    * stable exactly when they differ by at most m. */
  lemma KeySpan(arr: seq<int>, left: int, right: int, m: int, hi: int, lo: int)
    requires 0 <= left <= right < |arr|
    requires hi in Window(arr, left, right) && forall v :: v in Window(arr, left, right) ==> v <= hi
    requires lo in Window(arr, left, right) && forall v :: v in Window(arr, left, right) ==> lo <= v
    ensures Stable(arr, left, right, m) <==> hi - lo <= m
  {
    InWindow(arr, left, right, hi);
    InWindow(arr, left, right, lo);
    var x :| left <= x <= right && arr[x] == hi;
    var y :| left <= y <= right && arr[y] == lo;
    assert arr[x] - arr[y] == hi - lo;
    forall z | left <= z <= right
      ensures lo <= arr[z] <= hi
    {
      InWindow(arr, left, right, arr[z]);
    }
  }

  /** No window starting in [lo, left) and ending at e is stable. */
  ghost predicate NoneBefore(arr: seq<int>, lo: int, left: int, e: int, m: int)
    requires 0 <= lo && e < |arr|
  {
    forall a :: lo <= a < left ==> !Stable(arr, a, e, m)
  }

  /** A window inside a stable window is stable; so once arr[a..e] is
    * unstable, so is every window from a reaching further right. */
  lemma UnstableGrows(arr: seq<int>, left: int, e: int, m: int)
    requires 0 <= e && e + 1 < |arr| && NoneBefore(arr, 0, left, e, m)
    ensures NoneBefore(arr, 0, left, e + 1, m)
  {
    var e' := e + 1;
    forall a | 0 <= a < left
      ensures !Stable(arr, a, e', m)
    {
      assert !Stable(arr, a, e, m);
      var x, y :| a <= x <= e && a <= y <= e && arr[x] - arr[y] > m;
    }
  }

  /** Adding the value at `right` to the window's multiset. */
  lemma AddRight(arr: seq<int>, left: int, right: int)
    requires 0 <= left <= right < |arr|
    ensures Window(arr, left, right) == Window(arr, left, right - 1) + multiset{arr[right]}
  {
    assert arr[left..right + 1] == arr[left..right] + [arr[right]];
  }

  /** Removing the value at `left` from the window's multiset. */
  lemma DropLeft(arr: seq<int>, left: int, right: int)
    requires 0 <= left <= right < |arr|
    ensures Window(arr, left, right) == multiset{arr[left]} + Window(arr, left + 1, right)
  {
    assert arr[left..right + 1] == [arr[left]] + arr[left + 1..right + 1];
  }

  /** One step of the inner loop: the count of arr[left] goes down by one,
    * and the entry goes when the count was 1. The result is the multiset
    * of the window without its leftmost value. */
  method RemoveLeft(arr: seq<int>, freq: multiset<int>, left: int, right: int) returns (freq': multiset<int>)
    requires 0 <= left < right < |arr| && freq == Window(arr, left, right)
    ensures freq' == Window(arr, left + 1, right)
  {
    DropLeft(arr, left, right);
    var count := freq[arr[left]];
    if count == 1 {
      freq' := freq[arr[left] := 0];
    } else {
      freq' := freq[arr[left] := count - 1];
    }
    assert freq' == freq - multiset{arr[left]};
  }

  /** Raising the count of x by one adds one x to the multiset. */
  lemma CountUp(f: multiset<int>, x: int)
    ensures f[x := f[x] + 1] == f + multiset{x}
  {
  }

  /** Counting arr[right] in: the multiset becomes the window up to right,
    * and windows starting before left stay unstable. */
  method Grow(arr: seq<int>, m: int, freq: multiset<int>, left: int, right: int) returns (freq': multiset<int>)
    requires 0 <= left <= right < |arr| && freq == Window(arr, left, right - 1)
    requires right > 0 ==> NoneBefore(arr, 0, left, right - 1, m)
    ensures freq' == Window(arr, left, right) && NoneBefore(arr, 0, left, right, m)
  {
    AddRight(arr, left, right);
    CountUp(freq, arr[right]);
    freq' := freq[arr[right] := freq[arr[right]] + 1];
    if right > 0 {
      UnstableGrows(arr, left, right - 1, m);
    }
  }

  /** The inner loop: drops values from the left of arr[left..right] until
    * the largest and least remaining values are within m. The multiset
    * stays exactly the window's values; the window left is stable and no
    * window ending at `right` and starting further left is. */
  method Shrink(arr: seq<int>, m: int, freq: multiset<int>, left: int, right: int)
    returns (freq': multiset<int>, left': int)
    requires 0 <= left <= right < |arr| && m >= 0
    requires freq == Window(arr, left, right) && NoneBefore(arr, 0, left, right, m)
    ensures left <= left' <= right && freq' == Window(arr, left', right)
    ensures Stable(arr, left', right, m) && NoneBefore(arr, 0, left', right, m)
  {
    freq', left' := freq, left;
    var hi := LastKey(freq');
    var lo := FirstKey(freq');
    KeySpan(arr, left', right, m, hi, lo);
    while hi - lo > m
      invariant left <= left' <= right && freq' == Window(arr, left', right)
      invariant Stable(arr, left', right, m) <==> hi - lo <= m
      invariant NoneBefore(arr, 0, left', right, m)
      decreases right - left'
    {
      SingleStable(arr, right, m);
      NoneBeforeStep(arr, left', right, m);
      freq' := RemoveLeft(arr, freq', left', right);
      left' := left' + 1;
      hi := LastKey(freq');
      lo := FirstKey(freq');
      KeySpan(arr, left', right, m, hi, lo);
    }
  }

  /** An unstable window at `left` extends the unstable starts by one. */
  lemma NoneBeforeStep(arr: seq<int>, left: int, e: int, m: int)
    requires 0 <= left <= e < |arr|
    requires NoneBefore(arr, 0, left, e, m) && !Stable(arr, left, e, m)
    ensures NoneBefore(arr, 0, left + 1, e, m)
  {
  }

  /** Windows ending before e have all been measured. */
  ghost predicate CoversEnds(arr: seq<int>, n: int, m: int, r: int, e: int)
    requires n <= |arr|
  {
    forall a, b :: 0 <= a <= b < n && b < e && Stable(arr, a, b, m) ==> b - a + 1 <= r
  }

  /** The window found for end `right` is the longest stable one ending
    * there, so keeping the larger length covers every window ending at
    * `right`. */
  lemma SlideStep(arr: seq<int>, n: int, m: int, r: int, left: int, right: int)
    requires n <= |arr| && 0 <= left <= right < n
    requires CoversEnds(arr, n, m, r, right) && Attained(arr, n, m, r)
    requires Stable(arr, left, right, m) && NoneBefore(arr, 0, left, right, m)
    ensures CoversEnds(arr, n, m, Max(r, right - left + 1), right + 1)
    ensures Attained(arr, n, m, Max(r, right - left + 1))
  {
    assert StableRun(arr, left, right - left + 1, m);
  }

  /** Every window has been measured once the end passes n. */
  lemma SlideDone(arr: seq<int>, n: int, m: int, r: int, e: int)
    requires n <= |arr| && n <= e
    requires CoversEnds(arr, n, m, r, e) && Attained(arr, n, m, r)
    ensures IsLongest(arr, n, m, r)
  {
  }

  /** O(n log n): a sliding window whose values are counted in a sorted map.
    * A negative m empties the map and `lastKey` throws, so the source
    * needs m >= 0 whenever there are values. */
  method SolutionFourth(n: int, arr: seq<int>, m: int) returns (maxSize: int)
    requires n <= |arr| && (n <= 0 || m >= 0)
    ensures IsLongest(arr, n, m, maxSize)
  {
    var left := 0;
    var freq: multiset<int> := multiset{};
    maxSize := 0;
    var right := 0;
    while right < n
      invariant 0 <= left <= right <= |arr| && (n >= 0 ==> right <= n)
      invariant freq == Window(arr, left, right - 1)
      invariant CoversEnds(arr, n, m, maxSize, right) && Attained(arr, n, m, maxSize)
      invariant right > 0 ==> NoneBefore(arr, 0, left, right - 1, m)
    {
      freq := Grow(arr, m, freq, left, right);
      freq, left := Shrink(arr, m, freq, left, right);
      SlideStep(arr, n, m, maxSize, left, right);
      maxSize := Max(maxSize, right - left + 1);
      right := right + 1;
    }
    SlideDone(arr, n, m, maxSize, right);
  }

  /** arr = [8, 2, 4, 7], m = 4: the longest stable window has length 2. */
  lemma ExampleAnswer(r: int)
    requires IsLongest([8, 2, 4, 7], 4, 4, r)
    ensures r == 2
  {
    var arr := [8, 2, 4, 7];
    assert Stable(arr, 1, 2, 4);
    assert !Stable(arr, 0, 2, 4) by {
      assert Abs(arr[0] - arr[1]) > 4;
    }
    assert !Stable(arr, 1, 3, 4) by {
      assert Abs(arr[3] - arr[1]) > 4;
    }
    if r != 0 {
      var a :| a + r <= 4 && StableRun(arr, a, r, 4);
    }
  }

  /** A window of one value is stable for any m >= 0. */
  lemma SingleStable(arr: seq<int>, k: int, m: int)
    requires 0 <= k < |arr| && m >= 0
    ensures Stable(arr, k, k, m)
  {
  }
}
