/** Tennis tournament draws: simulating the knockout rounds of a draw,
  * seeding a bracket by repeated doubling, padding a field to a power of two
  * with byes, and listing every bracket obtained by swapping halves. */
module DrawGenerator {
  import opened Wrappers
  import opened PowersOfTwo

  // ---------- simulating the rounds ----------

  function Min(a: int, b: int): int
  {
    if a <= b then a else b
  }

  /** The winners of one round: the better (smaller) rank of each adjacent pair. */
  function PairMins(s: seq<int>): seq<int>
    requires |s| % 2 == 0
  {
    seq(|s| / 2, k requires 0 <= k < |s| / 2 => Min(s[2 * k], s[2 * k + 1]))
  }

  /** The rounds of a draw, down to the champion; a round of odd length above
    * one reads past the end of the list. */
  function Rounds(s: seq<int>): Result<seq<seq<int>>>
    decreases |s|
  {
    if |s| <= 1 then Ok([s])
    else if |s| % 2 != 0 then Err(IndexOutOfBoundsException)
    else
      match Rounds(PairMins(s))
      case Ok(rs) => Ok([s] + rs)
      case Err(e) => Err(e)
  }

  /** Rounds(ranks) once the rounds in `done` have been produced and `curr` is
    * the round being played. */
  function AfterRounds(done: seq<seq<int>>, rest: Result<seq<seq<int>>>): Result<seq<seq<int>>>
  {
    match rest
    case Ok(rs) => Ok(done + rs)
    case Err(e) => Err(e)
  }

  /** Plays the draw round by round, recording each round before it is played. */
  method PrintDraw(ranks: seq<int>) returns (r: Result<seq<seq<int>>>)
    ensures r == Rounds(ranks)
  {
    var ans: seq<seq<int>> := [];
    var curr := ranks;
    assert Rounds(ranks).Ok? ==> [] + Rounds(ranks).value == Rounds(ranks).value;
    while |curr| > 1
      invariant Rounds(ranks) == AfterRounds(ans, Rounds(curr))
      decreases |curr|
    {
      ghost var before := ans;
      ans := ans + [curr];
      var next: seq<int> := [];
      var i := 0;
      while i < |curr|
        invariant 0 <= i <= |curr| && i % 2 == 0 && |next| == i / 2
        invariant forall k :: 0 <= k < i / 2 ==> next[k] == Min(curr[2 * k], curr[2 * k + 1])
        decreases |curr| - i
      {
        if i + 1 >= |curr| {
          return Err(IndexOutOfBoundsException);
        }
        next := next + [Min(curr[i], curr[i + 1])];
        i := i + 2;
      }
      assert next == PairMins(curr);
      if Rounds(next).Ok? {
        assert before + ([curr] + Rounds(next).value) == ans + Rounds(next).value;
      }
      curr := next;
    }
    ans := ans + [curr];
    return Ok(ans);
  }

  /** The smallest entry of a non-empty sequence. */
  function SeqMin(s: seq<int>): int
    requires |s| >= 1
    decreases |s|
  {
    if |s| == 1 then s[0] else Min(s[0], SeqMin(s[1..]))
  }

  lemma {:induction false} SeqMinIsMin(s: seq<int>)
    requires |s| >= 1
    ensures SeqMin(s) in s
    ensures forall i :: 0 <= i < |s| ==> SeqMin(s) <= s[i]
    decreases |s|
  {
    if |s| > 1 {
      SeqMinIsMin(s[1..]);
      forall i | 1 <= i < |s|
        ensures SeqMin(s[1..]) <= s[i]
      {
        assert s[i] == s[1..][i - 1];
      }
    }
  }

  /** A round of winners keeps the best rank of the round before. */
  lemma PairMinsKeepsMin(s: seq<int>)
    requires |s| >= 2 && |s| % 2 == 0
    ensures SeqMin(PairMins(s)) == SeqMin(s)
  {
    var w := PairMins(s);
    SeqMinIsMin(s);
    SeqMinIsMin(w);
    var k :| 0 <= k < |w| && w[k] == SeqMin(w);
    assert w[k] == Min(s[2 * k], s[2 * k + 1]);
    var j :| 0 <= j < |s| && s[j] == SeqMin(s);
    var h := j / 2;
    assert j == 2 * h || j == 2 * h + 1;
    assert w[h] == Min(s[2 * h], s[2 * h + 1]);
  }


  /** A non-empty draw can be played to the end exactly when its size is a
    * power of two; the empty draw is one empty round. */
  lemma {:induction false} RoundsSucceed(s: seq<int>)
    ensures |s| == 0 ==> Rounds(s) == Ok([[]])
    ensures |s| >= 1 ==> (Rounds(s).Ok? <==> PowerOfTwo(|s|))
    decreases |s|
  {
    if |s| >= 2 && |s| % 2 == 0 {
      RoundsSucceed(PairMins(s));
    }
  }

  /** The first round is the draw, each later round is the winners of the one
    * before, and the last round has a single player (or none). */
  lemma {:induction false} RoundsShape(s: seq<int>)
    requires Rounds(s).Ok?
    ensures var rs := Rounds(s).value;
      |rs| >= 1 && rs[0] == s && |rs[|rs| - 1]| <= 1 &&
      forall k :: 0 <= k < |rs| - 1 ==> |rs[k]| >= 2 && |rs[k]| % 2 == 0 && rs[k + 1] == PairMins(rs[k])
    decreases |s|
  {
    if |s| >= 2 {
      RoundsShape(PairMins(s));
      var rs := Rounds(s).value;
      var tail := Rounds(PairMins(s)).value;
      assert rs == [s] + tail;
      forall k | 1 <= k < |rs| - 1
        ensures |rs[k]| >= 2 && |rs[k]| % 2 == 0 && rs[k + 1] == PairMins(rs[k])
      {
        assert rs[k] == tail[k - 1] && rs[k + 1] == tail[k];
      }
    }
  }

  /** The champion round of a non-empty draw holds the best rank alone. */
  lemma {:induction false} Champion(s: seq<int>)
    requires |s| >= 1 && Rounds(s).Ok?
    ensures var rs := Rounds(s).value; rs[|rs| - 1] == [SeqMin(s)]
    decreases |s|
  {
    if |s| >= 2 {
      PairMinsKeepsMin(s);
      Champion(PairMins(s));
    }
  }

  // ---------- seeding by doubling ----------

  /** Each player p of c followed by its opponent 2s - p + 1. */
  function Doubled(c: seq<int>, s: int): (r: seq<int>)
    ensures |r| == 2 * |c|
    decreases |c|
  {
    if c == [] then [] else Doubled(c[..|c| - 1], s) + [c[|c| - 1], 2 * s - c[|c| - 1] + 1]
  }

  /** Positions 2i and 2i + 1 of the doubled list hold player c[i] and its
    * opponent. */
  lemma {:induction false} DoubledAt(c: seq<int>, s: int, i: int)
    requires 0 <= i < |c|
    ensures Doubled(c, s)[2 * i] == c[i] && Doubled(c, s)[2 * i + 1] == 2 * s - c[i] + 1
    decreases |c|
  {
    if i < |c| - 1 {
      DoubledAt(c[..|c| - 1], s, i);
    }
  }

  /** One doubling of a draw of s players: the opponent of p is 2s - p + 1,
    * so every first-round pair adds up to 2s + 1. */
  function Expand(c: seq<int>): seq<int>
  {
    Doubled(c, |c|)
  }

  /** The loop that builds one doubled list. */
  method NextRound(curr: seq<int>) returns (next: seq<int>)
    ensures next == Expand(curr)
  {
    next := [];
    var i := 0;
    while i < |curr|
      invariant 0 <= i <= |curr| && next == Doubled(curr[..i], |curr|)
    {
      assert curr[..i + 1][..i] == curr[..i];
      next := next + [curr[i], 2 * |curr| - curr[i] + 1];
      i := i + 1;
    }
    assert curr[..|curr|] == curr;
  }

  /** Doubles `c` until it has n players; a size that never reaches n
    * recurses without end. */
  function FeasibleDraw(c: seq<int>, n: int): Result<seq<int>>
    decreases n - |c|
  {
    if |c| == n then Ok(c)
    else if |c| == 0 || |c| > n then Err(StackOverflowError)
    else FeasibleDraw(Expand(c), n)
  }

  method GenerateFeasibleDraw(curr: seq<int>, n: int) returns (r: Result<seq<int>>)
    ensures r == FeasibleDraw(curr, n)
    decreases n - |curr|
  {
    if |curr| == n {
      return Ok(curr);
    }
    if |curr| == 0 || |curr| > n {
      return Err(StackOverflowError);
    }
    var next := NextRound(curr);
    r := GenerateFeasibleDraw(next, n);
  }

  /** c lists the players 1..s, each once. */
  predicate IsPerm(c: seq<int>, s: int)
  {
    |c| == s &&
    (forall i :: 0 <= i < |c| ==> 1 <= c[i] <= s) &&
    (forall i, j :: 0 <= i < j < |c| ==> c[i] != c[j]) &&
    (forall v :: 1 <= v <= s ==> v in c)
  }

  /** Doubling a permutation of 1..s gives a permutation of 1..2s. */
  lemma ExpandPerm(c: seq<int>, s: int)
    requires IsPerm(c, s)
    ensures IsPerm(Expand(c), 2 * s)
  {
    var e := Expand(c);
    forall k | 0 <= k < |e|
      ensures k % 2 == 0 ==> 1 <= e[k] <= s
      ensures k % 2 == 1 ==> s < e[k] <= 2 * s
      ensures k % 2 == 0 ==> e[k] == c[k / 2]
      ensures k % 2 == 1 ==> e[k] == 2 * s - c[k / 2] + 1
    {
      var i := k / 2;
      DoubledAt(c, s, i);
      if k % 2 == 0 {
        assert k == 2 * i;
      } else {
        assert k == 2 * i + 1;
      }
    }
    forall a, b | 0 <= a < b < |e|
      ensures e[a] != e[b]
    {
      if a % 2 == b % 2 {
        assert a / 2 < b / 2;
      }
    }
    forall v | 1 <= v <= 2 * s
      ensures v in e
    {
      var w := if v <= s then v else 2 * s + 1 - v;
      assert w in c;
      var i :| 0 <= i < |c| && c[i] == w;
      DoubledAt(c, s, i);
      if v <= s {
        assert e[2 * i] == v;
      } else {
        assert e[2 * i + 1] == v;
      }
    }
  }

  /** Seeded from a permutation of 1..s with s a power of two, the doubling
    * reaches n exactly when n is a power of two no smaller than s, and then
    * lists 1..n; when at least one doubling happened, the first-round
    * opponents' seeds add up to n + 1. */
  lemma {:induction false} FeasibleDrawPerm(c: seq<int>, s: int, n: int)
    requires IsPerm(c, s) && PowerOfTwo(s)
    ensures FeasibleDraw(c, n).Ok? <==> PowerOfTwo(n) && s <= n
    ensures FeasibleDraw(c, n).Ok? ==> IsPerm(FeasibleDraw(c, n).value, n)
    ensures FeasibleDraw(c, n).Ok? && s < n ==>
      var d := FeasibleDraw(c, n).value;
      forall i :: 0 <= i < n / 2 ==> d[2 * i] + d[2 * i + 1] == n + 1
    decreases n - s
  {
    if s < n {
      ExpandPerm(c, s);
      DoublePowerOfTwo(s);
      FeasibleDrawPerm(Expand(c), 2 * s, n);
      if PowerOfTwo(n) {
        PowerOfTwoGap(s, n);
      }
      if 2 * s == n {
        forall i | 0 <= i < s
          ensures Expand(c)[2 * i] + Expand(c)[2 * i + 1] == n + 1
        {
          DoubledAt(c, s, i);
        }
      }
    }
  }

  // ---------- powers of two and byes ----------

  const INT_MIN: int := -0x8000_0000
  const INT_MAX: int := 0x7fff_ffff

  predicate Int32(n: int)
  {
    INT_MIN <= n <= INT_MAX
  }

  /** The 32 bits of a Java int, read as an unsigned number. */
  function Unsigned(n: int): (u: nat)
    requires Int32(n)
    ensures u < 0x1_0000_0000 && u % 0x1_0000_0000 == n % 0x1_0000_0000
  {
    if n < 0 then n + 0x1_0000_0000 else n
  }

  /** Java's n - 1 on int, wrapping at the minimum. */
  function Decrement(n: int): (m: int)
    requires Int32(n)
    ensures Int32(m) && m % 0x1_0000_0000 == (n - 1) % 0x1_0000_0000
  {
    if n == INT_MIN then INT_MAX else n - 1
  }

  /** Bitwise and of two non-negative numbers, bit by bit from the lowest. */
  function BitAnd(a: nat, b: nat): nat
    decreases a
  {
    if a == 0 || b == 0 then 0 else 2 * BitAnd(a / 2, b / 2) + (a % 2) * (b % 2)
  }

  /** Java's `(n & (n - 1)) == 0` on a 32-bit int. */
  predicate IsPowerOfTwo(n: int)
    requires Int32(n)
  {
    BitAnd(Unsigned(n), Unsigned(Decrement(n))) == 0
  }

  lemma {:induction false} BitAndSelf(m: nat)
    ensures BitAnd(m, m) == m
    decreases m
  {
    if m != 0 {
      BitAndSelf(m / 2);
    }
  }

  /** For positive n, n & (n - 1) clears the lowest set bit, so it is zero
    * exactly when n has a single bit. */
  lemma {:induction false} ClearLowestBit(n: int)
    requires n >= 1
    ensures BitAnd(n, n - 1) == 0 <==> PowerOfTwo(n)
    decreases n
  {
    if n >= 2 {
      assert (n - 1) / 2 == if n % 2 == 0 then n / 2 - 1 else n / 2;
      if n % 2 == 0 {
        ClearLowestBit(n / 2);
      } else {
        BitAndSelf(n / 2);
      }
    }
  }

  /** Two numbers sharing the top bit p keep it in their bitwise and. */
  lemma {:induction false} SharedTopBit(a: nat, b: nat, p: int)
    requires PowerOfTwo(p) && p <= a < 2 * p && p <= b < 2 * p
    ensures BitAnd(a, b) >= p
    decreases p
  {
    if p >= 2 {
      HalfPowerOfTwo(p);
      var h := p / 2;
      assert h <= a / 2 < p && h <= b / 2 < p;
      SharedTopBit(a / 2, b / 2, h);
      assert BitAnd(a, b) >= 2 * BitAnd(a / 2, b / 2);
    }
  }


  lemma {:induction false} PowerOfTwoPow2(k: nat)
    ensures PowerOfTwo(Pow2(k))
  {
    if k > 0 {
      PowerOfTwoPow2(k - 1);
      DoublePowerOfTwo(Pow2(k - 1));
    }
  }

  lemma Pow2Values()
    ensures Pow2(30) == 0x4000_0000 && Pow2(31) == 0x8000_0000
  {
    Pow2Add(1, 1);
    Pow2Add(2, 2);
    Pow2Add(4, 4);
    Pow2Add(8, 8);
    Pow2Add(16, 8);
    Pow2Add(24, 4);
    Pow2Add(28, 2);
    Pow2Add(30, 1);
  }

  lemma PowerOfTwo30And31()
    ensures PowerOfTwo(0x4000_0000) && PowerOfTwo(0x8000_0000)
  {
    PowerOfTwoPow2(30);
    PowerOfTwoPow2(31);
    Pow2Values();
  }

  /** The bit test holds for the positive powers of two and also for 0 and
    * for the minimum int, and for nothing else. */
  lemma IsPowerOfTwoMeaning(n: int)
    requires Int32(n)
    ensures IsPowerOfTwo(n) <==> n == 0 || n == INT_MIN || PowerOfTwo(n)
  {
    if n >= 1 {
      ClearLowestBit(n);
    } else if n == INT_MIN {
      PowerOfTwo30And31();
      ClearLowestBit(0x8000_0000);
    } else if n < 0 {
      PowerOfTwo30And31();
      SharedTopBit(Unsigned(n), Unsigned(Decrement(n)), 0x8000_0000);
    }
  }

  /** The smallest power of two that is at least n (1 for n <= 1). */
  function NextPow(n: int): int
    decreases n
  {
    if n <= 1 then 1 else 2 * NextPow((n + 1) / 2)
  }

  lemma {:induction false} NextPowIsLeast(n: int)
    ensures PowerOfTwo(NextPow(n)) && NextPow(n) >= n
    ensures forall q :: PowerOfTwo(q) && q >= n ==> NextPow(n) <= q
    ensures n >= 1 ==> NextPow(n) < 2 * n
    decreases n
  {
    if n > 1 {
      NextPowIsLeast((n + 1) / 2);
      DoublePowerOfTwo(NextPow((n + 1) / 2));
      forall q | PowerOfTwo(q) && q >= n
        ensures NextPow(n) <= q
      {
        HalfPowerOfTwo(q);
      }
    }
  }


  /** Doubles p from 1 until it reaches n; below 2^30 the shift never
    * overflows. */
  method NextPowerOfTwo(n: int) returns (p: int)
    requires n <= 0x4000_0000
    ensures p == NextPow(n) && p <= 0x4000_0000
  {
    NextPowIsLeast(n);
    PowerOfTwo30And31();
    p := 1;
    while p < n
      invariant PowerOfTwo(p) && p <= NextPow(n)
      decreases n - p
    {
      PowerOfTwoGap(p, NextPow(n));
      DoublePowerOfTwo(p);
      p := 2 * p;
    }
  }

  /** The bracket size for n players. */
  function Needed(n: int): int
    requires Int32(n)
  {
    if IsPowerOfTwo(n) then n else NextPow(n)
  }

  /** Players ranked above n are byes, written -1. */
  function Masked(d: seq<int>, n: int): (r: seq<int>)
    ensures |r| == |d|
  {
    seq(|d|, i requires 0 <= i < |d| => if d[i] > n then -1 else d[i])
  }

  function DrawGeneral(curr: seq<int>, n: int): Result<seq<int>>
    requires Int32(n)
  {
    match FeasibleDraw(curr, Needed(n))
    case Ok(d) => Ok(Masked(d, n))
    case Err(e) => Err(e)
  }

  /** Pads the draw to a power of two and turns the extra players into byes.
    * When `curr` already has the needed size, `generateFeasibleDraw` returns
    * the caller's own list, and the bye loop overwrites it in place:
    * `callerList` is the caller's list after the call. */
  method GenerateDrawGeneral(curr: seq<int>, n: int) returns (r: Result<seq<int>>, callerList: seq<int>)
    requires Int32(n) && n <= 0x4000_0000
    ensures r == DrawGeneral(curr, n)
    ensures |curr| == Needed(n) ==> r == Ok(callerList) && callerList == Masked(curr, n)
    ensures |curr| != Needed(n) ==> callerList == curr
  {
    callerList := curr;
    var neededSize;
    if IsPowerOfTwo(n) {
      neededSize := n;
    } else {
      neededSize := NextPowerOfTwo(n);
    }
    var f := GenerateFeasibleDraw(curr, neededSize);
    if f.Err? {
      return Err(f.error), callerList;
    }
    var draw := f.value;
    var i := 0;
    while i < |draw|
      invariant 0 <= i <= |draw| == |f.value|
      invariant forall k :: 0 <= k < |draw| ==> draw[k] == if k < i then Masked(f.value, n)[k] else f.value[k]
    {
      if draw[i] > n {
        draw := draw[i := -1];
      }
      i := i + 1;
    }
    assert draw == Masked(f.value, n);
    if |curr| == neededSize {
      callerList := draw;
    }
    return Ok(draw), callerList;
  }

  /** For 1 <= n <= 2^30 players seeded from a permutation of 1..s (s a power
    * of two no larger than the bracket), the draw fills the smallest power of
    * two >= n, lists every player 1..n exactly once with byes elsewhere, and
    * when it was doubled at least once no first-round match pits two byes
    * against each other. */
  lemma DrawGeneralSeeds(c: seq<int>, s: int, n: int)
    requires 1 <= n <= 0x4000_0000 && IsPerm(c, s) && PowerOfTwo(s) && s <= NextPow(n)
    ensures DrawGeneral(c, n).Ok?
    ensures var d := DrawGeneral(c, n).value;
      |d| == NextPow(n) &&
      (forall i :: 0 <= i < |d| ==> d[i] == -1 || 1 <= d[i] <= n) &&
      (forall i, j :: 0 <= i < j < |d| && d[i] != -1 ==> d[i] != d[j]) &&
      (forall v :: 1 <= v <= n ==> v in d) &&
      (s < |d| ==> forall i :: 0 <= i < |d| / 2 ==> d[2 * i] != -1 || d[2 * i + 1] != -1)
  {
    var N := NextPow(n);
    NextPowIsLeast(n);
    IsPowerOfTwoMeaning(n);
    assert Needed(n) == N;
    FeasibleDrawPerm(c, s, N);
    var f := FeasibleDraw(c, N).value;
    assert DrawGeneral(c, n).value == Masked(f, n);
    MaskedByes(f, N, n);
    if s < N {
      MaskedPairs(f, N, n);
    }
  }

  /** Masking a permutation of 1..N leaves each of 1..n once and byes elsewhere. */
  lemma MaskedByes(f: seq<int>, N: int, n: int)
    requires IsPerm(f, N) && 1 <= n <= N
    ensures var d := Masked(f, n);
      (forall i :: 0 <= i < |d| ==> d[i] == -1 || 1 <= d[i] <= n) &&
      (forall i, j :: 0 <= i < j < |d| && d[i] != -1 ==> d[i] != d[j]) &&
      (forall v :: 1 <= v <= n ==> v in d)
  {
    var d := Masked(f, n);
    forall v | 1 <= v <= n
      ensures v in d
    {
      assert v in f;
      var i :| 0 <= i < |f| && f[i] == v;
      assert d[i] == v;
    }
  }

  /** When fewer than half the bracket are byes, a first-round pair whose seeds
    * add up to N + 1 never holds two byes. */
  lemma MaskedPairs(f: seq<int>, N: int, n: int)
    requires |f| == N && N < 2 * n && forall i :: 0 <= i < N ==> f[i] >= 1
    requires forall i :: 0 <= i < N / 2 ==> f[2 * i] + f[2 * i + 1] == N + 1
    ensures var d := Masked(f, n);
      forall i :: 0 <= i < N / 2 ==> d[2 * i] != -1 || d[2 * i + 1] != -1
  {
    var d := Masked(f, n);
    forall i | 0 <= i < N / 2
      ensures d[2 * i] != -1 || d[2 * i + 1] != -1
    {
      assert f[2 * i] + f[2 * i + 1] == N + 1;
    }
  }


  // ---------- every bracket by swapping halves ----------

  /** Each right half R after L and before L, in the order of the inner loop. */
  function Pairs(l: seq<int>, rs: seq<seq<int>>): seq<seq<int>>
    decreases |rs|
  {
    if rs == [] then []
    else Pairs(l, rs[..|rs| - 1]) + [l + rs[|rs| - 1], rs[|rs| - 1] + l]
  }

  /** Pairs for every left half, in the order of the outer loop. */
  function Combine(ls: seq<seq<int>>, rs: seq<seq<int>>): seq<seq<int>>
    decreases |ls|
  {
    if ls == [] then []
    else Combine(ls[..|ls| - 1], rs) + Pairs(ls[|ls| - 1], rs)
  }

  /** The brackets of a draw: its halves' brackets, joined both ways; an empty
    * draw splits into empty halves without end. */
  function AllDraws(d: seq<int>): Result<seq<seq<int>>>
    decreases |d|
  {
    if |d| == 1 then Ok([d])
    else if |d| == 0 then Err(StackOverflowError)
    else
      var left := AllDraws(d[..|d| / 2]);
      var right := AllDraws(d[|d| / 2..]);
      if left.Err? then left
      else if right.Err? then right
      else Ok(Combine(left.value, right.value))
  }

  /** The nested loops that join every left bracket with every right one. */
  method CombineDraws(ls: seq<seq<int>>, rs: seq<seq<int>>) returns (ans: seq<seq<int>>)
    ensures ans == Combine(ls, rs)
  {
    ans := [];
    var i := 0;
    while i < |ls|
      invariant 0 <= i <= |ls| && ans == Combine(ls[..i], rs)
    {
      var j := 0;
      while j < |rs|
        invariant 0 <= j <= |rs| && ans == Combine(ls[..i], rs) + Pairs(ls[i], rs[..j])
      {
        assert rs[..j + 1][..j] == rs[..j];
        ans := ans + [ls[i] + rs[j], rs[j] + ls[i]];
        j := j + 1;
      }
      assert ls[..i + 1][..i] == ls[..i];
      assert rs[..|rs|] == rs;
      i := i + 1;
    }
    assert ls[..|ls|] == ls;
  }

  method GenerateAllPossibleDraws(draw: seq<int>) returns (r: Result<seq<seq<int>>>)
    ensures r == AllDraws(draw)
    decreases |draw|
  {
    if |draw| == 1 {
      return Ok([draw]);
    }
    if |draw| == 0 {
      return Err(StackOverflowError);
    }
    var mid := |draw| / 2;
    var left := GenerateAllPossibleDraws(draw[..mid]);
    var right := GenerateAllPossibleDraws(draw[mid..]);
    if left.Err? {
      return left;
    }
    if right.Err? {
      return right;
    }
    var ans := CombineDraws(left.value, right.value);
    return Ok(ans);
  }

  lemma {:induction false} PairsLength(l: seq<int>, rs: seq<seq<int>>)
    ensures |Pairs(l, rs)| == 2 * |rs|
    decreases |rs|
  {
    if rs != [] {
      PairsLength(l, rs[..|rs| - 1]);
    }
  }

  lemma MulStep(k: int, m: int)
    ensures (k - 1) * m + m == k * m
  {
  }

  /** Every left bracket meets every right bracket, in both orders. */
  lemma {:induction false} CombineLength(ls: seq<seq<int>>, rs: seq<seq<int>>)
    ensures |Combine(ls, rs)| == 2 * (|ls| * |rs|)
    decreases |ls|
  {
    if ls != [] {
      CombineLength(ls[..|ls| - 1], rs);
      PairsLength(ls[|ls| - 1], rs);
      MulStep(|ls|, |rs|);
    }
  }

  lemma {:induction false} PairsPerm(l: seq<int>, rs: seq<seq<int>>, mr: multiset<int>)
    requires forall j :: 0 <= j < |rs| ==> multiset(rs[j]) == mr
    ensures forall x :: x in Pairs(l, rs) ==> multiset(x) == multiset(l) + mr
    decreases |rs|
  {
    if rs != [] {
      PairsPerm(l, rs[..|rs| - 1], mr);
    }
  }

  lemma {:induction false} CombinePerm(ls: seq<seq<int>>, rs: seq<seq<int>>, ml: multiset<int>, mr: multiset<int>)
    requires forall i :: 0 <= i < |ls| ==> multiset(ls[i]) == ml
    requires forall j :: 0 <= j < |rs| ==> multiset(rs[j]) == mr
    ensures forall x :: x in Combine(ls, rs) ==> multiset(x) == ml + mr
    decreases |ls|
  {
    if ls != [] {
      CombinePerm(ls[..|ls| - 1], rs, ml, mr);
      PairsPerm(ls[|ls| - 1], rs, mr);
    }
  }

  lemma {:induction false} PairsFirst(l: seq<int>, rs: seq<seq<int>>)
    requires |rs| >= 1
    ensures |Pairs(l, rs)| >= 1 && Pairs(l, rs)[0] == l + rs[0]
    decreases |rs|
  {
    if |rs| > 1 {
      PairsFirst(l, rs[..|rs| - 1]);
    }
  }

  lemma {:induction false} CombineFirst(ls: seq<seq<int>>, rs: seq<seq<int>>)
    requires |ls| >= 1 && |rs| >= 1
    ensures |Combine(ls, rs)| >= 1 && Combine(ls, rs)[0] == ls[0] + rs[0]
    decreases |ls|
  {
    PairsFirst(ls[|ls| - 1], rs);
    if |ls| > 1 {
      CombineFirst(ls[..|ls| - 1], rs);
    }
  }

  function Pow2(k: nat): (r: nat)
    ensures r >= 1
  {
    if k == 0 then 1 else 2 * Pow2(k - 1)
  }

  lemma {:induction false} Pow2Add(a: nat, b: nat)
    ensures Pow2(a) * Pow2(b) == Pow2(a + b)
    decreases a
  {
    if a > 0 {
      Pow2Add(a - 1, b);
    }
  }

  /** Only the empty draw fails: it splits into empty halves without end. */
  lemma {:induction false} AllDrawsOk(d: seq<int>)
    ensures AllDraws(d).Ok? <==> |d| >= 1
    decreases |d|
  {
    if |d| >= 2 {
      AllDrawsOk(d[..|d| / 2]);
      AllDrawsOk(d[|d| / 2..]);
    }
  }

  /** The brackets of a longer draw join those of its two halves. */
  lemma AllDrawsSplit(d: seq<int>)
    requires |d| >= 2
    ensures AllDraws(d[..|d| / 2]).Ok? && AllDraws(d[|d| / 2..]).Ok?
    ensures AllDraws(d) == Ok(Combine(AllDraws(d[..|d| / 2]).value, AllDraws(d[|d| / 2..]).value))
  {
    AllDrawsOk(d[..|d| / 2]);
    AllDrawsOk(d[|d| / 2..]);
  }

  lemma CountStep(a: int, b: int, x: nat, y: nat)
    requires a == Pow2(x) && b == Pow2(y)
    ensures 2 * (a * b) == Pow2(x + y + 1)
  {
    Pow2Add(x, y);
  }

  /** A draw of n players has 2^(n-1) brackets. */
  lemma {:induction false} AllDrawsCount(d: seq<int>)
    requires |d| >= 1
    ensures AllDraws(d).Ok? && |AllDraws(d).value| == Pow2(|d| - 1)
    decreases |d|
  {
    AllDrawsOk(d);
    if |d| >= 2 {
      var l, r := d[..|d| / 2], d[|d| / 2..];
      AllDrawsSplit(d);
      AllDrawsCount(l);
      AllDrawsCount(r);
      var ls, rs := AllDraws(l).value, AllDraws(r).value;
      assert |l| - 1 + |r| - 1 + 1 == |d| - 1;
      CountStep(|ls|, |rs|, |l| - 1, |r| - 1);
      CombineLength(ls, rs);
    }
  }

  /** The draw itself is the first bracket listed. */
  lemma {:induction false} AllDrawsFirst(d: seq<int>)
    requires |d| >= 1
    ensures AllDraws(d).Ok? && |AllDraws(d).value| >= 1 && AllDraws(d).value[0] == d
    decreases |d|
  {
    AllDrawsCount(d);
    if |d| >= 2 {
      var l, r := d[..|d| / 2], d[|d| / 2..];
      AllDrawsSplit(d);
      AllDrawsFirst(l);
      AllDrawsFirst(r);
      CombineFirst(AllDraws(l).value, AllDraws(r).value);
      assert d == l + r;
    }
  }


  /** Every bracket is a rearrangement of the draw. */
  lemma {:induction false} AllDrawsPermutes(d: seq<int>)
    requires AllDraws(d).Ok?
    ensures forall x :: x in AllDraws(d).value ==> multiset(x) == multiset(d)
    decreases |d|
  {
    AllDrawsOk(d);
    if |d| >= 2 {
      var l, r := d[..|d| / 2], d[|d| / 2..];
      AllDrawsSplit(d);
      AllDrawsPermutes(l);
      AllDrawsPermutes(r);
      var ls, rs := AllDraws(l).value, AllDraws(r).value;
      forall i | 0 <= i < |ls|
        ensures multiset(ls[i]) == multiset(l)
      {
        assert ls[i] in ls;
      }
      forall j | 0 <= j < |rs|
        ensures multiset(rs[j]) == multiset(r)
      {
        assert rs[j] in rs;
      }
      CombinePerm(ls, rs, multiset(l), multiset(r));
      assert d == l + r;
    }
  }

}
