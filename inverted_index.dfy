/** An inverted index from lower-cased keywords to the ids of the messages
  * that contain them, with single-keyword lookup and AND queries answered by
  * intersecting sorted posting lists, smallest list first. */
module InvertedIndex {

  // ----- tokenising -----

  /** A character of the regular-expression class `\w`: [a-zA-Z_0-9]. */
  predicate IsWordChar(c: char) {
    'a' <= c <= 'z' || 'A' <= c <= 'Z' || '0' <= c <= '9' || c == '_'
  }

  function LowerChar(c: char): char {
    if 'A' <= c <= 'Z' then (c as int - 'A' as int + 'a' as int) as char else c
  }

  /** `String.toLowerCase` on ASCII letters. */
  function Lower(s: string): (r: string)
    ensures |r| == |s|
  {
    seq(|s|, i requires 0 <= i < |s| => LowerChar(s[i]))
  }

  /** Length of the run of word characters at the start of `s`. */
  function RunLength(s: string): (n: nat)
    ensures n <= |s|
    ensures forall i :: 0 <= i < n ==> IsWordChar(s[i])
    ensures n < |s| ==> !IsWordChar(s[n])
  {
    if |s| == 0 || !IsWordChar(s[0]) then 0 else 1 + RunLength(s[1..])
  }

  /** `split("\\W+")` with the blank pieces skipped: the maximal runs of
    * word characters, in order. */
  function Words(s: string): (ws: seq<string>)
    ensures forall w :: w in ws ==> |w| > 0 && forall i :: 0 <= i < |w| ==> IsWordChar(w[i])
    decreases |s|
  {
    if |s| == 0 then []
    else if !IsWordChar(s[0]) then Words(s[1..])
    else
      var n := RunLength(s);
      [s[..n]] + Words(s[n..])
  }

  // ----- the posting lists -----

  type Index = map<string, seq<int>>

  /** `getOrDefault(w, emptyList())`. */
  function Postings(m: Index, w: string): seq<int> {
    if w in m then m[w] else []
  }

  /** The index after `id` is appended to the list of each word of `ws`, in
    * order. */
  function AddAll(m: Index, ws: seq<string>, id: int): Index
  {
    if |ws| == 0 then m
    else
      var m' := AddAll(m, ws[..|ws| - 1], id);
      var w := ws[|ws| - 1];
      m'[w := Postings(m', w) + [id]]
  }

  function Count(ws: seq<string>, w: string): nat
  {
    if |ws| == 0 then 0
    else Count(ws[..|ws| - 1], w) + (if ws[|ws| - 1] == w then 1 else 0)
  }

  function Repeat(id: int, n: nat): (r: seq<int>)
    ensures |r| == n && forall i :: 0 <= i < n ==> r[i] == id
  {
    if n == 0 then [] else Repeat(id, n - 1) + [id]
  }

  /** Indexing appends `id` once per occurrence of a word to that word's list
    * and leaves the keys of every other word as they were. */
  lemma {:induction false} AddAllPostings(m: Index, ws: seq<string>, id: int, w: string)
    ensures Postings(AddAll(m, ws, id), w) == Postings(m, w) + Repeat(id, Count(ws, w))
    ensures w !in ws ==> (w in AddAll(m, ws, id) <==> w in m)
    decreases |ws|
  {
    if |ws| > 0 {
      AddAllPostings(m, ws[..|ws| - 1], id, w);
      if ws[|ws| - 1] == w {
        assert Postings(m, w) + Repeat(id, Count(ws, w)) == Postings(m, w) + Repeat(id, Count(ws[..|ws| - 1], w)) + [id];
      }
      if w !in ws {
        assert ws == ws[..|ws| - 1] + [ws[|ws| - 1]];
      }
    }
  }

  predicate NonDecreasing(s: seq<int>) {
    forall i, j :: 0 <= i < j < |s| ==> s[i] <= s[j]
  }

  predicate StrictlyIncreasing(s: seq<int>) {
    forall i, j :: 0 <= i < j < |s| ==> s[i] < s[j]
  }

  /** Every posting list is sorted. */
  predicate AllSorted(m: Index) {
    forall w :: w in m ==> NonDecreasing(m[w])
  }

  /** Every id in the index is at most `id`. */
  predicate AllAtMost(m: Index, id: int) {
    forall w, i :: w in m && 0 <= i < |m[w]| ==> m[w][i] <= id
  }

  /** With ids arriving in increasing order, indexing keeps every list
    * sorted. */
  lemma {:induction false} AddAllSorted(m: Index, ws: seq<string>, id: int)
    requires AllSorted(m) && AllAtMost(m, id)
    ensures AllSorted(AddAll(m, ws, id)) && AllAtMost(AddAll(m, ws, id), id)
    decreases |ws|
  {
    if |ws| > 0 {
      AddAllSorted(m, ws[..|ws| - 1], id);
      AppendSorted(AddAll(m, ws[..|ws| - 1], id), ws[|ws| - 1], id);
    }
  }

  /** Appending an id no smaller than any in the index keeps it sorted. */
  lemma AppendSorted(m: Index, w: string, id: int)
    requires AllSorted(m) && AllAtMost(m, id)
    ensures AllSorted(m[w := Postings(m, w) + [id]]) && AllAtMost(m[w := Postings(m, w) + [id]], id)
  {
  }

  // ----- intersection -----

  /** Two-pointer intersection of two lists. Every output element is in both
    * lists; for sorted lists the output is sorted and is their multiset
    * intersection, so for strictly increasing lists it is exactly the common
    * elements in ascending order. */
  method Intersect(a: seq<int>, b: seq<int>) returns (out: seq<int>)
    ensures forall x :: x in out ==> x in a && x in b
    ensures NonDecreasing(a) && NonDecreasing(b) ==>
      NonDecreasing(out) && multiset(out) == multiset(a) * multiset(b)
  {
    out := [];
    var i, j := 0, 0;
    ghost var sorted := NonDecreasing(a) && NonDecreasing(b);
    while i < |a| && j < |b|
      invariant 0 <= i <= |a| && 0 <= j <= |b|
      invariant forall x :: x in out ==> x in a && x in b
      invariant sorted ==> NonDecreasing(out)
      invariant sorted && |out| > 0 ==>
        (i < |a| ==> out[|out| - 1] <= a[i]) && (j < |b| ==> out[|out| - 1] <= b[j])
      invariant sorted ==> multiset(out) + multiset(a[i..]) * multiset(b[j..]) == multiset(a) * multiset(b)
      decreases |a| - i + |b| - j
    {
      var x, y := a[i], b[j];
      if x == y {
        if sorted {
          MatchStep(a, b, i, j);
        }
        out := out + [x];
        i, j := i + 1, j + 1;
      } else if x < y {
        if sorted {
          SkipStep(a, b, i, j);
        }
        i := i + 1;
      } else {
        if sorted {
          SkipOther(a, b, i, j);
        }
        j := j + 1;
      }
    }
    if sorted {
      if i == |a| {
        assert multiset(a[i..]) == multiset{};
      } else {
        assert multiset(b[j..]) == multiset{};
      }
    }
  }

  /** For strictly increasing inputs the sorted multiset intersection has
    * no repeats, so the output of `Intersect` is strictly increasing. */
  lemma StrictIntersection(a: seq<int>, b: seq<int>, out: seq<int>)
    requires StrictlyIncreasing(a) && NonDecreasing(out)
    requires multiset(out) == multiset(a) * multiset(b)
    ensures StrictlyIncreasing(out)
  {
    forall i, j | 0 <= i < j < |out|
      ensures out[i] < out[j]
    {
      AtMostOnce(a, out[i]);
      TwoCopies(out, i, j);
    }
  }

  /** A strictly increasing list holds each value at most once. */
  lemma {:induction false} AtMostOnce(s: seq<int>, v: int)
    requires StrictlyIncreasing(s)
    ensures multiset(s)[v] <= 1
    decreases |s|
  {
    if |s| > 0 {
      assert s == [s[0]] + s[1..];
      AtMostOnce(s[1..], v);
      if v == s[0] {
        forall k | 0 <= k < |s[1..]|
          ensures s[1..][k] != v
        {
          assert s[1..][k] == s[k + 1];
        }
        assert v !in s[1..];
      }
    }
  }

  /** Two equal entries put that value in the multiset at least twice. */
  lemma TwoCopies(s: seq<int>, i: nat, j: nat)
    requires i < j < |s|
    ensures s[i] == s[j] ==> multiset(s)[s[i]] >= 2
  {
    assert s == s[..i] + [s[i]] + s[i + 1..j] + [s[j]] + s[j + 1..];
  }

  /** Equal heads: the common value goes to the output and both lists
    * advance. */
  lemma MatchStep(a: seq<int>, b: seq<int>, i: nat, j: nat)
    requires i < |a| && j < |b| && a[i] == b[j]
    ensures multiset(a[i..]) * multiset(b[j..]) == multiset{a[i]} + multiset(a[i + 1..]) * multiset(b[j + 1..])
  {
    Cons(a, i);
    Cons(b, j);
    InterCons(a[i], multiset(a[i + 1..]), multiset(b[j + 1..]));
  }

  /** The smaller head occurs nowhere in the rest of the other sorted list,
    * so skipping it leaves the intersection of the remainders unchanged. */
  lemma SkipStep(a: seq<int>, b: seq<int>, i: nat, j: nat)
    requires NonDecreasing(b) && i < |a| && j < |b| && a[i] < b[j]
    ensures multiset(a[i..]) * multiset(b[j..]) == multiset(a[i + 1..]) * multiset(b[j..])
  {
    Cons(a, i);
    Absent(b, j, a[i]);
    InterDrop(a[i], multiset(a[i + 1..]), multiset(b[j..]));
  }

  /** SkipStep with the smaller head in the second list. */
  lemma SkipOther(a: seq<int>, b: seq<int>, i: nat, j: nat)
    requires NonDecreasing(a) && i < |a| && j < |b| && b[j] < a[i]
    ensures multiset(a[i..]) * multiset(b[j..]) == multiset(a[i..]) * multiset(b[j + 1..])
  {
    SkipStep(b, a, j, i);
    assert multiset(a[i..]) * multiset(b[j..]) == multiset(b[j..]) * multiset(a[i..]);
    assert multiset(a[i..]) * multiset(b[j + 1..]) == multiset(b[j + 1..]) * multiset(a[i..]);
  }

  /** A multiset intersection holds exactly the values found in both: for
    * strictly increasing lists, `Intersect` returns exactly the common
    * elements, in ascending order. */
  lemma CommonMembers(a: seq<int>, b: seq<int>, out: seq<int>)
    requires multiset(out) == multiset(a) * multiset(b)
    ensures forall x :: x in out <==> x in a && x in b
  {
    forall x | x in a && x in b
      ensures x in out
    {
      assert x in multiset(a) && x in multiset(b);
      assert x in multiset(out);
    }
    forall x | x in out
      ensures x in a && x in b
    {
      assert x in multiset(out);
    }
  }

  /** The sample AND query: with "fatal" in messages 1, 3 and 5 and "disk"
    * in messages 1 to 5, whatever `Intersect` returns for the two sorted
    * lists is [1, 3, 5]. */
  lemma ExampleQuery(out: seq<int>)
    requires NonDecreasing(out)
    requires multiset(out) == multiset([1, 3, 5]) * multiset([1, 2, 3, 4, 5])
    ensures out == [1, 3, 5]
  {
    assert multiset([1, 3, 5]) * multiset([1, 2, 3, 4, 5]) == multiset{1, 3, 5};
    assert |out| == 3 by {
      assert |multiset(out)| == |out|;
    }
    assert out[0] in multiset(out) && out[1] in multiset(out) && out[2] in multiset(out);
  }

  lemma Cons(s: seq<int>, i: nat)
    requires i < |s|
    ensures multiset(s[i..]) == multiset{s[i]} + multiset(s[i + 1..])
  {
    assert s[i..] == [s[i]] + s[i + 1..];
  }

  /** In a sorted list, a value below the current element does not occur
    * from there on. */
  lemma Absent(s: seq<int>, j: nat, x: int)
    requires NonDecreasing(s) && j < |s| && x < s[j]
    ensures multiset(s[j..])[x] == 0
  {
    forall k | 0 <= k < |s[j..]|
      ensures s[j..][k] != x
    {
      assert s[j..][k] == s[j + k];
    }
    assert x !in s[j..];
  }

  lemma InterCons(x: int, a: multiset<int>, b: multiset<int>)
    ensures (multiset{x} + a) * (multiset{x} + b) == multiset{x} + a * b
  {
  }

  lemma InterDrop(x: int, a: multiset<int>, b: multiset<int>)
    requires b[x] == 0
    ensures (multiset{x} + a) * b == a * b
  {
  }

  // ----- sorting the lists by size -----

  /** Inserts `l` before the first list that is not shorter. */
  function InsertBySize(l: seq<int>, ls: seq<seq<int>>): (r: seq<seq<int>>)
    ensures multiset(r) == multiset(ls) + multiset{l}
  {
    if |ls| == 0 || |l| <= |ls[0]| then [l] + ls
    else
      assert ls == [ls[0]] + ls[1..];
      [ls[0]] + InsertBySize(l, ls[1..])
  }

  /** `lists.sort(comparingInt(List::size))`, as a stable insertion sort. */
  function SortBySize(ls: seq<seq<int>>): (r: seq<seq<int>>)
    ensures multiset(r) == multiset(ls)
  {
    if |ls| == 0 then []
    else
      assert ls == [ls[0]] + ls[1..];
      InsertBySize(ls[0], SortBySize(ls[1..]))
  }

  /** `x` is in every list of `ls`. */
  predicate InAll(x: int, ls: seq<seq<int>>) {
    forall l :: l in ls ==> x in l
  }

  // ----- the index -----

  class InvertedIndex {
    /** keyword -> ids of the messages containing it, in arrival order. */
    var index: Index

    constructor ()
      ensures index == map[]
    {
      index := map[];
    }

    /** Appends `msgId` to the list of every word of the lower-cased message,
      * once per occurrence. */
    method IndexMessage(msgId: int, message: string)
      modifies this
      ensures index == AddAll(old(index), Words(Lower(message)), msgId)
    {
      var words := Words(Lower(message));
      var i := 0;
      while i < |words|
        invariant 0 <= i <= |words|
        invariant index == AddAll(old(index), words[..i], msgId)
      {
        var w := words[i];
        var postingList := if w in index then index[w] else [];
        index := index[w := postingList + [msgId]];
        assert words[..i + 1][..i] == words[..i];
        i := i + 1;
      }
      assert words[..i] == words;
    }

    /** The list of the lower-cased keyword, or the empty list. */
    method SearchSingle(keyword: string) returns (r: seq<int>)
      ensures Lower(keyword) in index ==> r == index[Lower(keyword)]
      ensures Lower(keyword) !in index ==> r == []
    {
      r := Postings(index, Lower(keyword));
    }

    /** AND query: no keywords give the empty list. Otherwise the lists are
      * sorted by size and intersected from the smallest, stopping at an
      * empty result. Every id returned is in every keyword's list; when the
      * lists are sorted, every id in all of them is returned. */
    method SearchMultiple(keywords: seq<string>) returns (result: seq<int>)
      ensures |keywords| == 0 ==> result == []
      ensures forall x, k :: x in result && k in keywords ==> x in Postings(index, Lower(k))
      ensures AllSorted(index) && |keywords| > 0 ==> NonDecreasing(result)
      ensures AllSorted(index) && |keywords| > 0 ==>
        forall x :: (forall k :: k in keywords ==> x in Postings(index, Lower(k))) ==> x in result
    {
      if |keywords| == 0 {
        return [];
      }
      var lists := PostingLists(keywords);
      ghost var original := lists;
      lists := SortBySize(lists);
      SameMembers(original, lists);
      if AllSorted(index) {
        forall l | l in lists
          ensures NonDecreasing(l)
        {
          var p :| 0 <= p < |original| && original[p] == l;
        }
      }
      result := IntersectAll(lists);
      forall x, k | x in result && k in keywords
        ensures x in Postings(index, Lower(k))
      {
        var p :| 0 <= p < |keywords| && keywords[p] == k;
        assert original[p] in original;
      }
      if AllSorted(index) {
        forall x | forall k :: k in keywords ==> x in Postings(index, Lower(k))
          ensures x in result
        {
          forall l | l in lists
            ensures x in l
          {
            var p :| 0 <= p < |original| && original[p] == l;
            assert keywords[p] in keywords;
          }
        }
      }
    }

    /** The posting list of every keyword, in query order. */
    method PostingLists(keywords: seq<string>) returns (lists: seq<seq<int>>)
      ensures |lists| == |keywords|
      ensures forall p :: 0 <= p < |keywords| ==> lists[p] == Postings(index, Lower(keywords[p]))
      ensures AllSorted(index) ==> forall p :: 0 <= p < |keywords| ==> NonDecreasing(lists[p])
    {
      lists := [];
      var n := 0;
      while n < |keywords|
        invariant 0 <= n <= |keywords|
        invariant |lists| == n
        invariant forall p :: 0 <= p < n ==> lists[p] == Postings(index, Lower(keywords[p]))
      {
        var l := SearchSingle(keywords[n]);
        lists := lists + [l];
        n := n + 1;
      }
    }
  }

  /** Intersects the lists in order, starting from the first and stopping as
    * soon as the result is empty. Every id returned is in every list; when
    * every list is sorted, every id common to all of them is returned. */
  method IntersectAll(lists: seq<seq<int>>) returns (result: seq<int>)
    requires |lists| > 0
    ensures forall x :: x in result ==> InAll(x, lists)
    ensures (forall l :: l in lists ==> NonDecreasing(l)) ==>
      NonDecreasing(result) && forall x :: InAll(x, lists) ==> x in result
  {
    ghost var sorted := forall l :: l in lists ==> NonDecreasing(l);
    result := lists[0];
    var i := 1;
    ghost var covered := 1;
    assert lists[..1] == [lists[0]];
    while i < |lists|
      invariant 1 <= i <= |lists| && covered == i
      invariant forall x :: x in result ==> InAll(x, lists[..covered])
      invariant sorted ==> NonDecreasing(result) && forall x :: InAll(x, lists[..covered]) ==> x in result
    {
      ghost var before := result;
      assert sorted ==> NonDecreasing(lists[i]) by {
        assert lists[i] in lists;
      }
      result := Intersect(result, lists[i]);
      IntersectStep(before, result, lists, i, sorted);
      covered := i + 1;
      if |result| == 0 {
        break;
      }
      i := i + 1;
    }
    assert lists[..covered] == lists || |result| == 0;
    forall x | InAll(x, lists)
      ensures InAll(x, lists[..covered])
    {
      forall l | l in lists[..covered]
        ensures x in l
      {
        assert l in lists;
      }
    }
  }

  /** Two sequences with the same multiset have the same members. */
  lemma SameMembers<T>(ls: seq<T>, rs: seq<T>)
    requires multiset(ls) == multiset(rs)
    ensures forall l :: l in ls <==> l in rs
  {
    forall l | l in rs
      ensures l in ls
    {
      assert l in multiset(rs);
    }
    forall l | l in ls
      ensures l in rs
    {
      assert l in multiset(ls);
    }
  }

  /** One round of the AND loop: intersecting with list i keeps the result
    * inside every list so far and, for sorted lists, complete. */
  lemma IntersectStep(before: seq<int>, result: seq<int>, lists: seq<seq<int>>, i: nat, sorted: bool)
    requires 1 <= i < |lists|
    requires forall x :: x in before ==> InAll(x, lists[..i])
    requires forall x :: x in result ==> x in before && x in lists[i]
    requires sorted ==> NonDecreasing(before) && NonDecreasing(lists[i]) && forall x :: InAll(x, lists[..i]) ==> x in before
    requires NonDecreasing(before) && NonDecreasing(lists[i]) ==>
      NonDecreasing(result) && multiset(result) == multiset(before) * multiset(lists[i])
    ensures forall x :: x in result ==> InAll(x, lists[..i + 1])
    ensures sorted ==> NonDecreasing(result) && forall x :: InAll(x, lists[..i + 1]) ==> x in result
  {
    assert lists[..i + 1] == lists[..i] + [lists[i]];
    if sorted {
      forall x | InAll(x, lists[..i + 1])
        ensures x in result
      {
        assert x in lists[i];
        assert InAll(x, lists[..i]);
        assert x in multiset(before) && x in multiset(lists[i]);
        assert x in multiset(result);
      }
    }
  }
}
