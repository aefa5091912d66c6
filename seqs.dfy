/** Sequence helpers shared by the table model: positions, gathering, de-duplication and sorting. */
module Seqs {

  /** The positions 0, 1, ..., n - 1 (pandas' RangeIndex). */
  function Range(n: nat): (r: seq<nat>)
    ensures |r| == n
    ensures forall i :: 0 <= i < n ==> r[i] == i
  {
    seq(n, (i: int) requires 0 <= i < n => i as nat)
  }

  predicate Increasing(s: seq<nat>)
  {
    forall a, b :: 0 <= a < b < |s| ==> s[a] < s[b]
  }

  predicate AllBelow(s: seq<nat>, n: nat)
  {
    forall k :: 0 <= k < |s| ==> s[k] < n
  }

  /** The positions of the true entries of a mask, in increasing order (boolean-mask row selection). */
  function TrueIndices(m: seq<bool>): (r: seq<nat>)
    ensures |r| <= |m|
    ensures forall k :: 0 <= k < |r| ==> r[k] < |m| && m[r[k]]
    ensures forall i :: 0 <= i < |m| && m[i] ==> i in r
    ensures Increasing(r)
  {
    if |m| == 0 then []
    else
      var prefix := TrueIndices(m[..|m| - 1]);
      if m[|m| - 1] then prefix + [|m| - 1] else prefix
  }

  /** The elements of s at the positions idx, in the order of idx (positional row selection). */
  function Pick<T>(s: seq<T>, idx: seq<nat>): (r: seq<T>)
    requires AllBelow(idx, |s|)
    ensures |r| == |idx|
    ensures forall k :: 0 <= k < |idx| ==> r[k] == s[idx[k]]
  {
    seq(|idx|, (k: int) requires 0 <= k < |idx| => s[idx[k]])
  }

  lemma PickRange<T>(s: seq<T>)
    ensures Pick(s, Range(|s|)) == s
  {
  }

  lemma PickPick<T>(s: seq<T>, a: seq<nat>, b: seq<nat>)
    requires AllBelow(a, |s|) && AllBelow(b, |a|)
    ensures AllBelow(Pick(a, b), |s|)
    ensures Pick(Pick(s, a), b) == Pick(s, Pick(a, b))
  {
  }

  lemma PickIncreasing(a: seq<nat>, b: seq<nat>)
    requires AllBelow(b, |a|) && Increasing(a) && Increasing(b)
    ensures Increasing(Pick(a, b))
  {
  }

  predicate NoDuplicates<T(==)>(s: seq<T>)
  {
    forall a, b :: 0 <= a < b < |s| ==> s[a] != s[b]
  }

  /** The elements of s with later repetitions removed, in order of first appearance (`unique()`). */
  function Distinct<T(==,!new)>(s: seq<T>): (r: seq<T>)
    ensures |r| <= |s|
    ensures forall x :: x in r <==> x in s
    ensures NoDuplicates(r)
  {
    if |s| == 0 then []
    else
      var rest := Distinct(s[..|s| - 1]);
      if s[|s| - 1] in rest then rest else rest + [s[|s| - 1]]
  }

  /** A permutation of 0 .. n - 1: every position exactly once. */
  predicate IsPermutation(p: seq<nat>, n: nat)
  {
    && |p| == n
    && AllBelow(p, n)
    && NoDuplicates(p)
    && forall i :: 0 <= i < n ==> i in p
  }

  lemma RangeIsPermutation(n: nat)
    ensures IsPermutation(Range(n), n)
  {
    forall i | 0 <= i < n ensures i in Range(n) {
      assert Range(n)[i] == i;
    }
  }

  ghost predicate TotalPreorder<T(!new)>(le: (T, T) -> bool)
  {
    && (forall a, b :: le(a, b) || le(b, a))
    && (forall a, b, c :: le(a, b) && le(b, c) ==> le(a, c))
  }

  predicate SortedBy<T>(s: seq<T>, le: (T, T) -> bool)
  {
    forall i, j :: 0 <= i < j < |s| ==> le(s[i], s[j])
  }

  /** x put before the first element it ranks no later than. */
  function Insert<T>(x: T, s: seq<T>, le: (T, T) -> bool): (r: seq<T>)
    ensures multiset(r) == multiset(s) + multiset{x}
  {
    if s == [] then [x]
    else if le(x, s[0]) then [x] + s
    else
      assert s == [s[0]] + s[1..];
      [s[0]] + Insert(x, s[1..], le)
  }

  /** Inserting into a sorted sequence keeps it sorted. */
  lemma {:induction false} InsertKeepsSorted<T(!new)>(x: T, s: seq<T>, le: (T, T) -> bool)
    requires TotalPreorder(le) && SortedBy(s, le)
    ensures SortedBy(Insert(x, s, le), le)
    decreases |s|
  {
    if s == [] {
    } else if le(x, s[0]) {
      forall j | 0 <= j < |s| ensures le(x, s[j]) {
        if j > 0 {
          assert le(s[0], s[j]);
        }
      }
      assert Insert(x, s, le) == [x] + s;
    } else {
      var rest := Insert(x, s[1..], le);
      InsertKeepsSorted(x, s[1..], le);
      assert le(s[0], x);
      forall k | 0 <= k < |rest| ensures le(s[0], rest[k]) {
        assert rest[k] in multiset(rest);
        if rest[k] != x {
          assert rest[k] in multiset(s[1..]);
          var j :| 0 <= j < |s[1..]| && s[1..][j] == rest[k];
          assert le(s[0], s[j + 1]);
        }
      }
      assert Insert(x, s, le) == [s[0]] + rest;
    }
  }

  /** A stable sort by the preorder le: elements that le ranks alike keep their relative order. */
  function InsertionSort<T(!new)>(s: seq<T>, le: (T, T) -> bool): (r: seq<T>)
    requires TotalPreorder(le)
    ensures multiset(r) == multiset(s)
    ensures SortedBy(r, le)
  {
    if s == [] then []
    else
      assert s == [s[0]] + s[1..];
      var rest := InsertionSort(s[1..], le);
      InsertKeepsSorted(s[0], rest, le);
      Insert(s[0], rest, le)
  }

  lemma SortedKeepsElements<T(!new)>(s: seq<T>, le: (T, T) -> bool)
    requires TotalPreorder(le)
    ensures |InsertionSort(s, le)| == |s|
    ensures forall x :: x in InsertionSort(s, le) <==> x in s
  {
    var r := InsertionSort(s, le);
    assert |multiset(r)| == |multiset(s)|;
    forall x ensures x in r <==> x in s {
      assert x in r <==> x in multiset(r);
      assert x in s <==> x in multiset(s);
    }
  }

  /** A sequence without repetitions holds each element at most once. */
  lemma {:induction false} NoDuplicatesCountsOnce<T>(s: seq<T>, x: T)
    requires NoDuplicates(s)
    ensures multiset(s)[x] <= 1
    decreases |s|
  {
    if s != [] {
      var init := s[..|s| - 1];
      assert s == init + [s[|s| - 1]];
      NoDuplicatesCountsOnce(init, x);
      if x == s[|s| - 1] {
        assert x !in init;
      }
    }
  }

  /** Reordering keeps a sequence free of repetitions. */
  lemma PermutationKeepsNoDuplicates<T>(s: seq<T>, t: seq<T>)
    requires NoDuplicates(s) && multiset(t) == multiset(s)
    ensures NoDuplicates(t)
  {
    forall a, b | 0 <= a < b < |t| ensures t[a] != t[b] {
      NoDuplicatesCountsOnce(s, t[a]);
      assert t == t[..a] + [t[a]] + t[a + 1..b] + [t[b]] + t[b + 1..];
      assert multiset(t)[t[a]] >= if t[a] == t[b] then 2 else 1;
    }
  }

  /** Distinct keeps the order of first appearance: of two of its elements, the earlier one occurs
      in s before every occurrence of the later one. */
  lemma {:induction false} DistinctKeepsOrder<T(!new)>(s: seq<T>, a: nat, b: nat)
    requires a < b < |Distinct(s)|
    ensures exists i, j :: 0 <= i < j < |s| && s[i] == Distinct(s)[a] && s[j] == Distinct(s)[b]
    ensures forall j :: 0 <= j < |s| && s[j] == Distinct(s)[b] ==> Distinct(s)[a] in s[..j]
    decreases |s|
  {
    var init := s[..|s| - 1];
    var last := s[|s| - 1];
    var rest := Distinct(init);
    var r := Distinct(s);
    if b < |rest| {
      assert r[a] == rest[a] && r[b] == rest[b];
      DistinctKeepsOrder(init, a, b);
      var i, j :| 0 <= i < j < |init| && init[i] == rest[a] && init[j] == rest[b];
      assert s[i] == r[a] && s[j] == r[b];
      forall j | 0 <= j < |s| && s[j] == r[b] ensures r[a] in s[..j] {
        if j < |init| {
          assert s[j] == init[j] && s[..j] == init[..j];
        } else {
          assert init[..|init|] == init;
          assert s[..j] == init;
        }
      }
    } else {
      assert r == rest + [last];
      assert r[a] in init;
      var i :| 0 <= i < |init| && init[i] == r[a];
      assert s[i] == r[a] && s[|s| - 1] == r[b];
      forall j | 0 <= j < |s| && s[j] == r[b] ensures r[a] in s[..j] {
        if j < |init| {
          assert false;
        }
        assert s[..j] == init;
      }
    }
  }

  /** A sequence without repetitions whose elements all occur in t is no longer than t. */
  lemma NoDuplicatesWithinIsShorter<T(!new)>(s: seq<T>, t: seq<T>)
    requires NoDuplicates(s) && forall x :: x in s ==> x in t
    ensures |s| <= |t|
  {
    var A := set x | x in s;
    var B := set x | x in t;
    ElementSetOfNoDuplicates(s);
    ElementSetIsSmaller(t);
    assert A <= B;
    assert B == A + (B - A);
    assert |B| == |A| + |B - A|;
  }

  lemma {:induction false} ElementSetOfNoDuplicates<T(!new)>(s: seq<T>)
    requires NoDuplicates(s)
    ensures |set x | x in s| == |s|
    decreases |s|
  {
    if s != [] {
      var init := s[..|s| - 1];
      ElementSetOfNoDuplicates(init);
      assert (set x | x in s) == (set x | x in init) + {s[|s| - 1]};
      assert s[|s| - 1] !in init;
    }
  }

  lemma {:induction false} ElementSetIsSmaller<T(!new)>(s: seq<T>)
    ensures |set x | x in s| <= |s|
    decreases |s|
  {
    if s != [] {
      var init := s[..|s| - 1];
      ElementSetIsSmaller(init);
      assert (set x | x in s) == (set x | x in init) + {s[|s| - 1]};
    }
  }

  /** The first k elements, or all of them when there are fewer (`head(k)`). */
  function Take<T>(s: seq<T>, k: nat): (r: seq<T>)
    ensures |r| <= k && |r| <= |s|
    ensures |s| <= k ==> r == s
    ensures forall i :: 0 <= i < |r| ==> r[i] == s[i]
  {
    if |s| <= k then s else s[..k]
  }

  /** Sequence concatenation of a list of sequences. */
  function Flatten<T>(ss: seq<seq<T>>): (r: seq<T>)
  {
    if ss == [] then [] else Flatten(ss[..|ss| - 1]) + ss[|ss| - 1]
  }

  /** The integer ceiling of a real number. */
  function Ceil(x: real): (r: int)
    ensures x <= r as real < x + 1.0
  {
    if x.Floor as real == x then x.Floor else x.Floor + 1
  }
}
