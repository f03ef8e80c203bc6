/**
 * The order in which ECMAScript enumerates an ordinary object's own string keys
 * (`Object.keys`, `Object.entries`): keys that are array indices (the canonical
 * decimal strings of 0 .. 2^32 - 2) first, in ascending numeric order, then the
 * other keys in the order they were first inserted. The converter keys its
 * per-port buckets by port number, so the ports come out in this order.
 */
module KeyOrder {

  /** A key that ECMAScript treats as an array index. */
  predicate IsArrayIndex(k: int) {
    0 <= k < 0xFFFF_FFFF
  }

  predicate NoDup<T(==)>(s: seq<T>) {
    forall i, j :: 0 <= i < j < |s| ==> s[i] != s[j]
  }

  function Elems<T>(s: seq<T>): set<T> {
    set x | x in s
  }

  /** A duplicate-free sequence has as many distinct elements as positions. */
  lemma {:induction false} NoDupElems<T>(s: seq<T>)
    requires NoDup(s)
    ensures |Elems(s)| == |s|
  {
    if s != [] {
      NoDupElems(s[1..]);
      assert Elems(s) == Elems(s[1..]) + {s[0]};
      assert s[0] !in Elems(s[1..]);
    }
  }

  /** A subset is no larger than its superset, and equally large only when equal. */
  lemma SubsetCard<T>(a: set<T>, b: set<T>)
    requires a <= b
    ensures |a| <= |b|
    ensures |a| == |b| ==> a == b
  {
    assert b == a + (b - a);
    if |a| == |b| {
      assert |b - a| == 0;
    }
  }

  predicate Ascending(s: seq<int>) {
    forall i, j :: 0 <= i < j < |s| ==> s[i] <= s[j]
  }

  predicate StrictlyAscending(s: seq<int>) {
    forall i, j :: 0 <= i < j < |s| ==> s[i] < s[j]
  }

  /** Inserts `x` into an ascending sequence, keeping it ascending. */
  function Insert(x: int, s: seq<int>): (r: seq<int>)
    ensures multiset(r) == multiset(s) + multiset{x}
    ensures Ascending(s) ==> Ascending(r)
  {
    if s == [] then [x]
    else if x <= s[0] then [x] + s
    else
      var rest := Insert(x, s[1..]);
      InsertBehindHead(x, s, rest);
      [s[0]] + rest
  }

  /** Putting the head of `s` before the insertion into its tail gives an insertion into `s`. */
  lemma InsertBehindHead(x: int, s: seq<int>, rest: seq<int>)
    requires s != [] && s[0] < x
    requires multiset(rest) == multiset(s[1..]) + multiset{x}
    requires Ascending(s[1..]) ==> Ascending(rest)
    ensures multiset([s[0]] + rest) == multiset(s) + multiset{x}
    ensures Ascending(s) ==> Ascending([s[0]] + rest)
  {
    assert s == [s[0]] + s[1..];
    assert multiset(s) == multiset{s[0]} + multiset(s[1..]);
    if Ascending(s) {
      AscendingTail(s);
      LowerBound(s[0], x, s[1..], rest);
      AscendingCons(s[0], rest);
    }
  }

  lemma AscendingTail(s: seq<int>)
    requires s != [] && Ascending(s)
    ensures Ascending(s[1..]) && forall i :: 0 <= i < |s[1..]| ==> s[0] <= s[1..][i]
  {
    forall i, j | 0 <= i < j < |s[1..]| ensures s[1..][i] <= s[1..][j] {
      assert s[1..][i] == s[i + 1] && s[1..][j] == s[j + 1];
    }
  }

  lemma AscendingCons(m: int, r: seq<int>)
    requires Ascending(r) && forall i :: 0 <= i < |r| ==> m <= r[i]
    ensures Ascending([m] + r)
  {
    var t := [m] + r;
    forall i, j | 0 <= i < j < |t| ensures t[i] <= t[j] {
      assert t[j] == r[j - 1];
      if i > 0 {
        assert t[i] == r[i - 1];
      }
    }
  }

  /** A permutation of `s` plus `x` keeps every lower bound of both. */
  lemma LowerBound(m: int, x: int, s: seq<int>, r: seq<int>)
    requires multiset(r) == multiset(s) + multiset{x}
    requires m <= x && forall i :: 0 <= i < |s| ==> m <= s[i]
    ensures forall i :: 0 <= i < |r| ==> m <= r[i]
  {
    forall i | 0 <= i < |r| ensures m <= r[i] {
      assert r[i] in multiset(r);
      if r[i] != x {
        assert r[i] in multiset(s);
        var k :| 0 <= k < |s| && s[k] == r[i];
      }
    }
  }

  /** Insertion sort into ascending numeric order. */
  function Sort(s: seq<int>): (r: seq<int>)
    ensures multiset(r) == multiset(s)
    ensures Ascending(r)
  {
    if s == [] then []
    else
      assert s == [s[0]] + s[1..];
      Insert(s[0], Sort(s[1..]))
  }

  /** The array-index keys of `ks`, in their order in `ks`. */
  function IndexKeys(ks: seq<int>): (r: seq<int>)
    ensures forall i :: 0 <= i < |r| ==> IsArrayIndex(r[i])
  {
    if ks == [] then []
    else (if IsArrayIndex(ks[0]) then [ks[0]] else []) + IndexKeys(ks[1..])
  }

  /** The other keys of `ks`, in their order in `ks`. */
  function OtherKeys(ks: seq<int>): (r: seq<int>)
    ensures forall i :: 0 <= i < |r| ==> !IsArrayIndex(r[i])
  {
    if ks == [] then []
    else (if IsArrayIndex(ks[0]) then [] else [ks[0]]) + OtherKeys(ks[1..])
  }

  /** Own-key order of an object whose keys were inserted in the order `ks`. */
  function OwnKeys(ks: seq<int>): seq<int>
  {
    Sort(IndexKeys(ks)) + OtherKeys(ks)
  }

  lemma {:induction false} SplitKeys(ks: seq<int>)
    ensures multiset(IndexKeys(ks)) + multiset(OtherKeys(ks)) == multiset(ks)
  {
    if ks != [] {
      SplitKeys(ks[1..]);
      assert ks == [ks[0]] + ks[1..];
    }
  }

  /** Own-key order lists every inserted key, as often as it was inserted. */
  lemma OwnKeysSameKeys(ks: seq<int>)
    ensures multiset(OwnKeys(ks)) == multiset(ks)
  {
    SplitKeys(ks);
  }

  lemma OwnKeysLength(ks: seq<int>)
    ensures |OwnKeys(ks)| == |ks|
  {
    OwnKeysSameKeys(ks);
    assert |multiset(OwnKeys(ks))| == |OwnKeys(ks)|;
  }

  /** Every key of the own-key order is an inserted key. */
  lemma OwnKeysMembers(ks: seq<int>)
    ensures forall i :: 0 <= i < |OwnKeys(ks)| ==> OwnKeys(ks)[i] in ks
  {
    OwnKeysSameKeys(ks);
    forall i | 0 <= i < |OwnKeys(ks)| ensures OwnKeys(ks)[i] in ks {
      assert OwnKeys(ks)[i] in multiset(OwnKeys(ks));
    }
  }

  /** Every inserted key appears in the own-key order. */
  lemma OwnKeysCovers(ks: seq<int>)
    ensures forall k :: k in ks ==> exists i :: 0 <= i < |OwnKeys(ks)| && OwnKeys(ks)[i] == k
  {
    OwnKeysSameKeys(ks);
    forall k | k in ks ensures exists i :: 0 <= i < |OwnKeys(ks)| && OwnKeys(ks)[i] == k {
      assert k in multiset(ks);
      assert k in OwnKeys(ks);
    }
  }

  lemma {:induction false} NoDupCounts<T>(s: seq<T>, x: T)
    requires NoDup(s)
    ensures multiset(s)[x] <= 1
  {
    if s != [] {
      assert s == [s[0]] + s[1..];
      assert NoDup(s[1..]);
      NoDupCounts(s[1..], x);
      if x == s[0] {
        assert x !in s[1..];
      }
    }
  }

  /** A rearrangement of a duplicate-free sequence is duplicate-free. */
  lemma PermutationNoDup<T>(r: seq<T>, s: seq<T>)
    requires multiset(r) == multiset(s) && NoDup(s)
    ensures NoDup(r)
  {
    forall i, j | 0 <= i < j < |r| ensures r[i] != r[j] {
      if r[i] == r[j] {
        var x := r[i];
        assert r == r[..j] + r[j..];
        assert x in r[..j] && x in r[j..];
        assert multiset(r)[x] == multiset(r[..j])[x] + multiset(r[j..])[x];
        NoDupCounts(s, x);
        assert false;
      }
    }
  }

  /**
   * Keys inserted without repetition come out without repetition and all of them;
   * the array indices first, strictly ascending; then the other keys in insertion order.
   */
  lemma OwnKeysOrder(ks: seq<int>)
    requires NoDup(ks)
    ensures multiset(OwnKeys(ks)) == multiset(ks)
    ensures NoDup(OwnKeys(ks))
    ensures var n := |IndexKeys(ks)|;
      && n <= |OwnKeys(ks)|
      && StrictlyAscending(OwnKeys(ks)[..n])
      && (forall i :: 0 <= i < n ==> IsArrayIndex(OwnKeys(ks)[i]))
      && OwnKeys(ks)[n..] == OtherKeys(ks)
  {
    OwnKeysSameKeys(ks);
    var r := OwnKeys(ks);
    PermutationNoDup(r, ks);
    var sorted := Sort(IndexKeys(ks));
    assert r[..|sorted|] == sorted;
    forall i | 0 <= i < |sorted| ensures IsArrayIndex(sorted[i]) {
      assert sorted[i] in multiset(IndexKeys(ks));
    }
  }

  /** In own-key order, an array index is preceded only by smaller array indices. */
  lemma OwnKeysIndexFirst(ks: seq<int>)
    requires NoDup(ks)
    ensures var r := OwnKeys(ks);
      forall k, l :: 0 <= k < l < |r| && IsArrayIndex(r[l]) ==> IsArrayIndex(r[k]) && r[k] < r[l]
  {
    OwnKeysOrder(ks);
    var r := OwnKeys(ks);
    var n := |IndexKeys(ks)|;
    forall k, l | 0 <= k < l < |r| && IsArrayIndex(r[l]) ensures IsArrayIndex(r[k]) && r[k] < r[l] {
      assert r[..n][k] == r[k] && r[..n][l] == r[l];
    }
  }

  lemma {:induction false} NoOtherKeys(ks: seq<int>)
    requires forall i :: 0 <= i < |ks| ==> IsArrayIndex(ks[i])
    ensures OtherKeys(ks) == []
  {
    if ks != [] {
      NoOtherKeys(ks[1..]);
    }
  }

  /** When every key is an array index, the own-key order is strictly ascending. */
  lemma OwnKeysAscending(ks: seq<int>)
    requires NoDup(ks)
    requires forall i :: 0 <= i < |ks| ==> IsArrayIndex(ks[i])
    ensures StrictlyAscending(OwnKeys(ks))
  {
    OwnKeysOrder(ks);
    NoOtherKeys(ks);
    var r := OwnKeys(ks);
    assert r[..|IndexKeys(ks)|] == r;
  }
}
