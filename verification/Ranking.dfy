/** The stable sort by a real key that both the Holm step-down and the parallel shard
    planner start from, and the sizes of a few sets of ranks.  Items are named by
    their position in the input. */
module Ranking {

  /** Item `a` comes before item `b`: smaller key, or equal keys and earlier input. */
  ghost predicate Before(key: seq<real>, a: nat, b: nat) {
    a < |key| && b < |key| && (key[a] < key[b] || (key[a] == key[b] && a < b))
  }

  /** The first `n` positions, each once, in order. */
  ghost predicate RanksFirst(key: seq<real>, r: seq<nat>, n: nat) {
    && |r| == n <= |key|
    && (forall k | 0 <= k < n :: r[k] < n)
    && (forall j, k {:trigger Before(key, r[j], r[k])} | 0 <= j < k < n :: Before(key, r[j], r[k]))
  }

  /** How many items of the ranking `r` item `x` goes after. */
  function Slot(key: seq<real>, r: seq<nat>, x: nat): (k: nat)
    requires x < |key| && RanksFirst(key, r, x)
    ensures k <= |r|
    ensures k > 0 ==> key[r[k - 1]] <= key[x]
    ensures k < |r| ==> key[x] < key[r[k]]
  {
    SlotUpTo(key, r, x, |r|)
  }

  function SlotUpTo(key: seq<real>, r: seq<nat>, x: nat, n: nat): (k: nat)
    requires x < |key| && RanksFirst(key, r, x) && n <= |r|
    requires n < |r| ==> key[x] < key[r[n]]
    ensures k <= n
    ensures k > 0 ==> key[r[k - 1]] <= key[x]
    ensures k < |r| ==> key[x] < key[r[k]]
  {
    if n == 0 || key[r[n - 1]] <= key[x] then n else SlotUpTo(key, r, x, n - 1)
  }

  function Insert(key: seq<real>, r: seq<nat>, x: nat): (s: seq<nat>)
    requires x < |key| && RanksFirst(key, r, x)
    ensures RanksFirst(key, s, x + 1)
    ensures s == r[..Slot(key, r, x)] + [x] + r[Slot(key, r, x)..]
  {
    var slot := Slot(key, r, x);
    var s := r[..slot] + [x] + r[slot..];
    assert forall j, k {:trigger Before(key, s[j], s[k])} | 0 <= j < k <= x :: Before(key, s[j], s[k]) by {
      InsertSorted(key, r, x, slot, s);
    }
    s
  }

  lemma InsertSorted(key: seq<real>, r: seq<nat>, x: nat, slot: nat, s: seq<nat>)
    requires x < |key| && RanksFirst(key, r, x) && slot <= |r|
    requires slot > 0 ==> key[r[slot - 1]] <= key[x]
    requires slot < |r| ==> key[x] < key[r[slot]]
    requires s == r[..slot] + [x] + r[slot..]
    ensures forall j, k {:trigger Before(key, s[j], s[k])} | 0 <= j < k <= x :: Before(key, s[j], s[k])
  {
    forall j, k {:trigger Before(key, s[j], s[k])} | 0 <= j < k <= x ensures Before(key, s[j], s[k]) {
      var j', k' := if j < slot then j else j - 1, if k < slot then k else k - 1;
      if j == slot {
        assert slot < k' ==> Before(key, r[slot], r[k']);
      } else if k == slot {
        assert j < slot - 1 ==> Before(key, r[j], r[slot - 1]);
      } else {
        assert Before(key, r[j'], r[k']);
      }
    }
  }

  function RankPrefix(key: seq<real>, n: nat): (r: seq<nat>)
    requires n <= |key|
    ensures RanksFirst(key, r, n)
  {
    if n == 0 then [] else Insert(key, RankPrefix(key, n - 1), n - 1)
  }

  function Rank(key: seq<real>): (r: seq<nat>)
    ensures RanksFirst(key, r, |key|)
  {
    RankPrefix(key, |key|)
  }

  lemma {:induction false} RankIsPermutation(key: seq<real>, n: nat)
    requires n <= |key|
    ensures multiset(RankPrefix(key, n)) == multiset(Below(n))
  {
    if n > 0 {
      RankIsPermutation(key, n - 1);
      var r := RankPrefix(key, n - 1);
      var slot := Slot(key, r, n - 1);
      MultisetInsert(r, slot, n - 1);
    }
  }

  lemma MultisetInsert(r: seq<nat>, slot: nat, x: nat)
    requires slot <= |r|
    ensures multiset(r[..slot] + [x] + r[slot..]) == multiset(r) + multiset{x}
  {
    assert r == r[..slot] + r[slot..];
  }

  /** The positions below `n`, in input order. */
  function Below(n: nat): (s: seq<nat>)
    ensures |s| == n && forall k | 0 <= k < n :: s[k] == k
  {
    if n == 0 then [] else Below(n - 1) + [n - 1]
  }

  lemma RankIncreases(key: seq<real>, j: nat, k: nat)
    requires j < k < |key|
    ensures Before(key, Rank(key)[j], Rank(key)[k])
  {
  }

  /** The rank of item `i` among the first `n`. */
  ghost function PlaceIn(key: seq<real>, n: nat, i: nat): (k: nat)
    requires i < n <= |key|
    ensures k < n && RankPrefix(key, n)[k] == i
  {
    var r := RankPrefix(key, n - 1);
    var slot := Slot(key, r, n - 1);
    if i == n - 1 then slot
    else
      var k := PlaceIn(key, n - 1, i);
      InsertedAt(r, slot, n - 1, k);
      if k < slot then k else k + 1
  }

  lemma InsertedAt(r: seq<nat>, slot: nat, x: nat, k: nat)
    requires k < |r| && slot <= |r|
    ensures (r[..slot] + [x] + r[slot..])[if k < slot then k else k + 1] == r[k]
  {
  }

  ghost function Place(key: seq<real>, i: nat): (k: nat)
    requires i < |key|
    ensures k < |key| && Rank(key)[k] == i
  {
    PlaceIn(key, |key|, i)
  }

  lemma PlaceOfRank(key: seq<real>, k: nat)
    requires k < |key|
    ensures Place(key, Rank(key)[k]) == k
  {
    var l := Place(key, Rank(key)[k]);
    if l < k { RankIncreases(key, l, k); }
    if k < l { RankIncreases(key, k, l); }
  }

  lemma {:induction false} DistinctSetSize<T>(s: seq<T>)
    requires forall j, k | 0 <= j < k < |s| :: s[j] != s[k]
    ensures |set x | x in s| == |s|
  {
    if s != [] {
      var front, last := s[..|s| - 1], s[|s| - 1];
      DistinctSetSize(front);
      assert s == front + [last];
      assert forall k | 0 <= k < |front| :: front[k] == s[k];
      assert last !in front;
      assert (set x | x in s) == (set x | x in front) + {last};
    }
  }

  /** The elements at or after a position. */
  ghost function SuffixSet(s: seq<nat>, k: nat): set<nat>
    requires k <= |s|
  {
    set l | k <= l < |s| :: s[l]
  }

  lemma AddElement(a: set<nat>, x: nat)
    requires x !in a
    ensures |a + {x}| == |a| + 1
  {
  }

  lemma {:induction false} SuffixSetSize(s: seq<nat>, k: nat)
    requires forall i, j | 0 <= i < j < |s| :: s[i] != s[j]
    requires k <= |s|
    ensures |SuffixSet(s, k)| == |s| - k
    decreases |s| - k
  {
    if k == |s| {
      assert SuffixSet(s, k) == {};
    } else {
      SuffixSetSize(s, k + 1);
      assert s[k] !in SuffixSet(s, k + 1);
      assert SuffixSet(s, k) == SuffixSet(s, k + 1) + {s[k]};
      AddElement(SuffixSet(s, k + 1), s[k]);
    }
  }

  lemma SubsetSize<T>(a: set<T>, b: set<T>)
    requires a <= b
    ensures |a| <= |b|
  {
    assert b == a + (b - a);
  }
}
