/** The order-preserving splitter for exclusive tests, proved to use as few groups as
    any split can. */
module ExclusiveGroups {

  datatype Limits<!T(!new)> = Limits(count: nat, target: real, estimate: T -> real) {
    /** What the splitter checks of its arguments, and what timing history promises. */
    ghost predicate Valid() {
      count > 0 && target > 0.0 && forall t :: estimate(t) >= 0.0
    }

    function Seconds(files: seq<T>): real {
      if files == [] then 0.0 else Seconds(files[..|files| - 1]) + estimate(files[|files| - 1])
    }

    /** A group the runner may execute as one shard. */
    predicate Fits(group: seq<T>) {
      && 0 < |group| <= count
      && (|group| == 1 || Seconds(group) <= target)
    }

    /** `groups` cuts `files` in order into groups that fit. */
    ghost predicate Splits(groups: seq<seq<T>>, files: seq<T>) {
      && Concat(groups) == files
      && forall k | 0 <= k < |groups| :: Fits(groups[k])
    }

    /** ... and no such cut has fewer groups. */
    ghost predicate SplitsBest(groups: seq<seq<T>>, files: seq<T>) {
      && Splits(groups, files)
      && forall other :: Splits(other, files) ==> |groups| <= |other|
    }
  }

  function Concat<T>(groups: seq<seq<T>>): seq<T> {
    if groups == [] then [] else groups[0] + Concat(groups[1..])
  }

  lemma {:induction false} ConcatSnoc<T>(groups: seq<seq<T>>, last: seq<T>)
    ensures Concat(groups + [last]) == Concat(groups) + last
  {
    if groups == [] {
      assert groups + [last] == [last];
    } else {
      assert (groups + [last])[1..] == groups[1..] + [last];
      ConcatSnoc(groups[1..], last);
    }
  }

  /** The length of the longest prefix of `files` that fits. */
  ghost function Longest<T(!new)>(lim: Limits<T>, files: seq<T>): (n: nat)
    requires files != []
    ensures 0 < n <= |files|
  {
    LongestFrom(lim, files, 1)
  }

  ghost function LongestFrom<T(!new)>(lim: Limits<T>, files: seq<T>, k: nat): (n: nat)
    requires 0 < k <= |files|
    ensures k <= n <= |files|
    decreases |files| - k
  {
    if k < |files| && lim.Fits(files[..k + 1]) then LongestFrom(lim, files, k + 1) else k
  }

  lemma {:induction false} LongestFromExact<T(!new)>(lim: Limits<T>, files: seq<T>, k: nat)
    requires 0 < k <= |files| && lim.Fits(files[..k])
    ensures var n := LongestFrom(lim, files, k);
            lim.Fits(files[..n]) && (n < |files| ==> !lim.Fits(files[..n + 1]))
    decreases |files| - k
  {
    if k < |files| && lim.Fits(files[..k + 1]) { LongestFromExact(lim, files, k + 1); }
  }

  lemma LongestExact<T(!new)>(lim: Limits<T>, files: seq<T>)
    requires lim.Valid() && files != []
    ensures var n := Longest(lim, files);
            lim.Fits(files[..n]) && (n < |files| ==> !lim.Fits(files[..n + 1]))
  {
    LongestFromExact(lim, files, 1);
  }

  /** The number of groups when every group is the longest that fits. */
  ghost function Fewest<T(!new)>(lim: Limits<T>, files: seq<T>): nat
    requires lim.Valid()
  {
    if files == [] then 0 else
      var n := Longest(lim, files);
      assert |files[n..]| < |files|;
      1 + Fewest(lim, files[n..])
  }

  lemma {:induction false} SecondsPrefix<T(!new)>(lim: Limits<T>, files: seq<T>, n: nat)
    requires lim.Valid() && n <= |files|
    ensures lim.Seconds(files[..n]) <= lim.Seconds(files)
  {
    if n < |files| {
      assert files[..|files| - 1][..n] == files[..n];
      SecondsPrefix(lim, files[..|files| - 1], n);
    } else {
      assert files[..n] == files;
    }
  }

  lemma {:induction false} SecondsTail<T(!new)>(lim: Limits<T>, files: seq<T>)
    requires lim.Valid() && files != []
    ensures lim.Seconds(files[1..]) <= lim.Seconds(files)
  {
    if |files| > 1 {
      assert files[1..][..|files| - 2] == files[..|files| - 1][1..];
      SecondsTail(lim, files[..|files| - 1]);
    }
  }

  /** Shorter prefixes of a group that fits also fit. */
  lemma FitsPrefix<T(!new)>(lim: Limits<T>, group: seq<T>, n: nat)
    requires lim.Valid() && lim.Fits(group) && 0 < n <= |group|
    ensures lim.Fits(group[..n])
  {
    SecondsPrefix(lim, group, n);
  }

  /** Dropping the first file of a group that fits leaves one that fits. */
  lemma FitsTail<T(!new)>(lim: Limits<T>, group: seq<T>)
    requires lim.Valid() && lim.Fits(group) && |group| > 1
    ensures lim.Fits(group[1..])
  {
    SecondsTail(lim, group);
  }

  lemma LongestIsMaximal<T(!new)>(lim: Limits<T>, files: seq<T>, n: nat)
    requires lim.Valid() && 0 < n <= |files| && lim.Fits(files[..n])
    ensures n <= Longest(lim, files)
  {
    LongestExact(lim, files);
    var m := Longest(lim, files);
    if m < n {
      assert files[..n][..m + 1] == files[..m + 1];
      FitsPrefix(lim, files[..n], m + 1);
    }
  }

  lemma {:induction false} FitsDrop<T(!new)>(lim: Limits<T>, group: seq<T>, k: nat)
    requires lim.Valid() && lim.Fits(group) && k < |group|
    ensures lim.Fits(group[k..])
  {
    if k == 0 {
      assert group[k..] == group;
    } else {
      FitsTail(lim, group);
      assert group[1..][k - 1..] == group[k..];
      FitsDrop(lim, group[1..], k - 1);
    }
  }

  lemma DropDrop<T>(files: seq<T>, a: nat, b: nat)
    requires a + b <= |files|
    ensures files[a..][b..] == files[a + b..]
  {
  }

  /** What is left of the longest group still fits. */
  lemma LongestOfSuffix<T(!new)>(lim: Limits<T>, files: seq<T>, k: nat)
    requires lim.Valid() && files != [] && k < Longest(lim, files)
    ensures Longest(lim, files) - k <= Longest(lim, files[k..])
  {
    var n := Longest(lim, files);
    LongestExact(lim, files);
    FitsDrop(lim, files[..n], k);
    assert files[k..][..n - k] == files[..n][k..];
    LongestIsMaximal(lim, files[k..], n - k);
  }

  /** When the front ends inside the first group, what is left is one group and then a
      suffix of the rest. */
  lemma SuffixInGroup<T(!new)>(lim: Limits<T>, files: seq<T>, k: nat) returns (m: nat)
    requires lim.Valid() && 0 < k < |files| && k < Longest(lim, files)
    ensures var n := Longest(lim, files);
            && n <= k + m <= |files|
            && Fewest(lim, files[k..]) == 1 + Fewest(lim, files[n..][k + m - n..])
  {
    var n := Longest(lim, files);
    LongestOfSuffix(lim, files, k);
    m := Longest(lim, files[k..]);
    DropDrop(files, k, m);
    DropDrop(files, n, k + m - n);
  }

  /** Dropping files from the front never needs more groups. */
  lemma {:induction false} FewestOfSuffix<T(!new)>(lim: Limits<T>, files: seq<T>, k: nat)
    requires lim.Valid() && k <= |files|
    ensures Fewest(lim, files[k..]) <= Fewest(lim, files)
    decreases |files|
  {
    if k == 0 {
      assert files[k..] == files;
    } else {
      var n := Longest(lim, files);
      if k >= n {
        DropDrop(files, n, k - n);
        FewestOfSuffix(lim, files[n..], k - n);
      } else {
        var m := SuffixInGroup(lim, files, k);
        FewestOfSuffix(lim, files[n..], k + m - n);
      }
    }
  }

  /** Closing a group early never helps. */
  lemma FewestAfterPrefix<T(!new)>(lim: Limits<T>, files: seq<T>, k: nat)
    requires lim.Valid() && 0 < k <= |files| && lim.Fits(files[..k])
    ensures Fewest(lim, files) <= 1 + Fewest(lim, files[k..])
  {
    LongestIsMaximal(lim, files, k);
    var n := Longest(lim, files);
    DropDrop(files, k, n - k);
    FewestOfSuffix(lim, files[k..], n - k);
  }

  lemma FirstGroup<T(!new)>(lim: Limits<T>, groups: seq<seq<T>>, files: seq<T>)
    requires lim.Splits(groups, files) && groups != []
    ensures 0 < |groups[0]| <= |files| && files[..|groups[0]|] == groups[0] && lim.Fits(groups[0])
    ensures lim.Splits(groups[1..], files[|groups[0]|..])
  {
    assert files == groups[0] + Concat(groups[1..]);
  }

  /** No order-preserving split within the limits beats the longest-prefix one. */
  lemma {:induction false} NoSplitIsSmaller<T(!new)>(lim: Limits<T>, groups: seq<seq<T>>, files: seq<T>)
    requires lim.Valid() && lim.Splits(groups, files)
    ensures Fewest(lim, files) <= |groups|
  {
    if groups != [] {
      FirstGroup(lim, groups, files);
      NoSplitIsSmaller(lim, groups[1..], files[|groups[0]|..]);
      FewestAfterPrefix(lim, files, |groups[0]|);
    }
  }

  /** One step of the loop as a fact about `Fewest`: while the file still fits, the
      current group grows; when it does not, the group is closed for good. */
  lemma GroupCloses<T(!new)>(lim: Limits<T>, current: seq<T>, rest: seq<T>)
    requires lim.Valid() && rest != [] && lim.Fits(current) && !lim.Fits(current + [rest[0]])
    ensures Fewest(lim, current + rest) == 1 + Fewest(lim, rest)
  {
    var files := current + rest;
    assert files[..|current|] == current;
    LongestIsMaximal(lim, files, |current|);
    var n := Longest(lim, files);
    LongestExact(lim, files);
    if n > |current| {
      assert files[..n][..|current| + 1] == current + [rest[0]];
      FitsPrefix(lim, files[..n], |current| + 1);
    }
    assert files[n..] == rest;
  }

  lemma LastGroup<T(!new)>(lim: Limits<T>, current: seq<T>)
    requires lim.Valid() && lim.Fits(current)
    ensures Fewest(lim, current) == 1
  {
    assert current[..|current|] == current;
    LongestIsMaximal(lim, current, |current|);
    assert current[Longest(lim, current)..] == [];
  }

  /** What the loop keeps: the closed groups and the current one cover the files
      read so far, and closing them has cost no group too many. */
  ghost predicate Cut<T(!new)>(lim: Limits<T>, files: seq<T>, i: nat, groups: seq<seq<T>>, current: seq<T>)
    requires lim.Valid()
  {
    && i <= |files|
    && Concat(groups) + current == files[..i]
    && (forall k | 0 <= k < |groups| :: lim.Fits(groups[k]))
    && (current != [] ==> lim.Fits(current))
    && Fewest(lim, files) == |groups| + Fewest(lim, current + files[i..])
  }

  lemma CloseGroup<T(!new)>(lim: Limits<T>, files: seq<T>, i: nat, groups: seq<seq<T>>, current: seq<T>)
    requires lim.Valid() && Cut(lim, files, i, groups, current)
    requires i < |files| && current != [] && !lim.Fits(current + [files[i]])
    ensures Cut(lim, files, i, groups + [current], [])
  {
    ConcatSnoc(groups, current);
    GroupCloses(lim, current, files[i..]);
    assert [] + files[i..] == files[i..];
  }

  lemma ExtendGroup<T(!new)>(lim: Limits<T>, files: seq<T>, i: nat, groups: seq<seq<T>>, current: seq<T>)
    requires lim.Valid() && Cut(lim, files, i, groups, current)
    requires i < |files| && lim.Fits(current + [files[i]])
    ensures Cut(lim, files, i + 1, groups, current + [files[i]])
  {
    assert current + files[i..] == (current + [files[i]]) + files[i + 1..];
    assert files[..i + 1] == files[..i] + [files[i]];
  }

  lemma FitsNext<T(!new)>(lim: Limits<T>, current: seq<T>, next: T)
    ensures lim.Seconds(current + [next]) == lim.Seconds(current) + lim.estimate(next)
    ensures lim.Fits(current + [next]) <==>
            |current| < lim.count && (current == [] || lim.Seconds(current) + lim.estimate(next) <= lim.target)
  {
    assert (current + [next])[..|current|] == current;
  }

  /** One iteration: the next file joins the current group or starts a new one. */
  lemma CutStep<T(!new)>(lim: Limits<T>, files: seq<T>, i: nat, groups: seq<seq<T>>, current: seq<T>)
    requires lim.Valid() && i < |files| && Cut(lim, files, i, groups, current)
    ensures lim.Fits(current + [files[i]]) ==> Cut(lim, files, i + 1, groups, current + [files[i]])
    ensures current != [] && !lim.Fits(current + [files[i]]) ==>
              Cut(lim, files, i + 1, groups + [current], [] + [files[i]])
    ensures lim.Seconds([] + [files[i]]) == lim.estimate(files[i])
  {
    FitsNext(lim, [], files[i]);
    if lim.Fits(current + [files[i]]) {
      ExtendGroup(lim, files, i, groups, current);
    } else if current != [] {
      CloseGroup(lim, files, i, groups, current);
      ExtendGroup(lim, files, i, groups + [current], []);
    }
  }

  lemma CutStart<T(!new)>(lim: Limits<T>, files: seq<T>)
    requires lim.Valid()
    ensures Cut(lim, files, 0, [], [])
  {
    assert [] + files[0..] == files;
  }

  lemma CutEnd<T(!new)>(lim: Limits<T>, files: seq<T>, groups: seq<seq<T>>, current: seq<T>)
    requires lim.Valid() && Cut(lim, files, |files|, groups, current)
    ensures current == [] ==> lim.SplitsBest(groups, files)
    ensures current != [] ==> lim.SplitsBest(groups + [current], files)
  {
    assert current + files[|files|..] == current && files[..|files|] == files;
    if current == [] {
      BestByFewest(lim, files, groups);
    } else {
      LastGroup(lim, current);
      ConcatSnoc(groups, current);
      BestByFewest(lim, files, groups + [current]);
    }
  }

  lemma BestByFewest<T(!new)>(lim: Limits<T>, files: seq<T>, groups: seq<seq<T>>)
    requires lim.Valid() && lim.Splits(groups, files) && |groups| == Fewest(lim, files)
    ensures lim.SplitsBest(groups, files)
  {
    forall other | lim.Splits(other, files) ensures Fewest(lim, files) <= |other| {
      NoSplitIsSmaller(lim, other, files);
    }
  }

  /** The splitter: the groups it returns are a split within the limits, and no
      other split within the limits has fewer groups. */
  method BoundedExclusiveGroups<T(!new)>(files: seq<T>, lim: Limits<T>) returns (groups: seq<seq<T>>)
    requires lim.Valid()
    ensures lim.SplitsBest(groups, files)
  {
    groups := [];
    var current: seq<T> := [];
    var seconds := 0.0;
    CutStart(lim, files);
    for i := 0 to |files|
      invariant Cut(lim, files, i, groups, current)
      invariant current == [] ==> i == 0
      invariant seconds == lim.Seconds(current)
    {
      var estimate := lim.estimate(files[i]);
      FitsNext(lim, current, files[i]);
      CutStep(lim, files, i, groups, current);
      if (current != [] && seconds + estimate > lim.target) || |current| >= lim.count {
        groups := groups + [current];
        current := [];
        seconds := 0.0;
      }
      current := current + [files[i]];
      seconds := seconds + estimate;
    }
    CutEnd(lim, files, groups, current);
    if current != [] {
      groups := groups + [current];
    }
  }

  /** The estimates of a group, added up from the front. */
  function Total<T(!new)>(files: seq<T>, estimate: T -> real): real {
    if files == [] then 0.0 else estimate(files[0]) + Total(files[1..], estimate)
  }

  lemma {:induction false} TotalSnoc<T(!new)>(files: seq<T>, x: T, estimate: T -> real)
    ensures Total(files + [x], estimate) == Total(files, estimate) + estimate(x)
  {
    if files == [] {
      assert files + [x] == [x];
    } else {
      TotalSnoc(files[1..], x, estimate);
      assert (files + [x])[1..] == files[1..] + [x];
    }
  }

  lemma {:induction false} SecondsAreTotal<T(!new)>(lim: Limits<T>, files: seq<T>)
    ensures lim.Seconds(files) == Total(files, lim.estimate)
  {
    if files != [] {
      SecondsAreTotal(lim, files[..|files| - 1]);
      TotalSnoc(files[..|files| - 1], files[|files| - 1], lim.estimate);
      assert files == files[..|files| - 1] + [files[|files| - 1]];
    }
  }

  /** A group fits with at most `count` files that take `target` seconds together at most,
      unless it is one file. */
  lemma FitsExactly<T(!new)>(lim: Limits<T>, group: seq<T>)
    ensures lim.Fits(group) <==>
            |group| == 1 <= lim.count || (1 < |group| <= lim.count && Total(group, lim.estimate) <= lim.target)
  {
    SecondsAreTotal(lim, group);
  }
}
