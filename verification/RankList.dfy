/**
 Rank lists of src/gurt/misc.c: sorting and removing duplicates, filtering one
 list by another, and searching.  The in-place loops run on arrays and are proved
 against functions on sequences.
 */
module RankList {

  ghost predicate Sorted(s: seq<nat>) {
    forall i, j :: 0 <= i < j < |s| ==> s[i] <= s[j]
  }

  ghost predicate Distinct(s: seq<nat>) {
    forall i, j :: 0 <= i < j < |s| ==> s[i] != s[j]
  }

  ghost function Members(s: seq<nat>): set<nat> {
    set x | x in s
  }

  /** A list has as many different ranks as entries exactly when it is free of duplicates. */
  lemma {:induction false} MembersCount(s: seq<nat>)
    ensures |Members(s)| <= |s|
    ensures |Members(s)| == |s| <==> Distinct(s)
  {
    if s == [] {
      assert Members(s) == {};
    } else {
      var rest := s[..|s| - 1];
      var x := s[|s| - 1];
      MembersCount(rest);
      assert s == rest + [x];
      assert Members(s) == Members(rest) + {x};
      assert Distinct(s) <==> Distinct(rest) && x !in rest;
    }
  }

  lemma DistinctAppend(s: seq<nat>, x: nat)
    requires Distinct(s) && x !in s
    ensures Distinct(s + [x])
  {
  }

  lemma SortedCons(x: nat, s: seq<nat>)
    requires Sorted(s) && forall y :: y in s ==> x <= y
    ensures Sorted([x] + s)
  {
    var t := [x] + s;
    forall i, j | 0 <= i < j < |t|
      ensures t[i] <= t[j]
    {
      assert t[j] == s[j - 1] && s[j - 1] in s;
    }
  }

  /** How often x occurs. */
  function Count(s: seq<nat>, x: nat): (c: nat)
    ensures c > 0 <==> x in s
  {
    if s == [] then 0 else (if s[0] == x then 1 else 0) + Count(s[1..], x)
  }

  lemma CountCons(y: nat, s: seq<nat>, x: nat)
    ensures Count([y] + s, x) == (if y == x then 1 else 0) + Count(s, x)
  {
    assert ([y] + s)[1..] == s;
  }

  // ----- Sorting -----

  function Insert(x: nat, s: seq<nat>): (r: seq<nat>)
    requires Sorted(s)
    ensures Sorted(r) && |r| == |s| + 1
    ensures forall y :: y in r <==> y == x || y in s
  {
    if s == [] then [x]
    else if x <= s[0] then
      SortedCons(x, s);
      [x] + s
    else
      var rest := Insert(x, s[1..]);
      SortedCons(s[0], rest);
      [s[0]] + rest
  }

  /** What qsort with rank_compare leaves behind; ranks are plain numbers, so the result is unique. */
  function Sort(s: seq<nat>): (r: seq<nat>)
    ensures Sorted(r) && |r| == |s|
  {
    if s == [] then [] else Insert(s[0], Sort(s[1..]))
  }

  lemma {:induction false} InsertCount(x: nat, s: seq<nat>, y: nat)
    requires Sorted(s)
    ensures Count(Insert(x, s), y) == (if x == y then 1 else 0) + Count(s, y)
  {
    if s == [] || x <= s[0] {
      CountCons(x, s, y);
      assert s == [] ==> [x] + s == [x];
    } else {
      InsertCount(x, s[1..], y);
      CountCons(s[0], Insert(x, s[1..]), y);
    }
  }

  /** Sorting permutes: every rank keeps its number of occurrences. */
  lemma {:induction false} SortCount(s: seq<nat>, y: nat)
    ensures Count(Sort(s), y) == Count(s, y)
  {
    if s != [] {
      SortCount(s[1..], y);
      InsertCount(s[0], Sort(s[1..]), y);
    }
  }

  // ----- Removing duplicates -----

  /**
   The list the de-duplication loop leaves of a sorted list: after it drops one copy
   of a rank it moves on without comparing the next copy.
   */
  function Uniq(s: seq<nat>): seq<nat> {
    if |s| <= 1 then s
    else if s[0] == s[1] then [s[0]] + Uniq(s[2..])
    else [s[0]] + Uniq(s[1..])
  }

  /** Dropping position `at` of the first n entries leaves a stale copy of the last one behind. */
  ghost function Shifted(s: seq<nat>, at: nat, n: nat): (t: seq<nat>)
    requires at < n <= |s|
    ensures |t| == |s|
  {
    s[..at] + s[at + 1..n] + s[n - 1..]
  }

  /** The inner loop of both in-place removals. */
  method ShiftDown(ranks: array<nat>, at: nat, n: nat)
    requires at < n <= ranks.Length
    modifies ranks
    ensures ranks[..] == Shifted(old(ranks[..]), at, n)
  {
    for j := at to n - 1
      invariant forall k :: 0 <= k < at ==> ranks[k] == old(ranks[k])
      invariant forall k :: at <= k < j ==> ranks[k] == old(ranks[k + 1])
      invariant forall k :: j <= k < ranks.Length ==> ranks[k] == old(ranks[k])
    {
      ranks[j] := ranks[j + 1];
    }
  }

  /** The live part of the array loses exactly position `at`. */
  lemma ShiftedLive(s: seq<nat>, at: nat, n: nat, live: nat)
    requires at < live <= n <= |s|
    ensures Shifted(s, at, n)[..live - 1] == s[..live][..at] + s[..live][at + 1..]
  {
    var l, r := Shifted(s, at, n)[..live - 1], s[..live][..at] + s[..live][at + 1..];
    forall k | 0 <= k < live - 1
      ensures l[k] == r[k]
    {
      assert l[k] == if k < at then s[k] else s[k + 1];
    }
  }

  /** d_rank_list_dup_sort_uniq */
  method DupSortUniq(src: seq<nat>) returns (ranks: array<nat>, nr: nat)
    ensures fresh(ranks) && nr <= ranks.Length == |src|
    ensures ranks[..nr] == Uniq(Sort(src))
  {
    var sorted := Sort(src);
    ranks := new nat[|src|](i requires 0 <= i < |sorted| => sorted[i]);
    assert ranks[..] == sorted;
    nr := UniqInPlace(ranks);
  }

  method UniqInPlace(ranks: array<nat>) returns (nr: nat)
    modifies ranks
    ensures nr <= ranks.Length
    ensures ranks[..nr] == Uniq(old(ranks[..]))
  {
    var n := ranks.Length;
    nr := n;
    if n <= 1 {
      return;
    }
    hide Uniq, UniqFrom;
    ghost var result := Uniq(ranks[..]);
    assert ranks[..n] == ranks[..];
    UniqFromStart(ranks[..]);
    var identical := 0;
    var tmp := ranks[0];
    var i := 1;
    while i < n - identical
      invariant 1 <= i <= n - identical + 1 && i <= n && 0 <= identical < n
      invariant tmp == ranks[i - 1]
      invariant UniqFrom(ranks[..n - identical], i - 1) == result
    {
      var same := UniqRound(ranks, i, n - identical, tmp);
      if same {
        identical := identical + 1;
      }
      tmp := ranks[i];
      i := i + 1;
    }
    nr := n - identical;
    UniqFromDone(ranks[..nr], i - 1);
  }

  /** One round of the loop: position i is compared with the rank before it, which goes if they are the same. */
  method UniqRound(ranks: array<nat>, i: nat, live: nat, tmp: nat) returns (same: bool)
    requires 1 <= i < live <= ranks.Length && tmp == ranks[i - 1]
    modifies ranks
    ensures UniqFrom(ranks[..if same then live - 1 else live], i) == UniqFrom(old(ranks[..live]), i - 1)
  {
    hide Uniq, UniqFrom, Shifted;
    ghost var all := ranks[..];
    assert ranks[..live] == all[..live];
    same := tmp == ranks[i];
    if same {
      UniqDropsOne(all, i, ranks.Length, live);
      ShiftDown(ranks, i - 1, ranks.Length);
      assert ranks[..live - 1] == ranks[..][..live - 1];
    } else {
      UniqKeepsOne(all[..live], i);
    }
  }

  lemma UniqFromStart(live: seq<nat>)
    ensures UniqFrom(live, 0) == Uniq(live)
  {
    assert live[0..] == live;
  }

  lemma UniqFromDone(live: seq<nat>, k: nat)
    requires k <= |live| <= k + 1
    ensures UniqFrom(live, k) == live
  {
  }

  /** The list under construction: positions below k are settled. */
  ghost function UniqFrom(live: seq<nat>, k: nat): seq<nat>
    requires k <= |live|
  {
    live[..k] + Uniq(live[k..])
  }

  lemma UniqKeepsOne(live: seq<nat>, i: nat)
    requires 1 <= i < |live| && live[i - 1] != live[i]
    ensures UniqFrom(live, i - 1) == UniqFrom(live, i)
  {
    assert live[i - 1..][1..] == live[i..];
  }

  /** Two equal neighbours: one is dropped and the other settled. */
  lemma UniqDrop(before: seq<nat>, after: seq<nat>, i: nat)
    requires 1 <= i < |before| && before[i - 1] == before[i]
    requires after == before[..i - 1] + before[i..]
    ensures UniqFrom(after, i) == UniqFrom(before, i - 1)
  {
    var tail := before[i - 1..];
    assert tail[2..] == before[i + 1..] == after[i..];
    assert Uniq(tail) == [before[i]] + Uniq(after[i..]);
    assert after[..i] == before[..i - 1] + [before[i]];
  }

  /** One round of the loop that found ranks i-1 and i equal. */
  lemma UniqDropsOne(all: seq<nat>, i: nat, n: nat, live: nat)
    requires 1 <= i < live <= n <= |all| && all[i - 1] == all[i]
    ensures UniqFrom(Shifted(all, i - 1, n)[..live - 1], i) == UniqFrom(all[..live], i - 1)
  {
    hide Shifted, UniqFrom;
    ShiftedLive(all, i - 1, n, live);
    UniqDrop(all[..live], Shifted(all, i - 1, n)[..live - 1], i);
  }

  lemma {:induction false} UniqLength(s: seq<nat>)
    ensures |Uniq(s)| <= |s|
    decreases |s|
  {
    if |s| > 1 {
      UniqLength(s[if s[0] == s[1] then 2 else 1..]);
    }
  }

  /** Of k copies of a rank, (k + 1) / 2 survive. */
  lemma {:induction false} UniqCount(s: seq<nat>, x: nat)
    requires Sorted(s)
    ensures Count(Uniq(s), x) == (Count(s, x) + 1) / 2
    decreases |s|
  {
    if |s| > 1 {
      var k := if s[0] == s[1] then 2 else 1;
      UniqCount(s[k..], x);
      CountCons(s[0], Uniq(s[k..]), x);
      if k == 2 {
        assert s[1..][1..] == s[2..];
      } else {
        assert s[0] !in s[1..];
      }
    }
  }

  lemma {:induction false} UniqSorted(s: seq<nat>)
    requires Sorted(s)
    ensures Sorted(Uniq(s))
    ensures forall x :: x in Uniq(s) <==> x in s
    decreases |s|
  {
    if |s| > 1 {
      var k := if s[0] == s[1] then 2 else 1;
      UniqSorted(s[k..]);
      assert s == s[..k] + s[k..];
      assert forall x :: x in Uniq(s) <==> x == s[0] || x in s[k..];
      SortedCons(s[0], Uniq(s[k..]));
    }
  }

  /** No rank occurs more than k times. */
  ghost predicate AtMost(s: seq<nat>, k: nat) {
    forall x :: Count(s, x) <= k
  }

  lemma {:induction false} DistinctIffCounts(s: seq<nat>)
    ensures Distinct(s) <==> AtMost(s, 1)
  {
    if s != [] {
      DistinctIffCounts(s[1..]);
      assert Distinct(s) <==> s[0] !in s[1..] && Distinct(s[1..]);
      assert Count(s, s[0]) == 1 + Count(s[1..], s[0]);
      if AtMost(s, 1) {
        forall x: nat
          ensures Count(s[1..], x) <= 1
        {
          assert Count(s[1..], x) <= Count(s, x);
        }
      } else {
        var x: nat :| Count(s, x) > 1;
        assert x == s[0] || Count(s[1..], x) > 1;
      }
    }
  }

  /**
   d_rank_list_dup_sort_uniq returns the sorted ranks of its input, and returns each
   exactly once if and only if no rank was given more than twice.
   */
  lemma DupSortUniqIsSetIff(src: seq<nat>)
    ensures Sorted(Uniq(Sort(src)))
    ensures forall x :: x in Uniq(Sort(src)) <==> x in src
    ensures Distinct(Uniq(Sort(src))) <==> AtMost(src, 2)
  {
    var u := Uniq(Sort(src));
    UniqSorted(Sort(src));
    forall x: nat
      ensures Count(u, x) == (Count(src, x) + 1) / 2
      ensures x in Sort(src) <==> x in src
    {
      UniqCount(Sort(src), x);
      SortCount(src, x);
    }
    DistinctIffCounts(u);
    if AtMost(u, 1) {
      forall x: nat
        ensures Count(src, x) <= 2
      {
        assert Count(u, x) <= 1;
      }
    }
  }

  /** Three copies of a rank leave two. */
  lemma TripleKeepsTwo(r: nat)
    ensures Uniq(Sort([r, r, r])) == [r, r]
  {
    assert [r, r, r][1..] == [r, r] && [r, r][1..] == [r] && [r][1..] == [];
    assert Sort([r]) == [r] && Sort([r, r]) == [r, r] && Sort([r, r, r]) == [r, r, r];
    assert [r, r, r][2..] == [r];
  }

  // ----- Filtering -----

  /** The ranks of dst that are in src (`exclude` false) or are not in src (`exclude` true). */
  function Kept(src: seq<nat>, dst: seq<nat>, exclude: bool): seq<nat> {
    if dst == [] then []
    else if (dst[0] in src) != exclude then [dst[0]] + Kept(src, dst[1..], exclude)
    else Kept(src, dst[1..], exclude)
  }

  lemma {:induction false} KeptLength(src: seq<nat>, dst: seq<nat>, exclude: bool)
    ensures |Kept(src, dst, exclude)| <= |dst|
  {
    if dst != [] {
      KeptLength(src, dst[1..], exclude);
    }
  }

  /** Filtering selects by membership and keeps order and distinctness. */
  lemma {:induction false} KeptSelects(src: seq<nat>, dst: seq<nat>, exclude: bool)
    ensures forall x :: x in Kept(src, dst, exclude) <==> x in dst && (x in src) != exclude
    ensures Distinct(dst) ==> Distinct(Kept(src, dst, exclude))
    ensures Sorted(dst) ==> Sorted(Kept(src, dst, exclude))
  {
    if dst != [] {
      var rest := Kept(src, dst[1..], exclude);
      KeptSelects(src, dst[1..], exclude);
      if Sorted(dst) {
        SortedCons(dst[0], rest);
      }
    }
  }

  /** d_rank_list_filter, which returns without filtering when the source list holds no ranks */
  function Filtered(src: seq<nat>, dst: seq<nat>, exclude: bool): seq<nat> {
    if src == [] then dst else Kept(src, dst, exclude)
  }

  method Filter(src: seq<nat>, ranks: array<nat>, count: nat, exclude: bool) returns (nr: nat)
    requires count <= ranks.Length
    modifies ranks
    ensures nr <= count
    ensures ranks[..nr] == Filtered(src, old(ranks[..count]), exclude)
  {
    nr := count;
    if src == [] || count == 0 {
      return;
    }
    ghost var input := ranks[..count];
    ghost var all := ranks[..];
    var filtered := 0;
    var i := 0;
    while i < count - filtered
      invariant 0 <= i <= count - filtered && 0 <= filtered <= count
      invariant all == ranks[..]
      invariant KeptFrom(src, all[..count - filtered], i, exclude) == Kept(src, input, exclude)
      decreases count - filtered - i
    {
      var rank := ranks[i];
      var found := RankInList(src, rank);
      KeptFromStep(src, all[..count - filtered], i, exclude);
      if found != exclude {
        i := i + 1;
      } else {
        ShiftedLive(all, i, count, count - filtered);
        filtered := filtered + 1;
        ShiftDown(ranks, i, count);
        all := ranks[..];
      }
    }
    nr := count - filtered;
  }

  /** The list under construction: positions below k are settled. */
  ghost function KeptFrom(src: seq<nat>, live: seq<nat>, k: nat, exclude: bool): seq<nat>
    requires k <= |live|
  {
    live[..k] + Kept(src, live[k..], exclude)
  }

  lemma KeptFromStep(src: seq<nat>, live: seq<nat>, i: nat, exclude: bool)
    requires i < |live|
    ensures (live[i] in src) != exclude ==>
              KeptFrom(src, live, i, exclude) == KeptFrom(src, live, i + 1, exclude)
    ensures (live[i] in src) == exclude ==>
              KeptFrom(src, live, i, exclude) == KeptFrom(src, live[..i] + live[i + 1..], i, exclude)
  {
    assert live[i..][1..] == live[i + 1..];
    var rest := live[..i] + live[i + 1..];
    assert rest[..i] == live[..i] && rest[i..] == live[i + 1..];
  }

  // ----- Searching -----

  /** d_rank_in_rank_list */
  method RankInList(ranks: seq<nat>, rank: nat) returns (found: bool)
    ensures found == (rank in ranks)
  {
    for i := 0 to |ranks|
      invariant rank !in ranks[..i]
    {
      if ranks[i] == rank {
        return true;
      }
    }
    return false;
  }

  /** The first position of a rank that is present. */
  function IndexOf(ranks: seq<nat>, rank: nat): (i: nat)
    requires rank in ranks
    ensures i < |ranks| && ranks[i] == rank && rank !in ranks[..i]
  {
    if ranks[0] == rank then 0
    else
      assert ranks == [ranks[0]] + ranks[1..];
      var i := 1 + IndexOf(ranks[1..], rank);
      assert ranks[..i] == [ranks[0]] + ranks[1..][..i - 1];
      i
  }

  lemma FirstIndex(ranks: seq<nat>, rank: nat, i: nat)
    requires i < |ranks| && ranks[i] == rank && rank !in ranks[..i]
    ensures IndexOf(ranks, rank) == i
  {
  }

  /** d_idx_in_rank_list; -1 stands for -DER_NONEXIST */
  method IdxInList(ranks: seq<nat>, rank: nat) returns (idx: int)
    ensures idx == if rank in ranks then IndexOf(ranks, rank) else -1
  {
    for i := 0 to |ranks|
      invariant rank !in ranks[..i]
    {
      if ranks[i] == rank {
        FirstIndex(ranks, rank, i);
        return i;
      }
    }
    return -1;
  }
}
