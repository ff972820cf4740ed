/**
 * The parts of SQL the content model relies on, stated over in-memory tables:
 * `WHERE` (Filter), `ORDER BY ... ASC` (SortByKey) and `MAX(...)` (MaxOf).
 */
module Query {
  import opened Wrappers

  /** The rows of `s` that satisfy `p`, in table order. */
  function Filter<T>(s: seq<T>, p: T -> bool): (r: seq<T>)
    ensures |r| <= |s|
    ensures forall i :: 0 <= i < |r| ==> r[i] in s && p(r[i])
    ensures forall i :: 0 <= i < |s| && p(s[i]) ==> s[i] in r
  {
    if s == [] then []
    else (if p(s[0]) then [s[0]] else []) + Filter(s[1..], p)
  }

  lemma {:induction false} FilterAppend<T>(a: seq<T>, b: seq<T>, p: T -> bool)
    ensures Filter(a + b, p) == Filter(a, p) + Filter(b, p)
  {
    if a == [] {
      assert a + b == b;
    } else {
      assert (a + b)[1..] == a[1..] + b;
      FilterAppend(a[1..], b, p);
    }
  }

  /** The positions in `s` of the rows that satisfy `p`, in table order. */
  function FilterIndices<T>(s: seq<T>, p: T -> bool): (f: seq<int>)
    ensures |f| == |Filter(s, p)|
  {
    if s == [] then []
    else
      var shifted := ShiftUp(FilterIndices(s[1..], p));
      if p(s[0]) then [0] + shifted else shifted
  }

  /** Every position moved up by one. */
  function ShiftUp(f: seq<int>): (g: seq<int>)
    ensures |g| == |f| && forall k :: 0 <= k < |f| ==> g[k] == f[k] + 1
  {
    seq(|f|, k requires 0 <= k < |f| => f[k] + 1)
  }

  /**
   * `r` is the subsequence of `s` picked out by `p` at positions `f`: the
   * positions are strictly increasing, `r` holds the rows at them, and every
   * row satisfying `p` has its position among them.
   */
  ghost predicate Positions<T>(s: seq<T>, p: T -> bool, f: seq<int>, r: seq<T>) {
    && |f| == |r|
    && (forall k :: 0 <= k < |f| ==> 0 <= f[k] < |s| && r[k] == s[f[k]])
    && (forall k, j :: 0 <= k < j < |f| ==> f[k] < f[j])
    && (forall i :: 0 <= i < |s| && p(s[i]) ==> exists k :: 0 <= k < |f| && f[k] == i)
  }

  /** The filter is the order-preserving subsequence of the rows satisfying `p`. */
  lemma {:induction false} FilterIsSubsequence<T>(s: seq<T>, p: T -> bool)
    ensures Positions(s, p, FilterIndices(s, p), Filter(s, p))
  {
    if s != [] {
      var rest, tail := FilterIndices(s[1..], p), Filter(s[1..], p);
      FilterIsSubsequence(s[1..], p);
      FilterStep(s, p);
      if p(s[0]) {
        KeptHead(s, p, rest, tail);
      } else {
        DroppedHead(s, p, rest, tail);
      }
    }
  }

  /** One step of both recursions: the head's contribution, then the tail's. */
  lemma FilterStep<T>(s: seq<T>, p: T -> bool)
    requires s != []
    ensures p(s[0]) ==> FilterIndices(s, p) == [0] + ShiftUp(FilterIndices(s[1..], p))
                        && Filter(s, p) == [s[0]] + Filter(s[1..], p)
    ensures !p(s[0]) ==> FilterIndices(s, p) == ShiftUp(FilterIndices(s[1..], p))
                         && Filter(s, p) == Filter(s[1..], p)
  {
    assert [] + Filter(s[1..], p) == Filter(s[1..], p);
  }

  /** The inductive step when the head row passes: it leads, and the tail's positions follow, moved up by one. */
  lemma KeptHead<T>(s: seq<T>, p: T -> bool, rest: seq<int>, tail: seq<T>)
    requires s != [] && p(s[0]) && Positions(s[1..], p, rest, tail)
    ensures Positions(s, p, [0] + ShiftUp(rest), [s[0]] + tail)
  {
    ConsShifted(s[0], rest, tail);
    ShiftedPositions(s, p, rest, tail, 1, [0] + ShiftUp(rest), [s[0]] + tail);
  }

  /** The inductive step when the head row fails: the tail's positions, moved up by one. */
  lemma DroppedHead<T>(s: seq<T>, p: T -> bool, rest: seq<int>, tail: seq<T>)
    requires s != [] && !p(s[0]) && Positions(s[1..], p, rest, tail)
    ensures Positions(s, p, ShiftUp(rest), tail)
  {
    ShiftedPositions(s, p, rest, tail, 0, ShiftUp(rest), tail);
  }

  lemma ConsShifted<T>(x: T, rest: seq<int>, tail: seq<T>)
    requires |rest| == |tail|
    ensures var f, r := [0] + ShiftUp(rest), [x] + tail;
            && |f| == |r| == |rest| + 1 && f[0] == 0 && r[0] == x
            && forall k :: 1 <= k < |f| ==> f[k] == rest[k - 1] + 1 && r[k] == tail[k - 1]
  {
  }

  lemma ShiftedPositions<T>(s: seq<T>, p: T -> bool, rest: seq<int>, tail: seq<T>, d: nat, f: seq<int>, r: seq<T>)
    requires s != [] && Positions(s[1..], p, rest, tail) && d == (if p(s[0]) then 1 else 0)
    requires |f| == |r| == |rest| + d
    requires forall k :: d <= k < |f| ==> f[k] == rest[k - d] + 1 && r[k] == tail[k - d]
    requires d == 1 ==> f[0] == 0 && r[0] == s[0]
    ensures Positions(s, p, f, r)
  {
    ShiftedRows(s, p, rest, tail, d, f, r);
    ShiftedCoverage(s, p, rest, d, f);
  }

  lemma ShiftedRows<T>(s: seq<T>, p: T -> bool, rest: seq<int>, tail: seq<T>, d: nat, f: seq<int>, r: seq<T>)
    requires s != [] && Positions(s[1..], p, rest, tail)
    requires |f| == |r| == |rest| + d && d <= 1
    requires forall k :: d <= k < |f| ==> f[k] == rest[k - d] + 1 && r[k] == tail[k - d]
    requires d == 1 ==> f[0] == 0 && r[0] == s[0]
    ensures forall k :: 0 <= k < |f| ==> 0 <= f[k] < |s| && r[k] == s[f[k]]
    ensures forall k, j :: 0 <= k < j < |f| ==> f[k] < f[j]
  {
    forall k | 0 <= k < |f| ensures 0 <= f[k] < |s| && r[k] == s[f[k]] {
      if k >= d {
        assert s[1..][rest[k - d]] == s[rest[k - d] + 1];
      }
    }
  }

  lemma ShiftedCoverage<T>(s: seq<T>, p: T -> bool, rest: seq<int>, d: nat, f: seq<int>)
    requires s != [] && d == (if p(s[0]) then 1 else 0)
    requires forall i :: 0 <= i < |s[1..]| && p(s[1..][i]) ==> exists k :: 0 <= k < |rest| && rest[k] == i
    requires |f| == |rest| + d
    requires forall k :: d <= k < |f| ==> f[k] == rest[k - d] + 1
    requires d == 1 ==> f[0] == 0
    ensures forall i :: 0 <= i < |s| && p(s[i]) ==> exists k :: 0 <= k < |f| && f[k] == i
  {
    forall i | 0 <= i < |s| && p(s[i]) ensures exists k :: 0 <= k < |f| && f[k] == i {
      if i >= 1 {
        assert s[1..][i - 1] == s[i];
        var k :| 0 <= k < |rest| && rest[k] == i - 1;
        assert f[k + d] == i;
      }
    }
  }

  /** A filter that every row passes returns the table unchanged. */
  lemma {:induction false} FilterAll<T>(s: seq<T>, p: T -> bool)
    requires forall i :: 0 <= i < |s| ==> p(s[i])
    ensures Filter(s, p) == s
  {
    if s != [] {
      FilterAll(s[1..], p);
      assert [s[0]] + s[1..] == s;
    }
  }

  /** No row occurs twice. */
  ghost predicate NoDup<T>(s: seq<T>) {
    forall i, j :: 0 <= i < j < |s| ==> s[i] != s[j]
  }

  lemma {:induction false} FilterNoDup<T>(s: seq<T>, p: T -> bool)
    requires NoDup(s)
    ensures NoDup(Filter(s, p))
  {
    if s != [] {
      assert NoDup(s[1..]);
      FilterNoDup(s[1..], p);
      assert s[0] !in s[1..];
    }
  }

  /** The column `key` of every row, in row order. */
  function Column<T>(s: seq<T>, key: T -> int): (r: seq<int>)
    ensures |r| == |s|
    ensures forall i :: 0 <= i < |s| ==> r[i] == key(s[i])
  {
    seq(|s|, i requires 0 <= i < |s| => key(s[i]))
  }

  /** `SELECT MAX(x)`: NULL on an empty set, otherwise the largest value. */
  function MaxOf(xs: seq<int>): (r: Option<int>)
    ensures r.None? <==> xs == []
    ensures r.Some? ==> r.value in xs
    ensures r.Some? ==> forall i :: 0 <= i < |xs| ==> xs[i] <= r.value
  {
    if xs == [] then None
    else
      match MaxOf(xs[1..])
      case None => Some(xs[0])
      case Some(m) => if xs[0] >= m then Some(xs[0]) else Some(m)
  }

  ghost predicate SortedBy<T>(s: seq<T>, key: T -> int) {
    forall i, j :: 0 <= i < j < |s| ==> key(s[i]) <= key(s[j])
  }

  ghost predicate StrictlyAscending<T>(s: seq<T>, key: T -> int) {
    forall i, j :: 0 <= i < j < |s| ==> key(s[i]) < key(s[j])
  }

  /** Distinct rows of `s` never share a key. */
  ghost predicate KeysDistinct<T>(s: seq<T>, key: T -> int) {
    forall i, j :: 0 <= i < |s| && 0 <= j < |s| && s[i] != s[j] ==> key(s[i]) != key(s[j])
  }

  /** No two rows share an id. */
  ghost predicate UniqueBy<T>(s: seq<T>, id: T -> int) {
    forall i, j :: 0 <= i < |s| && 0 <= j < |s| && i != j ==> id(s[i]) != id(s[j])
  }

  /** Within each group (rows with equal `group`), no two rows share a key. */
  ghost predicate DistinctWithinGroups<T>(s: seq<T>, group: T -> int, key: T -> int) {
    forall i, j :: 0 <= i < |s| && 0 <= j < |s| && i != j && group(s[i]) == group(s[j])
      ==> key(s[i]) != key(s[j])
  }

  lemma UniqueNoDup<T>(s: seq<T>, id: T -> int)
    requires UniqueBy(s, id)
    ensures NoDup(s)
  {
  }

  /** Deleting rows keeps ids unique and keys distinct within groups. */
  lemma FilterKeepsTableInvariants<T>(s: seq<T>, p: T -> bool, id: T -> int, group: T -> int, key: T -> int)
    requires UniqueBy(s, id)
    ensures UniqueBy(Filter(s, p), id) && NoDup(Filter(s, p))
    ensures DistinctWithinGroups(s, group, key) ==> DistinctWithinGroups(Filter(s, p), group, key)
  {
    var r := Filter(s, p);
    UniqueNoDup(s, id);
    FilterNoDup(s, p);
    forall i, j | 0 <= i < |r| && 0 <= j < |r| && i != j
      ensures r[i] != r[j]
      ensures id(r[i]) != id(r[j])
      ensures DistinctWithinGroups(s, group, key) && group(r[i]) == group(r[j]) ==> key(r[i]) != key(r[j])
    {
      if i < j { assert r[i] != r[j]; } else { assert r[j] != r[i]; }
      var a :| 0 <= a < |s| && s[a] == r[i];
      var b :| 0 <= b < |s| && s[b] == r[j];
    }
  }

  /** Rows drawn from one group of a table whose keys are distinct within groups have distinct keys. */
  lemma GroupKeysDistinct<T>(s: seq<T>, t: seq<T>, id: T -> int, group: T -> int, key: T -> int, g: int)
    requires UniqueBy(s, id) && DistinctWithinGroups(s, group, key)
    requires forall i :: 0 <= i < |t| ==> t[i] in s && group(t[i]) == g
    ensures KeysDistinct(t, key)
  {
    forall i, j | 0 <= i < |t| && 0 <= j < |t| && t[i] != t[j]
      ensures key(t[i]) != key(t[j])
    {
      var a :| 0 <= a < |s| && s[a] == t[i];
      var b :| 0 <= b < |s| && s[b] == t[j];
    }
  }

  function InsertByKey<T>(x: T, s: seq<T>, key: T -> int): (r: seq<T>)
    requires SortedBy(s, key)
    ensures multiset(r) == multiset(s) + multiset{x}
    ensures SortedBy(r, key)
  {
    if s == [] then [x]
    else if key(x) <= key(s[0]) then [x] + s
    else
      var t := InsertByKey(x, s[1..], key);
      InsertedTailAbove(x, s, t, key);
      assert s == [s[0]] + s[1..];
      [s[0]] + t
  }

  lemma InsertedTailAbove<T>(x: T, s: seq<T>, t: seq<T>, key: T -> int)
    requires s != [] && SortedBy(s, key) && key(s[0]) < key(x)
    requires multiset(t) == multiset(s[1..]) + multiset{x}
    requires SortedBy(t, key)
    ensures SortedBy([s[0]] + t, key)
  {
    forall k | 0 <= k < |t|
      ensures key(s[0]) <= key(t[k])
    {
      assert t[k] in multiset(t);
      if t[k] != x {
        assert t[k] in multiset(s[1..]);
        var j :| 0 <= j < |s[1..]| && s[1..][j] == t[k];
        assert s[j + 1] == t[k];
      }
    }
  }

  /** `ORDER BY key ASC`: the same rows, arranged by ascending key. */
  function SortByKey<T>(s: seq<T>, key: T -> int): (r: seq<T>)
    ensures multiset(r) == multiset(s)
    ensures SortedBy(r, key)
  {
    if s == [] then []
    else
      assert s == [s[0]] + s[1..];
      InsertByKey(s[0], SortByKey(s[1..], key), key)
  }

  lemma SortByKeyMembers<T>(s: seq<T>, key: T -> int, x: T)
    ensures x in SortByKey(s, key) <==> x in s
  {
    var r := SortByKey(s, key);
    assert x in r <==> x in multiset(r);
    assert x in s <==> x in multiset(s);
  }

  lemma SortByKeyElement<T>(s: seq<T>, key: T -> int, i: int)
    requires 0 <= i < |SortByKey(s, key)|
    ensures SortByKey(s, key)[i] in s
  {
    SortByKeyMembers(s, key, SortByKey(s, key)[i]);
  }

  lemma {:induction false} InsertNoDup<T>(x: T, s: seq<T>, key: T -> int)
    requires SortedBy(s, key) && NoDup(s) && x !in s
    ensures NoDup(InsertByKey(x, s, key))
  {
    if s != [] && key(s[0]) < key(x) {
      var t := InsertByKey(x, s[1..], key);
      assert NoDup(s[1..]);
      InsertNoDup(x, s[1..], key);
      assert s[0] !in s[1..];
      assert s[0] != x;
      assert s[0] !in multiset(s[1..]);
      assert s[0] !in multiset(t);
    }
  }

  lemma {:induction false} SortNoDup<T>(s: seq<T>, key: T -> int)
    requires NoDup(s)
    ensures NoDup(SortByKey(s, key))
  {
    if s != [] {
      assert NoDup(s[1..]);
      SortNoDup(s[1..], key);
      SortByKeyMembers(s[1..], key, s[0]);
      assert s[0] !in s[1..];
      InsertNoDup(s[0], SortByKey(s[1..], key), key);
    }
  }

  /** Sorting rows with no duplicates and pairwise distinct keys gives strictly ascending keys. */
  lemma SortStrictlyAscending<T>(s: seq<T>, key: T -> int)
    requires NoDup(s) && KeysDistinct(s, key)
    ensures StrictlyAscending(SortByKey(s, key), key)
  {
    var r := SortByKey(s, key);
    SortNoDup(s, key);
    forall i, j | 0 <= i < j < |r|
      ensures key(r[i]) < key(r[j])
    {
      SortByKeyMembers(s, key, r[i]);
      SortByKeyMembers(s, key, r[j]);
      var a :| 0 <= a < |s| && s[a] == r[i];
      var b :| 0 <= b < |s| && s[b] == r[j];
    }
  }
}
