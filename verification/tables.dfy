/** Queries over a table keyed by a SERIAL id, modelled as a `map<nat, T>`:
    the `ORDER BY id [DESC] LIMIT 1` lookups, ordered listings and
    `COUNT(*) ... WHERE` aggregates both stores are built from. Rows are
    filtered by a predicate standing for the query's WHERE clause. */
module Tables {
  import opened Common

  /** Every id of the table was handed out by a sequence that starts at 1 and
      whose next value is `next`. */
  ghost predicate IdsBelow<T>(m: map<nat, T>, next: nat) {
    forall id :: id in m ==> 1 <= id < next
  }

  /** Smallest id in [lo, hi) whose row satisfies `p`. */
  function FirstWhere<T>(m: map<nat, T>, lo: nat, hi: nat, p: T -> bool): (r: Option<nat>)
    ensures r.Some? ==> lo <= r.value < hi && r.value in m && p(m[r.value])
    ensures r.Some? ==> forall j :: lo <= j < r.value && j in m ==> !p(m[j])
    ensures r.None? ==> forall j :: lo <= j < hi && j in m ==> !p(m[j])
    decreases hi - lo
  {
    if hi <= lo then None
    else if lo in m && p(m[lo]) then Some(lo)
    else FirstWhere(m, lo + 1, hi, p)
  }

  /** Largest id below `hi` whose row satisfies `p`. */
  function LastWhere<T>(m: map<nat, T>, hi: nat, p: T -> bool): (r: Option<nat>)
    ensures r.Some? ==> r.value < hi && r.value in m && p(m[r.value])
    ensures r.Some? ==> forall j :: r.value < j < hi && j in m ==> !p(m[j])
    ensures r.None? ==> forall j :: j < hi && j in m ==> !p(m[j])
  {
    if hi == 0 then None
    else if hi - 1 in m && p(m[hi - 1]) then Some(hi - 1)
    else LastWhere(m, hi - 1, p)
  }

  /** Ids in [lo, hi) whose rows satisfy `p`, in ascending order. */
  function Ascending<T>(m: map<nat, T>, lo: nat, hi: nat, p: T -> bool): (r: seq<nat>)
    ensures forall i, j :: 0 <= i < j < |r| ==> r[i] < r[j]
    ensures forall i :: 0 <= i < |r| ==> lo <= r[i] < hi && r[i] in m && p(m[r[i]])
    ensures forall j :: lo <= j < hi && j in m && p(m[j]) ==> j in r
  {
    if hi <= lo then []
    else Ascending(m, lo, hi - 1, p) + (if hi - 1 in m && p(m[hi - 1]) then [hi - 1] else [])
  }

  /** Ids in [lo, hi) whose rows satisfy `p`, in descending order. */
  function Descending<T>(m: map<nat, T>, lo: nat, hi: nat, p: T -> bool): (r: seq<nat>)
    ensures forall i, j :: 0 <= i < j < |r| ==> r[i] > r[j]
    ensures forall i :: 0 <= i < |r| ==> lo <= r[i] < hi && r[i] in m && p(m[r[i]])
    ensures forall j :: lo <= j < hi && j in m && p(m[j]) ==> j in r
  {
    if hi <= lo then []
    else (if hi - 1 in m && p(m[hi - 1]) then [hi - 1] else []) + Descending(m, lo, hi - 1, p)
  }

  /** The ids in [lo, hi) whose rows satisfy `p`. */
  ghost function IdsInRange<T>(m: map<nat, T>, lo: nat, hi: nat, p: T -> bool): set<nat> {
    set j | lo <= j < hi && j in m && p(m[j])
  }

  /** `SELECT COUNT(*) ... WHERE p`. */
  function CountWhere<T>(m: map<nat, T>, p: T -> bool): nat {
    |set id | id in m && p(m[id])|
  }

  /** `CountWhere` is the size of any set holding exactly the matching ids. */
  lemma CountWhereIs<T>(m: map<nat, T>, p: T -> bool, ids: set<nat>)
    requires forall id :: id in ids <==> id in m && p(m[id])
    ensures CountWhere(m, p) == |ids|
  {
    assert (set id | id in m && p(m[id])) == ids;
  }

  /** The SQL `LIMIT n`. */
  function Take<X>(s: seq<X>, n: nat): (r: seq<X>)
    ensures |r| == if n < |s| then n else |s|
    ensures r <= s
  {
    if n < |s| then s[..n] else s
  }

  lemma {:induction false} IdsInRangeStep<T>(m: map<nat, T>, lo: nat, hi: nat, p: T -> bool)
    requires lo < hi
    ensures IdsInRange(m, lo, hi, p)
         == IdsInRange(m, lo, hi - 1, p) + (if hi - 1 in m && p(m[hi - 1]) then {hi - 1} else {})
    ensures |IdsInRange(m, lo, hi, p)|
         == |IdsInRange(m, lo, hi - 1, p)| + (if hi - 1 in m && p(m[hi - 1]) then 1 else 0)
  {
    assert hi - 1 !in IdsInRange(m, lo, hi - 1, p);
  }

  /** An ascending listing has exactly one entry per matching row. */
  lemma {:induction false} AscendingCount<T>(m: map<nat, T>, lo: nat, hi: nat, p: T -> bool)
    ensures |Ascending(m, lo, hi, p)| == |IdsInRange(m, lo, hi, p)|
  {
    if hi <= lo {
      assert IdsInRange(m, lo, hi, p) == {};
    } else {
      AscendingCount(m, lo, hi - 1, p);
      IdsInRangeStep(m, lo, hi, p);
    }
  }

  /** A descending listing has exactly one entry per matching row. */
  lemma {:induction false} DescendingCount<T>(m: map<nat, T>, lo: nat, hi: nat, p: T -> bool)
    ensures |Descending(m, lo, hi, p)| == |IdsInRange(m, lo, hi, p)|
  {
    if hi <= lo {
      assert IdsInRange(m, lo, hi, p) == {};
    } else {
      DescendingCount(m, lo, hi - 1, p);
      IdsInRangeStep(m, lo, hi, p);
    }
  }

  /** Over the whole id range of a table, the range-restricted ids are all
      matching ids, so a full listing has `CountWhere` entries. */
  lemma FullRangeCount<T>(m: map<nat, T>, next: nat, p: T -> bool)
    requires IdsBelow(m, next)
    ensures |Ascending(m, 0, next, p)| == CountWhere(m, p)
    ensures |Descending(m, 0, next, p)| == CountWhere(m, p)
  {
    assert IdsInRange(m, 0, next, p) == set id | id in m && p(m[id]);
    AscendingCount(m, 0, next, p);
    DescendingCount(m, 0, next, p);
  }

  /** A filter and its negation partition the table. */
  lemma CountComplement<T>(m: map<nat, T>, p: T -> bool, q: T -> bool)
    requires forall id :: id in m ==> (q(m[id]) <==> !p(m[id]))
    ensures CountWhere(m, p) + CountWhere(m, q) == |m|
  {
    var yes := set id | id in m && p(m[id]);
    var no := set id | id in m && q(m[id]);
    assert yes + no == m.Keys;
    assert yes !! no;
  }

  /** A filter that admits at least the rows of another counts at least as many. */
  lemma CountMonotonic<T>(m: map<nat, T>, p: T -> bool, q: T -> bool)
    requires forall id :: id in m && p(m[id]) ==> q(m[id])
    ensures CountWhere(m, p) <= CountWhere(m, q)
  {
    var a := set id | id in m && p(m[id]);
    var b := set id | id in m && q(m[id]);
    assert a <= b;
    SubsetCard(a, b);
  }

  lemma {:induction false} SubsetCard<X>(a: set<X>, b: set<X>)
    requires a <= b
    ensures |a| <= |b|
  {
    if a != {} {
      var x :| x in a;
      SubsetCard(a - {x}, b - {x});
    }
  }

  /** Counting a table where every row satisfies `p` counts the table. */
  lemma CountAll<T>(m: map<nat, T>, p: T -> bool)
    requires forall id :: id in m ==> p(m[id])
    ensures CountWhere(m, p) == |m|
  {
    assert (set id | id in m && p(m[id])) == m.Keys;
  }

  /** Counting a table where no row satisfies `p` gives zero. */
  lemma CountNone<T>(m: map<nat, T>, p: T -> bool)
    requires forall id :: id in m ==> !p(m[id])
    ensures CountWhere(m, p) == 0
  {
    assert (set id | id in m && p(m[id])) == {};
  }
}
