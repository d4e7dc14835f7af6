/**
 * Specification of the SRV candidate ordering in src/srv.rs: the record and
 * its two comparisons (the hand-written priority-only equality and `Ord`, and
 * the derived field-by-field `PartialOrd` that sorting uses), the weighted
 * pick within one priority group (RFC 2782, the Weight field's selection
 * rule), the split into maximal equal-priority runs, and the facts about them
 * that the classes in module Srv rely on.
 */
module SrvSpec {
  import opened Ints

  /** One SRV answer. */
  datatype SrvRecord = SrvRecord(priority: u16, weight: u16, port: u16, target: string)

  datatype Ordering = Less | Equal | Greater

  /** `Ordering::reverse`: the comparison seen from the other side. */
  function Reverse(o: Ordering): Ordering
  {
    match o
    case Less => Greater
    case Equal => Equal
    case Greater => Less
  }

  /** `PartialEq for SrvRecord`: records with the same priority are equal, whatever their target. */
  predicate Eq(a: SrvRecord, b: SrvRecord): (r: bool)
    ensures r <==> a.(weight := b.weight, port := b.port, target := b.target) == b
  {
    a.priority == b.priority
  }

  /**
   * `Ord for SrvRecord`: the order of the priorities, and nothing else. No
   * operation of the resolver calls it: sorting compares with `lt`, which
   * comes from the derived `PartialOrd` below.
   */
  function Cmp(a: SrvRecord, b: SrvRecord): (o: Ordering)
    ensures o == Less <==> a.priority < b.priority
    ensures o == Equal <==> Eq(a, b)
    ensures o == Greater <==> b.priority < a.priority
  {
    if a.priority < b.priority then Less
    else if a.priority == b.priority then Equal
    else Greater
  }

  /**
   * The order of `String`: bytewise, which on UTF-8 is the order of the
   * characters; the first character that differs decides, and a proper
   * prefix comes first.
   */
  function CmpStr(a: string, b: string): (o: Ordering)
    ensures o == Equal <==> a == b
  {
    if a == [] then (if b == [] then Equal else Less)
    else if b == [] then Greater
    else if a[0] < b[0] then Less
    else if b[0] < a[0] then Greater
    else
      assert a == [a[0]] + a[1..] && b == [b[0]] + b[1..];
      CmpStr(a[1..], b[1..])
  }

  lemma {:induction false} CmpStrReverse(a: string, b: string)
    ensures CmpStr(b, a) == Reverse(CmpStr(a, b))
    decreases |a|
  {
    if a != [] && b != [] {
      CmpStrReverse(a[1..], b[1..]);
    }
  }

  lemma {:induction false} CmpStrTransitive(a: string, b: string, c: string)
    ensures CmpStr(a, b) == Less && CmpStr(b, c) == Less ==> CmpStr(a, c) == Less
    decreases |a|
  {
    if a != [] && b != [] && c != [] {
      CmpStrTransitive(a[1..], b[1..], c[1..]);
    }
  }

  /**
   * `partial_cmp` of `#[derive(PartialOrd)]`: the fields in declaration
   * order, priority, weight, port, target, the first that differs deciding.
   * Every field is totally ordered, so the derived result is always `Some`;
   * the `Option` is left out.
   */
  function PartialCmp(a: SrvRecord, b: SrvRecord): (o: Ordering)
    ensures o == Equal <==> a == b
    ensures a.priority != b.priority ==> (o == Less <==> a.priority < b.priority)
    ensures a.priority == b.priority && a.weight != b.weight ==> (o == Less <==> a.weight < b.weight)
  {
    if a.priority != b.priority then (if a.priority < b.priority then Less else Greater)
    else if a.weight != b.weight then (if a.weight < b.weight then Less else Greater)
    else if a.port != b.port then (if a.port < b.port then Less else Greater)
    else CmpStr(a.target, b.target)
  }

  /** The derived `PartialOrd::lt`: the only comparison `sort_unstable` makes. */
  predicate Lt(a: SrvRecord, b: SrvRecord): (r: bool)
    ensures r ==> a != b && a.priority <= b.priority
    ensures a.priority < b.priority ==> r
    ensures a.priority == b.priority ==> (a.weight < b.weight ==> r) && (r ==> a.weight <= b.weight)
  {
    PartialCmp(a, b) == Less
  }

  /** Swapping the operands reverses the derived comparison. */
  lemma PartialCmpReverse(a: SrvRecord, b: SrvRecord)
    ensures PartialCmp(b, a) == Reverse(PartialCmp(a, b))
  {
    CmpStrReverse(a.target, b.target);
  }

  /** `lt` is transitive. */
  lemma LtTransitive(a: SrvRecord, b: SrvRecord, c: SrvRecord)
    ensures Lt(a, b) && Lt(b, c) ==> Lt(a, c)
  {
    CmpStrTransitive(a.target, b.target, c.target);
  }

  /** "Not after" (`!lt` with the operands swapped) is transitive: `lt` is a strict total order. */
  lemma NotLtTransitive(a: SrvRecord, b: SrvRecord, c: SrvRecord)
    requires !Lt(b, a) && !Lt(c, b)
    ensures !Lt(c, a)
  {
    PartialCmpReverse(a, b);
    LtTransitive(c, a, b);
  }

  /** What `sort_unstable` leaves: no record is `lt` a record before it. */
  ghost predicate Ordered(s: seq<SrvRecord>)
  {
    forall i, j :: 0 <= i < j < |s| ==> !Lt(s[j], s[i])
  }

  /** The first record of an ordered sequence is not after any record in it. */
  lemma OrderedHeadFirst(s: seq<SrvRecord>, x: SrvRecord)
    requires Ordered(s) && x in multiset(s)
    ensures !Lt(x, s[0])
  {
    var i :| 0 <= i < |s| && s[i] == x;
  }

  /** Dropping the first record keeps a sequence ordered. */
  lemma OrderedTail(s: seq<SrvRecord>)
    requires Ordered(s) && s != []
    ensures Ordered(s[1..])
  {
    forall i, j | 0 <= i < j < |s| - 1 ensures !Lt(s[1..][j], s[1..][i]) {
      assert s[1..][j] == s[j + 1] && s[1..][i] == s[i + 1];
    }
  }

  /** Two rearrangements of each other that start alike continue as rearrangements of each other. */
  lemma MultisetTail(s: seq<SrvRecord>, t: seq<SrvRecord>)
    requires s != [] && t != [] && s[0] == t[0] && multiset(s) == multiset(t)
    ensures multiset(s[1..]) == multiset(t[1..])
  {
    assert s == [s[0]] + s[1..] && t == [t[0]] + t[1..];
    assert multiset([s[0]]) == multiset{s[0]};
    calc {
      multiset(s[1..]) + multiset{s[0]};
      multiset([s[0]] + s[1..]);
      multiset(t);
      multiset([t[0]] + t[1..]);
      multiset(t[1..]) + multiset{s[0]};
    }
    MultisetCancel(multiset(s[1..]), multiset(t[1..]), s[0]);
  }

  /**
   * The ordered rearrangement of a collection of records is unique, so every
   * algorithm `sort_unstable` may use gives the same sequence, including
   * among records with equal priority.
   */
  lemma {:induction false} OrderedUnique(s: seq<SrvRecord>, t: seq<SrvRecord>)
    requires Ordered(s) && Ordered(t) && multiset(s) == multiset(t)
    ensures s == t
    decreases |s|
  {
    assert |s| == |multiset(s)| == |multiset(t)| == |t|;
    if s != [] {
      OrderedHeadFirst(s, t[0]);
      OrderedHeadFirst(t, s[0]);
      PartialCmpReverse(s[0], t[0]);
      MultisetTail(s, t);
      OrderedTail(s);
      OrderedTail(t);
      OrderedUnique(s[1..], t[1..]);
      assert s == [s[0]] + s[1..] && t == [t[0]] + t[1..];
    }
  }

  /** An ordered sequence has ascending priorities. */
  lemma OrderedByPriority(s: seq<SrvRecord>)
    requires Ordered(s)
    ensures PrioritySorted(s)
  {
    forall i, j | 0 <= i < j < |s| ensures s[i].priority <= s[j].priority {
      assert !Lt(s[j], s[i]);
    }
  }

  /**
   * Within one priority an ordered sequence has ascending weights, so the
   * zero-weight records of a group come before all others, as RFC 2782 asks.
   */
  lemma OrderedWeightsAscend(s: seq<SrvRecord>, i: nat, j: nat)
    requires Ordered(s) && i < j < |s| && s[i].priority == s[j].priority
    ensures s[i].weight <= s[j].weight
    ensures s[j].weight == 0 ==> s[i].weight == 0
  {
    assert !Lt(s[j], s[i]);
  }

  /** Priorities never decrease along `s`. */
  ghost predicate PrioritySorted(s: seq<SrvRecord>)
  {
    forall i, j :: 0 <= i < j < |s| ==> s[i].priority <= s[j].priority
  }

  /** All records of `s` share the priority of the first one. */
  ghost predicate Uniform(s: seq<SrvRecord>)
  {
    forall i :: 0 <= i < |s| ==> s[i].priority == s[0].priority
  }

  /** The sum of the weights of `s` (unbounded; the `u16` accumulator is checked where it is used). */
  function SumWeights(s: seq<SrvRecord>): nat
  {
    if s == [] then 0 else SumWeights(s[..|s| - 1]) + s[|s| - 1].weight
  }

  /** The sum of the weights of the records of `s` whose priority is `p`. */
  function PriorityWeight(s: seq<SrvRecord>, p: int): nat
  {
    if s == [] then 0
    else PriorityWeight(s[..|s| - 1], p) + (if s[|s| - 1].priority == p then s[|s| - 1].weight else 0)
  }

  /** Every priority has, in `s`, a weight sum that a `u16` can hold. */
  ghost predicate GroupWeightsFit(s: seq<SrvRecord>)
  {
    forall p :: PriorityWeight(s, p) <= U16_MAX
  }

  /** `Vec::remove(k)`: drop the element at `k`, shifting the later ones down. */
  function RemoveAt(s: seq<SrvRecord>, k: nat): (r: seq<SrvRecord>)
    requires k < |s|
    ensures |r| == |s| - 1
    ensures forall i :: 0 <= i < k ==> r[i] == s[i]
    ensures forall i :: k <= i < |r| ==> r[i] == s[i + 1]
    ensures multiset(r) + multiset{s[k]} == multiset(s)
  {
    assert s == s[..k] + [s[k]] + s[k + 1..];
    s[..k] + s[k + 1..]
  }

  /**
   * The record the weighted scan of `WeightedSrvMap::next` stops at for the
   * draw `v`: the first index whose running weight sum reaches `v`.
   */
  function FirstReaching(s: seq<SrvRecord>, v: nat): (k: nat)
    requires s != [] && v <= SumWeights(s)
    ensures k < |s| && v <= WeightThrough(s, k)
    ensures forall j :: 0 <= j < k ==> WeightThrough(s, j) < v
  {
    ScanFrom(s, v, 0)
  }

  /** The running weight sum of `s` up to and including index `j`. */
  function WeightThrough(s: seq<SrvRecord>, j: nat): nat
    requires j < |s|
  {
    SumWeights(s[..j + 1])
  }

  function ScanFrom(s: seq<SrvRecord>, v: nat, i: nat): (k: nat)
    requires i < |s| && v <= SumWeights(s)
    requires forall j :: 0 <= j < i ==> WeightThrough(s, j) < v
    ensures i <= k < |s| && v <= WeightThrough(s, k)
    ensures forall j :: 0 <= j < k ==> WeightThrough(s, j) < v
    decreases |s| - i
  {
    if v <= WeightThrough(s, i) then i
    else
      assert s[..|s|] == s;
      ScanFrom(s, v, i + 1)
  }

  /** The number of leading records of `s` whose priority is `p`: the maximal such prefix. */
  function RunLength(s: seq<SrvRecord>, p: int): (n: nat)
    ensures n <= |s|
    ensures forall i :: 0 <= i < n ==> s[i].priority == p
    ensures n < |s| ==> s[n].priority != p
  {
    if s == [] || s[0].priority != p then 0 else 1 + RunLength(s[1..], p)
  }

  /** The split of `s` into maximal runs of equal priority, in order. */
  function Groups(s: seq<SrvRecord>): seq<seq<SrvRecord>>
    decreases |s|
  {
    if s == [] then []
    else
      var n := 1 + RunLength(s[1..], s[0].priority);
      [s[..n]] + Groups(s[n..])
  }

  function Flatten(gs: seq<seq<SrvRecord>>): seq<SrvRecord>
  {
    if gs == [] then [] else gs[0] + Flatten(gs[1..])
  }

  // ---------------------------------------------------------------------------
  // Weight sums

  lemma {:induction false} SumWeightsAppend(a: seq<SrvRecord>, b: seq<SrvRecord>)
    ensures SumWeights(a + b) == SumWeights(a) + SumWeights(b)
    decreases |b|
  {
    if b != [] {
      assert (a + b)[..|a + b| - 1] == a + b[..|b| - 1];
      SumWeightsAppend(a, b[..|b| - 1]);
    } else {
      assert a + b == a;
    }
  }

  /** Running weight sums never decrease as the prefix grows. */
  lemma {:induction false} PrefixWeightMonotone(s: seq<SrvRecord>, i: nat, j: nat)
    requires i <= j <= |s|
    ensures SumWeights(s[..i]) <= SumWeights(s[..j])
  {
    assert s[..j] == s[..i] + s[i..j];
    SumWeightsAppend(s[..i], s[i..j]);
  }

  /** Removing one record removes exactly its weight from the total. */
  lemma {:induction false} SumWeightsRemoveAt(s: seq<SrvRecord>, k: nat)
    requires k < |s|
    ensures SumWeights(RemoveAt(s, k)) + s[k].weight == SumWeights(s)
  {
    assert s == s[..k] + ([s[k]] + s[k + 1..]);
    SumWeightsAppend(s[..k], [s[k]] + s[k + 1..]);
    SumWeightsAppend([s[k]], s[k + 1..]);
    SumWeightsAppend(s[..k], s[k + 1..]);
    assert SumWeights([s[k]]) == s[k].weight by {
      assert [s[k]][..0] == [];
    }
  }

  lemma {:induction false} PriorityWeightAppend(a: seq<SrvRecord>, b: seq<SrvRecord>, p: int)
    ensures PriorityWeight(a + b, p) == PriorityWeight(a, p) + PriorityWeight(b, p)
    decreases |b|
  {
    if b != [] {
      assert (a + b)[..|a + b| - 1] == a + b[..|b| - 1];
      PriorityWeightAppend(a, b[..|b| - 1], p);
    } else {
      assert a + b == a;
    }
  }

  lemma {:induction false} PriorityWeightRemoveAt(s: seq<SrvRecord>, k: nat, p: int)
    requires k < |s|
    ensures PriorityWeight(s, p) == PriorityWeight(RemoveAt(s, k), p) + (if s[k].priority == p then s[k].weight else 0)
  {
    assert s == s[..k] + ([s[k]] + s[k + 1..]);
    PriorityWeightAppend(s[..k], [s[k]] + s[k + 1..], p);
    PriorityWeightAppend([s[k]], s[k + 1..], p);
    PriorityWeightAppend(s[..k], s[k + 1..], p);
    assert [s[k]][..0] == [];
  }

  lemma MultisetCancel(m: multiset<SrvRecord>, n: multiset<SrvRecord>, x: SrvRecord)
    requires m + multiset{x} == n + multiset{x}
    ensures m == n
  {
    assert forall y :: m[y] == (m + multiset{x})[y] - multiset{x}[y];
    assert forall y :: n[y] == (n + multiset{x})[y] - multiset{x}[y];
  }

  /** The weight sum of one priority depends only on which records there are, not on their order. */
  lemma {:induction false} PriorityWeightPermutation(a: seq<SrvRecord>, b: seq<SrvRecord>, p: int)
    requires multiset(a) == multiset(b)
    ensures PriorityWeight(a, p) == PriorityWeight(b, p)
    decreases |a|
  {
    if a == [] {
      assert |b| == |multiset(b)| == 0;
    } else {
      var x := a[|a| - 1];
      var a' := a[..|a| - 1];
      assert a == a' + [x];
      assert multiset(a) == multiset(a') + multiset{x};
      assert x in b by {
        assert x in multiset(b);
      }
      var k :| 0 <= k < |b| && b[k] == x;
      var b' := RemoveAt(b, k);
      MultisetCancel(multiset(a'), multiset(b'), x);
      PriorityWeightPermutation(a', b', p);
      PriorityWeightRemoveAt(b, k, p);
    }
  }

  /**
   * The number of times `x` occurs in `s`: `multiset(s)[x]` (see `CountMultiplicity`),
   * written as a recursion so that stating it for every `x` stays cheap to carry.
   */
  function Count(s: seq<SrvRecord>, x: SrvRecord): nat
  {
    if s == [] then 0 else Count(s[..|s| - 1], x) + (if s[|s| - 1] == x then 1 else 0)
  }

  lemma {:induction false} CountAppend(a: seq<SrvRecord>, b: seq<SrvRecord>, x: SrvRecord)
    ensures Count(a + b, x) == Count(a, x) + Count(b, x)
    decreases |b|
  {
    if b != [] {
      assert (a + b)[..|a + b| - 1] == a + b[..|b| - 1];
      CountAppend(a, b[..|b| - 1], x);
    } else {
      assert a + b == a;
    }
  }

  lemma {:induction false} CountMultiplicity(s: seq<SrvRecord>, x: SrvRecord)
    ensures Count(s, x) == multiset(s)[x]
    decreases |s|
  {
    if s != [] {
      assert s == s[..|s| - 1] + [s[|s| - 1]];
      assert multiset(s) == multiset(s[..|s| - 1]) + multiset{s[|s| - 1]};
      CountMultiplicity(s[..|s| - 1], x);
    }
  }

  /** Removing the element at `k` takes one occurrence of it away and leaves the others. */
  lemma CountRemoveAt(s: seq<SrvRecord>, k: nat, x: SrvRecord)
    requires k < |s|
    ensures Count(RemoveAt(s, k), x) + (if s[k] == x then 1 else 0) == Count(s, x)
  {
    assert s == s[..k] + ([s[k]] + s[k + 1..]);
    CountAppend(s[..k], [s[k]] + s[k + 1..], x);
    CountAppend([s[k]], s[k + 1..], x);
    CountAppend(s[..k], s[k + 1..], x);
    assert [s[k]][..0] == [];
  }

  /** For a run of one priority `p`, the per-priority sum is the plain weight sum. */
  lemma {:induction false} UniformPriorityWeight(s: seq<SrvRecord>, p: int)
    requires forall i :: 0 <= i < |s| ==> s[i].priority == p
    ensures PriorityWeight(s, p) == SumWeights(s)
    decreases |s|
  {
    if s != [] {
      UniformPriorityWeight(s[..|s| - 1], p);
    }
  }

  /**
   * Splitting a sorted-then-grouped stream keeps every weight sum in range:
   * the first group of `s` fits a `u16`, and so does every priority of what follows it.
   */
  lemma FirstGroupFits(g: seq<SrvRecord>, rest: seq<SrvRecord>)
    requires GroupWeightsFit(g + rest) && g != [] && Uniform(g)
    ensures SumWeights(g) <= U16_MAX
    ensures GroupWeightsFit(rest)
  {
    forall p ensures PriorityWeight(rest, p) <= U16_MAX {
      PriorityWeightAppend(g, rest, p);
    }
    UniformPriorityWeight(g, g[0].priority);
    PriorityWeightAppend(g, rest, g[0].priority);
  }

  // ---------------------------------------------------------------------------
  // The weighted pick

  /** How the running sum grows: by each record's weight, ending at the total. */
  lemma {:induction false} WeightThroughStep(s: seq<SrvRecord>, k: nat)
    requires k < |s|
    ensures WeightThrough(s, k) == (if k == 0 then 0 else WeightThrough(s, k - 1)) + s[k].weight
    ensures k == |s| - 1 ==> WeightThrough(s, k) == SumWeights(s)
  {
    assert s[..k + 1][..k] == s[..k];
    assert SumWeights(s[..k + 1]) == SumWeights(s[..k]) + s[k].weight;
    if k == 0 {
      assert s[..k] == [];
    } else {
      assert WeightThrough(s, k - 1) == SumWeights(s[..k]);
    }
    assert s[..|s|] == s;
  }

  /** The running sum before index `i`, seen from the scan loop's side. */
  lemma {:induction false} WeightBeforeStep(s: seq<SrvRecord>, i: nat)
    requires i < |s|
    ensures SumWeights(s[..i + 1]) == SumWeights(s[..i]) + s[i].weight
    ensures SumWeights(s[..i + 1]) == WeightThrough(s, i) <= SumWeights(s)
  {
    assert s[..i + 1][..i] == s[..i];
    PrefixWeightMonotone(s, i + 1, |s|);
    assert s[..|s|] == s;
  }

  lemma {:induction false} WeightThroughMonotone(s: seq<SrvRecord>, i: nat, j: nat)
    requires i <= j < |s|
    ensures WeightThrough(s, i) <= WeightThrough(s, j) <= SumWeights(s)
  {
    PrefixWeightMonotone(s, i + 1, j + 1);
    PrefixWeightMonotone(s, j + 1, |s|);
    assert s[..|s|] == s;
  }

  /**
   * The draw `v` selects record `k` exactly when `v` lies in `k`'s slice of
   * the running sum: above the weight of everything before `k` (the first
   * record also takes `v == 0`) and at most that plus `k`'s own weight.
   */
  lemma {:induction false} PickInterval(s: seq<SrvRecord>, v: nat, k: nat)
    requires s != [] && v <= SumWeights(s) && k < |s|
    ensures FirstReaching(s, v) == k <==> (k == 0 || WeightThrough(s, k - 1) < v) && v <= WeightThrough(s, k)
  {
    var f := FirstReaching(s, v);
    if f != k && (k == 0 || WeightThrough(s, k - 1) < v) && v <= WeightThrough(s, k) {
      if f < k {
        WeightThroughMonotone(s, f, k - 1);
      }
      assert false;
    }
  }

  /** The integers `v` with `lo < v <= hi`. */
  function Interval(lo: int, hi: int): set<int>
    decreases hi - lo
  {
    if hi <= lo then {} else Interval(lo, hi - 1) + {hi}
  }

  lemma {:induction false} IntervalFacts(lo: int, hi: int)
    requires lo <= hi
    ensures |Interval(lo, hi)| == hi - lo
    ensures forall v :: v in Interval(lo, hi) <==> lo < v <= hi
    decreases hi - lo
  {
    if lo < hi {
      IntervalFacts(lo, hi - 1);
    }
  }

  /** The draws in `[0, total]` that make the scan stop at record `k`. */
  ghost function Picks(s: seq<SrvRecord>, k: nat): set<int>
    requires s != []
  {
    set v: nat | v <= SumWeights(s) && FirstReaching(s, v) == k
  }

  /**
   * Weighted selection, counted: of the `SumWeights(s) + 1` equally likely
   * draws in `[0, total]`, exactly `s[k].weight` of them pick record `k`
   * (the first record also gets the draw 0). So a zero-weight record other
   * than the first is picked by no draw, and every record after the first is
   * picked in proportion to its weight; the first takes one draw more.
   */
  lemma {:induction false} PickShare(s: seq<SrvRecord>, k: nat)
    requires s != [] && k < |s|
    ensures |Picks(s, k)| == s[k].weight + (if k == 0 then 1 else 0)
  {
    var lo := if k == 0 then -1 else WeightThrough(s, k - 1);
    var hi := WeightThrough(s, k);
    WeightThroughStep(s, k);
    WeightThroughMonotone(s, k, |s| - 1);
    IntervalFacts(lo, hi);
    forall v: int ensures v in Picks(s, k) <==> v in Interval(lo, hi) {
      if 0 <= v <= SumWeights(s) {
        PickInterval(s, v, k);
      }
    }
    assert Picks(s, k) == Interval(lo, hi);
  }

  /**
   * The one extra draw skews small groups: of `b` (weight 1) and `a`
   * (weight 10) at one priority, the derived order puts `b` first, and
   * then `b` is picked by 2 of the 12 draws and `a` by 10, not 1 in 11.
   */
  lemma FirstRecordExtraDraw(p: u16, port: u16, target: string)
    ensures var b, a := SrvRecord(p, 1, port, target), SrvRecord(p, 10, port, target);
            Lt(b, a) && Ordered([b, a]) && |Picks([b, a], 0)| == 2 && |Picks([b, a], 1)| == 10
  {
    var b, a := SrvRecord(p, 1, port, target), SrvRecord(p, 10, port, target);
    PickShare([b, a], 0);
    PickShare([b, a], 1);
  }

  /** When every weight in the group is 0 the only draw is 0, and it picks the first record. */
  lemma {:induction false} ZeroWeightsPickFirst(s: seq<SrvRecord>)
    requires s != []
    requires forall i :: 0 <= i < |s| ==> s[i].weight == 0
    ensures SumWeights(s) == 0
    ensures forall v: nat | v <= SumWeights(s) :: FirstReaching(s, v) == 0
    decreases |s|
  {
    if |s| > 1 {
      ZeroWeightsPickFirst(s[..|s| - 1]);
    } else {
      assert s[..0] == [];
    }
  }

  /**
   * In a sorted group the draw 0 picks the first record, which is the
   * lightest: a zero-weight record whenever the group has one.
   */
  lemma ZeroDrawPicksLightest(g: seq<SrvRecord>)
    requires g != [] && Ordered(g) && Uniform(g)
    ensures FirstReaching(g, 0) == 0
    ensures forall i :: 0 <= i < |g| ==> g[0].weight <= g[i].weight
  {
    forall i | 0 < i < |g| ensures g[0].weight <= g[i].weight {
      OrderedWeightsAscend(g, 0, i);
    }
  }

  /** A record of positive weight is picked by the draw equal to its running weight sum. */
  lemma {:induction false} PositiveWeightReachable(s: seq<SrvRecord>, k: nat)
    requires k < |s| && s[k].weight > 0
    ensures WeightThrough(s, k) <= SumWeights(s)
    ensures FirstReaching(s, WeightThrough(s, k)) == k
  {
    WeightThroughStep(s, k);
    WeightThroughMonotone(s, k, |s| - 1);
    PickInterval(s, WeightThrough(s, k), k);
  }

  // ---------------------------------------------------------------------------
  // Priority groups

  /** Unfolding `Groups` once: the first group, then the groups of what follows it. */
  lemma {:induction false} GroupsUnfold(s: seq<SrvRecord>)
    requires s != []
    ensures var n := 1 + RunLength(s[1..], s[0].priority);
      n <= |s| && Groups(s) == [s[..n]] + Groups(s[n..])
  {
  }

  lemma FlattenCons(g: seq<SrvRecord>, rs: seq<seq<SrvRecord>>)
    ensures Flatten([g] + rs) == g + Flatten(rs)
  {
    assert ([g] + rs)[1..] == rs;
  }

  /** Concatenating the groups gives back the stream: no record is lost or repeated. */
  lemma {:induction false} GroupsFlatten(s: seq<SrvRecord>)
    ensures Flatten(Groups(s)) == s
    decreases |s|
  {
    if s != [] {
      var n := 1 + RunLength(s[1..], s[0].priority);
      calc {
        Flatten(Groups(s));
        { GroupsUnfold(s); }
        Flatten([s[..n]] + Groups(s[n..]));
        { FlattenCons(s[..n], Groups(s[n..])); }
        s[..n] + Flatten(Groups(s[n..]));
        { GroupsFlatten(s[n..]); }
        s[..n] + s[n..];
        s;
      }
    }
  }

  /** A group as `PriorityGroupIter::pull` builds it: non-empty, one priority. */
  ghost predicate IsRun(g: seq<SrvRecord>)
  {
    g != [] && Uniform(g)
  }

  lemma ConsRuns(g: seq<SrvRecord>, rs: seq<seq<SrvRecord>>)
    requires IsRun(g) && forall i :: 0 <= i < |rs| ==> IsRun(rs[i])
    ensures forall i :: 0 <= i < |[g] + rs| ==> IsRun(([g] + rs)[i])
  {
    var gs := [g] + rs;
    forall i | 0 <= i < |gs| ensures IsRun(gs[i]) {
      if i > 0 {
        assert gs[i] == rs[i - 1];
      }
    }
  }

  /** Each group is non-empty and has a single priority. */
  lemma {:induction false} GroupsAreRuns(s: seq<SrvRecord>)
    ensures forall i :: 0 <= i < |Groups(s)| ==> IsRun(Groups(s)[i])
    decreases |s|
  {
    if s != [] {
      var n := 1 + RunLength(s[1..], s[0].priority);
      GroupsUnfold(s);
      GroupsAreRuns(s[n..]);
      assert IsRun(s[..n]) by {
        forall i | 0 <= i < n ensures s[..n][i].priority == s[..n][0].priority {
          if i > 0 {
            assert s[i] == s[1..][i - 1];
          }
        }
      }
      ConsRuns(s[..n], Groups(s[n..]));
    }
  }

  /** Group `i` ends with a priority other than the one group `i + 1` starts with. */
  ghost predicate DiffersFromNext(gs: seq<seq<SrvRecord>>, i: nat)
    requires i + 1 < |gs|
  {
    gs[i] != [] && gs[i + 1] != [] && gs[i][|gs[i]| - 1].priority != gs[i + 1][0].priority
  }

  /** Group `i` has a lower priority than group `i + 1`. */
  ghost predicate BelowNext(gs: seq<seq<SrvRecord>>, i: nat)
    requires i + 1 < |gs|
  {
    gs[i] != [] && gs[i + 1] != [] && gs[i][0].priority < gs[i + 1][0].priority
  }

  /** Putting a group in front of a list whose neighbours differ keeps them differing, if the seam does. */
  lemma ConsDiffers(g: seq<SrvRecord>, rs: seq<seq<SrvRecord>>)
    requires forall i: nat :: i + 1 < |rs| ==> DiffersFromNext(rs, i)
    requires rs != [] ==> g != [] && rs[0] != [] && g[|g| - 1].priority != rs[0][0].priority
    ensures forall i: nat :: i + 1 < |[g] + rs| ==> DiffersFromNext([g] + rs, i)
  {
    var gs := [g] + rs;
    forall i: nat | i + 1 < |gs| ensures DiffersFromNext(gs, i) {
      if i > 0 {
        assert DiffersFromNext(rs, i - 1);
      }
    }
  }

  /** Putting a group in front of an ascending list keeps it ascending, if the seam does. */
  lemma ConsBelow(g: seq<SrvRecord>, rs: seq<seq<SrvRecord>>)
    requires forall i: nat :: i + 1 < |rs| ==> BelowNext(rs, i)
    requires rs != [] ==> g != [] && rs[0] != [] && g[0].priority < rs[0][0].priority
    ensures forall i: nat :: i + 1 < |[g] + rs| ==> BelowNext([g] + rs, i)
  {
    var gs := [g] + rs;
    forall i: nat | i + 1 < |gs| ensures BelowNext(gs, i) {
      if i > 0 {
        assert BelowNext(rs, i - 1);
      }
    }
  }

  /** Neighbouring groups differ in priority, so every group is a maximal equal-priority run. */
  lemma {:induction false} GroupsAreMaximal(s: seq<SrvRecord>)
    ensures forall i: nat :: i + 1 < |Groups(s)| ==> DiffersFromNext(Groups(s), i)
    decreases |s|
  {
    if s != [] {
      var n := 1 + RunLength(s[1..], s[0].priority);
      var rest := s[n..];
      GroupsUnfold(s);
      GroupsAreMaximal(rest);
      if rest != [] {
        GroupsUnfold(rest);
        assert s[..n][n - 1].priority == s[0].priority;
        assert Groups(rest)[0][0] == s[n];
      }
      ConsDiffers(s[..n], Groups(rest));
    }
  }

  /** On a priority-sorted stream the groups come in strictly ascending priority. */
  lemma {:induction false} GroupsAscending(s: seq<SrvRecord>)
    requires PrioritySorted(s)
    ensures forall i: nat :: i + 1 < |Groups(s)| ==> BelowNext(Groups(s), i)
    decreases |s|
  {
    if s != [] {
      var n := 1 + RunLength(s[1..], s[0].priority);
      var rest := s[n..];
      GroupsUnfold(s);
      assert PrioritySorted(rest);
      GroupsAscending(rest);
      if rest != [] {
        GroupsUnfold(rest);
        assert Groups(rest)[0][0] == s[n];
        assert s[0].priority <= s[n].priority;
      }
      ConsBelow(s[..n], Groups(rest));
    }
  }

  /**
   * A pick inside the current group keeps the whole stream sorted: taking
   * any record of a single-priority block `c` out and emitting it after `e`
   * leaves the sequence of priorities unchanged.
   */
  lemma {:induction false} PickKeepsSorted(e: seq<SrvRecord>, c: seq<SrvRecord>, k: nat, rest: seq<SrvRecord>)
    requires k < |c| && Uniform(c)
    requires PrioritySorted(e + c + rest)
    ensures PrioritySorted(e + [c[k]] + RemoveAt(c, k) + rest)
  {
    var t := e + c + rest;
    var t' := e + [c[k]] + RemoveAt(c, k) + rest;
    assert |t'| == |t|;
    forall i | 0 <= i < |t| ensures t'[i].priority == t[i].priority {
      if |e| <= i < |e| + |c| {
        assert t[i] == c[i - |e|];
        if i == |e| {
          assert t'[i] == c[k];
        } else {
          assert t'[i] == RemoveAt(c, k)[i - |e| - 1];
        }
      }
    }
  }
}
