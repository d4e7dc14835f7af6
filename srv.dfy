/**
 * The SRV resolver of src/srv.rs as the source runs it: an in-place sort by
 * the derived field-by-field order, a grouping iterator with a one-record
 * look-ahead, a per-group weighted picker that removes what it yields, and a
 * loader that drains the groups in turn. The random draw `rng.gen_range(0..=total)` is the
 * caller-supplied function `draw`, which must return a value in `[0, total]`.
 */
module Srv {
  import opened Ints
  import opened Wrappers
  import opened SrvSpec

  /**
   * `records.sort_unstable()`, as an insertion sort. `sort_unstable` compares
   * with `lt`, which `SrvRecord` takes from the derived `PartialOrd`, not
   * from the priority-only `Ord`; that order is total, so by `OrderedUnique`
   * any sorting algorithm leaves the same sequence.
   */
  method SortUnstable(a: array<SrvRecord>)
    modifies a
    ensures Ordered(a[..])
    ensures multiset(a[..]) == old(multiset(a[..]))
  {
    var i := 0;
    while i < a.Length
      invariant 0 <= i <= a.Length
      invariant forall x, y :: 0 <= x < y < i ==> !Lt(a[y], a[x])
      invariant multiset(a[..]) == old(multiset(a[..]))
    {
      Insert(a, i);
      i := i + 1;
    }
  }

  /** One insertion step: `a[i]` moves down past every record it is `lt`, into the ordered prefix `a[..i]`. */
  method Insert(a: array<SrvRecord>, i: nat)
    requires i < a.Length
    requires forall x, y :: 0 <= x < y < i ==> !Lt(a[y], a[x])
    modifies a
    ensures forall x, y :: 0 <= x < y <= i ==> !Lt(a[y], a[x])
    ensures multiset(a[..]) == old(multiset(a[..]))
    ensures a[i + 1..] == old(a[i + 1..])
  {
    var j := i;
    while j > 0 && Lt(a[j], a[j - 1])
      invariant 0 <= j <= i
      invariant Inserting(a[..], i, j)
      invariant multiset(a[..]) == old(multiset(a[..]))
      invariant a[i + 1..] == old(a[i + 1..])
    {
      ghost var before := a[..];
      InsertingStep(before, i, j);
      a[j - 1], a[j] := a[j], a[j - 1];
      assert a[..] == before[j - 1 := before[j]][j := before[j - 1]];
      j := j - 1;
    }
    InsertingDone(a[..], i, j);
  }

  /**
   * Insertion of `s[j]` into `s[..i + 1]` in progress: apart from position
   * `j`, the prefix is ordered, and nothing after `j` is `lt` `s[j]`.
   */
  ghost predicate Inserting(s: seq<SrvRecord>, i: nat, j: nat)
  {
    j <= i < |s| &&
    (forall x, y :: 0 <= x < y <= i && x != j && y != j ==> !Lt(s[y], s[x])) &&
    (forall y :: j < y <= i ==> !Lt(s[y], s[j]))
  }

  /** Swapping `s[j]` with a predecessor it is `lt` moves the insertion one place down. */
  lemma InsertingStep(s: seq<SrvRecord>, i: nat, j: nat)
    requires Inserting(s, i, j) && 0 < j && Lt(s[j], s[j - 1])
    ensures Inserting(s[j - 1 := s[j]][j := s[j - 1]], i, j - 1)
  {
    PartialCmpReverse(s[j], s[j - 1]);
  }

  /** Once `s[j]` is not `lt` its predecessor, the whole prefix `s[..i + 1]` is ordered. */
  lemma InsertingDone(s: seq<SrvRecord>, i: nat, j: nat)
    requires Inserting(s, i, j) && (j == 0 || !Lt(s[j], s[j - 1]))
    ensures forall x, y :: 0 <= x < y <= i ==> !Lt(s[y], s[x])
  {
    forall x, y | 0 <= x < y <= i ensures !Lt(s[y], s[x]) {
      if 0 < j && y == j && x < j - 1 {
        NotLtTransitive(s[x], s[j - 1], s[j]);
      }
    }
  }

  /** The owned `Vec` that `PrioritySrvLoader::new` receives, sorted in place and handed on. */
  method SortedRecords(records: seq<SrvRecord>) returns (sorted: seq<SrvRecord>)
    ensures Ordered(sorted)
    ensures multiset(sorted) == multiset(records)
  {
    var a := new SrvRecord[|records|](i requires 0 <= i < |records| => records[i]);
    assert a[..] == records;
    SortUnstable(a);
    sorted := a[..];
  }

  /** One priority group; `next` draws and removes one record. */
  class WeightedSrvMap {
    var records: seq<SrvRecord>

    constructor (records: seq<SrvRecord>)
      ensures this.records == records
    {
      this.records := records;
    }

    /**
     * `WeightedSrvMap::next`: the record at the first index whose running
     * weight sum reaches the draw, removed from the group. The weight sum is
     * accumulated in a `u16`, so the group's total must fit one.
     */
    method Next(draw: nat -> nat) returns (r: Option<SrvRecord>)
      requires SumWeights(records) <= U16_MAX
      requires forall t :: draw(t) <= t
      modifies this
      ensures old(records) == [] ==> r == None && records == []
      ensures old(records) != [] ==>
                var k := FirstReaching(old(records), draw(SumWeights(old(records))));
                r == Some(old(records)[k]) && records == RemoveAt(old(records), k)
    {
      var totalWeight: u16 := 0;
      for i := 0 to |records|
        invariant records == old(records)
        invariant totalWeight == SumWeights(records[..i])
      {
        WeightBeforeStep(records, i);
        totalWeight := totalWeight + records[i].weight;
      }
      assert records[..|records|] == records;
      assert totalWeight == SumWeights(old(records));

      var v := draw(totalWeight);
      var nv: u16 := 0;

      var irm := |records|;
      var removed := irm; // stays `irm` only when there is nothing to pick

      var idx := 0;
      while idx < |records|
        invariant records == old(records)
        invariant 0 <= idx <= |records|
        invariant nv == SumWeights(records[..idx])
        invariant forall j :: 0 <= j < idx ==> WeightThrough(records, j) < v
        invariant removed == irm
      {
        WeightBeforeStep(records, idx);
        nv := nv + records[idx].weight;
        if nv >= v {
          removed := idx;
          PickInterval(records, v, idx);
          break;
        }
        idx := idx + 1;
      }
      if removed == irm && records != [] {
        WeightBeforeStep(records, |records| - 1);
        assert false;
      }

      if removed == irm {
        r := None;
      } else {
        r := Some(records[removed]);
        records := RemoveAt(records, removed);
      }
    }
  }

  /**
   * `PriorityGroupIter`: `inner` is what is left of the sorted records' iterator
   * and `nCache` the record read past the end of the previous group.
   */
  class PriorityGroupIter {
    var inner: seq<SrvRecord>
    var nCache: Option<SrvRecord>

    /** The records not yet grouped, the cached one first. */
    ghost function Pending(): seq<SrvRecord>
      reads this
    {
      (if nCache.Some? then [nCache.value] else []) + inner
    }

    /** `priority_groupings()` on an iterator. */
    constructor (inner: seq<SrvRecord>)
      ensures this.inner == inner && nCache == None
      ensures Pending() == inner
    {
      this.inner := inner;
      nCache := None;
    }

    /**
     * `PriorityGroupIter::pull`: collect `first` and the records after it with
     * the same priority; the first record of another priority goes to `nCache`.
     */
    method Pull(first: SrvRecord) returns (m: WeightedSrvMap)
      requires nCache == None
      modifies this
      ensures fresh(m)
      ensures var n := RunLength(old(inner), first.priority);
              m.records == [first] + old(inner)[..n] && Pending() == old(inner)[n..]
      ensures var n := RunLength(old(inner), first.priority);
              if n < |old(inner)| then nCache == Some(old(inner)[n]) && inner == old(inner)[n + 1..]
              else nCache == None && inner == []
    {
      var records := [first];
      var priority := first.priority;

      while inner != []
        invariant nCache == None
        invariant |records| >= 1 && records[0] == first
        invariant [first] + old(inner) == records + inner
        invariant forall i :: 0 <= i < |records| ==> records[i].priority == priority
        decreases |inner|
      {
        var record := inner[0];
        inner := inner[1..];
        if record.priority != priority {
          nCache := Some(record);
          assert [first] + old(inner) == records + Pending();
          break;
        }
        records := records + [record];
      }
      assert [first] + old(inner) == records + Pending();
      assert Pending() != [] ==> Pending()[0].priority != priority;
      PullSplit(first, old(inner), records, Pending(), priority);
      m := new WeightedSrvMap(records);
    }

    /** `PriorityGroupIter::next`: the next maximal run of equal priority, if any. */
    method Next() returns (r: Option<WeightedSrvMap>)
      modifies this
      ensures r.None? <==> old(Pending()) == []
      ensures r.None? ==> Pending() == []
      ensures r.Some? ==>
                fresh(r.value) && old(Pending()) != [] &&
                r.value.records != [] &&
                old(Pending()) == r.value.records + Pending() &&
                Groups(old(Pending())) == [r.value.records] + Groups(Pending())
    {
      ghost var pending := Pending();
      var cached := nCache;
      nCache := None;
      match cached {
        case None =>
          if inner == [] {
            r := None;
          } else {
            var first := inner[0];
            inner := inner[1..];
            assert pending == [first] + inner;
            var m := Pull(first);
            r := Some(m);
            PulledIsFirstGroup(pending, m.records, Pending());
          }
        case Some(record) =>
          assert pending == [record] + inner;
          var m := Pull(record);
          r := Some(m);
          PulledIsFirstGroup(pending, m.records, Pending());
      }
    }
  }

  /**
   * Where `pull` stops: having taken `first` and the records after it up to
   * the first one of another priority, it has taken exactly the run `RunLength` measures.
   */
  lemma PullSplit(first: SrvRecord, stream: seq<SrvRecord>, records: seq<SrvRecord>, rest: seq<SrvRecord>, p: int)
    requires [first] + stream == records + rest
    requires |records| >= 1
    requires forall i :: 0 <= i < |records| ==> records[i].priority == p
    requires rest != [] ==> rest[0].priority != p
    ensures var n := RunLength(stream, p);
            records == [first] + stream[..n] && rest == stream[n..]
  {
    var taken := |records| - 1;
    assert stream == records[1..] + rest by {
      assert ([first] + stream)[1..] == stream;
      assert (records + rest)[1..] == records[1..] + rest;
    }
    var n := RunLength(stream, p);
    assert forall i :: 0 <= i < taken ==> stream[i] == records[i + 1];
    assert taken < |stream| ==> stream[taken] == rest[0];
    assert n == taken;
    assert records[0] == (records + rest)[0] == ([first] + stream)[0] == first;
    assert records == [first] + records[1..];
    assert stream[..taken] == records[1..] && stream[taken..] == rest;
  }

  /** What `pull` collects from a stream is that stream's first group, and what it leaves is the rest. */
  lemma PulledIsFirstGroup(pending: seq<SrvRecord>, group: seq<SrvRecord>, rest: seq<SrvRecord>)
    requires pending != []
    requires var n := RunLength(pending[1..], pending[0].priority);
      group == [pending[0]] + pending[1..][..n] && rest == pending[1..][n..]
    ensures group != [] && pending == group + rest
    ensures Groups(pending) == [group] + Groups(rest)
  {
    var n := RunLength(pending[1..], pending[0].priority);
    assert group == pending[..1 + n] && rest == pending[1 + n..] by {
      assert pending[..1 + n] == [pending[0]] + pending[1..][..n];
      assert pending[1 + n..] == pending[1..][n..];
    }
    assert pending == group + rest by {
      assert pending == pending[..1 + n] + pending[1 + n..];
    }
    GroupsUnfold(pending);
  }

  /**
   * The loader's invariant on values: what was yielded and what remains are
   * together the input, rearranged, in ascending priority; the current group
   * has one priority; every weight sum still to be taken fits a `u16`.
   */
  ghost predicate LoaderInv(input: seq<SrvRecord>, emitted: seq<SrvRecord>, current: seq<SrvRecord>, pending: seq<SrvRecord>)
  {
    (forall x :: Count(emitted, x) + Count(current, x) + Count(pending, x) == Count(input, x)) &&
    PrioritySorted(emitted + (current + pending)) &&
    Uniform(current) &&
    SumWeights(current) <= U16_MAX &&
    GroupWeightsFit(pending)
  }

  /** The sorted records, not yet grouped, satisfy the invariant. */
  lemma LoaderInvInit(records: seq<SrvRecord>, sorted: seq<SrvRecord>)
    requires GroupWeightsFit(records)
    requires multiset(sorted) == multiset(records) && PrioritySorted(sorted)
    ensures LoaderInv(records, [], [], sorted)
  {
    forall p ensures PriorityWeight(sorted, p) <= U16_MAX {
      PriorityWeightPermutation(sorted, records, p);
    }
    forall x ensures Count(sorted, x) == Count(records, x) {
      CountMultiplicity(sorted, x);
      CountMultiplicity(records, x);
    }
    assert [] + sorted == sorted;
    assert [] + ([] + sorted) == sorted;
  }

  /** A pick from the current group keeps the invariant. */
  lemma LoaderInvPick(input: seq<SrvRecord>, emitted: seq<SrvRecord>, current: seq<SrvRecord>, pending: seq<SrvRecord>, k: nat)
    requires LoaderInv(input, emitted, current, pending) && k < |current|
    ensures LoaderInv(input, emitted + [current[k]], RemoveAt(current, k), pending)
  {
    var rest := RemoveAt(current, k);
    assert emitted + (current + pending) == emitted + current + pending;
    PickKeepsSorted(emitted, current, k, pending);
    assert emitted + [current[k]] + rest + pending == (emitted + [current[k]]) + (rest + pending);
    SumWeightsRemoveAt(current, k);
    forall x ensures Count(emitted + [current[k]], x) + Count(rest, x) + Count(pending, x) == Count(input, x) {
      assert (emitted + [current[k]])[..|emitted|] == emitted;
      CountRemoveAt(current, k, x);
    }
    forall i | 0 <= i < |rest| ensures rest[i].priority == rest[0].priority {
      assert rest[i].priority == current[0].priority;
      assert rest[0].priority == current[0].priority;
    }
  }

  /** Loading the next group into an empty current group keeps the invariant. */
  lemma LoaderInvLoad(input: seq<SrvRecord>, emitted: seq<SrvRecord>, pending: seq<SrvRecord>, group: seq<SrvRecord>, rest: seq<SrvRecord>)
    requires LoaderInv(input, emitted, [], pending)
    requires pending != [] && group != [] && pending == group + rest
    requires Groups(pending) == [group] + Groups(rest)
    ensures LoaderInv(input, emitted, group, rest)
  {
    assert Uniform(group) by {
      GroupsAreRuns(pending);
      assert IsRun(Groups(pending)[0]);
    }
    FirstGroupFits(group, rest);
    forall x ensures Count(pending, x) == Count(group, x) + Count(rest, x) {
      CountAppend(group, rest, x);
    }
    assert [] + pending == group + rest;
  }

  /** With nothing left, what was yielded is the input, rearranged into ascending priority. */
  lemma LoaderInvDone(input: seq<SrvRecord>, emitted: seq<SrvRecord>)
    requires LoaderInv(input, emitted, [], [])
    ensures multiset(emitted) == multiset(input) && PrioritySorted(emitted)
  {
    forall x ensures multiset(emitted)[x] == multiset(input)[x] {
      CountMultiplicity(emitted, x);
      CountMultiplicity(input, x);
    }
    assert emitted + ([] + []) == emitted;
  }

  /** `PrioritySrvLoader`: the groups drained one after another. */
  class PrioritySrvLoader {
    var innerMaps: PriorityGroupIter
    var currentMap: Option<WeightedSrvMap>

    /** The records the loader was built from. */
    ghost var Input: seq<SrvRecord>
    /** The records yielded so far, in order. */
    ghost var Emitted: seq<SrvRecord>
    ghost var Repr: set<object>

    /** The records left in the group being drained. */
    ghost function Current(): seq<SrvRecord>
      reads this, Repr
      requires currentMap.Some? ==> currentMap.value in Repr
    {
      if currentMap.Some? then currentMap.value.records else []
    }

    /** The records still to be yielded: the current group, then the ungrouped rest. */
    ghost function Remaining(): seq<SrvRecord>
      reads this, Repr
      requires innerMaps in Repr
      requires currentMap.Some? ==> currentMap.value in Repr
    {
      Current() + innerMaps.Pending()
    }

    /** The object invariant: `LoaderInv` on the loader's state. */
    ghost predicate Valid()
      reads this, Repr
    {
      this in Repr && innerMaps in Repr &&
      (currentMap.Some? ==> currentMap.value in Repr) &&
      LoaderInv(Input, Emitted, Current(), innerMaps.Pending())
    }

    /** `PrioritySrvLoader::new`: sort the records, then group them lazily. */
    constructor (records: seq<SrvRecord>)
      requires GroupWeightsFit(records)
      ensures Valid() && Repr == {this, innerMaps} && fresh(innerMaps)
      ensures Input == records && Emitted == [] && Remaining() == innerMaps.Pending()
      ensures Ordered(innerMaps.Pending()) && multiset(innerMaps.Pending()) == multiset(records)
    {
      var sorted := SortedRecords(records);
      OrderedByPriority(sorted);
      LoaderInvInit(records, sorted);
      innerMaps := new PriorityGroupIter(sorted);
      currentMap := None;
      Input := records;
      Emitted := [];
      new;
      Repr := {this, innerMaps};
      assert Current() == [];
      assert innerMaps.Pending() == sorted;
      assert LoaderInv(records, [], [], sorted);
      assert LoaderInv(Input, Emitted, Current(), innerMaps.Pending());
      assert Valid();
      assert Input == records;
      assert Emitted == [];
      assert Remaining() == innerMaps.Pending();
    }

    /** The `current.next()` step of `PrioritySrvLoader::next`. */
    method PickFromCurrent(draw: nat -> nat) returns (r: Option<SrvRecord>)
      requires Valid() && currentMap.Some?
      requires forall t :: draw(t) <= t
      modifies this, currentMap.value
      ensures Valid() && Repr == old(Repr)
      ensures innerMaps == old(innerMaps) && currentMap == old(currentMap) && Input == old(Input)
      ensures innerMaps.Pending() == old(innerMaps.Pending())
      ensures r.None? <==> old(Current()) == []
      ensures r.None? ==> Emitted == old(Emitted) && Current() == []
      ensures r.Some? ==> Emitted == old(Emitted) + [r.value] && |Current()| == |old(Current())| - 1
      ensures r.Some? ==> r.value in old(Current())
      ensures r.Some? ==>
                var k := FirstReaching(old(Current()), draw(SumWeights(old(Current()))));
                r.value == old(Current())[k] && Current() == RemoveAt(old(Current()), k)
    {
      var current := currentMap.value;
      ghost var before := current.records;
      ghost var pending := innerMaps.Pending();
      r := current.Next(draw);
      assert innerMaps.Pending() == pending;
      if r.Some? {
        ghost var k := FirstReaching(before, draw(SumWeights(before)));
        assert r.value == before[k] && Current() == RemoveAt(before, k);
        LoaderInvPick(Input, Emitted, before, pending, k);
        Emitted := Emitted + [r.value];
      }
    }

    /** The `self.current_map = self.inner_maps.next()` step of `PrioritySrvLoader::next`. */
    method LoadGroup()
      requires Valid() && currentMap.None?
      modifies this, innerMaps
      ensures Valid()
      ensures currentMap.None? ==> Repr == old(Repr)
      ensures currentMap.Some? ==> fresh(currentMap.value) && Repr == old(Repr) + {currentMap.value}
      ensures innerMaps == old(innerMaps) && Input == old(Input) && Emitted == old(Emitted)
      ensures Remaining() == old(Remaining())
      ensures currentMap.None? <==> old(Remaining()) == []
      ensures currentMap.Some? ==> |innerMaps.Pending()| < old(|innerMaps.Pending()|)
      ensures currentMap.Some? ==> Groups(old(innerMaps.Pending())) == [Current()] + Groups(innerMaps.Pending())
    {
      ghost var pending := innerMaps.Pending();
      var nextMap := innerMaps.Next();
      if nextMap.Some? {
        ghost var group := nextMap.value.records;
        ghost var rest := innerMaps.Pending();
        LoaderInvLoad(Input, Emitted, pending, group, rest);
        currentMap := nextMap;
        Repr := Repr + {nextMap.value};
        assert Current() == group && innerMaps.Pending() == rest;
      }
    }

    /**
     * `PrioritySrvLoader::next`: yield from the current group; when it is
     * empty, drop it and load the next group; stop when there is none.
     */
    method Next(draw: nat -> nat) returns (r: Option<SrvRecord>)
      requires Valid()
      requires forall t :: draw(t) <= t
      modifies Repr
      ensures Valid() && fresh(Repr - old(Repr))
      ensures Input == old(Input)
      ensures r.None? <==> old(Remaining()) == []
      ensures r.None? ==> Emitted == old(Emitted) && Remaining() == []
      ensures r.Some? ==> Emitted == old(Emitted) + [r.value] && |Remaining()| == |old(Remaining())| - 1
      ensures r.Some? ==> r.value.priority == old(Remaining())[0].priority
      ensures r.Some? && old(Current()) != [] ==> r.value in old(Current())
      decreases |innerMaps.Pending()|, if currentMap.Some? then 1 else 0
    {
      if currentMap.Some? {
        r := PickFromCurrent(draw);
        if r.Some? {
          return;
        }
        currentMap := None;
        ghost var mid := Repr;
        assert mid == old(Repr);
        r := Next(draw);
        assert fresh(Repr - mid);
        return;
      }

      LoadGroup();
      if currentMap.Some? {
        ghost var mid := Repr;
        assert fresh(mid - old(Repr));
        r := Next(draw);
        assert fresh(Repr - mid);
        return;
      }
      r := None;
    }
  }

  /**
   * The caller's use of the resolver: drain `PrioritySrvLoader::new(records)`,
   * the `i`-th pick drawing with `draw(i, _)`. The order is a rearrangement
   * of the records with priorities ascending, whatever the weights and draws.
   */
  method Candidates(records: seq<SrvRecord>, draw: (nat, nat) -> nat) returns (order: seq<SrvRecord>)
    requires GroupWeightsFit(records)
    requires forall i, t :: draw(i, t) <= t
    ensures multiset(order) == multiset(records)
    ensures PrioritySorted(order)
  {
    var loader := new PrioritySrvLoader(records);
    order := [];
    var i := 0;
    while true
      invariant loader.Valid() && fresh(loader.Repr)
      invariant loader.Input == records && loader.Emitted == order
      decreases |loader.Remaining()|
    {
      var r := loader.Next((t: nat) => draw(i, t));
      if r.None? {
        LoaderInvDone(records, order);
        break;
      }
      order := order + [r.value];
      i := i + 1;
    }
  }
}
