/** The audit log: numbered records in a table of bounded size, the oldest dropped first. */
module AuditLog {
  import opened Words
  import Sorting

  datatype Record = Record(uid: nat, text: string)

  datatype Driver = Driver(maxRecordCount: int, firstId: nat, currentId: nat, table: map<nat, Record>)

  /** One call of `Add`; the eviction may fail, which ends the call, or the write of the new
      record after it. */
  datatype Call = Call(text: string, evictOk: bool, writeOk: bool)

  predicate MustEvict(d: Driver) {
    WrapSub(d.currentId, d.firstId) > ToUint64(d.maxRecordCount - 2)
  }

  function Evicted(d: Driver): Driver {
    if MustEvict(d) then d.(table := d.table - {d.firstId}, firstId := d.firstId + 1) else d
  }

  /** The call fails in its eviction. */
  predicate Blocked(d: Driver, c: Call) {
    MustEvict(d) && !c.evictOk
  }

  predicate Succeeds(d: Driver, c: Call) {
    !Blocked(d, c) && c.writeOk
  }

  function DoAdd(d: Driver, c: Call): Driver {
    if Blocked(d, c) then d
    else
      var d1, id := Evicted(d), d.currentId + 1;
      if c.writeOk then d1.(table := d1.table[id := Record(id, c.text)], currentId := id) else d1
  }

  function New(maxRecordCount: int): Driver {
    Driver(maxRecordCount, 0, 0, map[])
  }

  /** What `initDB` makes of a stored table: the least and the greatest id in it. */
  ghost predicate ReloadOf(d: Driver, r: Driver) {
    && r.maxRecordCount == d.maxRecordCount && r.table == d.table
    && (d.table == map[] ==> r.firstId == 0 && r.currentId == 0)
    && (d.table != map[] ==>
          && r.firstId in d.table && r.currentId in d.table
          && forall k <- d.table :: r.firstId <= k <= r.currentId)
  }

  /** An add, or a restart that loads the table into a new driver. */
  datatype Step = Add(call: Call) | Reload(driver: Driver)

  ghost function Apply(d: Driver, s: Step): Driver {
    match s
    case Add(c) => DoAdd(d, c)
    case Reload(r) => if ReloadOf(d, r) then r else d
  }

  ghost function Run(d: Driver, steps: seq<Step>): Driver {
    if steps == [] then d else Apply(Run(d, steps[..|steps| - 1]), steps[|steps| - 1])
  }

  /** What a step writes. */
  function Writes(d: Driver, s: Step): seq<string> {
    if s.Add? && Succeeds(d, s.call) then [s.call.text] else []
  }

  /** The texts of the adds that succeeded, in order. */
  ghost function Written(d: Driver, steps: seq<Step>): seq<string> {
    if steps == [] then []
    else
      var front := steps[..|steps| - 1];
      Written(d, front) + Writes(Run(d, front), steps[|steps| - 1])
  }

  ghost predicate Size(maxRecordCount: int) {
    2 <= maxRecordCount < WORD / 2
  }

  // ---------------------------------------------------------------------------
  // The table is the latest block of what was written
  // ---------------------------------------------------------------------------

  function Lowest(d: Driver): nat {
    if d.firstId == 0 then 1 else d.firstId
  }

  ghost predicate Block(d: Driver, written: seq<string>) {
    && d.currentId == |written|
    && (forall k :: k in d.table <==> Lowest(d) <= k <= d.currentId)
    && (forall k <- d.table :: 1 <= k <= |written| && d.table[k] == Record(k, written[k - 1]))
  }

  ghost predicate Inv(d: Driver, written: seq<string>) {
    && Size(d.maxRecordCount)
    && Block(d, written)
    && d.firstId <= d.currentId <= d.firstId + d.maxRecordCount - 1
  }

  lemma EvictsWhenFull(d: Driver)
    requires Size(d.maxRecordCount) && d.firstId <= d.currentId <= d.firstId + d.maxRecordCount - 1
    ensures MustEvict(d) <==> d.currentId == d.firstId + d.maxRecordCount - 1
  {
  }

  lemma AddKeeps(d: Driver, written: seq<string>, c: Call)
    requires Inv(d, written)
    ensures Inv(DoAdd(d, c), written + if Succeeds(d, c) then [c.text] else [])
  {
    EvictsWhenFull(d);
    assert written + [] == written;
  }

  /** A reload keeps the counter and the block. */
  lemma ReloadKeeps(d: Driver, written: seq<string>, r: Driver)
    requires Inv(d, written) && ReloadOf(d, r)
    ensures Inv(r, written) && Alike(d, r)
  {
    if d.currentId == 0 {
      assert forall k :: k !in d.table;
      assert d.table == map[];
    } else {
      assert d.currentId in d.table && Lowest(d) in d.table;
    }
  }

  lemma StepKeeps(d: Driver, written: seq<string>, s: Step)
    requires Inv(d, written)
    ensures Inv(Apply(d, s), written + Writes(d, s))
  {
    assert written + [] == written;
    match s
    case Add(c) => AddKeeps(d, written, c);
    case Reload(r) =>
      if ReloadOf(d, r) {
        ReloadKeeps(d, written, r);
      }
  }

  lemma {:induction false} RunKeeps(maxRecordCount: int, steps: seq<Step>)
    requires Size(maxRecordCount)
    ensures Inv(Run(New(maxRecordCount), steps), Written(New(maxRecordCount), steps))
    ensures Run(New(maxRecordCount), steps).maxRecordCount == maxRecordCount
  {
    if steps != [] {
      var d, front := New(maxRecordCount), steps[..|steps| - 1];
      RunKeeps(maxRecordCount, front);
      StepKeeps(Run(d, front), Written(d, front), steps[|steps| - 1]);
    }
  }

  /** After any history of adds and reloads, in which adds may fail in their eviction or after
      it, the keys are one consecutive block that ends at the number of records written, at most
      `maxRecordCount` long, and every row is the record written under that number. */
  lemma TableIsLatestBlock(maxRecordCount: int, steps: seq<Step>)
    requires Size(maxRecordCount)
    ensures var d, written := Run(New(maxRecordCount), steps), Written(New(maxRecordCount), steps);
            && d.currentId == |written|
            && (forall k :: k in d.table <==> Lowest(d) <= k <= d.currentId)
            && d.currentId - Lowest(d) + 1 <= maxRecordCount
            && (forall k <- d.table :: 1 <= k <= |written| && d.table[k] == Record(k, written[k - 1]))
  {
    RunKeeps(maxRecordCount, steps);
  }

  /** What the table holds at least: the last `maxRecordCount - 1` records. */
  ghost predicate Ample(d: Driver) {
    d.firstId <= 1 || d.currentId - d.firstId + 1 >= d.maxRecordCount - 1
  }

  lemma AmpleStep(d: Driver, written: seq<string>, s: Step)
    requires Inv(d, written) && Ample(d)
    ensures Ample(Apply(d, s))
  {
    EvictsWhenFull(d);
    if s.Reload? && ReloadOf(d, s.driver) {
      ReloadKeeps(d, written, s.driver);
    }
  }

  /** After any history, all but the one oldest of the last `maxRecordCount` records written are in
      the table, whatever failed: nothing is dropped early. */
  lemma {:induction false} LatestAreKept(maxRecordCount: int, steps: seq<Step>)
    requires Size(maxRecordCount)
    ensures var d, written := Run(New(maxRecordCount), steps), Written(New(maxRecordCount), steps);
            && Ample(d)
            && forall k :: 1 <= k <= |written| && |written| - (maxRecordCount - 1) < k ==>
                             k in d.table && d.table[k] == Record(k, written[k - 1])
  {
    RunKeeps(maxRecordCount, steps);
    if steps != [] {
      var d, front := New(maxRecordCount), steps[..|steps| - 1];
      LatestAreKept(maxRecordCount, front);
      RunKeeps(maxRecordCount, front);
      AmpleStep(Run(d, front), Written(d, front), steps[|steps| - 1]);
    }
  }

  /** Nothing was ever dropped. */
  ghost predicate Complete(d: Driver) {
    d.firstId <= 1 && d.firstId <= d.currentId && forall k :: k in d.table <==> 1 <= k <= d.currentId
  }

  lemma TooSmallStep(d: Driver, s: Step)
    requires -(WORD / 4) <= d.maxRecordCount < 2 && d.currentId < WORD / 4 && Complete(d)
    ensures Complete(Apply(d, s)) && Apply(d, s).maxRecordCount == d.maxRecordCount
    ensures Apply(d, s).currentId == d.currentId + |Writes(d, s)|
  {
    assert !MustEvict(d);
    if s.Reload? && d.currentId == 0 {
      assert forall k :: k !in d.table;
      assert d.table == map[];
    } else if s.Reload? {
      assert 1 in d.table && d.currentId in d.table;
    }
  }

  /** With fewer than two records allowed the unsigned bound wraps around and nothing is ever
      dropped, so two is exactly the least size that bounds the table. */
  lemma {:induction false} TooSmallNeverEvicts(maxRecordCount: int, steps: seq<Step>)
    requires -(WORD / 4) <= maxRecordCount < 2 && |steps| < WORD / 4
    ensures var d, written := Run(New(maxRecordCount), steps), Written(New(maxRecordCount), steps);
            && d.currentId == |written| <= |steps| && d.maxRecordCount == maxRecordCount
            && Complete(d)
  {
    if steps != [] {
      TooSmallNeverEvicts(maxRecordCount, steps[..|steps| - 1]);
      TooSmallStep(Run(New(maxRecordCount), steps[..|steps| - 1]), steps[|steps| - 1]);
    }
  }

  // ---------------------------------------------------------------------------
  // Restart
  // ---------------------------------------------------------------------------

  /** The same driver but for a `firstId` of 0 that a restart turns into 1. */
  ghost predicate Alike(d: Driver, r: Driver) {
    && r.maxRecordCount == d.maxRecordCount && r.table == d.table && r.currentId == d.currentId
    && (r.firstId == d.firstId || (d.firstId == 0 && r.firstId == 1 <= d.currentId))
  }

  /** The original still has its `firstId` of 0 and would evict that absent key: the only step
      that tells the two apart is an add whose eviction of it fails while its write would not. */
  predicate TellsApart(d: Driver, r: Driver, s: Step) {
    s.Add? && r.firstId != d.firstId && Blocked(d, s.call) && s.call.writeOk
  }

  lemma AlikeStep(d: Driver, written: seq<string>, r: Driver, s: Step)
    requires Inv(d, written) && Alike(d, r)
    ensures Alike(Apply(d, s), Apply(r, s)) <==> !TellsApart(d, r, s)
    ensures TellsApart(d, r, s) ==> Apply(d, s).currentId != Apply(r, s).currentId
  {
    EvictsWhenFull(d);
    if r.firstId == d.firstId {
      assert r == d;
    } else {
      assert d.table - {0} == d.table;
      assert MustEvict(r) <==> d.currentId - 1 > d.maxRecordCount - 2;
    }
  }

  /** No later step tells the two drivers apart. */
  ghost predicate NeverApart(d: Driver, r: Driver, steps: seq<Step>) {
    steps != [] ==>
      var front := steps[..|steps| - 1];
      NeverApart(d, r, front) && !TellsApart(Run(d, front), Run(r, front), steps[|steps| - 1])
  }

  /** Table and counter are the same after each of the steps. */
  ghost predicate SameThroughout(d: Driver, r: Driver, steps: seq<Step>) {
    && Run(d, steps).table == Run(r, steps).table && Run(d, steps).currentId == Run(r, steps).currentId
    && (steps != [] ==> SameThroughout(d, r, steps[..|steps| - 1]))
  }

  lemma {:induction false} AlikeRun(d: Driver, written: seq<string>, r: Driver, steps: seq<Step>)
    returns (after: seq<string>)
    requires Inv(d, written) && Alike(d, r)
    ensures Inv(Run(d, steps), after)
    ensures SameThroughout(d, r, steps) <==> NeverApart(d, r, steps)
    ensures NeverApart(d, r, steps) ==> Alike(Run(d, steps), Run(r, steps))
  {
    if steps == [] {
      after := written;
    } else {
      var front, s := steps[..|steps| - 1], steps[|steps| - 1];
      var mid := AlikeRun(d, written, r, front);
      StepKeeps(Run(d, front), mid, s);
      if NeverApart(d, r, front) {
        AlikeStep(Run(d, front), mid, Run(r, front), s);
      }
      after := mid + Writes(Run(d, front), s);
    }
  }

  /** A driver reloaded after any history of adds and reloads has the same table and counter as
      the one it replaced, after each of any later adds and reloads, if and only if none of them
      tells the two apart. */
  lemma RestartIsInvisible(maxRecordCount: int, before: seq<Step>, r: Driver, later: seq<Step>)
    requires Size(maxRecordCount) && ReloadOf(Run(New(maxRecordCount), before), r)
    ensures var d := Run(New(maxRecordCount), before);
            SameThroughout(d, r, later) <==> NeverApart(d, r, later)
  {
    var d, written := Run(New(maxRecordCount), before), Written(New(maxRecordCount), before);
    RunKeeps(maxRecordCount, before);
    ReloadKeeps(d, written, r);
    var after := AlikeRun(d, written, r, later);
  }

  /** Such a step exists: with two records allowed, a restart after the first add, and a second
      add whose eviction would fail, the reloaded driver adds where the original refuses. */
  lemma CanBeToldApart()
    ensures var d := Run(New(2), [Add(Call("x", true, true))]);
            var r := d.(firstId := 1);
            ReloadOf(d, r) && TellsApart(d, r, Add(Call("y", false, true)))
  {
    var first := Add(Call("x", true, true));
    assert [first][..0] == [];
    var d := Run(New(2), [first]);
    assert Run(New(2), []) == New(2) && !MustEvict(New(2));
    assert d == Apply(New(2), first);
    assert d == Driver(2, 0, 1, map[1 := Record(1, "x")]) && 1 in d.table;
  }

  /** In particular for all later steps when no eviction fails. */
  lemma {:induction false} EvictionsSucceed(d: Driver, r: Driver, later: seq<Step>)
    requires forall s <- later :: s.Add? ==> s.call.evictOk
    ensures NeverApart(d, r, later)
  {
    if later != [] {
      assert later[|later| - 1] in later;
      EvictionsSucceed(d, r, later[..|later| - 1]);
    }
  }

  // ---------------------------------------------------------------------------
  // The driver
  // ---------------------------------------------------------------------------

  predicate UidLess(a: Record, b: Record) {
    a.uid < b.uid
  }

  /** The stored records in whatever order the table yields them. */
  method ListRecords(rows: map<nat, Record>) returns (logs: seq<Record>)
    requires forall k <- rows :: rows[k].uid == k
    ensures forall a :: a in logs <==> a.uid in rows && rows[a.uid] == a
  {
    var rest := rows.Keys;
    logs := [];
    while rest != {}
      invariant rest <= rows.Keys
      invariant forall a :: a in logs <==> a.uid in rows.Keys - rest && rows[a.uid] == a
      decreases |rest|
    {
      var k :| k in rest;
      logs := logs + [rows[k]];
      rest := rest - {k};
    }
  }

  /** Sorted records begin with the smallest id and end with the greatest. */
  lemma SortedEnds(rows: map<nat, Record>, logs: seq<Record>, sorted: seq<Record>)
    requires forall k <- rows :: rows[k].uid == k
    requires forall a :: a in logs <==> a.uid in rows && rows[a.uid] == a
    requires logs != [] && multiset(sorted) == multiset(logs) && Sorting.Sorted(sorted, UidLess)
    ensures sorted != [] && sorted[0].uid in rows && sorted[|sorted| - 1].uid in rows
    ensures forall k <- rows :: sorted[0].uid <= k <= sorted[|sorted| - 1].uid
  {
    Sorting.Permutation(sorted, logs);
    assert logs[0] in sorted;
    assert sorted[0] in sorted && sorted[|sorted| - 1] in sorted;
    forall k <- rows
      ensures sorted[0].uid <= k <= sorted[|sorted| - 1].uid
    {
      assert rows[k] in logs && rows[k] in sorted;
      var i :| 0 <= i < |sorted| && sorted[i] == rows[k];
      assert i == 0 || !UidLess(sorted[i], sorted[0]);
      assert i == |sorted| - 1 || !UidLess(sorted[|sorted| - 1], sorted[i]);
    }
  }

  class DefaultDriver {
    const maxRecordCount: int
    var firstId: nat
    var currentId: nat
    var table: map<nat, Record>

    ghost function Model(): Driver
      reads this
    {
      Driver(maxRecordCount, firstId, currentId, table)
    }

    /** List the stored records in any order, sort them, take the first and the last id. */
    constructor (maxRecordCount: int, rows: map<nat, Record>)
      requires forall k <- rows :: rows[k].uid == k
      ensures ReloadOf(Driver(maxRecordCount, 0, 0, rows), Model())
    {
      this.maxRecordCount, table := maxRecordCount, rows;
      firstId, currentId := 0, 0;
      var logs := ListRecords(rows);
      assert forall k <- rows :: rows[k] in logs;
      if |logs| > 0 {
        var sorted := Sorting.GoSort(logs, UidLess);
        SortedEnds(rows, logs, sorted);
        firstId := sorted[0].uid;
        currentId := sorted[|sorted| - 1].uid;
      } else {
        assert rows == map[];
      }
    }

    method Add(text: string, evictOk: bool, writeOk: bool) returns (ok: bool)
      modifies this
      ensures ok == Succeeds(old(Model()), Call(text, evictOk, writeOk))
      ensures Model() == DoAdd(old(Model()), Call(text, evictOk, writeOk))
    {
      if WrapSub(currentId, firstId) > ToUint64(maxRecordCount - 2) {
        if !evictOk {
          return false;
        }
        table := table - {firstId};
        firstId := firstId + 1;
      }
      var id := currentId + 1;
      if !writeOk {
        return false;
      }
      table := table[id := Record(id, text)];
      currentId := id;
      return true;
    }
  }
}
