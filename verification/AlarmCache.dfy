/** The alarm cache: a list of alarms mirrored into a table, with eviction, cluster-wide
    deletion, restart and concurrent adds. An add is two steps: a section under the lock that
    takes the id `eventId + 1`, and a later atomic increment of `eventId`. */
module AlarmCache {

  const MAX_ALARMS: nat := 1000
  const CLUSTER_KINDS := {"Node", "node", "Cluster", "cluster"}

  datatype Alarm = Alarm(
    uid: nat, time: int, cluster: string, namespace: string, kind: string,
    name: string, reason: string, message: string, acknowledged: bool)

  datatype Cache = Cache(
    list: seq<Alarm>,
    table: map<nat, Alarm>,
    eventId: nat,
    pending: nat)   // adds that left the locked section and did not increment yet

  datatype Step =
    | AddLocked(alarm: Alarm, cutoff: int)   // cutoff: one month before now
    | Increment
    | DeleteCluster(cluster: string)
    | Acknowledge(row: Alarm)
    | Restart(rows: seq<Alarm>)

  // ---------------------------------------------------------------------------
  // Steps
  // ---------------------------------------------------------------------------

  predicate IsRepeat(a: Alarm, b: Alarm) {
    && a.cluster == b.cluster && a.namespace == b.namespace && a.kind == b.kind
    && a.reason == b.reason && a.message == b.message && a.name == b.name
  }

  function Normalized(a: Alarm): Alarm {
    if a.kind in CLUSTER_KINDS then a.(namespace := "") else a
  }

  /** How many alarms, from the front, are not younger than the cutoff. */
  function OldPrefix(list: seq<Alarm>, cutoff: int): (n: nat)
    ensures n <= |list|
  {
    if list == [] || cutoff < list[0].time then 0 else 1 + OldPrefix(list[1..], cutoff)
  }

  /** `deleteoldest` removes the first alarm and the old ones right behind it. */
  function EvictCount(list: seq<Alarm>, cutoff: int): (n: nat)
    requires list != []
    ensures 0 < n <= |list|
  {
    1 + OldPrefix(list[1..], cutoff)
  }

  /** The table keys it deletes are counted up from the first alarm's id. */
  function Evicted(c: Cache, n: nat): Cache
    requires 0 < n <= |c.list|
  {
    var first := c.list[0].uid;
    c.(list := c.list[n..], table := map k <- c.table | !(first <= k < first + n) :: c.table[k])
  }

  function Pushed(c: Cache, a: Alarm): Cache {
    c.(list := c.list + [a], table := c.table[a.uid := a], pending := c.pending + 1)
  }

  /** Whether the locked section of an add takes the alarm: it is not a repeat of the last
      one and the table has no row with its id. */
  predicate Takes(c: Cache, a: Alarm) {
    && !(c.list != [] && IsRepeat(c.list[|c.list| - 1], Normalized(a)))
    && c.eventId + 1 !in c.table
  }

  /** The alarm as it is stored, with the id the locked section gives it. */
  function Taken(c: Cache, a: Alarm): (b: Alarm)
    ensures b.uid == c.eventId + 1
  {
    Normalized(a).(uid := c.eventId + 1)
  }

  function DoAdd(c: Cache, a: Alarm, cutoff: int): Cache {
    if !Takes(c, a) then c
    else
      var c1 := Pushed(c, Taken(c, a));
      if |c1.list| > MAX_ALARMS then Evicted(c1, EvictCount(c1.list, cutoff)) else c1
  }

  /** The alarms of other clusters. */
  function Others(list: seq<Alarm>, cluster: string): seq<Alarm> {
    if list == [] then []
    else
      var rest := Others(list[..|list| - 1], cluster);
      var last := list[|list| - 1];
      if last.cluster == cluster then rest else rest + [last]
  }

  function DoDeleteCluster(c: Cache, cluster: string): Cache {
    c.(list := Others(c.list, cluster), table := c.table - UidsOf(c.list, cluster))
  }

  function UidsOf(list: seq<Alarm>, cluster: string): set<nat> {
    set a <- list | a.cluster == cluster :: a.uid
  }

  function Acked(list: seq<Alarm>, uid: nat): seq<Alarm> {
    seq(|list|, i requires 0 <= i < |list| =>
      if list[i].uid == uid then list[i].(acknowledged := true) else list[i])
  }

  /** The row is replaced first; without such a row the call fails. */
  function DoAcknowledge(c: Cache, row: Alarm): Cache {
    if row.uid !in c.table then c
    else c.(list := Acked(c.list, row.uid), table := c.table[row.uid := row])
  }

  ghost predicate Increasing(list: seq<Alarm>) {
    forall i, j :: 0 <= i < j < |list| ==> list[i].uid < list[j].uid
  }

  /** The rows of the table, sorted by id. */
  ghost predicate RowsOf(table: map<nat, Alarm>, rows: seq<Alarm>) {
    && Increasing(rows)
    && (forall a :: a in rows <==> a.uid in table && table[a.uid] == a)
  }

  function LastUid(list: seq<Alarm>): nat {
    if list == [] then 0 else list[|list| - 1].uid
  }

  ghost function Apply(c: Cache, s: Step): Cache {
    match s
    case AddLocked(a, cutoff) => DoAdd(c, a, cutoff)
    case Increment => if c.pending > 0 then c.(eventId := c.eventId + 1, pending := c.pending - 1) else c
    case DeleteCluster(cluster) => DoDeleteCluster(c, cluster)
    case Acknowledge(row) => DoAcknowledge(c, row)
    case Restart(rows) => if RowsOf(c.table, rows) then Cache(rows, c.table, LastUid(rows), 0) else c
  }

  ghost function Run(steps: seq<Step>): Cache {
    if steps == [] then Cache([], map[], 0, 0)
    else Apply(Run(steps[..|steps| - 1]), steps[|steps| - 1])
  }

  // ---------------------------------------------------------------------------
  // What every interleaving keeps
  // ---------------------------------------------------------------------------

  ghost predicate Inv(c: Cache) {
    && Increasing(c.list)
    && (forall a <- c.list :: a.uid in c.table)
    && (forall k <- c.table :: 0 < k <= c.eventId + (if c.pending > 0 then 1 else 0) && c.table[k].uid == k)
  }

  /** With the ids increasing, the counted keys never reach an alarm that stays. */
  lemma EvictionKeepsRows(c: Cache, n: nat)
    requires Inv(c) && 0 < n <= |c.list|
    ensures Inv(Evicted(c, n))
  {
    var c' := Evicted(c, n);
    forall a <- c'.list
      ensures a.uid in c'.table
    {
      var i :| 0 <= i < |c'.list| && c'.list[i] == a;
      assert a == c.list[n + i] && a in c.list;
      GrowsByOne(c.list, 0, n + i);
    }
    assert forall k <- c'.table :: k in c.table && c'.table[k] == c.table[k];
  }

  lemma {:induction false} GrowsByOne(list: seq<Alarm>, i: nat, j: nat)
    requires Increasing(list) && i <= j < |list|
    ensures list[j].uid >= list[i].uid + (j - i)
    decreases j
  {
    if i < j {
      GrowsByOne(list, i, j - 1);
    }
  }

  lemma AddKeeps(c: Cache, a: Alarm, cutoff: int)
    requires Inv(c)
    ensures Inv(DoAdd(c, a, cutoff))
  {
    if Takes(c, a) {
      var c1 := Pushed(c, Taken(c, a));
      forall i | 0 <= i < |c.list|
        ensures c.list[i].uid < c.eventId + 1
      {
        assert c.list[i] in c.list;
      }
      assert Inv(c1);
      if |c1.list| > MAX_ALARMS {
        EvictionKeepsRows(c1, EvictCount(c1.list, cutoff));
      }
    }
  }

  lemma {:induction false} OthersMembers(list: seq<Alarm>, cluster: string)
    ensures forall a :: a in Others(list, cluster) <==> a in list && a.cluster != cluster
  {
    if list != [] {
      var front, last := list[..|list| - 1], list[|list| - 1];
      OthersMembers(front, cluster);
      assert list == front + [last];
    }
  }

  lemma {:induction false} OthersIncreasing(list: seq<Alarm>, cluster: string)
    requires Increasing(list)
    ensures Increasing(Others(list, cluster))
  {
    if list != [] {
      var front, last := list[..|list| - 1], list[|list| - 1];
      OthersIncreasing(front, cluster);
      OthersMembers(front, cluster);
      var kept := Others(front, cluster);
      forall i | 0 <= i < |kept|
        ensures kept[i].uid < last.uid
      {
        assert kept[i] in kept && kept[i] in front;
      }
    }
  }

  lemma SameUid(list: seq<Alarm>, a: Alarm, b: Alarm)
    requires Increasing(list) && a in list && b in list && a.uid == b.uid
    ensures a == b
  {
  }

  lemma DeleteClusterKeeps(c: Cache, cluster: string)
    requires Inv(c)
    ensures Inv(DoDeleteCluster(c, cluster))
  {
    var c' := DoDeleteCluster(c, cluster);
    OthersMembers(c.list, cluster);
    OthersIncreasing(c.list, cluster);
    forall a <- c'.list
      ensures a.uid in c'.table
    {
      assert a in c.list;
      forall b <- c.list | b.cluster == cluster
        ensures b.uid != a.uid
      {
        if b.uid == a.uid {
          SameUid(c.list, a, b);
        }
      }
    }
    assert forall k <- c'.table :: k in c.table && c'.table[k] == c.table[k];
  }

  lemma AcknowledgeKeeps(c: Cache, row: Alarm)
    requires Inv(c)
    ensures Inv(DoAcknowledge(c, row))
  {
  }

  lemma RestartKeeps(c: Cache, rows: seq<Alarm>)
    requires Inv(c) && RowsOf(c.table, rows)
    ensures Inv(Apply(c, Restart(rows)))
  {
  }

  lemma StepKeeps(c: Cache, s: Step)
    requires Inv(c)
    ensures Inv(Apply(c, s))
  {
    match s
    case AddLocked(a, cutoff) => AddKeeps(c, a, cutoff);
    case Increment =>
    case DeleteCluster(cluster) => DeleteClusterKeeps(c, cluster);
    case Acknowledge(row) => AcknowledgeKeeps(c, row);
    case Restart(rows) =>
      if RowsOf(c.table, rows) {
        RestartKeeps(c, rows);
      }
  }

  lemma {:induction false} RunKeeps(steps: seq<Step>)
    ensures Inv(Run(steps))
  {
    if steps != [] {
      RunKeeps(steps[..|steps| - 1]);
      StepKeeps(Run(steps[..|steps| - 1]), steps[|steps| - 1]);
    }
  }

  /** Under any interleaving of adds, increments, evictions, cluster deletions, acknowledgements
      and restarts, ids grow strictly along the list, the last one is at most `eventId + 1`, and
      every listed alarm still has its row. */
  lemma InterleavingsKeepRows(steps: seq<Step>)
    ensures var c := Run(steps);
            && Increasing(c.list)
            && LastUid(c.list) <= c.eventId + 1
            && (forall a <- c.list :: a.uid in c.table)
            && (forall k <- c.table :: c.table[k].uid == k)
  {
    RunKeeps(steps);
    var c := Run(steps);
    if c.list != [] {
      assert c.list[|c.list| - 1] in c.list;
    }
  }

  // ---------------------------------------------------------------------------
  // When list and table hold the same ids
  // ---------------------------------------------------------------------------

  ghost predicate Listed(list: seq<Alarm>, k: nat) {
    exists i :: 0 <= i < |list| && list[i].uid == k
  }

  ghost predicate Mirrored(c: Cache) {
    forall k :: k in c.table <==> Listed(c.list, k)
  }

  /** An eviction that counts its way over a gap between ids. */
  ghost predicate CrossesGap(list: seq<Alarm>, n: nat)
    requires 0 < n <= |list|
  {
    list[n - 1].uid != list[0].uid + n - 1
  }

  /** Eviction keeps list and table exactly equal if and only if the evicted ids are
      consecutive; over a gap it leaves rows behind. */
  lemma EvictionKeepsMirror(c: Cache, n: nat)
    requires Inv(c) && Mirrored(c) && 0 < n <= |c.list|
    ensures Mirrored(Evicted(c, n)) <==> !CrossesGap(c.list, n)
  {
    if CrossesGap(c.list, n) {
      LeavesRow(c, n);
    } else {
      forall k
        ensures k in Evicted(c, n).table <==> Listed(c.list[n..], k)
      {
        KeptIds(c, n, k);
      }
    }
  }

  /** Over a gap, the last evicted alarm keeps its row. */
  lemma LeavesRow(c: Cache, n: nat)
    requires Increasing(c.list) && Mirrored(c) && 0 < n <= |c.list| && CrossesGap(c.list, n)
    ensures c.list[n - 1].uid in Evicted(c, n).table && !Listed(c.list[n..], c.list[n - 1].uid)
  {
    GrowsByOne(c.list, 0, n - 1);
    assert Listed(c.list, c.list[n - 1].uid);
  }

  lemma KeptIds(c: Cache, n: nat, k: nat)
    requires Increasing(c.list) && Mirrored(c) && 0 < n <= |c.list| && !CrossesGap(c.list, n)
    ensures k in Evicted(c, n).table <==> Listed(c.list[n..], k)
  {
  }

  lemma PushKeepsMirror(c: Cache, a: Alarm)
    requires Mirrored(c)
    ensures Mirrored(Pushed(c, a))
  {
    var c' := Pushed(c, a);
    forall k
      ensures k in c'.table <==> Listed(c'.list, k)
    {
      if k == a.uid {
        assert c'.list[|c.list|].uid == k;
      } else if k in c.table {
        var i :| 0 <= i < |c.list| && c.list[i].uid == k;
        assert c'.list[i].uid == k;
      }
    }
  }

  lemma DeleteClusterKeepsMirror(c: Cache, cluster: string)
    requires Inv(c) && Mirrored(c)
    ensures Mirrored(DoDeleteCluster(c, cluster))
  {
    var c' := DoDeleteCluster(c, cluster);
    OthersMembers(c.list, cluster);
    DeleteClusterKeeps(c, cluster);
    forall k
      ensures k in c'.table <==> Listed(c'.list, k)
    {
      if k in c'.table {
        var i :| 0 <= i < |c.list| && c.list[i].uid == k;
        assert c.list[i] in c.list && c.list[i] in c'.list;
      }
      if i :| 0 <= i < |c'.list| && c'.list[i].uid == k {
        assert c'.list[i] in c'.list;
      }
    }
  }

  /** The add that evicts over a gap. */
  ghost predicate EvictsOverGap(c: Cache, s: Step) {
    && s.AddLocked? && Takes(c, s.alarm)
    && var c1 := Pushed(c, Taken(c, s.alarm));
       |c1.list| > MAX_ALARMS && CrossesGap(c1.list, EvictCount(c1.list, s.cutoff))
  }

  /** Every step keeps list and table equal, except exactly an add that evicts over a gap. */
  lemma StepKeepsMirror(c: Cache, s: Step)
    requires Inv(c) && Mirrored(c)
    ensures Mirrored(Apply(c, s)) <==> !EvictsOverGap(c, s)
  {
    match s
    case AddLocked(a, cutoff) =>
      if Takes(c, a) {
        var c1 := Pushed(c, Taken(c, a));
        PushKeepsMirror(c, Taken(c, a));
        if |c1.list| > MAX_ALARMS {
          PushKeeps(c, Taken(c, a));
          EvictionKeepsMirror(c1, EvictCount(c1.list, cutoff));
        }
      }
    case Increment =>
    case DeleteCluster(cluster) => DeleteClusterKeepsMirror(c, cluster);
    case Acknowledge(row) =>
      if row.uid in c.table {
        AcknowledgeKeepsMirror(c, row);
      }
    case Restart(rows) =>
      if RowsOf(c.table, rows) {
        RowsMirrored(c.table, rows);
      }
  }

  lemma PushKeeps(c: Cache, a: Alarm)
    requires Inv(c) && a.uid == c.eventId + 1 && a.uid !in c.table
    ensures Inv(Pushed(c, a))
  {
  }

  lemma AcknowledgeKeepsMirror(c: Cache, row: Alarm)
    requires Mirrored(c) && row.uid in c.table
    ensures Mirrored(DoAcknowledge(c, row))
  {
    var list, table := Acked(c.list, row.uid), c.table[row.uid := row];
    assert forall i :: 0 <= i < |c.list| ==> list[i].uid == c.list[i].uid;
    forall k
      ensures k in table <==> Listed(list, k)
    {
      if k in c.table {
        var i :| 0 <= i < |c.list| && c.list[i].uid == k;
        assert list[i].uid == k;
      }
    }
  }

  /** A restart brings list and table back together. */
  lemma RowsMirrored(table: map<nat, Alarm>, rows: seq<Alarm>)
    requires RowsOf(table, rows) && forall k <- table :: table[k].uid == k
    ensures Mirrored(Cache(rows, table, LastUid(rows), 0))
  {
  }

  ghost predicate MirroredThroughout(steps: seq<Step>) {
    Mirrored(Run(steps)) && (steps != [] ==> MirroredThroughout(steps[..|steps| - 1]))
  }

  ghost predicate NeverOverGap(steps: seq<Step>) {
    steps != [] ==>
      var front := steps[..|steps| - 1];
      NeverOverGap(front) && !EvictsOverGap(Run(front), steps[|steps| - 1])
  }

  /** List and table hold the same ids all along an interleaving if and only if no add of it
      evicts over a gap. */
  lemma {:induction false} MirrorExact(steps: seq<Step>)
    ensures MirroredThroughout(steps) <==> NeverOverGap(steps)
  {
    if steps != [] {
      var front := steps[..|steps| - 1];
      MirrorExact(front);
      if MirroredThroughout(front) {
        RunKeeps(front);
        StepKeepsMirror(Run(front), steps[|steps| - 1]);
      }
    }
  }
}
