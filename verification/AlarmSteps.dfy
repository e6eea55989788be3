/** What each step does to the alarms, field by field. */
module AlarmSteps {
  import opened AlarmCache

  /** The namespace an alarm is kept in. */
  function KeptNamespace(a: Alarm): string {
    if a.kind in {"Node", "node", "Cluster", "cluster"} then "" else a.namespace
  }

  /** The last listed alarm differs from this one in some field other than id, time and flag. */
  ghost predicate DiffersFromLast(list: seq<Alarm>, a: Alarm) {
    list != [] ==>
      var last := list[|list| - 1];
      || last.cluster != a.cluster || last.namespace != KeptNamespace(a) || last.kind != a.kind
      || last.name != a.name || last.reason != a.reason || last.message != a.message
  }

  /** The alarm under its new id. */
  function Kept(a: Alarm, uid: nat): Alarm {
    Alarm(uid, a.time, a.cluster, KeptNamespace(a), a.kind, a.name, a.reason, a.message, a.acknowledged)
  }

  /** An add is taken exactly when no row has the next id and the last alarm differs in cluster,
      namespace, kind, name, reason or message; otherwise it changes nothing. A taken alarm is
      listed last and gets a row, with its own fields. */
  lemma AddDecides(c: Cache, a: Alarm, cutoff: int)
    ensures var c', b := DoAdd(c, a, cutoff), Kept(a, c.eventId + 1);
            if c.eventId + 1 !in c.table && DiffersFromLast(c.list, a)
            then c'.pending == c.pending + 1 && c'.eventId == c.eventId
                 && (|c.list| < 1000 ==> c'.list == c.list + [b] && c'.table == c.table[c.eventId + 1 := b])
            else c' == c
  {
    assert Normalized(a).(uid := c.eventId + 1) == Kept(a, c.eventId + 1);
  }

  /** When a thousand are listed already, a taken alarm is listed all the same, and then the first
      alarm is evicted with those right behind it up to the first one younger than the cutoff; as
      many rows go, counted up from the first id. */
  lemma AddEvicts(c: Cache, a: Alarm, cutoff: int) returns (n: nat)
    requires c.eventId + 1 !in c.table && DiffersFromLast(c.list, a) && |c.list| >= 1000
    ensures var c', b := DoAdd(c, a, cutoff), Kept(a, c.eventId + 1);
            var list, table := c.list + [b], c.table[c.eventId + 1 := b];
            && 0 < n <= |list| && (forall i :: 0 < i < n ==> list[i].time <= cutoff)
            && (n < |list| ==> list[n].time > cutoff)
            && c'.list == list[n..]
            && (forall k :: k in c'.table <==> k in table && !(list[0].uid <= k < list[0].uid + n))
            && (forall k <- c'.table :: c'.table[k] == table[k])
  {
    var b := Kept(a, c.eventId + 1);
    assert Normalized(a).(uid := c.eventId + 1) == b;
    EvictsCount(c.list + [b], cutoff);
    n := EvictCount(c.list + [b], cutoff);
  }

  lemma EvictsCount(list: seq<Alarm>, cutoff: int)
    requires list != []
    ensures var n := EvictCount(list, cutoff);
            (forall i :: 0 < i < n ==> list[i].time <= cutoff) && (n < |list| ==> list[n].time > cutoff)
  {
    PrefixIsOld(list[1..], cutoff);
    assert forall i :: 0 < i < |list| ==> list[i] == list[1..][i - 1];
  }

  lemma {:induction false} PrefixIsOld(list: seq<Alarm>, cutoff: int)
    ensures var n := OldPrefix(list, cutoff);
            (forall i :: 0 <= i < n ==> list[i].time <= cutoff) && (n < |list| ==> list[n].time > cutoff)
  {
    if list != [] && list[0].time <= cutoff {
      PrefixIsOld(list[1..], cutoff);
      assert forall i :: 0 < i < |list| ==> list[i] == list[1..][i - 1];
    }
  }

  /** Two finished adds that differ in any one of the fields are both listed, one behind the other,
      on top of any list with room for them whose last alarm differs from the first. */
  lemma DifferentAlarmsBothListed(c: Cache, a: Alarm, b: Alarm, cutoff: int)
    requires Inv(c) && c.pending == 0 && |c.list| + 2 <= 1000 && DiffersFromLast(c.list, a)
    requires || a.cluster != b.cluster || KeptNamespace(a) != KeptNamespace(b) || a.kind != b.kind
             || a.name != b.name || a.reason != b.reason || a.message != b.message
    ensures var c1 := Apply(Apply(c, AddLocked(a, cutoff)), Increment);
            var c2 := Apply(Apply(c1, AddLocked(b, cutoff)), Increment);
            c2.list == c.list + [Kept(a, c.eventId + 1), Kept(b, c.eventId + 2)] && c2.eventId == c.eventId + 2
  {
    AddDecides(c, a, cutoff);
    var x := Kept(a, c.eventId + 1);
    var c1 := Cache(c.list + [x], c.table[c.eventId + 1 := x], c.eventId + 1, 0);
    assert c.eventId + 1 !in c.table && c.eventId + 2 !in c.table;
    assert Apply(Apply(c, AddLocked(a, cutoff)), Increment) == c1;
    AddDecides(c1, b, cutoff);
    assert c.list + [x] + [Kept(b, c.eventId + 2)] == c.list + [x, Kept(b, c.eventId + 2)];
  }

  /** The same alarm again, right behind the first, is dropped. */
  lemma RepeatIsDropped(c: Cache, a: Alarm, b: Alarm, cutoff: int)
    requires c.list != [] && c.list[|c.list| - 1] == Kept(a, c.list[|c.list| - 1].uid)
    requires a.cluster == b.cluster && KeptNamespace(a) == KeptNamespace(b) && a.kind == b.kind
    requires a.name == b.name && a.reason == b.reason && a.message == b.message
    ensures DoAdd(c, b, cutoff) == c
  {
    AddDecides(c, b, cutoff);
  }

  /** An acknowledgement replaces the row and sets the flag of the listed alarm with that id, and
      nothing else; without such a row it changes nothing. */
  lemma AcknowledgeDecides(c: Cache, row: Alarm)
    ensures var c' := DoAcknowledge(c, row);
            && (row.uid !in c.table ==> c' == c)
            && (row.uid in c.table ==>
                  && c'.table == c.table[row.uid := row] && c'.eventId == c.eventId && c'.pending == c.pending
                  && |c'.list| == |c.list|
                  && forall i :: 0 <= i < |c.list| ==>
                                   if c.list[i].uid == row.uid
                                   then c'.list[i].acknowledged
                                        && c'.list[i] == c.list[i].(acknowledged := c'.list[i].acknowledged)
                                   else c'.list[i] == c.list[i])
  {
  }

  /** A cluster deletion takes away the listed alarms of the cluster and their rows, and no others,
      and keeps the order. */
  lemma DeleteDecides(c: Cache, cluster: string)
    requires Inv(c)
    ensures var c' := DoDeleteCluster(c, cluster);
            && c'.eventId == c.eventId && c'.pending == c.pending && Increasing(c'.list)
            && (forall a :: a in c'.list <==> a in c.list && a.cluster != cluster)
            && (forall k :: k in c'.table <==>
                              k in c.table && forall a <- c.list :: a.uid == k ==> a.cluster != cluster)
            && (forall k <- c'.table :: c'.table[k] == c.table[k])
  {
    OthersMembers(c.list, cluster);
    OthersIncreasing(c.list, cluster);
  }

  /** A restart lists the rows by id and continues behind the last one. */
  lemma RestartDecides(c: Cache, rows: seq<Alarm>)
    requires forall i, j :: 0 <= i < j < |rows| ==> rows[i].uid < rows[j].uid
    requires forall a :: a in rows <==> a.uid in c.table && c.table[a.uid] == a
    ensures Apply(c, Restart(rows)) == Cache(rows, c.table, if rows == [] then 0 else rows[|rows| - 1].uid, 0)
  {
  }
}
