/** The alarm cache in its own form: the list, the table and the counter updated in place. */
module AlarmStore {
  import opened Common
  import opened AlarmCache
  import opened AlarmListener
  import opened Words
  import Sorting

  predicate UidLess(a: Alarm, b: Alarm) {
    a.uid < b.uid
  }

  datatype Lookup = Panicked | Missing | Found(alarm: Alarm)

  ghost predicate DistinctIds(list: seq<Alarm>) {
    forall i, j :: 0 <= i < j < |list| ==> list[i].uid != list[j].uid
  }

  class AlarmStoreObject {
    var alarmList: seq<Alarm>
    var table: map<nat, Alarm>
    var eventId: nat
    ghost var pending: nat   // adds between their locked section and their increment

    ghost function Model(): Cache
      reads this
    {
      Cache(alarmList, table, eventId, pending)
    }

    /** A new process: load the rows and sort them. */
    constructor (rows: map<nat, Alarm>)
      requires forall k <- rows :: rows[k].uid == k
      ensures RowsOf(rows, alarmList)
      ensures Model() == Cache(alarmList, rows, LastUid(alarmList), 0)
    {
      table, pending := rows, 0;
      var list := LoadRows(rows);
      alarmList := list;
      eventId := if |list| > 0 then list[|list| - 1].uid else 0;
    }

    /** The locked section of `Add`. */
    method AddAlarm(alarm: Alarm, cutoff: int) returns (taken: bool)
      modifies this
      ensures taken <==> Takes(old(Model()), alarm)
      ensures Model() == DoAdd(old(Model()), alarm, cutoff)
    {
      var a := Normalized(alarm);
      if |alarmList| > 0 && IsRepeat(alarmList[|alarmList| - 1], a) {
        return false;
      }
      a := a.(uid := eventId + 1);
      if a.uid in table {
        return false;
      }
      table := table[a.uid := a];
      alarmList := alarmList + [a];
      pending := pending + 1;
      assert Model() == Pushed(old(Model()), Taken(old(Model()), alarm));
      if |alarmList| > MAX_ALARMS {
        DeleteOldest(cutoff);
      }
      return true;
    }

    /** The increment after the lock was released. */
    method FinishAdd()
      requires pending > 0
      modifies this
      ensures Model() == AlarmCache.Apply(old(Model()), AlarmCache.Increment)
    {
      eventId := eventId + 1;
      pending := pending - 1;
    }

    /** `Update`: replace the row, then mark the listed alarm. Without such a row it fails and
        changes nothing. When the alarm is not listed it fails, and on an empty list it panics,
        with the row replaced. */
    method Acknowledge(row: Alarm) returns (r: Lookup)
      requires DistinctIds(alarmList)
      modifies this
      ensures r.Found? <==> row.uid in old(table) && exists a <- old(alarmList) :: a.uid == row.uid
      ensures r.Panicked? <==> row.uid in old(table) && old(alarmList) == []
      ensures Model() == DoAcknowledge(old(Model()), row)
    {
      if row.uid !in table {
        return Missing;
      }
      table := table[row.uid := row];
      r := GetAlarmFromList(row.uid);
      if r.Found? {
        alarmList := Acked(alarmList, row.uid);
      } else {
        assert forall i :: 0 <= i < |alarmList| ==> alarmList[i] in alarmList;
        assert Acked(alarmList, row.uid) == alarmList;
      }
    }

    method DeleteOldest(cutoff: int)
      requires alarmList != []
      modifies this
      ensures Model() == Evicted(old(Model()), EvictCount(old(alarmList), cutoff))
    {
      var delNum := CountOld(cutoff);
      var firstId := alarmList[0].uid;
      for i := 0 to delNum
        invariant alarmList == old(alarmList)[i..]
        invariant table == map k <- old(table) | !(firstId <= k < firstId + i) :: old(table)[k]
        invariant eventId == old(eventId) && pending == old(pending)
      {
        table := table - {firstId + i};
        alarmList := alarmList[1..];
      }
    }

    method CountOld(cutoff: int) returns (delNum: nat)
      requires alarmList != []
      ensures delNum == EvictCount(alarmList, cutoff)
    {
      delNum := 1;
      while delNum < |alarmList| && !(cutoff < alarmList[delNum].time)
        invariant 1 <= delNum <= |alarmList|
        invariant EvictCount(alarmList, cutoff) == delNum + OldPrefix(alarmList[delNum..], cutoff)
      {
        assert alarmList[delNum..][1..] == alarmList[delNum + 1..];
        delNum := delNum + 1;
      }
    }

    /** Walk the list once, dropping the alarms of the cluster and their rows. */
    method DeleteAlarmForCluster(cluster: string)
      modifies this
      ensures Model() == DoDeleteCluster(old(Model()), cluster)
    {
      var kept := [];
      for j := 0 to |alarmList|
        modifies this`table
        invariant kept == Others(alarmList[..j], cluster)
        invariant table == old(table) - UidsOf(alarmList[..j], cluster)
      {
        ScanStep(alarmList, j, cluster);
        if alarmList[j].cluster == cluster {
          table := table - {alarmList[j].uid};
        } else {
          kept := kept + [alarmList[j]];
        }
      }
      assert alarmList[..|alarmList|] == alarmList;
      alarmList := kept;
    }

    /** Scan back while the ids are greater, then sort what was collected. */
    method GetAlarmsAfterId(id: nat) returns (alarms: seq<Alarm>)
      requires Increasing(alarmList)
      ensures alarms == After(alarmList, id)
    {
      var found, k := NewestFirst(id);
      AboveIsSuffix(alarmList, UidOf, id, k);
      alarms := Sorting.GoSort(found, UidLess);
      SortedIsSuffix(alarms, found, alarmList[k..]);
    }

    method NewestFirst(id: nat) returns (found: seq<Alarm>, k: nat)
      requires Increasing(alarmList)
      ensures k <= |alarmList| && forall i :: 0 <= i < |alarmList| ==> (alarmList[i].uid > id <==> i >= k)
      ensures Reverses(found, alarmList[k..])
    {
      found := [];
      k := |alarmList|;
      while k > 0 && alarmList[k - 1].uid > id
        invariant 0 <= k <= |alarmList|
        invariant forall i :: k <= i < |alarmList| ==> alarmList[i].uid > id
        invariant Reverses(found, alarmList[k..])
      {
        k := k - 1;
        found := found + [alarmList[k]];
        assert alarmList[k..] == [alarmList[k]] + alarmList[k + 1..];
      }
    }

    /** The alarm with the given id, sought from whichever end the unsigned distances call
        nearer; an empty list makes it panic. */
    method GetAlarmFromList(id: nat) returns (r: Lookup)
      requires DistinctIds(alarmList)
      ensures r.Panicked? <==> alarmList == []
      ensures r.Missing? <==> alarmList != [] && forall a <- alarmList :: a.uid != id
      ensures r.Found? ==> r.alarm in alarmList && r.alarm.uid == id
      ensures r.Found? ==> forall a <- alarmList | a.uid == id :: a == r.alarm
    {
      if alarmList == [] {
        return Panicked;
      }
      var begId := alarmList[0].uid;
      var endId := alarmList[|alarmList| - 1].uid;
      if WrapSub(id, begId) < WrapSub(endId, id) {
        r := FromOutdated(id);
      } else {
        r := FromLatest(id);
      }
      if r.Found? {
        forall a <- alarmList | a != r.alarm
          ensures a.uid != id
        {
          DistinctUids(alarmList, a, r.alarm);
        }
      }
    }

    method FromOutdated(id: nat) returns (r: Lookup)
      ensures !r.Panicked?
      ensures r.Missing? <==> forall a <- alarmList :: a.uid != id
      ensures r.Found? ==> r.alarm in alarmList && r.alarm.uid == id
    {
      for i := 0 to |alarmList|
        invariant forall j :: 0 <= j < i ==> alarmList[j].uid != id
      {
        if alarmList[i].uid == id {
          return Found(alarmList[i]);
        }
      }
      return Missing;
    }

    method FromLatest(id: nat) returns (r: Lookup)
      ensures !r.Panicked?
      ensures r.Missing? <==> forall a <- alarmList :: a.uid != id
      ensures r.Found? ==> r.alarm in alarmList && r.alarm.uid == id
    {
      for i := |alarmList| downto 0
        invariant forall j :: i <= j < |alarmList| ==> alarmList[j].uid != id
      {
        if alarmList[i].uid == id {
          return Found(alarmList[i]);
        }
      }
      return Missing;
    }
  }

  lemma ScanStep(all: seq<Alarm>, j: nat, cluster: string)
    requires j < |all|
    ensures Others(all[..j + 1], cluster) ==
            Others(all[..j], cluster) + if all[j].cluster == cluster then [] else [all[j]]
    ensures UidsOf(all[..j + 1], cluster) ==
            UidsOf(all[..j], cluster) + if all[j].cluster == cluster then {all[j].uid} else {}
  {
    assert all[..j + 1] == all[..j] + [all[j]] && all[..j + 1][..j] == all[..j];
  }

  /** The rows in whatever order the table yields them, then sorted by id. */
  method LoadRows(rows: map<nat, Alarm>) returns (list: seq<Alarm>)
    requires forall k <- rows :: rows[k].uid == k
    ensures RowsOf(rows, list)
  {
    var rest := rows.Keys;
    var found: seq<Alarm> := [];
    while rest != {}
      invariant rest <= rows.Keys
      invariant forall a: Alarm :: a in found <==> a.uid in rows.Keys - rest && rows[a.uid] == a
      invariant DistinctIds(found)
      decreases |rest|
    {
      var k :| k in rest;
      assert forall i :: 0 <= i < |found| ==> found[i] in found && found[i].uid !in rest;
      found := found + [rows[k]];
      rest := rest - {k};
    }
    list := Sorting.GoSort(found, UidLess);
    SortedIncreasing(list, found);
  }

  /** Sorting alarms with distinct ids makes the ids increase. */
  lemma SortedIncreasing(r: seq<Alarm>, s: seq<Alarm>)
    requires multiset(r) == multiset(s) && Sorting.Sorted(r, UidLess)
    requires DistinctIds(s)
    ensures Increasing(r) && forall a :: a in r <==> a in s
  {
    Sorting.Permutation(r, s);
    forall i, j | 0 <= i < j < |r|
      ensures r[i].uid < r[j].uid
    {
      assert !UidLess(r[j], r[i]);
      assert r[i] != r[j] && r[i] in s && r[j] in s;
      DistinctUids(s, r[i], r[j]);
    }
  }

  lemma DistinctUids(s: seq<Alarm>, a: Alarm, b: Alarm)
    requires DistinctIds(s)
    requires a in s && b in s && a != b
    ensures a.uid != b.uid
  {
  }

  ghost predicate Reverses(s: seq<Alarm>, t: seq<Alarm>) {
    |s| == |t| && forall i :: 0 <= i < |s| ==> s[i] == t[|t| - 1 - i]
  }

  lemma SortedIsSuffix(r: seq<Alarm>, s: seq<Alarm>, t: seq<Alarm>)
    requires multiset(r) == multiset(s) && Sorting.Sorted(r, UidLess) && Increasing(t) && Reverses(s, t)
    ensures r == t
  {
    SortedIncreasing(r, s);
    forall a
      ensures a in s <==> a in t
    {
      if a in t {
        var i :| 0 <= i < |t| && t[i] == a;
        assert s[|t| - 1 - i] == a;
      }
    }
    Sorting.StrictlySortedUnique(r, t, UidLess);
  }
}
