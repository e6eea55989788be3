/** A run of the alarm cache that evicts over a gap between ids: two alarms, the cluster of the
    second is deleted, then the list is filled up and the oldest alarms are evicted. */
module AlarmGap {
  import opened AlarmCache

  /** Alarm times count up with the ids; the first ten are older than a month at the end. */
  const CUTOFF := 10

  function Message(n: nat): string {
    if n % 2 == 0 then "x" else "y"
  }

  function Fresh(n: nat, cluster: string, message: string): Alarm {
    Alarm(0, n, cluster, "", "Pod", "p", "r", message, false)
  }

  const FIRST := Fresh(1, "a", "first")
  const SECOND := Fresh(2, "b", "second")

  const BASE: seq<Step> := [
    AddLocked(FIRST, CUTOFF), Increment,
    AddLocked(SECOND, CUTOFF), Increment,
    DeleteCluster("b")]

  function Add(n: nat): Step {
    AddLocked(Fresh(n, "a", Message(n)), CUTOFF)
  }

  /** `k` more alarms, each with its increment. */
  function Filling(base: seq<Step>, k: nat): seq<Step> {
    if k == 0 then base else Filling(base, k - 1) + [Add(k + 2)] + [Increment]
  }

  /** An add that is taken and evicts nothing, with its increment. */
  function Grown(c: Cache, a: Alarm): Cache {
    Pushed(c, Taken(c, a)).(eventId := c.eventId + 1, pending := c.pending)
  }

  lemma RunAdd(steps: seq<Step>, a: Alarm)
    requires Takes(Run(steps), a) && |Run(steps).list| < MAX_ALARMS
    ensures Run(steps + [AddLocked(a, CUTOFF)] + [Increment]) == Grown(Run(steps), a)
  {
    var one := steps + [AddLocked(a, CUTOFF)];
    assert one[..|steps|] == steps && (one + [Increment])[..|one|] == one;
  }

  /** The ids listed are 1, 3, 4, ... and the table holds no others. */
  ghost predicate Filled(c: Cache, k: nat) {
    && Inv(c) && Mirrored(c) && c.pending == 0 && c.eventId == k + 2
    && |c.list| == k + 1
    && c.list[0].uid == 1
    && (k > 0 ==> c.list[1].uid == 3 && c.list[1].time == 3)
    && c.list[k].message != Message(k + 3)
  }

  lemma OneAdd()
    ensures Run(BASE[..2]) == Cache([FIRST.(uid := 1)], map[1 := FIRST.(uid := 1)], 1, 0)
  {
    RunAdd([], FIRST);
    assert BASE[..2] == [] + [AddLocked(FIRST, CUTOFF)] + [Increment];
  }

  lemma TwoAdds()
    ensures var a, b := FIRST.(uid := 1), SECOND.(uid := 2);
            Run(BASE[..4]) == Cache([a, b], map[1 := a, 2 := b], 2, 0)
  {
    OneAdd();
    assert FIRST.message[0] != SECOND.message[0];
    RunAdd(BASE[..2], SECOND);
    assert BASE[..4] == BASE[..2] + [AddLocked(SECOND, CUTOFF)] + [Increment];
  }

  lemma BaseRun()
    ensures Run(BASE) == Cache([FIRST.(uid := 1)], map[1 := FIRST.(uid := 1)], 2, 0) && Mirrored(Run(BASE))
  {
    TwoAdds();
    DeletedSecond(FIRST.(uid := 1), SECOND.(uid := 2));
  }

  lemma DeletedSecond(a: Alarm, b: Alarm)
    requires a.uid == 1 && b.uid == 2 && a.cluster == "a" && b.cluster == "b"
    ensures var c := DoDeleteCluster(Cache([a, b], map[1 := a, 2 := b], 2, 0), "b");
            c == Cache([a], map[1 := a], 2, 0) && Mirrored(c)
  {
    var list := [a, b];
    assert a.cluster[0] != b.cluster[0];
    assert list[..1] == [a] && [a][..0] == [];
    assert Others([a], "b") == [] + [a];
    assert Others(list, "b") == Others(list[..1], "b");
    assert list[1] == b && UidsOf(list, "b") == {2};
    assert [a][0].uid == 1;
  }

  lemma NextIsTaken(c: Cache, k: nat)
    requires Filled(c, k)
    ensures Takes(c, Add(k + 3).alarm)
  {
  }

  lemma GrownKeeps(c: Cache, a: Alarm)
    requires Inv(c) && Mirrored(c) && Takes(c, a)
    ensures Inv(Grown(c, a)) && Mirrored(Grown(c, a))
  {
    PushKeeps(c, Taken(c, a));
    PushKeepsMirror(c, Taken(c, a));
  }

  lemma MessagesAlternate(n: nat)
    ensures Message(n) != Message(n + 1)
  {
    assert Message(n)[0] != Message(n + 1)[0];
  }

  lemma FilledStep(c: Cache, k: nat)
    requires Filled(c, k)
    ensures Filled(Grown(c, Add(k + 3).alarm), k + 1)
  {
    var a := Add(k + 3).alarm;
    NextIsTaken(c, k);
    GrownKeeps(c, a);
    MessagesAlternate(k + 3);
    var list := Grown(c, a).list;
    assert list[k + 1].message == Message(k + 3) && list[0] == c.list[0];
    assert list[1] == if k > 0 then c.list[1] else Taken(c, a);
  }

  /** The cache after `k` more alarms. */
  function CacheAt(c: Cache, k: nat): Cache {
    if k == 0 then c else Grown(CacheAt(c, k - 1), Add(k + 2).alarm)
  }

  lemma {:induction false} FilledAt(c: Cache, k: nat)
    requires Filled(c, 0)
    ensures Filled(CacheAt(c, k), k)
  {
    if k > 0 {
      FilledAt(c, k - 1);
      FilledStep(CacheAt(c, k - 1), k - 1);
    }
  }

  lemma {:induction false} FillingRun(base: seq<Step>, c: Cache, k: nat)
    requires k < MAX_ALARMS && Run(base) == c && Filled(c, 0)
    ensures Run(Filling(base, k)) == CacheAt(c, k)
  {
    if k > 0 {
      FillingRun(base, c, k - 1);
      FilledAt(c, k - 1);
      NextIsTaken(CacheAt(c, k - 1), k - 1);
      RunAdd(Filling(base, k - 1), Add(k + 2).alarm);
    }
  }

  lemma BaseFilled()
    ensures Filled(Run(BASE), 0)
  {
    BaseRun();
    RunKeeps(BASE);
    assert Run(BASE).list[0].uid == 1 && FIRST.message[0] != Message(3)[0];
  }

  lemma FullList()
    ensures Filled(Run(Filling(BASE, MAX_ALARMS - 1)), MAX_ALARMS - 1)
  {
    BaseFilled();
    FillingRun(BASE, Run(BASE), MAX_ALARMS - 1);
    FilledAt(Run(BASE), MAX_ALARMS - 1);
  }

  lemma FullEvictsOverGap(c: Cache)
    requires Filled(c, MAX_ALARMS - 1)
    ensures EvictsOverGap(c, Add(MAX_ALARMS + 2)) && !Mirrored(Apply(c, Add(MAX_ALARMS + 2)))
  {
    var s := Add(MAX_ALARMS + 2);
    NextIsTaken(c, MAX_ALARMS - 1);
    var c1 := Pushed(c, Taken(c, s.alarm));
    PushKeeps(c, Taken(c, s.alarm));
    var n := EvictCount(c1.list, CUTOFF);
    assert c1.list[1..][0] == c1.list[1] == c.list[1];
    assert n >= 2;
    GrowsByOne(c1.list, 1, n - 1);
    StepKeepsMirror(c, s);
  }

  /** The add that finds the list full evicts over the missing id 2, and leaves rows behind. */
  lemma GapIsReached()
    ensures var c, s := Run(Filling(BASE, MAX_ALARMS - 1)), Add(MAX_ALARMS + 2);
            EvictsOverGap(c, s) && Mirrored(c) && !Mirrored(Apply(c, s))
  {
    FullList();
    FullEvictsOverGap(Run(Filling(BASE, MAX_ALARMS - 1)));
  }
}
