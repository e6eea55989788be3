/** What an alarm listener receives. */
module AlarmListener {
  import opened Common
  import opened AlarmCache

  /** The alarms with an id greater than the argument, in order. */
  function After(list: seq<Alarm>, id: nat): seq<Alarm> {
    Above(list, UidOf, id)
  }

  function UidOf(a: Alarm): nat {
    a.uid
  }

  /** The cache, one listener, and the alarms taken with an id above its starting id. */
  datatype World = World(cache: Cache, start: nat, lastId: nat, delivered: seq<Alarm>, added: seq<Alarm>)

  datatype Step =
    | Add(alarm: Alarm, cutoff: int)
    | Increment
    | Acknowledge(row: Alarm)
    | Delete(cluster: string)
    | Poll

  /** The listener starts at the current `eventId`. */
  function Subscribe(c: Cache): World {
    World(c, c.eventId, c.eventId, [], After(c.list, c.eventId))
  }

  /** One round of `publishEvent` moves the position by the number of alarms it sends. */
  function DoPoll(w: World): World {
    var alarms := After(w.cache.list, w.lastId);
    w.(lastId := w.lastId + |alarms|, delivered := w.delivered + alarms)
  }

  function Apply(w: World, s: Step): World {
    match s
    case Add(a, cutoff) =>
      var c := w.cache;
      w.(cache := DoAdd(c, a, cutoff),
         added := if Takes(c, a) then w.added + [Taken(c, a)] else w.added)
    case Increment =>
      if w.cache.pending == 0 then w
      else w.(cache := w.cache.(eventId := w.cache.eventId + 1, pending := w.cache.pending - 1))
    case Acknowledge(row) => w.(cache := DoAcknowledge(w.cache, row))
    case Delete(cluster) => w.(cache := DoDeleteCluster(w.cache, cluster))
    case Poll => DoPoll(w)
  }

  ghost predicate EvictsUpTo(list: seq<Alarm>, cutoff: int, id: nat) {
    |list| > MAX_ALARMS ==> forall i :: 0 <= i < EvictCount(list, cutoff) ==> list[i].uid <= id
  }

  ghost function Run(c: Cache, steps: seq<Step>): World {
    if steps == [] then Subscribe(c)
    else Apply(Run(c, steps[..|steps| - 1]), steps[|steps| - 1])
  }

  /** An add does not evict an alarm the listener has still to receive; a deletion takes away
      neither such an alarm nor the alarm of an add in flight. */
  ghost predicate KeepsPlace(w: World, s: Step) {
    match s
    case Add(a, cutoff) =>
      Takes(w.cache, a) ==> EvictsUpTo(w.cache.list + [Taken(w.cache, a)], cutoff, w.lastId)
    case Delete(cluster) =>
      && (forall a <- After(w.cache.list, w.lastId) :: a.cluster != cluster)
      && !DeletesInFlight(w.cache, cluster)
    case _ => true
  }

  ghost predicate DeletesInFlight(c: Cache, cluster: string) {
    c.pending == 1 && c.list != [] && c.list[|c.list| - 1].cluster == cluster
  }

  ghost predicate AlwaysKeepsPlace(c: Cache, steps: seq<Step>) {
    steps != [] ==>
      && AlwaysKeepsPlace(c, steps[..|steps| - 1])
      && KeepsPlace(Run(c, steps[..|steps| - 1]), steps[|steps| - 1])
  }

  // ---------------------------------------------------------------------------
  // The invariant
  // ---------------------------------------------------------------------------

  /** At most one add is between its two steps, and its alarm is the last one listed. */
  ghost predicate Settled(c: Cache) {
    && Inv(c) && c.pending <= 1
    && (c.pending == 1 ==> LastUid(c.list) == c.eventId + 1)
  }

  /** From the given id on, ids follow each other without a gap. */
  ghost predicate Follows(s: seq<Alarm>, id: nat) {
    forall i :: 0 <= i < |s| ==> s[i].uid == id + 1 + i
  }

  /** The same alarms but for the acknowledged flag, which an acknowledgement sets behind the
      listener's back. */
  ghost predicate SameButFlag(s: seq<Alarm>, t: seq<Alarm>) {
    |s| == |t| && forall i :: 0 <= i < |s| ==> s[i].(acknowledged := t[i].acknowledged) == t[i]
  }

  /** The listener's position, given what is ahead of it. */
  ghost predicate Position(w: World, ahead: seq<Alarm>) {
    && w.start <= w.lastId
    && w.lastId + |ahead| == w.cache.eventId + w.cache.pending
    && Follows(ahead, w.lastId)
    && w.lastId == w.start + |w.delivered|
    && Follows(w.delivered, w.start)
    && SameButFlag(w.added, w.delivered + ahead)
  }

  ghost predicate LInv(w: World) {
    Settled(w.cache) && Position(w, After(w.cache.list, w.lastId))
  }

  lemma AfterAppend(list: seq<Alarm>, a: Alarm, id: nat)
    ensures After(list + [a], id) == if a.uid > id then After(list, id) + [a] else After(list, id)
  {
  }

  /** Dropping alarms the listener already has does not change what is ahead of it. */
  lemma {:induction false} AfterDrop(list: seq<Alarm>, id: nat, n: nat)
    requires n <= |list| && forall i :: 0 <= i < n ==> list[i].uid <= id
    ensures After(list[n..], id) == After(list, id)
  {
    if |list| == n {
      AboveIsSuffix(list, UidOf, id, n);
      assert list[n..] == [];
    } else {
      var front := list[..|list| - 1];
      AfterDrop(front, id, n);
      assert list[n..][..|list[n..]| - 1] == front[n..];
      assert list[n..][|list[n..]| - 1] == list[|list| - 1];
    }
  }

  /** While an add is between its two steps its row makes every other add give up. */
  lemma TakesWhenIdle(c: Cache, a: Alarm)
    requires Settled(c) && Takes(c, a)
    ensures c.pending == 0
  {
  }

  /** A taken alarm ends up last, right behind what the listener has still to receive. */
  lemma TakenAhead(c: Cache, a: Alarm, cutoff: int, lastId: nat)
    requires Takes(c, a) && lastId <= c.eventId
    requires EvictsUpTo(c.list + [Taken(c, a)], cutoff, lastId)
    ensures var c' := DoAdd(c, a, cutoff);
            && After(c'.list, lastId) == After(c.list, lastId) + [Taken(c, a)]
            && LastUid(c'.list) == c.eventId + 1
            && c'.pending == c.pending + 1 && c'.eventId == c.eventId
  {
    var b := Taken(c, a);
    var list := c.list + [b];
    AfterAppend(c.list, b, lastId);
    if |list| > MAX_ALARMS {
      var n := EvictCount(list, cutoff);
      assert list[|list| - 1] == b;
      assert n < |list|;
      AfterDrop(list, lastId, n);
    }
  }

  lemma ExtendAhead(w: World, c: Cache, b: Alarm)
    requires LInv(w) && w.cache.pending == 0
    requires Inv(c) && c.pending == 1 && c.eventId == w.cache.eventId && LastUid(c.list) == c.eventId + 1
    requires After(c.list, w.lastId) == After(w.cache.list, w.lastId) + [b] && b.uid == c.eventId + 1
    ensures LInv(w.(cache := c, added := w.added + [b]))
  {
  }

  /** Where the ids of the list cross the given one. */
  lemma {:induction false} SplitPoint(list: seq<Alarm>, id: nat) returns (k: nat)
    requires Increasing(list)
    ensures k <= |list| && forall i :: 0 <= i < |list| ==> (list[i].uid > id <==> i >= k)
  {
    if list == [] || list[|list| - 1].uid <= id {
      k := |list|;
    } else {
      k := SplitPoint(list[..|list| - 1], id);
    }
  }

  /** Evicting an alarm the listener has still to receive shortens what is ahead of it. */
  lemma EvictedAhead(list: seq<Alarm>, id: nat, n: nat, i: nat)
    requires Increasing(list) && i < n <= |list| && list[i].uid > id
    ensures |After(list[n..], id)| < |After(list, id)|
  {
    var k := SplitPoint(list, id);
    AboveIsSuffix(list, UidOf, id, k);
    AboveIsSuffix(list[n..], UidOf, id, 0);
  }

  lemma AddKeepsListener(w: World, a: Alarm, cutoff: int)
    requires LInv(w) && KeepsPlace(w, Add(a, cutoff))
    ensures LInv(Apply(w, Add(a, cutoff)))
  {
    var c := w.cache;
    if Takes(c, a) {
      TakesWhenIdle(c, a);
      TakenAhead(c, a, cutoff, w.lastId);
      AddKeeps(c, a, cutoff);
      ExtendAhead(w, DoAdd(c, a, cutoff), Taken(c, a));
    } else {
      assert Apply(w, Add(a, cutoff)) == w;
    }
  }

  lemma AddShortens(c: Cache, a: Alarm, cutoff: int, lastId: nat)
    requires Inv(c) && Takes(c, a) && !EvictsUpTo(c.list + [Taken(c, a)], cutoff, lastId)
    ensures |After(DoAdd(c, a, cutoff).list, lastId)| <= |After(c.list, lastId)|
    ensures DoAdd(c, a, cutoff).pending == c.pending + 1 && DoAdd(c, a, cutoff).eventId == c.eventId
  {
    var list := c.list + [Taken(c, a)];
    var n := EvictCount(list, cutoff);
    var i :| 0 <= i < n && list[i].uid > lastId;
    PushKeeps(c, Taken(c, a));
    assert list == Pushed(c, Taken(c, a)).list;
    EvictedAhead(list, lastId, n, i);
    AfterAppend(c.list, Taken(c, a), lastId);
  }

  lemma AddLosesPlace(w: World, a: Alarm, cutoff: int)
    requires LInv(w) && !KeepsPlace(w, Add(a, cutoff))
    ensures !LInv(Apply(w, Add(a, cutoff)))
  {
    AddShortens(w.cache, a, cutoff, w.lastId);
  }

  lemma PollKeepsListener(w: World)
    requires LInv(w)
    ensures LInv(DoPoll(w))
  {
    var w' := DoPoll(w);
    assert forall i :: 0 <= i < |w.cache.list| ==> w.cache.list[i] in w.cache.list;
    assert forall a <- w.cache.list :: a.uid <= w'.lastId;
    AboveIsSuffix(w.cache.list, UidOf, w'.lastId, |w.cache.list|);
  }

  /** Deleting a cluster and looking ahead commute. */
  lemma {:induction false} AfterOthers(list: seq<Alarm>, cluster: string, id: nat)
    ensures After(Others(list, cluster), id) == Others(After(list, id), cluster)
  {
    if list != [] {
      var front, last := list[..|list| - 1], list[|list| - 1];
      AfterOthers(front, cluster, id);
      AfterAppend(Others(front, cluster), last, id);
      OthersAppend(After(front, id), last, cluster);
    }
  }

  lemma OthersAppend(s: seq<Alarm>, a: Alarm, cluster: string)
    ensures Others(s + [a], cluster) == if a.cluster == cluster then Others(s, cluster) else Others(s, cluster) + [a]
  {
    assert (s + [a])[..|s|] == s;
  }

  /** A deletion leaves a list as it is, or shortens it. */
  lemma {:induction false} OthersLength(s: seq<Alarm>, cluster: string)
    ensures (forall a <- s :: a.cluster != cluster) ==> Others(s, cluster) == s
    ensures (exists a <- s :: a.cluster == cluster) ==> |Others(s, cluster)| < |s|
    ensures |Others(s, cluster)| <= |s|
  {
    if s != [] {
      var front, last := s[..|s| - 1], s[|s| - 1];
      assert s == front + [last];
      OthersLength(front, cluster);
    }
  }

  lemma DeletedAhead(list: seq<Alarm>, cluster: string, id: nat)
    ensures var ahead, left := After(list, id), After(Others(list, cluster), id);
            if forall a <- ahead :: a.cluster != cluster then left == ahead else |left| < |ahead|
  {
    AfterOthers(list, cluster, id);
    OthersLength(After(list, id), cluster);
  }

  lemma SamePosition(w: World, c: Cache, ahead: seq<Alarm>, left: seq<Alarm>)
    requires Position(w, ahead) && c.eventId == w.cache.eventId && c.pending == w.cache.pending
    requires left == ahead || |left| < |ahead|
    ensures Position(w.(cache := c), left) <==> left == ahead
  {
  }

  /** A deletion keeps the listener's place exactly when it takes nothing from ahead of it and
      leaves the add in flight its alarm. */
  lemma DeleteExact(w: World, cluster: string)
    requires LInv(w)
    ensures LInv(Apply(w, Delete(cluster))) <==> KeepsPlace(w, Delete(cluster))
  {
    var list, c := w.cache.list, DoDeleteCluster(w.cache, cluster);
    SettledDelete(w.cache, cluster);
    DeletedAhead(list, cluster, w.lastId);
    SamePosition(w, c, After(list, w.lastId), After(c.list, w.lastId));
  }

  /** A poll sends exactly the listed alarms with an id above the position, in order, and moves the
      position by their number. */
  lemma PollSends(w: World) returns (k: nat)
    requires Increasing(w.cache.list)
    ensures k <= |w.cache.list|
    ensures forall i :: 0 <= i < |w.cache.list| ==> (w.cache.list[i].uid > w.lastId <==> i >= k)
    ensures Apply(w, Poll) ==
            w.(lastId := w.lastId + (|w.cache.list| - k), delivered := w.delivered + w.cache.list[k..])
  {
    k := SplitPoint(w.cache.list, w.lastId);
    AboveIsSuffix(w.cache.list, UidOf, w.lastId, k);
  }

  lemma {:induction false} AfterAcked(list: seq<Alarm>, uid: nat, id: nat)
    ensures SameButFlag(After(Acked(list, uid), id), After(list, id))
  {
    if list != [] {
      var front := list[..|list| - 1];
      AfterAcked(front, uid, id);
      assert Acked(list, uid)[..|list| - 1] == Acked(front, uid);
    }
  }

  lemma AcknowledgeKeepsListener(w: World, row: Alarm)
    requires LInv(w)
    ensures LInv(w.(cache := DoAcknowledge(w.cache, row)))
  {
    if row.uid in w.cache.table {
      AcknowledgeKeeps(w.cache, row);
      AfterAcked(w.cache.list, row.uid, w.lastId);
      SameAhead(w, w.(cache := DoAcknowledge(w.cache, row)),
                After(w.cache.list, w.lastId), After(Acked(w.cache.list, row.uid), w.lastId));
    }
  }

  lemma SameAhead(w: World, w': World, ahead: seq<Alarm>, ahead': seq<Alarm>)
    requires Position(w, ahead) && SameButFlag(ahead', ahead)
    requires w' == w.(cache := w'.cache) && w'.cache.eventId == w.cache.eventId && w'.cache.pending == w.cache.pending
    ensures Position(w', ahead')
  {
    forall i | 0 <= i < |ahead|
      ensures ahead'[i].uid == ahead[i].uid
    {
      assert ahead'[i].(acknowledged := ahead[i].acknowledged) == ahead[i];
    }
  }

  /** A step keeps the listener in place if and only if it evicts and deletes nothing ahead of it
      and leaves the add in flight its alarm. */
  lemma StepExact(w: World, s: Step)
    requires LInv(w)
    ensures LInv(Apply(w, s)) <==> KeepsPlace(w, s)
  {
    match s
    case Add(a, cutoff) =>
      if KeepsPlace(w, s) {
        AddKeepsListener(w, a, cutoff);
      } else {
        AddLosesPlace(w, a, cutoff);
      }
    case Increment =>
    case Acknowledge(row) => AcknowledgeKeepsListener(w, row);
    case Delete(cluster) => DeleteExact(w, cluster);
    case Poll => PollKeepsListener(w);
  }

  ghost predicate InPlaceThroughout(c: Cache, steps: seq<Step>) {
    LInv(Run(c, steps)) && (steps != [] ==> InPlaceThroughout(c, steps[..|steps| - 1]))
  }

  /** The listener is in place all along a run if and only if every step keeps its place. */
  lemma {:induction false} RunExact(c: Cache, steps: seq<Step>)
    requires Settled(c)
    ensures InPlaceThroughout(c, steps) <==> AlwaysKeepsPlace(c, steps)
  {
    if steps == [] {
      SubscribeOk(c);
    } else {
      var front := steps[..|steps| - 1];
      RunExact(c, front);
      if InPlaceThroughout(c, front) {
        StepExact(Run(c, front), steps[|steps| - 1]);
      }
    }
  }

  /** Above the counter there is at most the alarm of the add in progress. */
  lemma AboveCounter(c: Cache)
    requires Settled(c)
    ensures |After(c.list, c.eventId)| == c.pending && Follows(After(c.list, c.eventId), c.eventId)
  {
    var k := |c.list| - c.pending;
    forall i | 0 <= i < |c.list|
      ensures c.list[i].uid > c.eventId <==> i >= k
    {
      assert c.list[i] in c.list;
      assert c.pending == 1 && i < k ==> c.list[i].uid < c.list[k].uid;
    }
    AboveIsSuffix(c.list, UidOf, c.eventId, k);
  }

  lemma SubscribeOk(c: Cache)
    requires Settled(c)
    ensures LInv(Subscribe(c))
  {
    AboveCounter(c);
    FirstPosition(Subscribe(c), After(c.list, c.eventId));
  }

  lemma FirstPosition(w: World, ahead: seq<Alarm>)
    requires w.start == w.lastId == w.cache.eventId && w.delivered == [] && w.added == ahead
    requires |ahead| == w.cache.pending && Follows(ahead, w.lastId)
    ensures Position(w, ahead)
  {
  }

  /** In runs of adds, increments, acknowledgements, cluster deletions and polls that keep the
      listener's place, what it has received is exactly the alarms taken above its starting id,
      each once, in id order, up to its position; the rest is still listed ahead of it. */
  lemma ListenerGetsEachOnce(c: Cache, steps: seq<Step>)
    requires Settled(c) && AlwaysKeepsPlace(c, steps)
    ensures var w := Run(c, steps);
            && w.lastId == w.start + |w.delivered|
            && |w.delivered| <= |w.added| && SameButFlag(w.added[..|w.delivered|], w.delivered)
            && SameButFlag(w.added, w.delivered + After(w.cache.list, w.lastId))
            && (forall i :: 0 <= i < |w.added| ==> w.added[i].uid == w.start + 1 + i)
  {
    RunExact(c, steps);
    PositionGivesAll(Run(c, steps), After(Run(c, steps).cache.list, Run(c, steps).lastId));
  }

  lemma PositionGivesAll(w: World, ahead: seq<Alarm>)
    requires Position(w, ahead)
    ensures |w.delivered| <= |w.added| && SameButFlag(w.added[..|w.delivered|], w.delivered)
    ensures forall i :: 0 <= i < |w.added| ==> w.added[i].uid == w.start + 1 + i
  {
    var all := w.delivered + ahead;
    assert forall i :: 0 <= i < |w.delivered| ==> all[i] == w.delivered[i];
    forall i | 0 <= i < |w.added|
      ensures w.added[i].uid == w.start + 1 + i
    {
      assert w.added[i].(acknowledged := all[i].acknowledged) == all[i];
    }
  }

  // ---------------------------------------------------------------------------
  // What goes wrong when the place is lost
  // ---------------------------------------------------------------------------

  ghost predicate Twice(s: seq<Alarm>, a: Alarm) {
    exists i, j :: 0 <= i < j < |s| && s[i] == a && s[j] == a
  }

  /** When there are fewer alarms ahead than ids, the count puts the position below the last id,
      and the next poll sends the last alarm again. */
  lemma LagRepeats(w: World)
    requires Increasing(w.cache.list) && After(w.cache.list, w.lastId) != []
    requires w.lastId + |After(w.cache.list, w.lastId)| < LastUid(w.cache.list)
    ensures Twice(DoPoll(DoPoll(w)).delivered, w.cache.list[|w.cache.list| - 1])
  {
    var list, w1 := w.cache.list, DoPoll(w);
    var last := list[|list| - 1];
    var first, again := After(list, w.lastId), After(list, w1.lastId);
    assert first[|first| - 1] == last && again[|again| - 1] == last;
    var all, i := DoPoll(w1).delivered, |w1.delivered| - 1;
    assert all[i] == last && all[|all| - 1] == last;
  }

  /** A deletion that takes an alarm from ahead of the listener, but not the last one, makes the
      last one arrive twice. */
  lemma DeletionRepeatsLast(w: World, cluster: string)
    requires LInv(w) && (exists a <- After(w.cache.list, w.lastId) :: a.cluster == cluster)
    requires w.cache.list != [] && w.cache.list[|w.cache.list| - 1].cluster != cluster
    ensures var w' := Apply(w, Delete(cluster));
            Twice(DoPoll(DoPoll(w')).delivered, w.cache.list[|w.cache.list| - 1])
  {
    var list, ahead := w.cache.list, After(w.cache.list, w.lastId);
    var w' := Apply(w, Delete(cluster));
    OthersIncreasing(list, cluster);
    AfterOthers(list, cluster, w.lastId);
    OthersLength(ahead, cluster);
    LastAhead(w);
    LagRepeats(w');
  }

  lemma LastAhead(w: World)
    requires LInv(w) && After(w.cache.list, w.lastId) != []
    ensures w.cache.list != []
    ensures var ahead := After(w.cache.list, w.lastId);
            ahead[|ahead| - 1] == w.cache.list[|w.cache.list| - 1]
            && LastUid(w.cache.list) == w.lastId + |ahead|
  {
    var k := SplitPoint(w.cache.list, w.lastId);
    AboveIsSuffix(w.cache.list, UidOf, w.lastId, k);
  }

  /** A deletion of the alarm of an add in flight lets the next add take the same id. */
  lemma DeletionReusesId(w: World, cluster: string, a: Alarm)
    requires LInv(w) && DeletesInFlight(w.cache, cluster)
    requires var list := DoDeleteCluster(w.cache, cluster).list;
             list != [] ==> !IsRepeat(list[|list| - 1], Normalized(a))
    ensures var c := Apply(w, Delete(cluster)).cache;
            Takes(c, a) && Taken(c, a).uid == LastUid(w.cache.list)
  {
    FreedId(w.cache, cluster);
  }

  /** And a listener that had received the deleted alarm does not get the new one. */
  lemma ReusedIdIsMissed(w: World, cluster: string, a: Alarm, cutoff: int)
    requires LInv(w) && DeletesInFlight(w.cache, cluster) && After(w.cache.list, w.lastId) == []
    requires Takes(DoDeleteCluster(w.cache, cluster), a) && |DoDeleteCluster(w.cache, cluster).list| < MAX_ALARMS
    ensures var w' := Apply(Apply(w, Delete(cluster)), Add(a, cutoff));
            && Taken(DoDeleteCluster(w.cache, cluster), a) in w'.cache.list
            && DoPoll(w').delivered == w.delivered
  {
    var c := DoDeleteCluster(w.cache, cluster);
    FreedId(w.cache, cluster);
    AfterOthers(w.cache.list, cluster, w.lastId);
    assert w.lastId == w.cache.eventId + 1 && After(c.list, w.lastId) == [];
    AddUnseen(w.(cache := c), a, cutoff);
  }

  /** An alarm under an id the listener has passed is listed but not sent. */
  lemma AddUnseen(w: World, a: Alarm, cutoff: int)
    requires Takes(w.cache, a) && |w.cache.list| < MAX_ALARMS
    requires After(w.cache.list, w.lastId) == [] && w.cache.eventId + 1 <= w.lastId
    ensures var w' := Apply(w, Add(a, cutoff));
            Taken(w.cache, a) in w'.cache.list && DoPoll(w').delivered == w.delivered
  {
    var b := Taken(w.cache, a);
    assert DoAdd(w.cache, a, cutoff) == Pushed(w.cache, b) && b in w.cache.list + [b];
    AfterAppend(w.cache.list, b, w.lastId);
    assert w.delivered + [] == w.delivered;
  }

  lemma FreedId(c: Cache, cluster: string)
    requires Settled(c) && DeletesInFlight(c, cluster)
    ensures DoDeleteCluster(c, cluster).eventId == c.eventId && LastUid(c.list) == c.eventId + 1
    ensures c.eventId + 1 !in DoDeleteCluster(c, cluster).table
  {
    var last := c.list[|c.list| - 1];
    assert last in c.list && last.uid in UidsOf(c.list, cluster);
  }

  // ---------------------------------------------------------------------------
  // Where settled states come from
  // ---------------------------------------------------------------------------

  /** An add that does not evict the very alarm it added. */
  ghost predicate KeepsNewest(c: Cache, a: Alarm, cutoff: int) {
    Takes(c, a) ==>
      var list := Pushed(c, Taken(c, a)).list;
      |list| > MAX_ALARMS ==> EvictCount(list, cutoff) < |list|
  }

  /** The step does not take the alarm of an add away before its increment. */
  ghost predicate KeepsInFlight(c: Cache, s: AlarmCache.Step) {
    match s
    case AddLocked(a, cutoff) => KeepsNewest(c, a, cutoff)
    case DeleteCluster(cluster) => !DeletesInFlight(c, cluster)
    case _ => true
  }

  lemma SettledAdd(c: Cache, a: Alarm, cutoff: int)
    requires Settled(c)
    ensures Settled(DoAdd(c, a, cutoff)) <==> KeepsNewest(c, a, cutoff)
  {
    AddKeeps(c, a, cutoff);
    if Takes(c, a) {
      TakesWhenIdle(c, a);
      var list := Pushed(c, Taken(c, a)).list;
      assert list[|list| - 1].uid == c.eventId + 1;
    }
  }

  lemma SettledDelete(c: Cache, cluster: string)
    requires Settled(c)
    ensures Settled(DoDeleteCluster(c, cluster)) <==> !DeletesInFlight(c, cluster)
  {
    DeleteClusterKeeps(c, cluster);
    if c.pending == 1 {
      LastOther(c.list, cluster);
    }
  }

  /** A settled cache stays settled exactly under the steps that leave the add in flight its
      alarm. */
  lemma StaysSettled(c: Cache, s: AlarmCache.Step)
    requires Settled(c)
    ensures Settled(AlarmCache.Apply(c, s)) <==> KeepsInFlight(c, s)
  {
    match s
    case AddLocked(a, cutoff) => SettledAdd(c, a, cutoff);
    case DeleteCluster(cluster) => SettledDelete(c, cluster);
    case _ => StepKeeps(c, s);
  }

  /** The last alarm survives a deletion exactly when it is of another cluster. */
  lemma LastOther(list: seq<Alarm>, cluster: string)
    requires Increasing(list) && list != [] && list[|list| - 1].uid > 0
    ensures LastUid(Others(list, cluster)) == LastUid(list) <==> list[|list| - 1].cluster != cluster
  {
    var front := list[..|list| - 1];
    OthersMembers(front, cluster);
    var rest := Others(front, cluster);
    if rest != [] {
      assert rest[|rest| - 1] in rest && rest[|rest| - 1] in front;
    }
  }

  /** Since the process started, no step took the alarm of an add in flight away. */
  ghost predicate Undisturbed(steps: seq<AlarmCache.Step>) {
    steps != [] ==>
      var front, s := steps[..|steps| - 1], steps[|steps| - 1];
      || (s.Restart? && RowsOf(AlarmCache.Run(front).table, s.rows))
      || (Undisturbed(front) && KeepsInFlight(AlarmCache.Run(front), s))
  }

  lemma {:induction false} SettledRuns(steps: seq<AlarmCache.Step>)
    requires Undisturbed(steps)
    ensures Settled(AlarmCache.Run(steps))
  {
    if steps != [] {
      var front, s := steps[..|steps| - 1], steps[|steps| - 1];
      RunKeeps(front);
      if s.Restart? && RowsOf(AlarmCache.Run(front).table, s.rows) {
        RestartKeeps(AlarmCache.Run(front), s.rows);
      } else {
        SettledRuns(front);
        StaysSettled(AlarmCache.Run(front), s);
      }
    }
  }

  /** So a listener added after any such history of concurrent adds, deletions, acknowledgements
      and restarts receives each later alarm exactly once, in id order. */
  lemma LateListenerGetsEachOnce(history: seq<AlarmCache.Step>, steps: seq<Step>)
    requires Undisturbed(history) && AlwaysKeepsPlace(AlarmCache.Run(history), steps)
    ensures var w := Run(AlarmCache.Run(history), steps);
            && w.start == AlarmCache.Run(history).eventId
            && |w.delivered| <= |w.added| && SameButFlag(w.added[..|w.delivered|], w.delivered)
            && SameButFlag(w.added, w.delivered + After(w.cache.list, w.lastId))
            && (forall i :: 0 <= i < |w.added| ==> w.added[i].uid == w.start + 1 + i)
  {
    SettledRuns(history);
    ListenerGetsEachOnce(AlarmCache.Run(history), steps);
    StartIsFixed(AlarmCache.Run(history), steps);
  }

  lemma {:induction false} StartIsFixed(c: Cache, steps: seq<Step>)
    ensures Run(c, steps).start == c.eventId
  {
    if steps != [] {
      StartIsFixed(c, steps[..|steps| - 1]);
    }
  }

  lemma DeleteOnly(x: Alarm, eventId: nat)
    ensures DoDeleteCluster(Cache([x], map[x.uid := x], eventId, 1), x.cluster) == Cache([], map[], eventId, 1)
  {
    assert [x][..0] == [] && [x][0] == x;
    assert Others([x], x.cluster) == Others([], x.cluster) == [];
    assert UidsOf([x], x.cluster) == {x.uid};
  }

  /** An id given out twice: an add, the deletion of its cluster before the increment, and another
      add. */
  lemma IdGivenTwice(a: Alarm, b: Alarm, cutoff: int)
    ensures var steps := [AddLocked(a, cutoff), DeleteCluster(a.cluster)];
            && Takes(AlarmCache.Run([]), a) && Taken(AlarmCache.Run([]), a).uid == 1
            && Takes(AlarmCache.Run(steps), b) && Taken(AlarmCache.Run(steps), b).uid == 1
  {
    var add, del := AddLocked(a, cutoff), DeleteCluster(a.cluster);
    var x := Taken(Cache([], map[], 0, 0), a);
    assert [add][..0] == [] && [add, del][..1] == [add];
    assert AlarmCache.Run([add]) == Cache([x], map[1 := x], 0, 1);
    DeleteOnly(x, 0);
  }
}
