/** What a listener of the broadcast buffer receives over any run of adds and reads. */
module BroadcastRuns {
  import opened Common
  import opened BroadcastBuffer
  import opened Words

  /** One read that delivered something: the listener's position before it, the oldest id
      still buffered, and the entries handed over. */
  datatype Read<T> = Read(before: nat, oldest: nat, batch: seq<Entry<T>>)

  /** The buffer, all that was ever added, and one listener. Other listeners only read. */
  datatype World<T> = World(
    list: seq<Entry<T>>,
    added: seq<Entry<T>>,
    lastId: nat,
    delivered: seq<Entry<T>>,
    history: seq<Read<T>>)

  datatype Step<T> = Add(value: T) | Poll

  /** `start` is the id counter of a new buffer: 1 for events, 0 for logs. */
  datatype Params = Params(maxSize: nat, start: nat)

  function Apply<T>(p: Params, w: World<T>, s: Step<T>): World<T> {
    match s
    case Add(v) =>
      var e := Entry(p.start + 1 + |w.added|, v);
      w.(list := Pushed(w.list, e, p.maxSize), added := w.added + [e])
    case Poll =>
      var batch := Batch(w.list, w.lastId, p.maxSize / 4);
      if batch == [] then w else Received(w, batch)
  }

  function Received<T>(w: World<T>, batch: seq<Entry<T>>): World<T>
    requires batch != [] && w.list != []
  {
    w.(lastId := batch[|batch| - 1].id,
       delivered := w.delivered + batch,
       history := w.history + [Read(w.lastId, w.list[0].id, batch)])
  }

  function Run<T>(p: Params, steps: seq<Step<T>>): World<T> {
    if steps == [] then World([], [], 0, [], [])
    else Apply(p, Run(p, steps[..|steps| - 1]), steps[|steps| - 1])
  }

  // ---------------------------------------------------------------------------
  // The invariant
  // ---------------------------------------------------------------------------

  ghost predicate BufferOk<T>(p: Params, w: World<T>) {
    && (forall i :: 0 <= i < |w.added| ==> w.added[i].id == p.start + 1 + i)
    && |w.list| == Min(|w.added|, p.maxSize)
    && w.list == w.added[|w.added| - |w.list|..]
  }

  ghost predicate Increasing<T>(s: seq<Entry<T>>) {
    forall i, j :: 0 <= i < j < |s| ==> s[i].id < s[j].id
  }

  ghost predicate WasAdded<T>(p: Params, w: World<T>, e: Entry<T>) {
    p.start < e.id <= p.start + |w.added| && w.added[e.id - p.start - 1] == e
  }

  ghost predicate DeliveredOk<T>(p: Params, w: World<T>) {
    && Increasing(w.delivered)
    && (forall i :: 0 <= i < |w.delivered| ==> WasAdded(p, w, w.delivered[i]))
    && w.lastId == (if w.delivered == [] then 0 else w.delivered[|w.delivered| - 1].id)
  }

  /** An id the listener has passed was delivered, or was gone at a read that jumped over it. */
  ghost predicate Accounted<T>(w: World<T>, id: nat) {
    || (exists i :: 0 <= i < |w.delivered| && w.delivered[i].id == id)
    || (exists k :: 0 <= k < |w.history| && w.history[k].before < id < w.history[k].oldest)
  }

  ghost predicate Inv<T>(p: Params, w: World<T>) {
    BufferOk(p, w) && DeliveredOk(p, w) && forall id :: p.start < id <= w.lastId ==> Accounted(w, id)
  }

  lemma AddKeeps<T>(p: Params, w: World<T>, v: T)
    requires Inv(p, w)
    ensures Inv(p, Apply(p, w, Add(v)))
  {
    var w' := Apply(p, w, Add(v));
    assert w'.list == w'.added[|w'.added| - |w'.list|..];
    forall id | p.start < id <= w'.lastId
      ensures Accounted(w', id)
    {
      assert Accounted(w, id);
    }
  }

  /** Over the entries still buffered, a batch is a stretch beginning right after the given id
      or, if that is no longer buffered, at the oldest entry. */
  lemma BatchIsStretch<T>(start: nat, added: seq<Entry<T>>, off: nat, lastId: nat, size: nat) returns (a: nat, b: nat)
    requires forall i :: 0 <= i < |added| ==> added[i].id == start + 1 + i
    requires off <= |added| && (off == |added| || lastId <= start + |added|)
    ensures off <= a <= b <= |added|
    ensures Batch(added[off..], lastId, size) == added[a..b]
    ensures a < b ==> a == if lastId >= start + off then lastId - start else off
    ensures a == b ==> size == 0 || off == |added| || lastId == start + |added|
  {
    a := if off == |added| || lastId < start + off then off else lastId - start;
    NewerStretch(start, added, off, lastId, a);
    b := a + Min(size, |added| - a);
    assert added[a..][..b - a] == added[a..b];
  }

  lemma NewerStretch<T>(start: nat, added: seq<Entry<T>>, off: nat, lastId: nat, a: nat)
    requires forall i :: 0 <= i < |added| ==> added[i].id == start + 1 + i
    requires off <= a <= |added| && (off == |added| || a == if lastId < start + off then off else lastId - start)
    ensures Newer(added[off..], lastId) == added[a..]
  {
    var list := added[off..];
    forall i | 0 <= i < |list|
      ensures list[i].id > lastId <==> i >= a - off
    {
      assert list[i] == added[off + i];
    }
    AboveIsSuffix(list, IdOf, lastId, a - off);
    assert list[a - off..] == added[a..];
  }

  /** What a poll hands over, as a stretch of what was added. */
  lemma PolledBatch<T>(p: Params, w: World<T>) returns (a: nat, b: nat)
    requires BufferOk(p, w) && DeliveredOk(p, w)
    ensures a <= b <= |w.added| && a + |w.list| >= |w.added|
    ensures Batch(w.list, w.lastId, p.maxSize / 4) == w.added[a..b]
    ensures a < b ==> w.list != [] && w.list[0].id > p.start &&
                      p.start + 1 + a == if w.lastId + 1 >= w.list[0].id then w.lastId + 1 else w.list[0].id
    ensures a == b ==> p.maxSize < 4 || w.added == [] || w.lastId == p.start + |w.added|
  {
    var off := |w.added| - |w.list|;
    if w.delivered != [] {
      assert WasAdded(p, w, w.delivered[|w.delivered| - 1]);
    }
    a, b := BatchIsStretch(p.start, w.added, off, w.lastId, p.maxSize / 4);
    if w.list != [] {
      assert w.list[0] == w.added[off];
    }
  }

  /** Appending a later stretch keeps what was delivered in order. */
  lemma ExtendDelivered<T>(p: Params, w: World<T>, a: nat, b: nat, w': World<T>)
    requires BufferOk(p, w) && DeliveredOk(p, w) && a < b <= |w.added| && w.lastId <= p.start + a
    requires w'.added == w.added && w'.delivered == w.delivered + w.added[a..b] && w'.lastId == p.start + b
    ensures DeliveredOk(p, w')
  {
    var n := |w.delivered|;
    forall j | n <= j < |w'.delivered|
      ensures w'.delivered[j] == w.added[a + j - n]
    {
    }
    forall i, j | 0 <= i < j < |w'.delivered|
      ensures w'.delivered[i].id < w'.delivered[j].id
    {
      if i < n <= j {
        assert w.delivered[i].id <= w.delivered[n - 1].id;
      }
    }
    forall j | 0 <= j < |w'.delivered|
      ensures WasAdded(p, w', w'.delivered[j])
    {
      if j < n {
        assert WasAdded(p, w, w.delivered[j]);
      }
    }
  }

  lemma PollKeeps<T>(p: Params, w: World<T>)
    requires Inv(p, w)
    ensures Inv(p, Apply(p, w, Poll))
  {
    var a, b := PolledBatch(p, w);
    if a < b {
      var w' := Received(w, w.added[a..b]);
      assert w.added[a..b][b - a - 1] == w.added[b - 1];
      ExtendDelivered(p, w, a, b, w');
      forall id | p.start < id <= w'.lastId
        ensures Accounted(w', id)
      {
        ReceivedAccounted(p, w, a, b, id);
      }
    }
  }

  lemma ReceivedAccounted<T>(p: Params, w: World<T>, a: nat, b: nat, id: nat)
    requires BufferOk(p, w) && a < b <= |w.added| && w.list != []
    requires id <= w.lastId ==> Accounted(w, id)
    requires p.start + 1 + a == if w.lastId + 1 >= w.list[0].id then w.lastId + 1 else w.list[0].id
    requires p.start < id <= p.start + b
    ensures Accounted(Received(w, w.added[a..b]), id)
  {
    var w' := Received(w, w.added[a..b]);
    if id <= w.lastId {
      if k :| 0 <= k < |w.history| && w.history[k].before < id < w.history[k].oldest {
        assert w'.history[k] == w.history[k];
      } else {
        var i :| 0 <= i < |w.delivered| && w.delivered[i].id == id;
        assert w'.delivered[i] == w.delivered[i];
      }
    } else if id >= p.start + 1 + a {
      var i := id - (p.start + 1 + a);
      assert w'.delivered[|w.delivered| + i] == w.added[a..b][i] == w.added[a + i];
    } else {
      assert w'.history[|w.history|] == Read(w.lastId, w.list[0].id, w.added[a..b]);
    }
  }

  lemma {:induction false} RunKeeps<T>(p: Params, steps: seq<Step<T>>)
    ensures Inv(p, Run(p, steps))
  {
    if steps != [] {
      var front, s := steps[..|steps| - 1], steps[|steps| - 1];
      RunKeeps(p, front);
      match s
      case Add(v) => AddKeeps(p, Run(p, front), v);
      case Poll => PollKeeps(p, Run(p, front));
    }
  }

  // ---------------------------------------------------------------------------
  // Main results
  // ---------------------------------------------------------------------------

  /** In every run a listener receives a strictly increasing, duplicate-free subsequence of
      what was added, and every entry it passed without receiving had already been dropped at
      a read that jumped over it. */
  lemma DeliveredIsSubsequence<T>(p: Params, steps: seq<Step<T>>)
    ensures var w := Run(p, steps);
            && Increasing(w.delivered)
            && (forall i :: 0 <= i < |w.delivered| ==> WasAdded(p, w, w.delivered[i]))
            && (forall id :: p.start < id <= w.lastId ==> Accounted(w, id))
  {
    RunKeeps(p, steps);
  }

  /** A reader never asks for an id past the newest entry, so a read never panics; and a read
      that finds nothing means the listener is up to date. */
  lemma PollIsSafe<T>(p: Params, steps: seq<Step<T>>)
    requires p.maxSize >= 4
    ensures var w := Run(p, steps);
            && (w.list != [] ==> w.lastId <= w.list[|w.list| - 1].id)
            && (Apply(p, w, Poll) == w ==> w.added == [] || w.lastId == p.start + |w.added|)
  {
    var w := Run(p, steps);
    RunKeeps(p, steps);
    var a, b := PolledBatch(p, w);
    if w.delivered != [] {
      assert WasAdded(p, w, w.delivered[|w.delivered| - 1]);
    }
    if a < b {
      assert Apply(p, w, Poll).delivered != w.delivered;
    }
  }

  /** No read after the first found the listener's next entry already dropped. */
  ghost predicate NeverLapped<T>(w: World<T>) {
    forall k :: 0 < k < |w.history| ==> w.history[k].before + 1 >= w.history[k].oldest
  }

  /** The listener has all from the first read's oldest entry up to its position. */
  ghost predicate Gapless<T>(p: Params, w: World<T>) {
    && (w.history == [] <==> w.delivered == [])
    && (w.history != [] ==>
          var a, b := w.history[0].oldest - p.start - 1, w.lastId - p.start;
          0 <= a <= b <= |w.added| && w.delivered == w.added[a..b])
  }

  lemma {:induction false} NeverLappedIsGapless<T>(p: Params, steps: seq<Step<T>>)
    requires NeverLapped(Run(p, steps))
    ensures Gapless(p, Run(p, steps))
  {
    if steps != [] {
      var front, s := steps[..|steps| - 1], steps[|steps| - 1];
      NotLappedBefore(p, Run(p, front), s);
      NeverLappedIsGapless(p, front);
      RunKeeps(p, front);
      match s
      case Add(v) => AddGapless(p, Run(p, front), v);
      case Poll => PollGapless(p, Run(p, front));
    }
  }

  lemma NotLappedBefore<T>(p: Params, w: World<T>, s: Step<T>)
    requires NeverLapped(Apply(p, w, s))
    ensures NeverLapped(w)
  {
    var w' := Apply(p, w, s);
    assert forall k :: 0 <= k < |w.history| ==> w'.history[k] == w.history[k];
  }

  lemma AddGapless<T>(p: Params, w: World<T>, v: T)
    requires Gapless(p, w)
    ensures Gapless(p, Apply(p, w, Add(v)))
  {
  }

  lemma PollGapless<T>(p: Params, w: World<T>)
    requires BufferOk(p, w) && DeliveredOk(p, w) && Gapless(p, w) && NeverLapped(Apply(p, w, Poll))
    ensures Gapless(p, Apply(p, w, Poll))
  {
    var a, b := PolledBatch(p, w);
    if a < b {
      ReceivedGapless(p, w, a, b);
    }
  }

  lemma ReceivedGapless<T>(p: Params, w: World<T>, a: nat, b: nat)
    requires BufferOk(p, w) && Gapless(p, w) && a < b <= |w.added| && w.list != []
    requires w.delivered == [] ==> w.lastId == 0
    requires w.list[0].id > p.start
    requires p.start + 1 + a == if w.lastId + 1 >= w.list[0].id then w.lastId + 1 else w.list[0].id
    requires NeverLapped(Received(w, w.added[a..b]))
    ensures Gapless(p, Received(w, w.added[a..b]))
  {
    var w', k := Received(w, w.added[a..b]), |w.history|;
    assert w.added[a..b][b - a - 1] == w.added[b - 1];
    assert w'.history[k] == Read(w.lastId, w.list[0].id, w.added[a..b]);
    GaplessStretch(p, w, a, b, w');
  }

  lemma GaplessStretch<T>(p: Params, w: World<T>, a: nat, b: nat, w': World<T>)
    requires Gapless(p, w) && a < b <= |w.added|
    requires w'.added == w.added && w'.delivered == w.delivered + w.added[a..b] && w'.lastId == p.start + b
    requires w'.history != [] && w.history <= w'.history
    requires w.history == [] ==> w'.history[0].oldest == p.start + 1 + a
    requires w.history != [] ==> w.lastId == p.start + a
    ensures Gapless(p, w')
  {
    if w.history != [] {
      assert w'.history[0] == w.history[0];
      var first := w.history[0].oldest - p.start - 1;
      assert 0 <= first <= a && w.delivered == w.added[first..a];
      JoinSlices(w.added, first, a, b);
    }
  }

  lemma JoinSlices<T>(s: seq<T>, i: nat, j: nat, k: nat)
    requires i <= j <= k <= |s|
    ensures s[i..j] + s[j..k] == s[i..k]
  {
  }

  /** A listener that was never lapped has received every entry still buffered at its first
      read and everything after, up to its position, each exactly once and in order. */
  lemma NeverLappedGetsEverything<T>(p: Params, steps: seq<Step<T>>)
    requires NeverLapped(Run(p, steps)) && Run(p, steps).history != []
    ensures var w := Run(p, steps);
            var a, b := w.history[0].oldest - p.start - 1, w.lastId - p.start;
            0 <= a <= b <= |w.added| && w.delivered == w.added[a..b]
  {
    NeverLappedIsGapless(p, steps);
  }

  /** In every run the buffer is the latest stretch of what was added, of the allowed length. */
  lemma BufferIsLatest<T>(p: Params, steps: seq<Step<T>>)
    ensures var w := Run(p, steps);
            var n := if |w.added| < p.maxSize then |w.added| else p.maxSize;
            && w.list == w.added[|w.added| - n..]
            && forall i :: 0 <= i < |w.added| ==> w.added[i].id == p.start + 1 + i
  {
    RunKeeps(p, steps);
  }

  /** In every run a poll hands over the entries from the next id on, or from the oldest one left if
      that is gone: as many as a quarter of the buffer holds, or all there are. */
  lemma PollTakesNext<T>(p: Params, steps: seq<Step<T>>, w: World<T>)
    requires w == Run(p, steps) && w.list != []
    ensures var w' := Apply(p, w, Poll);
            var next := if w.lastId + 1 >= w.list[0].id then w.lastId + 1 else w.list[0].id;
            var available := p.start + |w.added| + 1 - next;
            var n := if available < p.maxSize / 4 then available else p.maxSize / 4;
            && 0 <= n && p.start < next <= p.start + |w.added| + 1
            && w'.delivered == w.delivered + w.added[next - p.start - 1..][..n]
            && w'.lastId == (if n == 0 then w.lastId else next + n - 1)
            && w'.list == w.list && w'.added == w.added
  {
    RunStretch(p, steps);
    TakesNext(p, w, |w.added| - |w.list|);
  }

  lemma RunStretch<T>(p: Params, steps: seq<Step<T>>)
    ensures var w := Run(p, steps);
            && |w.list| <= |w.added| && w.list == w.added[|w.added| - |w.list|..]
            && w.lastId <= p.start + |w.added|
            && forall i :: 0 <= i < |w.added| ==> w.added[i].id == p.start + 1 + i
  {
    RunKeeps(p, steps);
    PositionIsKnown(p, Run(p, steps));
  }

  lemma TakesNext<T>(p: Params, w: World<T>, off: nat)
    requires off < |w.added| && w.list == w.added[off..] && w.lastId <= p.start + |w.added|
    requires forall i :: 0 <= i < |w.added| ==> w.added[i].id == p.start + 1 + i
    ensures var next := if w.lastId + 1 >= w.list[0].id then w.lastId + 1 else w.list[0].id;
            var available := p.start + |w.added| + 1 - next;
            var n := if available < p.maxSize / 4 then available else p.maxSize / 4;
            && 0 <= n && p.start < next <= p.start + |w.added| + 1
            && Apply(p, w, Poll).delivered == w.delivered + w.added[next - p.start - 1..][..n]
            && Apply(p, w, Poll).lastId == (if n == 0 then w.lastId else next + n - 1)
  {
    var next := if w.lastId + 1 >= w.list[0].id then w.lastId + 1 else w.list[0].id;
    var a := next - p.start - 1;
    NewerStretch(p.start, w.added, off, w.lastId, a);
    assert w.added[a..][..0] == [] && w.delivered + [] == w.delivered;
  }

  // ---------------------------------------------------------------------------
  // The objects
  // ---------------------------------------------------------------------------

  /** The position is an id that was given out, at most that of the newest entry. */
  lemma PositionIsKnown<T>(p: Params, w: World<T>)
    requires BufferOk(p, w) && DeliveredOk(p, w)
    ensures w.lastId <= p.start + |w.added|
    ensures w.list != [] ==> w.list[|w.list| - 1].id == p.start + |w.added|
  {
    if w.delivered != [] {
      assert WasAdded(p, w, w.delivered[|w.delivered| - 1]);
    }
  }

  lemma ValuesAppend<T>(s: seq<Entry<T>>, t: seq<Entry<T>>)
    ensures Values(s + t) == Values(s) + Values(t)
  {
  }

  /** The objects are in the state of the run. */
  ghost predicate Matches<T(0)>(p: Params, r: World<T>, w: Watcher<T>, l: Listener<T>)
    reads w, l
  {
    && w.Valid() && w.maxSize == p.maxSize && w.eventId == p.start + |r.added| && w.list == r.list
    && l.lastId == r.lastId && l.sent == Values(r.delivered)
  }

  method DriveStep<T(0)>(p: Params, ghost r: World<T>, w: Watcher<T>, l: Listener<T>, s: Step<T>)
    requires Matches(p, r, w, l) && Inv(p, r) && p.start + |r.added| + 1 < WORD
    modifies w, l
    ensures Matches(p, Apply(p, r, s), w, l)
  {
    PositionIsKnown(p, r);
    match s {
      case Add(v) => w.Add(v);
      case Poll =>
        var panicked := l.Publish(w);
        assert !panicked;
        ValuesAppend(r.delivered, Batch(r.list, r.lastId, p.maxSize / 4));
    }
  }

  lemma {:induction false} AddedAtMost<T>(p: Params, steps: seq<Step<T>>)
    ensures |Run(p, steps).added| <= |steps|
  {
    if steps != [] {
      AddedAtMost(p, steps[..|steps| - 1]);
    }
  }

  /** A watcher and a listener driven through any steps do what the run says, and no read
      panics. */
  method Drive<T(0)>(p: Params, steps: seq<Step<T>>) returns (w: Watcher<T>, l: Listener<T>)
    requires p.start + |steps| < WORD
    ensures Matches(p, Run(p, steps), w, l)
  {
    w := new Watcher(p.maxSize, p.start);
    l := new Listener();
    for i := 0 to |steps|
      invariant fresh(w) && fresh(l) && Matches(p, Run(p, steps[..i]), w, l)
    {
      RunKeeps(p, steps[..i]);
      AddedAtMost(p, steps[..i]);
      assert steps[..i + 1][..i] == steps[..i];
      DriveStep(p, Run(p, steps[..i]), w, l, steps[i]);
    }
    assert steps[..|steps|] == steps;
  }
}
