/** The bounded broadcast buffer behind the Kubernetes event watcher and the ZKE log watcher:
    one producer appends entries with consecutive ids, the oldest entry is dropped when the
    buffer is full, and every listener reads batches from its own position. */
module BroadcastBuffer {
  import opened Common
  import opened Words

  datatype Entry<T> = Entry(id: nat, value: T)

  ghost predicate Consecutive<T>(list: seq<Entry<T>>) {
    forall i :: 0 <= i < |list| ==> list[i].id == list[0].id + i < WORD
  }

  /** The entries with an id greater than the argument, in order. */
  function Newer<T>(list: seq<Entry<T>>, id: nat): seq<Entry<T>> {
    Above(list, IdOf, id)
  }

  function IdOf<T>(e: Entry<T>): nat {
    e.id
  }

  function Min(a: nat, b: nat): nat {
    if a <= b then a else b
  }

  /** What one read hands to a listener. */
  function Batch<T>(list: seq<Entry<T>>, id: nat, size: nat): seq<Entry<T>> {
    var newer := Newer(list, id);
    newer[..Min(size, |newer|)]
  }

  /** The outcome of `getEventsAfterID`; a nil dereference is a panic. */
  datatype Fetched = Panicked | Fetched(lastId: nat, count: nat)

  class Watcher<T(0)> {
    const maxSize: nat
    var eventId: nat
    var list: seq<Entry<T>>

    /** What every watcher keeps: consecutive ids ending at the last id given out. */
    ghost predicate Valid()
      reads this
    {
      && Consecutive(list)
      && |list| <= maxSize
      && (list != [] ==> list[|list| - 1].id == eventId && list[0].id > 0)
      && eventId < WORD
    }

    constructor (maxSize: nat, start: nat)
      requires start < WORD
      ensures Valid() && this.maxSize == maxSize && eventId == start && list == []
    {
      this.maxSize, eventId, list := maxSize, start, [];
    }

    /** Append one entry and drop the oldest when there are too many. */
    method Add(value: T)
      requires Valid() && eventId + 1 < WORD
      modifies this
      ensures Valid() && eventId == old(eventId) + 1
      ensures list == Pushed(old(list), Entry(eventId, value), maxSize)
      ensures var all := old(list) + [Entry(old(eventId) + 1, value)];
              if |old(list)| < maxSize then list == all else list == all[1..]
    {
      eventId := eventId + 1;
      list := list + [Entry(eventId, value)];
      if |list| > maxSize {
        list := list[1..];
      }
    }

    /** The entries after `id`, as many as fit in `buf`. It panics exactly when `id` is past
        the newest entry of a nonempty buffer; otherwise, whichever end it seeks from, it
        returns the first of the newer entries and the id of the last one returned. */
    method GetAfterId(id: nat, buf: array<T>) returns (r: Fetched)
      requires Valid() && id < WORD
      modifies buf
      ensures r.Panicked? <==> list != [] && id > list[|list| - 1].id
      ensures r.Fetched? ==>
                var batch := Batch(list, id, buf.Length);
                && r.count == |batch|
                && (forall i :: 0 <= i < |batch| ==> buf[i] == batch[i].value)
                && (forall i :: |batch| <= i < buf.Length ==> buf[i] == old(buf[i]))
                && (batch != [] ==> r.lastId == batch[|batch| - 1].id)
      ensures list == [] ==> r == Fetched(0, 0)
      ensures r.Fetched? && list != [] ==>
                var next := if id + 1 >= list[0].id then id + 1 else list[0].id;
                var available := eventId + 1 - next;
                && r.count == (if available < buf.Length then available else buf.Length)
                && (forall i :: 0 <= i < r.count ==> buf[i] == list[next - list[0].id + i].value)
                && (r.count > 0 ==> r.lastId == next + r.count - 1)
    {
      r := Seek(id, buf);
      if r.Fetched? && list != [] {
        ReadMeans(list, id, old(buf[..]), buf[..], r);
      }
    }

    method Seek(id: nat, buf: array<T>) returns (r: Fetched)
      requires Valid() && id < WORD
      modifies buf
      ensures r.Panicked? <==> list != [] && id > list[|list| - 1].id
      ensures r.Fetched? ==> Filled(list, id, old(buf[..]), buf[..], r)
      ensures list == [] ==> r == Fetched(0, 0)
    {
      if list == [] {
        return Fetched(0, 0);
      }
      var begId := list[0].id;
      if id < begId {
        r := FromOutdated(id, buf);
        return;
      }
      var endId := list[|list| - 1].id;
      if id == endId {
        AboveIsSuffix(list, IdOf, id, |list|);
        return Fetched(0, 0);
      }
      if WrapSub(id, begId) < WrapSub(endId, id) {
        r := FromOutdated(id, buf);
      } else {
        r := FromLatest(id, buf);
      }
    }

    /** Walk forward from the oldest entry. */
    method FromOutdated(id: nat, buf: array<T>) returns (r: Fetched)
      requires Valid() && list != []
      modifies buf
      ensures r.Panicked? <==> id > list[|list| - 1].id || id == list[|list| - 1].id
      ensures r.Fetched? ==> Filled(list, id, old(buf[..]), buf[..], r)
    {
      var i := 0;
      while i < |list| && list[i].id <= id
        invariant 0 <= i <= |list|
        invariant forall j :: 0 <= j < i ==> list[j].id <= id
      {
        i := i + 1;
      }
      if i == |list| {
        assert list[|list| - 1].id <= id;
        return Panicked;
      }
      AboveIsSuffix(list, IdOf, id, i);
      r := FromElem(id, i, buf);
    }

    /** Walk backward from the newest entry, then step forward once. */
    method FromLatest(id: nat, buf: array<T>) returns (r: Fetched)
      requires Valid() && list != [] && id >= list[0].id
      modifies buf
      ensures r.Panicked? <==> id >= list[|list| - 1].id
      ensures r.Fetched? ==> Filled(list, id, old(buf[..]), buf[..], r)
    {
      var i := |list| - 1;
      while list[i].id > id
        invariant 0 <= i < |list|
        invariant forall j :: i < j < |list| ==> list[j].id > id
        decreases i
      {
        i := i - 1;
      }
      i := i + 1;
      if i == |list| {
        return Panicked;
      }
      AboveIsSuffix(list, IdOf, id, i);
      r := FromElem(id, i, buf);
    }

    /** Copy entries from position `k` on while the buffer has room. */
    method FromElem(ghost id: nat, k: nat, buf: array<T>) returns (r: Fetched)
      requires Valid() && k < |list| && Newer(list, id) == list[k..]
      modifies buf
      ensures r.Fetched? && Filled(list, id, old(buf[..]), buf[..], r)
    {
      var startId := list[k].id;
      var c := 0;
      while k + c < |list| && c < buf.Length
        invariant 0 <= c <= buf.Length && k + c <= |list|
        invariant forall i :: 0 <= i < c ==> buf[i] == list[k + i].value
        invariant forall i :: c <= i < buf.Length ==> buf[i] == old(buf[i])
        decreases buf.Length - c
      {
        buf[c] := list[k + c].value;
        c := c + 1;
      }
      ghost var batch := Batch(list, id, buf.Length);
      assert batch == list[k..k + c];
      r := Fetched((startId + WrapSub(c, 1)) % WORD, c);
      if c > 0 {
        assert batch[c - 1] == list[k + c - 1];
        LastIdIsExact(startId, c);
      }
    }
  }

  /** Over consecutive ids, a batch begins at the next id, or at the oldest if that is gone, and
      ends where the buffer or the list does. */
  lemma NextBatch<T>(list: seq<Entry<T>>, id: nat, size: nat)
    requires Consecutive(list) && list != [] && id <= list[|list| - 1].id
    ensures var next := if id + 1 >= list[0].id then id + 1 else list[0].id;
            var available := list[|list| - 1].id + 1 - next;
            var k, n := next - list[0].id, if available < size then available else size;
            0 <= k && 0 <= n && k + n <= |list| && Batch(list, id, size) == list[k..k + n]
            && (n > 0 ==> list[k + n - 1].id == next + n - 1)
  {
    var k := (if id + 1 >= list[0].id then id + 1 else list[0].id) - list[0].id;
    assert forall i :: 0 <= i < |list| ==> (list[i].id > id <==> i >= k);
    AboveIsSuffix(list, IdOf, id, k);
  }

  lemma ReadMeans<T>(list: seq<Entry<T>>, id: nat, before: seq<T>, after: seq<T>, r: Fetched)
    requires r.Fetched? && |before| == |after| && Filled(list, id, before, after, r)
    requires Consecutive(list) && list != [] && id <= list[|list| - 1].id
    ensures var next := if id + 1 >= list[0].id then id + 1 else list[0].id;
            var available := list[|list| - 1].id + 1 - next;
            && r.count == (if available < |after| then available else |after|)
            && (forall i :: 0 <= i < r.count ==> after[i] == list[next - list[0].id + i].value)
            && (r.count > 0 ==> r.lastId == next + r.count - 1)
  {
    NextBatch(list, id, |after|);
  }

  function Values<T>(entries: seq<Entry<T>>): seq<T> {
    seq(|entries|, i requires 0 <= i < |entries| => entries[i].value)
  }

  /** A listener: its position and what went down its channel. */
  class Listener<T(0)> {
    var lastId: nat
    var sent: seq<T>

    constructor ()
      ensures lastId == 0 && sent == []
    {
      lastId, sent := 0, [];
    }

    /** One round of `publishEvent`: fetch a batch of at most a quarter of the buffer, move the
        position, send the batch. It panics when the position is past the newest entry. */
    method Publish(w: Watcher<T>) returns (panicked: bool)
      requires w.Valid() && lastId < WORD
      modifies this
      ensures panicked <==> w.list != [] && old(lastId) > w.list[|w.list| - 1].id
      ensures panicked ==> sent == old(sent) && lastId == old(lastId)
      ensures !panicked ==>
                var batch := Batch(w.list, old(lastId), w.maxSize / 4);
                && sent == old(sent) + Values(batch)
                && lastId == if batch == [] then old(lastId) else batch[|batch| - 1].id
      ensures !panicked && w.list != [] ==>
                var next := if old(lastId) + 1 >= w.list[0].id then old(lastId) + 1 else w.list[0].id;
                var available := w.eventId + 1 - next;
                var n := if available < w.maxSize / 4 then available else w.maxSize / 4;
                && |sent| == |old(sent)| + n
                && lastId == if n == 0 then old(lastId) else next + n - 1
    {
      if w.list != [] && lastId <= w.list[|w.list| - 1].id {
        NextBatch(w.list, lastId, w.maxSize / 4);
      }
      panicked := PublishBatch(w);
    }

    method PublishBatch(w: Watcher<T>) returns (panicked: bool)
      requires w.Valid() && lastId < WORD
      modifies this
      ensures panicked <==> w.list != [] && old(lastId) > w.list[|w.list| - 1].id
      ensures panicked ==> sent == old(sent) && lastId == old(lastId)
      ensures !panicked ==>
                var batch := Batch(w.list, old(lastId), w.maxSize / 4);
                && sent == old(sent) + Values(batch)
                && lastId == if batch == [] then old(lastId) else batch[|batch| - 1].id
    {
      var buf := new T[w.maxSize / 4];
      ghost var batch := Batch(w.list, lastId, buf.Length);
      var r := w.GetAfterId(lastId, buf);
      if r.Panicked? {
        return true;
      }
      panicked := false;
      if r.count == 0 {
        return;
      }
      lastId := r.lastId;
      for i := 0 to r.count
        modifies this`sent
        invariant sent == old(sent) + Values(batch)[..i]
      {
        sent := sent + [buf[i]];
      }
      assert Values(batch)[..|batch|] == Values(batch);
    }
  }

  lemma LastIdIsExact(start: nat, c: nat)
    requires 0 < c && start + c - 1 < WORD
    ensures (start + WrapSub(c, 1)) % WORD == start + c - 1
  {
  }

  ghost predicate Filled<T>(list: seq<Entry<T>>, id: nat, before: seq<T>, after: seq<T>, r: Fetched)
    requires r.Fetched? && |before| == |after|
  {
    var batch := Batch(list, id, |after|);
    && r.count == |batch|
    && (forall i :: 0 <= i < |batch| ==> after[i] == batch[i].value)
    && (forall i :: |batch| <= i < |after| ==> after[i] == before[i])
    && (batch != [] ==> r.lastId == batch[|batch| - 1].id)
  }

  /** The buffer after one more entry. */
  function Pushed<T>(list: seq<Entry<T>>, e: Entry<T>, maxSize: nat): seq<Entry<T>> {
    var all := list + [e];
    if |all| > maxSize then all[1..] else all
  }
}
