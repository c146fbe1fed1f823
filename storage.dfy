/**
 * The event store of storage.go: a bbolt database with an "events" bucket
 * (sequence key -> opaque event bytes, plus the bucket's sequence counter)
 * and an "uploadedEvents" bucket of upload markers (event key -> itob of
 * the upload time in seconds). Keys are kept as the numbers Itob encodes.
 * Each db.Update or db.View is one atomic step; a read-write transaction
 * either commits or leaves the store as it was.
 */
module Storage {
  import opened Types
  import opened KeyCodec
  import opened Buckets

  /** What NextSequence returns after s: bbolt's counter is a uint64 incremented with wrap-around. */
  function NextSequence(s: uint64): (r: uint64)
    ensures r == (s + 1) % 0x1_0000_0000_0000_0000
  {
    if s == MaxUint64 then 0 else s + 1
  }

  /**
   * Where GetEventsToUpload seeks: the greatest marker key (uec.Last()),
   * or, with no markers, the first event key (ec.First()); None when that
   * bucket is empty too.
   */
  function StartKey(events: map<uint64, Bytes>, markers: map<uint64, Bytes>): (r: Option<uint64>)
    ensures r.None? <==> markers == map[] && events == map[]
    ensures markers != map[] ==> r.Some? && r.value in markers && forall k :: k in markers ==> k <= r.value
    ensures markers == map[] && r.Some? ==> r.value in events && forall k :: k in events ==> r.value <= k
  {
    if markers != map[] then Some(Greatest(markers.Keys))
    else if events != map[] then Some(Least(events.Keys))
    else None
  }

  /** The event keys the cursor visits from its seek position on: those at or after the start key. */
  function Pending(events: map<uint64, Bytes>, markers: map<uint64, Bytes>): set<uint64>
  {
    match StartKey(events, markers)
    case None => {}
    case Some(k) => AtLeast(events.Keys, k)
  }

  /** At most limit leading elements of q; none when limit <= 0. */
  function Take(q: seq<uint64>, limit: int): seq<uint64>
  {
    if limit <= 0 then [] else if limit < |q| then q[..limit] else q
  }

  /** min(max(limit, 0), n) */
  function Clamp(limit: int, n: nat): (r: nat)
    ensures r <= n && (limit > 0 ==> r <= limit) && (limit <= 0 ==> r == 0)
  {
    if limit <= 0 then 0 else if limit < n then limit else n
  }

  /** The keys of the batch GetEventsToUpload(limit) selects. */
  function BatchKeys(events: map<uint64, Bytes>, markers: map<uint64, Bytes>, limit: int): seq<uint64>
  {
    Take(Ascending(Pending(events, markers)), limit)
  }

  /** The marker bucket after MarkEventsUploaded(keys) at time now. */
  function Marked(markers: map<uint64, Bytes>, keys: seq<uint64>, now: uint64): map<uint64, Bytes>
  {
    markers + map k | k in keys :: Itob(now)
  }

  /** The events bucket after DeleteUploadedEvents: every marked event deleted. */
  function Retired(events: map<uint64, Bytes>, markers: map<uint64, Bytes>): map<uint64, Bytes>
  {
    events - markers.Keys
  }

  /** Go's zero time.Time (January 1, year 1, UTC) in seconds relative to the Unix epoch. */
  const ZeroTime: int := -62135596800

  /** Go's int64(u) conversion, which wraps values of 2^63 and above. */
  function ToInt64(u: uint64): (r: int)
    ensures -0x8000_0000_0000_0000 <= r < 0x8000_0000_0000_0000
    ensures (u - r) % 0x1_0000_0000_0000_0000 == 0
  {
    if u < 0x8000_0000_0000_0000 then u else u - 0x1_0000_0000_0000_0000
  }

  /** Every marker value is an 8-byte timestamp, as MarkEventsUploaded writes them. */
  ghost predicate MarkersWellFormed(markers: map<uint64, Bytes>)
  {
    forall k :: k in markers ==> |markers[k]| == 8
  }

  /** The time LastUploadTime reports: of the marker with the greatest key, or the zero time. */
  function LastMarkTime(markers: map<uint64, Bytes>): int
    requires MarkersWellFormed(markers)
  {
    if markers == map[] then ZeroTime
    else ToInt64(Btoi(markers[Greatest(markers.Keys)]).value)
  }

  /** A prefix p of q at which a loop taking at most limit elements stopped is Take(q, limit). */
  lemma {:induction false} TakePrefix(q: seq<uint64>, p: seq<uint64>, r: seq<uint64>, limit: int)
    requires p + r == q
    requires |p| <= (if limit > 0 then limit else 0)
    requires r == [] || |p| >= limit
    ensures p == Take(q, limit)
  {
    assert q[..|p|] == p;
  }

  lemma {:induction false} PendingNoMarkers(events: map<uint64, Bytes>)
    ensures Pending(events, map[]) == events.Keys
  {
  }

  /**
   * A batch is at most limit keys (none when limit <= 0), as many as the
   * cursor can reach up to that bound, strictly ascending and all stored.
   */
  lemma {:induction false} BatchKeysSpec(events: map<uint64, Bytes>, markers: map<uint64, Bytes>, limit: int)
    ensures |BatchKeys(events, markers, limit)| == Clamp(limit, |Pending(events, markers)|)
    ensures StrictlyIncreasing(BatchKeys(events, markers, limit))
    ensures forall i :: 0 <= i < |BatchKeys(events, markers, limit)| ==>
              BatchKeys(events, markers, limit)[i] in Pending(events, markers) &&
              BatchKeys(events, markers, limit)[i] in events
  {
    var all := Ascending(Pending(events, markers));
    AscendingSpec(Pending(events, markers));
    var ks := BatchKeys(events, markers, limit);
    assert forall i :: 0 <= i < |ks| ==> ks[i] == all[i];
    assert forall k :: k in Pending(events, markers) ==> k in events;
  }

  /**
   * Where a batch starts: with no markers at the smallest event key;
   * otherwise at the smallest event key at or after the greatest marker
   * key, so a still-stored last-marked event is sent again.
   */
  lemma {:induction false} BatchStart(events: map<uint64, Bytes>, markers: map<uint64, Bytes>, limit: int)
    requires BatchKeys(events, markers, limit) != []
    ensures markers == map[] ==> BatchKeys(events, markers, limit)[0] == Least(events.Keys)
    ensures markers != map[] ==>
              BatchKeys(events, markers, limit)[0] == Seek(events, Greatest(markers.Keys)).value
    ensures markers != map[] && Greatest(markers.Keys) in events ==>
              BatchKeys(events, markers, limit)[0] == Greatest(markers.Keys)
  {
    var p := Pending(events, markers);
    assert p != {};
    assert Ascending(p)[0] == Least(p);
    if markers == map[] {
      PendingNoMarkers(events);
    } else {
      AtLeastStep(events, Greatest(markers.Keys));
    }
  }

  /**
   * A batch skips nothing: every stored key from the start key up to the
   * batch's last key is in the batch, and every later reachable key lies
   * beyond all of the batch.
   */
  lemma {:induction false} BatchContiguous(events: map<uint64, Bytes>, markers: map<uint64, Bytes>, limit: int, k: uint64)
    requires k in Pending(events, markers)
    ensures var ks := BatchKeys(events, markers, limit);
            k in ks || forall i :: 0 <= i < |ks| ==> ks[i] < k
  {
    var p := Pending(events, markers);
    var all := Ascending(p);
    AscendingSpec(p);
    var ks := BatchKeys(events, markers, limit);
    assert forall i :: 0 <= i < |ks| ==> ks[i] == all[i];
    assert k in all;
    var j :| 0 <= j < |all| && all[j] == k;
    if j < |ks| {
      assert ks[j] == k;
    }
  }

  /** Marking writes itob(now) under exactly the given keys; re-marking overwrites. */
  lemma {:induction false} MarkedSpec(markers: map<uint64, Bytes>, keys: seq<uint64>, now: uint64, later: uint64)
    ensures Marked(markers, keys, now).Keys == markers.Keys + set k | k in keys
    ensures forall k :: k in keys ==> Marked(markers, keys, now)[k] == Itob(now)
    ensures forall k :: k in markers && k !in keys ==> Marked(markers, keys, now)[k] == markers[k]
    ensures Marked(Marked(markers, keys, now), keys, later) == Marked(markers, keys, later)
  {
  }

  /** One step of a deletion loop over a snapshot `all`: deleting the pending key k as well. */
  lemma {:induction false} DeleteStep<V>(m: map<uint64, V>, all: set<uint64>, pending: set<uint64>, k: uint64)
    requires pending <= all && k in pending
    ensures (m - (all - pending)) - {k} == m - (all - (pending - {k}))
  {
    assert all - (pending - {k}) == (all - pending) + {k};
  }

  /** Marking keeps every marker value an 8-byte timestamp. */
  lemma {:induction false} MarkedWellFormed(markers: map<uint64, Bytes>, keys: seq<uint64>, now: uint64)
    requires MarkersWellFormed(markers)
    ensures MarkersWellFormed(Marked(markers, keys, now))
  {
  }

  lemma {:induction false} MarkedSnoc(markers: map<uint64, Bytes>, keys: seq<uint64>, k: uint64, now: uint64)
    ensures Marked(markers, keys + [k], now) == Marked(markers, keys, now)[k := Itob(now)]
  {
    var a, b := Marked(markers, keys + [k], now), Marked(markers, keys, now)[k := Itob(now)];
    assert forall j :: j in keys + [k] <==> j in keys || j == k;
    assert a.Keys == b.Keys;
  }

  /**
   * After marking a batch whose greatest key is the greatest marker key,
   * LastUploadTime reads back the marking time (below 2^63, where Go's
   * int64 conversion is exact).
   */
  lemma {:induction false} LastMarkTimeAfterMark(markers: map<uint64, Bytes>, keys: seq<uint64>, now: uint64)
    requires MarkersWellFormed(markers)
    requires keys != []
    requires forall k :: k in markers ==> k <= keys[|keys| - 1]
    requires now < 0x8000_0000_0000_0000
    ensures MarkersWellFormed(Marked(markers, keys, now))
    ensures LastMarkTime(Marked(markers, keys, now)) == now
  {
    var m := Marked(markers, keys, now);
    var g := Greatest(m.Keys);
    assert keys[|keys| - 1] in m;
    if g in markers {
      assert g == keys[|keys| - 1];
    }
    BtoiItob(now);
  }

  /** Retiring deletes exactly the marked events; a second retirement with no new markers changes nothing. */
  lemma {:induction false} RetiredSpec(events: map<uint64, Bytes>, markers: map<uint64, Bytes>)
    ensures forall k :: k in markers ==> k !in Retired(events, markers)
    ensures forall k :: k in events && k !in markers ==>
              k in Retired(events, markers) && Retired(events, markers)[k] == events[k]
    ensures Retired(Retired(events, markers), map[]) == Retired(events, markers)
  {
  }

  /** The event store. */
  class Store {
    /** The "events" bucket. */
    var events: map<uint64, Bytes>
    /** The "events" bucket's sequence counter. */
    var sequence: uint64
    /** The "uploadedEvents" bucket. */
    var markers: map<uint64, Bytes>

    ghost predicate Valid()
      reads this
    {
      MarkersWellFormed(markers)
    }

    /** No stored key exceeds the counter: true until the counter wraps. */
    ghost predicate KeysUpToSequence()
      reads this
    {
      forall k :: k in events ==> k <= sequence
    }

    /** A freshly created database with its two empty buckets. */
    constructor ()
      ensures Valid() && KeysUpToSequence()
      ensures events == map[] && sequence == 0 && markers == map[]
    {
      events, sequence, markers := map[], 0, map[];
    }

    /**
     * RecordEvent: store bz under the next sequence number. An event
     * whose encoding failed arrives here as empty bytes and is stored too.
     */
    method RecordEvent(bz: Bytes, commits: bool)
      requires Valid()
      modifies this
      ensures Valid()
      ensures markers == old(markers)
      ensures commits ==> sequence == NextSequence(old(sequence)) && events == old(events)[sequence := bz]
      ensures !commits ==> sequence == old(sequence) && events == old(events)
      ensures commits && old(sequence) < MaxUint64 && old(KeysUpToSequence()) ==>
                KeysUpToSequence() && sequence == old(sequence) + 1 &&
                forall k :: k in old(events) ==> k < sequence
    {
      var id := NextSequence(sequence);
      if commits {
        sequence := id;
        events := events[id := bz];
      }
    }

    /**
     * GetEventsToUpload: seek to the start key (inclusive) and take events
     * in cursor order while fewer than limit have been taken.
     */
    method GetEventsToUpload(limit: int) returns (eventSlice: seq<Bytes>, keySlice: seq<uint64>)
      ensures keySlice == BatchKeys(events, markers, limit)
      ensures |eventSlice| == |keySlice|
      ensures forall i :: 0 <= i < |keySlice| ==>
                keySlice[i] in events && eventSlice[i] == events[keySlice[i]]
    {
      eventSlice, keySlice := [], [];
      var start := StartKey(events, markers);
      var cur := if start.None? then None else Seek(events, start.value);
      ghost var all := Pending(events, markers);
      if start.Some? {
        CursorSeek(events, start.value);
      }
      while cur.Some? && |eventSlice| < limit
        invariant |eventSlice| == |keySlice| <= (if limit > 0 then limit else 0)
        invariant forall i :: 0 <= i < |keySlice| ==>
                    keySlice[i] in events && eventSlice[i] == events[keySlice[i]]
        invariant CursorAt(events, all, keySlice, cur)
        decreases |Ascending(all)| - |keySlice|
      {
        var k := cur.value;
        CursorAdvance(events, all, keySlice, k);
        eventSlice := eventSlice + [events[k]];
        keySlice := keySlice + [k];
        cur := Next(events, k);
      }
      CursorPrefix(events, all, keySlice, cur);
      TakePrefix(Ascending(all), keySlice, Ascending(all)[|keySlice|..], limit);
    }

    /** MarkEventsUploaded: write itob(now) under every given key, in one transaction. */
    method MarkEventsUploaded(keys: seq<uint64>, now: uint64, commits: bool) returns (err: Option<Error>)
      requires Valid()
      modifies this
      ensures Valid()
      ensures events == old(events) && sequence == old(sequence)
      ensures commits ==> err == None && markers == Marked(old(markers), keys, now)
      ensures !commits ==> err == Some(CommitFailed) && markers == old(markers)
    {
      var m := markers;
      for i := 0 to |keys|
        modifies {}
        invariant m == Marked(markers, keys[..i], now)
      {
        MarkedSnoc(markers, keys[..i], keys[i], now);
        assert keys[..i + 1] == keys[..i] + [keys[i]];
        m := m[keys[i] := Itob(now)];
      }
      assert keys[..|keys|] == keys;
      MarkedWellFormed(markers, keys, now);
      if commits {
        markers := m;
        err := None;
      } else {
        err := Some(CommitFailed);
      }
    }

    /** LastUploadTime: the time in the marker with the greatest key, or Go's zero time. */
    method LastUploadTime() returns (timestamp: int)
      requires Valid()
      ensures timestamp == LastMarkTime(markers)
      ensures markers == map[] ==> timestamp == ZeroTime
      ensures markers != map[] ==>
                Itob(Btoi(markers[Greatest(markers.Keys)]).value) == markers[Greatest(markers.Keys)]
    {
      timestamp := ZeroTime;
      if markers != map[] {
        var last := Greatest(markers.Keys);
        var v := markers[last];
        assert v[..8] == v;
        timestamp := ToInt64(Btoi(v).value);
      }
    }

    /**
     * DeleteUploadedEvents: for every marker key, in cursor order, delete
     * the event and the marker, in one transaction.
     */
    method DeleteUploadedEvents(commits: bool) returns (err: Option<Error>)
      requires Valid()
      modifies this
      ensures Valid()
      ensures sequence == old(sequence)
      ensures commits ==> err == None && markers == map[] && events == Retired(old(events), old(markers))
      ensures !commits ==> err == Some(CommitFailed) && markers == old(markers) && events == old(events)
    {
      var ev, mk := events, markers;
      var pending := markers.Keys;
      while pending != {}
        modifies {}
        invariant pending <= markers.Keys
        invariant ev == events - (markers.Keys - pending)
        invariant mk == markers - (markers.Keys - pending)
        decreases |pending|
      {
        var k := Least(pending);
        DeleteStep(events, markers.Keys, pending, k);
        DeleteStep(markers, markers.Keys, pending, k);
        ev := ev - {k};
        mk := mk - {k};
        pending := pending - {k};
      }
      if commits {
        events, markers := ev, mk;
        err := None;
      } else {
        err := Some(CommitFailed);
      }
    }
  }
}
