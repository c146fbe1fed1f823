/**
 * The uploader of log-shipper.go: UploadNextEvents (select a batch,
 * transmit it, mark it uploaded) and one iteration of StartUploading's
 * loop (due check, upload, retirement after a successful non-empty upload,
 * update of lastUploadTime). The network and the clock are parameters:
 * `delivered` is whether gzPOST returned a nil error (it does not look at
 * the HTTP status, so a 500 reply counts as delivered), `now` is the clock reading in
 * seconds, and `...Commits` say whether a bbolt transaction committed.
 */
module Shipper {
  import opened Types
  import opened Buckets
  import opened Storage
  import opened Transport

  /** DefaultAddr */
  const DefaultAddr: string := "0.0.0.0:8000"

  /**
   * UploadNextEvents. `batch` is the event bytes selected and `payload`
   * what was handed to gzPOST, if anything was.
   */
  method UploadNextEvents(store: Store, limit: int, delivered: bool, now: uint64, markCommits: bool)
    returns (uploaded: int, err: Option<Error>, ghost batch: seq<Bytes>, ghost payload: Option<Bytes>)
    requires store.Valid()
    modifies store
    ensures store.Valid()
    ensures store.events == old(store.events) && store.sequence == old(store.sequence)
    ensures var ks := BatchKeys(old(store.events), old(store.markers), limit);
            && |batch| == |ks|
            && (forall i :: 0 <= i < |ks| ==> ks[i] in old(store.events) && batch[i] == old(store.events)[ks[i]])
            && (ks == [] ==> uploaded == 0 && err == None && payload == None)
            && (ks != [] ==> payload == Some(Gz(batch, "☃")))
            && (ks != [] && !delivered ==> uploaded == 0 && err == Some(TransmitFailed))
            && (ks != [] && delivered && !markCommits ==> uploaded == 0 && err == Some(CommitFailed))
            && (ks != [] && delivered && markCommits ==> uploaded == |ks| && err == None)
            && (if ks != [] && delivered && markCommits then store.markers == Marked(old(store.markers), ks, now)
                else store.markers == old(store.markers))
    ensures 0 <= uploaded && (limit <= 0 ==> uploaded == 0) && (limit > 0 ==> uploaded <= limit)
  {
    BatchKeysSpec(store.events, store.markers, limit);
    var marshalledEvents, ks := store.GetEventsToUpload(limit);
    batch := marshalledEvents;
    if |ks| == 0 {
      payload := None;
      return 0, None, batch, payload;
    }
    var compressed := Gz(marshalledEvents, "☃");
    payload := Some(compressed);
    if !delivered {
      return 0, Some(TransmitFailed), batch, payload;
    }
    err := store.MarkEventsUploaded(ks, now, markCommits);
    if err.Some? {
      return 0, err, batch, payload;
    }
    return |ks|, None, batch, payload;
  }

  /** The state StartUploading keeps across loop iterations. */
  class Uploader {
    const store: Store
    const endpoint: string
    const mimeType: string
    /** The upload interval, in seconds. */
    const interval: int
    const maxBatchSize: int
    var lastUploadTime: int

    /** What StartUploading does before its loop. */
    constructor (store: Store, endpoint: string, mimeType: string, interval: int, maxBatchSize: int)
      requires store.Valid()
      ensures this.store == store && this.mimeType == mimeType
      ensures this.interval == interval && this.maxBatchSize == maxBatchSize
      ensures this.endpoint == if endpoint == "" then "http://" + DefaultAddr else endpoint
      ensures lastUploadTime == LastMarkTime(store.markers)
    {
      var t := store.LastUploadTime();
      this.store := store;
      this.endpoint := if endpoint == "" then "http://" + DefaultAddr else endpoint;
      this.mimeType := mimeType;
      this.interval := interval;
      this.maxBatchSize := maxBatchSize;
      lastUploadTime := t;
    }

    /**
     * One iteration of StartUploading's loop: when now is strictly after
     * lastUploadTime + interval, upload, retire only after a successful
     * non-empty upload, and set lastUploadTime to now whatever happened;
     * otherwise only sleep. `batch` is the event bytes selected and `sent`
     * the payload handed to gzPOST, None when nothing was handed to it.
     */
    method Cycle(now: uint64, delivered: bool, markCommits: bool, deleteCommits: bool)
      returns (ghost batch: seq<Bytes>, ghost sent: Option<Bytes>)
      requires store.Valid()
      modifies this, store
      ensures store.Valid()
      ensures store.sequence == old(store.sequence)
      ensures var due := now > old(lastUploadTime) + interval;
              var ks := BatchKeys(old(store.events), old(store.markers), maxBatchSize);
              && (sent.Some? <==> due && ks != [])
              && (due ==> |batch| == |ks| &&
                          forall i :: 0 <= i < |ks| ==> ks[i] in old(store.events) && batch[i] == old(store.events)[ks[i]])
              && (!due ==> batch == [])
              && (sent.Some? ==> sent.value == Gz(batch, "☃"))
      ensures var due := now > old(lastUploadTime) + interval;
              var ks := BatchKeys(old(store.events), old(store.markers), maxBatchSize);
              var uploaded := due && ks != [] && delivered && markCommits;
              var marked := Marked(old(store.markers), ks, now);
              && lastUploadTime == (if due then now else old(lastUploadTime))
              && (!uploaded ==> store.events == old(store.events) && store.markers == old(store.markers))
              && (uploaded && !deleteCommits ==> store.events == old(store.events) && store.markers == marked)
              && (uploaded && deleteCommits ==> store.events == Retired(old(store.events), marked) && store.markers == map[])
    {
      batch, sent := [], None;
      var nextUploadTime := lastUploadTime + interval;
      if now > nextUploadTime {
        var uploaded, err;
        uploaded, err, batch, sent := UploadNextEvents(store, maxBatchSize, delivered, now, markCommits);
        if err.None? && uploaded > 0 {
          var _ := store.DeleteUploadedEvents(deleteCommits);
        }
        lastUploadTime := now;
      }
      // otherwise the source sleeps until nextUploadTime
    }
  }

  /**
   * From a store with no markers, a fully successful cycle retires exactly
   * the first min(limit, n) events in key order and leaves the rest, in order.
   */
  lemma {:induction false} CleanCycleRetiresPrefix(events: map<uint64, Bytes>, limit: int, now: uint64)
    ensures |Ascending(events.Keys)| == |events|
    ensures var ks := BatchKeys(events, map[], limit);
            var n := Clamp(limit, |Ascending(events.Keys)|);
            && ks == Ascending(events.Keys)[..n]
            && Ascending(Retired(events, Marked(map[], ks, now)).Keys) == Ascending(events.Keys)[n..]
  {
    var ks := BatchKeys(events, map[], limit);
    var all := Ascending(events.Keys);
    AscendingSpec(events.Keys);
    assert |events.Keys| == |events|;
    var n := Clamp(limit, |all|);
    assert ks == all[..n] by {
      PendingNoMarkers(events);
    }
    RetiredBatchKeys(events, ks, now);
    DropPrefix(events.Keys, n);
  }

  /** Retiring a batch marked on an empty marker bucket removes exactly the batch's keys. */
  lemma {:induction false} RetiredBatchKeys(events: map<uint64, Bytes>, ks: seq<uint64>, now: uint64)
    ensures Retired(events, Marked(map[], ks, now)).Keys == events.Keys - set k | k in ks
  {
    MarkedSpec(map[], ks, now, now);
  }

  /**
   * No duplicate after a clean cycle: every key of the next batch lies
   * beyond every key just retired.
   */
  lemma {:induction false} NoResendAfterCleanCycle(events: map<uint64, Bytes>, limit: int, nextLimit: int, now: uint64)
    ensures var ks := BatchKeys(events, map[], limit);
            var next := BatchKeys(Retired(events, Marked(map[], ks, now)), map[], nextLimit);
            forall i, j :: 0 <= i < |ks| && 0 <= j < |next| ==> ks[i] < next[j]
  {
    var ks := BatchKeys(events, map[], limit);
    var after := Retired(events, Marked(map[], ks, now));
    var all := Ascending(events.Keys);
    var n := Clamp(limit, |all|);
    CleanCycleRetiresPrefix(events, limit, now);
    PendingNoMarkers(after);
    AscendingSpec(events.Keys);
    PrefixBeforeSuffix(all, n, nextLimit);
  }

  lemma {:induction false} PrefixBeforeSuffix(q: seq<uint64>, n: nat, limit: int)
    requires StrictlyIncreasing(q) && n <= |q|
    ensures forall i, j :: 0 <= i < n && 0 <= j < |Take(q[n..], limit)| ==> q[..n][i] < Take(q[n..], limit)[j]
  {
    forall i, j | 0 <= i < n && 0 <= j < |Take(q[n..], limit)|
      ensures q[..n][i] < Take(q[n..], limit)[j]
    {
      assert Take(q[n..], limit)[j] == q[n + j];
    }
  }

  /**
   * From a store with no markers: when marking succeeds but retirement does
   * not, the markers stay and the next batch starts again at the last key
   * just sent (the inclusive seek), so that event is sent twice.
   */
  lemma {:induction false} FailedRetirementResendsLast(events: map<uint64, Bytes>, limit: int, nextLimit: int, now: uint64)
    requires nextLimit > 0
    ensures var ks := BatchKeys(events, map[], limit);
            var next := BatchKeys(events, Marked(map[], ks, now), nextLimit);
            ks != [] ==> next != [] && next[0] == ks[|ks| - 1]
  {
    var ks := BatchKeys(events, map[], limit);
    if ks != [] {
      var m := Marked(map[], ks, now);
      BatchKeysSpec(events, map[], limit);
      var last := ks[|ks| - 1];
      GreatestMarked(ks, now);
      assert last in events;
      assert last in Pending(events, m);
      BatchKeysSpec(events, m, nextLimit);
      BatchStart(events, m, nextLimit);
    }
  }

  /** Marking an ascending batch on an empty marker bucket makes its last key the greatest marker key. */
  lemma {:induction false} GreatestMarked(ks: seq<uint64>, now: uint64)
    requires ks != [] && StrictlyIncreasing(ks)
    ensures Marked(map[], ks, now) != map[]
    ensures Greatest(Marked(map[], ks, now).Keys) == ks[|ks| - 1]
  {
    var m := Marked(map[], ks, now);
    var last := ks[|ks| - 1];
    MarkedSpec(map[], ks, now, now);
    assert last in m;
    assert IsGreatest(last, m.Keys) by {
      forall k | k in m.Keys ensures k <= last {
        var i :| 0 <= i < |ks| && ks[i] == k;
      }
    }
  }
}
