# log-shipper: durable upload queue and wire framing, in Dafny

This project models the core of log-shipper, a Go library that ships telemetry
events from a producing process to an HTTP collector. It keeps the events in a
local bbolt database so that they survive an unavailable collector. The modelled
core is:

- the event store (storage.go): the `events` bucket keyed by `itob` of the
  bucket's sequence counter; the `uploadedEvents` bucket of upload markers;
  batch selection by cursor; marking; reading the last upload time; and
  mark-then-delete retirement;
- the uploader (log-shipper.go): `UploadNextEvents`, and one iteration of
  `StartUploading`'s loop as `Shipper.Uploader.Cycle`;
- the wire framing (transport.go): `gz` joins the batch on the separator "☃"
  (bytes E2 98 83) and compresses it; `ungz` decompresses and splits with the
  semantics of Go's `strings.Split`;
- the receiver's request handler (receiver.go), modelled as a method that
  returns the trace of what the handler does: callbacks, then status, then body.

Modules:

- `Types`: bytes, uint64, Option, Result.
- `KeyCodec`: `itob` and `btoi`, and the proof that byte order on keys is
  numeric order.
- `Buckets`: the bbolt cursor over a bucket seen as a map.
- `Storage`: the store as a class with its spec functions and lemmas.
- `Transport`: join, split and the gzip stand-in.
- `Receiver`: the request handler.
- `Shipper`: the uploader and the multi-cycle properties.

Bucket keys are kept as the `uint64` numbers that `itob` encodes.
`KeyCodec.ItobOrder` proves that the lexicographic order bbolt's cursor uses
on the 8-byte keys is the numeric order of the numbers. Iterating the cursor is
therefore `Buckets.Ascending` over the key set. Each `db.Update` is one atomic
step. Its outcome is a `commits` parameter: a transaction that does not commit
leaves the store as it was. The methods build the new buckets in local
variables and assign them only on commit. The network is a `delivered`
parameter: it is true when `gzPOST` returned a nil error, whatever HTTP status
the collector answered with. The clock is a `now` parameter in whole seconds.

Behaviours of the code worth stating:

- With no markers, `LastUploadTime` returns Go's zero `time.Time` (January 1,
  year 1, UTC), not the Unix epoch. That is `Storage.ZeroTime`, -62135596800
  seconds relative to the epoch.
- The batch cursor seeks to the greatest marker key inclusively (storage.go:83).
  A still-stored last-marked event is therefore part of the next batch. After a
  clean cycle the marked events are gone, so this does not happen
  (`NoResendAfterCleanCycle`). When retirement fails, that event is sent again
  (`FailedRetirementResendsLast`).
- `gzPOST` never looks at `resp.StatusCode` (transport.go:25-37). A receiver
  that answers 500 "error" (receiver.go:16-17) therefore still counts as a
  successful upload, and the batch is marked and then retired although the
  collector did not read it. The model follows the code here: `delivered`
  stands for gzPOST's nil error only.
- `gz` does not escape the separator. An event record whose bytes contain
  E2 98 83 reaches the receiver as two lines. msgpack stores strings as raw
  bytes, so any event detail containing "☃" does this
  (`Transport.SeparatorInRecordSplits`).

## Model

| member | source | states |
|---|---|---|
| KeyCodec.Itob | storage.go:155-159 | the encoding of a uint64 is exactly 8 bytes |
| KeyCodec.BtoiItob | storage.go:155-170 | btoi(itob(v)) == v for every uint64 v |
| KeyCodec.Btoi | storage.go:162-170 | btoi fails (the source's log.Fatalln) exactly when fewer than 8 bytes are given; otherwise itob of the result gives back the first 8 bytes, so btoi reads them as a big-endian number |
| KeyCodec.ItobInjective | storage.go:155-159 | distinct sequence numbers get distinct keys, and equal keys mean equal numbers |
| KeyCodec.LexLessDecode | storage.go:155-159 | on byte strings of equal length, lexicographic order is the order of the big-endian numbers they denote |
| KeyCodec.ItobOrder | storage.go:155-159 | itob is strictly order-preserving in both directions: LexLess(itob(a), itob(b)) iff a < b, so cursor order is sequence order |
| Buckets.Least | storage.go:80 | Cursor.First of a non-empty bucket is a stored key no greater than any stored key |
| Buckets.Greatest | storage.go:77 | Cursor.Last of a non-empty bucket is a stored key no smaller than any stored key |
| Buckets.Seek | storage.go:83 | Cursor.Seek(k) is None iff every key is below k; otherwise it is the least stored key at or after k |
| Buckets.Next | storage.go:83 | Cursor.Next after k is None iff no key is above k; otherwise it is the least stored key strictly after k |
| Buckets.AscendingSpec | storage.go:83-86 | the cursor's visiting order lists every stored key exactly once, strictly ascending |
| Buckets.AscendingUnique | storage.go:83-86 | any strictly ascending listing of the key set is the cursor's order |
| Buckets.DropPrefix | storage.go:139-148 | deleting the first n keys in cursor order leaves exactly the remaining keys, still in cursor order |
| Buckets.CursorStep | storage.go:83 | one Next step from a stored key k: the keys ahead are k followed by the keys after k, and these start at Next(k) |
| Storage.NextSequence | storage.go:60 | bbolt's sequence counter after s is (s + 1) mod 2^64 |
| Storage.StartKey | storage.go:77-81 | no start key exactly when both buckets are empty; with markers, the greatest marker key (uec.Last()); with none, the smallest event key (ec.First()) |
| Storage.ToInt64 | storage.go:123 | Go's int64(u): the value in [-2^63, 2^63) congruent to u modulo 2^64 |
| Storage.Clamp | storage.go:83 | the batch size min(max(limit, 0), n) is at most n, at most limit, and 0 for a limit <= 0 |
| Storage.Store.constructor | storage.go:26-37 | a fresh database has empty buckets and sequence 0 |
| Storage.Store.RecordEvent | storage.go:56-64 | on commit, bz is stored under NextSequence of the old counter, which wraps at 2^64; the counter advances; markers are unchanged; before a wrap every earlier key is smaller than the new one; without a commit nothing changes |
| Storage.Store.GetEventsToUpload | storage.go:67-91 | read-only; the keys are BatchKeys, the first `limit` keys in cursor order from the start key on; both slices have equal length; eventSlice[i] is the stored value under keySlice[i] |
| Storage.BatchKeysSpec | storage.go:67-91 | a batch has min(max(limit, 0), pending) keys, so none for limit <= 0; they are strictly ascending and stored |
| Storage.BatchStart | storage.go:77-83 | with no markers a batch starts at the smallest event key; otherwise at Seek(greatest marker key), which is that key itself when it is still stored |
| Storage.BatchContiguous | storage.go:83-86 | a batch skips no reachable key: every stored key from the start key on is either in the batch or above all of it |
| Storage.Store.MarkEventsUploaded | storage.go:95-109 | on commit the markers become Marked(old markers, keys, now); events and sequence are unchanged; without a commit, CommitFailed and nothing changes |
| Storage.MarkedSpec | storage.go:101-106 | marking adds exactly the given keys, each with itob(now), keeps the other markers, and re-marking only overwrites the timestamps |
| Storage.MarkedSnoc | storage.go:101-106 | marking one more key is one more Put of itob(now) |
| Storage.Store.LastUploadTime | storage.go:113-127 | the result is LastMarkTime: Go's zero time with no markers, else int64(btoi) of the value under the greatest marker key, whose 8 bytes btoi reads in full; nothing changes |
| Storage.LastMarkTimeAfterMark | storage.go:95-127 | after marking a batch whose last key is the greatest marker key, LastUploadTime reads back the marking time |
| Storage.Store.DeleteUploadedEvents | storage.go:131-151 | on commit the markers are empty and the events are Retired(old events, old markers); without a commit, CommitFailed and nothing changes |
| Storage.RetiredSpec | storage.go:139-148 | every marked event is deleted; every unmarked event keeps its value; a second retirement, with the markers now empty, is a no-op |
| Transport.DecompressCompress | transport.go:41-62 | decompressing a compressed payload gives it back |
| Transport.Join | transport.go:46 | bytes.Join of an empty list is empty; otherwise its length is the sum of the element lengths plus one separator per neighbouring pair (JoinCons and SplitJoin state its contents) |
| Transport.JoinCons | transport.go:46 | the joined payload is x0 ++ sep ++ the join of the rest |
| Transport.Index | transport.go:63 | the first position where sep occurs, or -1 exactly when it does not occur |
| Transport.Split | transport.go:63 | strings.Split always yields at least one segment (SplitSpec, JoinSplit and SplitJoin state what the segments are) |
| Transport.HeadFree | transport.go:63 | the segment before the first separator contains no separator |
| Transport.SplitSpec | transport.go:63 | strings.Split gives Count + 1 segments, at least one, and no segment contains the separator |
| Transport.JoinSplit | transport.go:63 | joining the segments of a split gives back the input, for every byte string |
| Transport.LineSeparatorNoSelfOverlap | transport.go:13 | no proper suffix of "☃" is a prefix of it, so occurrences cannot overlap |
| Transport.IndexAfterFree | transport.go:46-63 | in x ++ sep ++ r where x has no separator, the first separator is right after x |
| Transport.SplitJoin | transport.go:46-63 | splitting the join of separator-free elements gives the elements back; the empty list comes back as one empty segment |
| Transport.Gz | transport.go:41-49 | the compressed payload decompresses to the batch joined on lineSeparator; the separator argument is not used |
| Transport.Ungz | transport.go:52-65 | ungz fails exactly when decompression fails, and then gives no lines |
| Transport.UngzGz | transport.go:41-65 | ungz(gz(xs, separator)) is Split(Join(xs, "☃")) whatever separator argument gz is given |
| Transport.UngzGzRoundTrip | transport.go:41-65 | a non-empty batch of separator-free records arrives as sent |
| Transport.SeparatorInRecordSplits | transport.go:46-63 | the single record "A☃B" comes out of ungz(gz(...)) as the two lines "A" and "B" |
| Receiver.CallbacksSpec | receiver.go:26-31 | one callback per dispatched line, in order, each with a nil error |
| Receiver.NonEmpty | receiver.go:27-29 | the `line == ""` filter keeps no more lines than it is given and no empty line (NonEmptyMembers, NonEmptyAppend, NonEmptyIdentity state which and in what order) |
| Receiver.NonEmptyMembers | receiver.go:27-29 | the dispatched lines are exactly the non-empty segments |
| Receiver.NonEmptyAppend | receiver.go:26-31 | filtering is piecewise over concatenation, so the segment order is kept |
| Receiver.NonEmptyIdentity | receiver.go:26-31 | segments that are all non-empty are all dispatched |
| Receiver.HandleRequest | receiver.go:11-36 | a read failure gives 500 "error" and no callback; a decode failure gives one callback ("", err) and no status; otherwise one nil-error callback per non-empty segment in order, then 200, then "ok" |
| Receiver.DispatchOfGz | receiver.go:19-31 | end to end, the lines dispatched for gz(xs) are the non-empty elements of xs in order, so an empty event is dropped |
| Receiver.TrailingSeparatorSplit | transport.go:63 | the payload "A☃B☃" splits into "A", "B" and a trailing empty segment |
| Receiver.TrailingSeparatorDropped | receiver.go:27-30 | of the segments "A", "B", "" only "A" and then "B" reach the callback |
| Shipper.UploadNextEvents | log-shipper.go:49-69 | an empty batch gives (0, nil) and sends nothing; a send failure gives (0, err), store unchanged; a marking failure gives (0, err); on success the markers are written for exactly the batch and the result is len(ks) <= limit; events never change |
| Shipper.Uploader.constructor | log-shipper.go:18-23 | lastUploadTime starts as LastUploadTime(); an empty endpoint defaults to "http://" + DefaultAddr |
| Shipper.Uploader.Cycle | log-shipper.go:25-45 | gzPOST is handed Gz of the batch (the stored events under BatchKeys, in order) exactly when now is strictly after lastUploadTime + interval and the batch is non-empty, and nothing otherwise; marking only after that send succeeded; retirement only after an error-free non-empty upload; lastUploadTime becomes now after every attempt, whatever its outcome, and is unchanged otherwise |
| Shipper.RetiredBatchKeys | storage.go:139-148 | retiring a batch marked on an empty marker bucket removes exactly the batch's keys |
| Shipper.CleanCycleRetiresPrefix | log-shipper.go:29-37 | from a store with no markers, a fully successful cycle retires exactly the first min(limit, n) events in key order and leaves the rest in order |
| Shipper.NoResendAfterCleanCycle | log-shipper.go:29-37 | from a store with no markers, after a clean cycle every key of the next batch is above every key just retired: nothing is sent twice |
| Shipper.GreatestMarked | storage.go:101-106 | after marking an ascending batch on an empty marker bucket, uec.Last() is the batch's last key |
| Shipper.FailedRetirementResendsLast | storage.go:77-83 | from a store with no markers, when marking a non-empty batch succeeds but retirement does not, the next batch (with a positive limit) is non-empty and starts again with the last key sent: that event is sent twice |

## Left out

- `InitStorage` (storage.go:18-44): opening the file, creating the buckets and the `log.Fatalln` paths. The model starts from two empty buckets (`Storage.Store.constructor`).
- The `Events` channel and the drain goroutine (storage.go:46-52, log-shipper.go:12), `StartInterval` (log-shipper.go:82-100) and all concurrency. Each transaction is one atomic step. Keys and values are plain values in the model. bbolt only guarantees the byte slices a cursor returns during their transaction, but `GetEventsToUpload` returns them from its read transaction (storage.go:83-86), and `UploadNextEvents` uses them afterwards in `gz` and `MarkEventsUploaded` (log-shipper.go:55, 62). The model does not capture that they may be reused or remapped meanwhile.
- `gzPOST` and the HTTP client (transport.go:16-38). Their result is the `delivered` parameter, and the endpoint and MIME type are only passed on to them. `http.ListenAndServe` and handler registration (receiver.go:11, 38-39) are left out too.
- Real gzip. `Transport.Compress` is a stand-in: the two gzip magic bytes followed by the raw bytes. Only its invertibility, and the failure of decompression without a gzip header, are used.
- The deferred `zr.Close()` in `ungz` (transport.go:53-54). It is registered before the error check, so on a bad header Go calls it on a nil reader. `(*gzip.Reader).Close` dereferences the reader, so ungz panics instead of returning the error. `eachLine("", err)` (receiver.go:22) is then never reached for a bad header: net/http recovers the panic and drops the connection. Only `ReadAll` errors (transport.go:59-61) reach the callback. The model takes the intended branch, where ungz returns the error for both cases.
- msgpack and JSON: `Mp2json` (log-shipper.go:72-79) and event encoding (event.go). Event bytes are opaque and possibly empty.
- The wall clock and `time.Sleep`. The clock is one `now: uint64` reading in whole seconds per cycle, and the interval is in seconds. The code reads the clock twice: once in the loop (log-shipper.go:27), and again inside `MarkEventsUploaded` after the POST (storage.go:97). The model stamps the markers with the loop's single `now`. Sub-second precision is not modelled.
- The infinite `for` loop of `StartUploading`. The model is one iteration.
- bbolt errors other than a failed commit, such as a value-size limit on `Put`. They show up only as `commits == false`.
- Storage.Store.DeleteUploadedEvents: bbolt's cursor-with-delete iteration is replaced by deleting over a snapshot of the marker keys, in ascending order; since the transaction is atomic, only the final state is stated.
- Logging (`fmt.Println`, `log`) and the demo program `cmd/log-receiver/main.go`.
