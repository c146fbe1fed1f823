/**
 * The wire framing of transport.go: a batch is joined on the separator
 * "☃" (UTF-8 bytes E2 98 83) and gzip-compressed; an inbound payload
 * is decompressed and split on the same separator.
 */
module Transport {
  import opened Types

  /** lineSeparator, "☃" as UTF-8. */
  const LineSeparator: Bytes := [0xE2, 0x98, 0x83]

  /** The magic bytes every gzip member starts with (RFC 1952, section 2.3.1). */
  const GzipMagic: Bytes := [0x1F, 0x8B]

  /**
   * Stand-in for gzip compression: only its invertibility and the failure
   * of decompression on a stream without a gzip header are used.
   */
  function Compress(raw: Bytes): Bytes
  {
    GzipMagic + raw
  }

  /** Stand-in for reading a gzip stream to the end. */
  function Decompress(z: Bytes): (r: Result<Bytes>)
    ensures r.Err? ==> r.error == DecompressFailed
  {
    if |z| >= 2 && z[..2] == GzipMagic then Ok(z[2..]) else Err(DecompressFailed)
  }

  lemma {:induction false} DecompressCompress(raw: Bytes)
    ensures Decompress(Compress(raw)) == Ok(raw)
  {
    assert Compress(raw)[..2] == GzipMagic;
    assert Compress(raw)[2..] == raw;
  }

  /** bytes.Join: the elements of xs with sep between neighbours. */
  function Join(xs: seq<Bytes>, sep: Bytes): (r: Bytes)
    ensures xs == [] ==> r == []
    ensures xs != [] ==> |r| == TotalLength(xs) + |sep| * (|xs| - 1)
  {
    if xs == [] then [] else if |xs| == 1 then xs[0] else xs[0] + sep + Join(xs[1..], sep)
  }

  function TotalLength(xs: seq<Bytes>): nat
  {
    if xs == [] then 0 else |xs[0]| + TotalLength(xs[1..])
  }

  /** Join with a first element split off: x0 ++ sep ++ the rest. */
  lemma {:induction false} JoinCons(x: Bytes, xs: seq<Bytes>, sep: Bytes)
    requires xs != []
    ensures Join([x] + xs, sep) == x + sep + Join(xs, sep)
  {
    assert ([x] + xs)[1..] == xs;
  }

  /** sep occurs in s at position j. */
  predicate At(s: Bytes, sep: Bytes, j: int)
  {
    0 <= j && j + |sep| <= |s| && s[j..j + |sep|] == sep
  }

  predicate Contains(s: Bytes, sep: Bytes)
  {
    exists j :: 0 <= j <= |s| && At(s, sep, j)
  }

  /** strings.Index: the first position of sep in s, or -1. */
  function Index(s: Bytes, sep: Bytes): (r: int)
    requires |sep| > 0
    ensures -1 <= r <= |s|
    ensures r >= 0 ==> At(s, sep, r) && forall j :: 0 <= j < r ==> !At(s, sep, j)
    ensures r < 0 ==> forall j :: !At(s, sep, j)
  {
    if |s| < |sep| then -1
    else if s[..|sep|] == sep then 0
    else
      var i := Index(s[1..], sep);
      forall j | 0 < j ensures At(s, sep, j) <==> At(s[1..], sep, j - 1) {
        if j + |sep| <= |s| {
          var a, b := s[j..j + |sep|], s[1..][j - 1..j - 1 + |sep|];
          forall m | 0 <= m < |sep| ensures a[m] == b[m] { }
          assert a == b;
        }
      }
      if i < 0 then -1 else i + 1
  }

  /** strings.Split with a non-empty separator: the pieces of s between occurrences of sep. */
  function Split(s: Bytes, sep: Bytes): (r: seq<Bytes>)
    requires |sep| > 0
    ensures |r| >= 1
    decreases |s|
  {
    var i := Index(s, sep);
    if i < 0 then [s] else [s[..i]] + Split(s[i + |sep|..], sep)
  }

  /** strings.Count: the number of non-overlapping occurrences of sep, scanning left to right. */
  function Count(s: Bytes, sep: Bytes): nat
    requires |sep| > 0
    decreases |s|
  {
    var i := Index(s, sep);
    if i < 0 then 0 else 1 + Count(s[i + |sep|..], sep)
  }

  /** Splitting gives one segment more than there are separators, and no segment contains the separator. */
  lemma {:induction false} SplitSpec(s: Bytes, sep: Bytes)
    requires |sep| > 0
    ensures |Split(s, sep)| == Count(s, sep) + 1
    ensures forall k :: 0 <= k < |Split(s, sep)| ==> !Contains(Split(s, sep)[k], sep)
    decreases |s|
  {
    var i := Index(s, sep);
    if i < 0 {
      assert Split(s, sep) == [s];
    } else {
      var head, rest := s[..i], s[i + |sep|..];
      SplitSpec(rest, sep);
      HeadFree(s, sep, i);
      SplitCons(head, Split(rest, sep), sep);
    }
  }

  /** The part of s before the first occurrence of sep contains no sep. */
  lemma {:induction false} HeadFree(s: Bytes, sep: Bytes, i: int)
    requires |sep| > 0 && i == Index(s, sep) && i >= 0
    ensures !Contains(s[..i], sep)
  {
    var head := s[..i];
    forall j | 0 <= j <= |head| ensures !At(head, sep, j) {
      if j + |sep| <= |head| {
        assert head[j..j + |sep|] == s[j..j + |sep|];
        assert j < i;
        assert !At(s, sep, j);
      }
    }
  }

  lemma {:induction false} SplitCons(head: Bytes, tail: seq<Bytes>, sep: Bytes)
    requires !Contains(head, sep)
    requires forall k :: 0 <= k < |tail| ==> !Contains(tail[k], sep)
    ensures forall k :: 0 <= k < |[head] + tail| ==> !Contains(([head] + tail)[k], sep)
  {
    var r := [head] + tail;
    forall k | 0 <= k < |r| ensures !Contains(r[k], sep) {
      if k > 0 { assert r[k] == tail[k - 1]; }
    }
  }

  /** Joining the segments of a split restores the input. */
  lemma {:induction false} JoinSplit(s: Bytes, sep: Bytes)
    requires |sep| > 0
    ensures Join(Split(s, sep), sep) == s
    decreases |s|
  {
    var i := Index(s, sep);
    if i >= 0 {
      var rest := s[i + |sep|..];
      var head := s[..i];
      var tail := Split(rest, sep);
      JoinSplit(rest, sep);
      assert Split(s, sep) == [head] + tail;
      JoinCons(head, tail, sep);
      assert At(s, sep, i);
      SliceAround(s, i, |sep|);
    }
  }

  lemma {:induction false} SliceAround(s: Bytes, i: nat, n: nat)
    requires i + n <= |s|
    ensures s == s[..i] + s[i..i + n] + s[i + n..]
  {
  }

  /** No proper suffix of sep is a prefix of it, so occurrences of sep cannot overlap. */
  predicate NoSelfOverlap(sep: Bytes)
  {
    forall k :: 0 < k < |sep| ==> sep[k..] != sep[..|sep| - k]
  }

  lemma {:induction false} LineSeparatorNoSelfOverlap()
    ensures NoSelfOverlap(LineSeparator)
  {
    forall k | 0 < k < 3 ensures LineSeparator[k..] != LineSeparator[..3 - k] {
      assert LineSeparator[k..][0] != LineSeparator[..3 - k][0];
    }
  }

  /** The first occurrence of sep in x ++ sep ++ r is the one after x when x has none. */
  lemma {:induction false} IndexAfterFree(x: Bytes, sep: Bytes, r: Bytes)
    requires |sep| > 0 && NoSelfOverlap(sep)
    requires !Contains(x, sep)
    ensures Index(x + sep + r, sep) == |x|
  {
    var t := x + sep + r;
    assert t[|x|..|x| + |sep|] == sep;
    assert At(t, sep, |x|);
    forall j | 0 <= j < |x| ensures !At(t, sep, j) {
      if j + |sep| <= |x| {
        assert t[j..j + |sep|] == x[j..j + |sep|];
        assert !At(x, sep, j);
      } else {
        var k := |x| - j;
        assert 0 < k < |sep|;
        var w := t[j..j + |sep|];
        assert w[k..] == t[|x|..|x| + |sep| - k] == sep[..|sep| - k];
        assert sep[k..] != sep[..|sep| - k];
      }
    }
  }

  /**
   * Splitting a joined batch gives the batch back when no element contains
   * the separator and the separator cannot overlap itself; the empty batch
   * comes back as one empty segment.
   */
  lemma {:induction false} SplitJoin(xs: seq<Bytes>, sep: Bytes)
    requires |sep| > 0 && NoSelfOverlap(sep)
    requires forall k :: 0 <= k < |xs| ==> !Contains(xs[k], sep)
    ensures xs != [] ==> Split(Join(xs, sep), sep) == xs
    ensures xs == [] ==> Split(Join(xs, sep), sep) == [[]]
  {
    if |xs| == 1 {
      assert !Contains(xs[0], sep);
    } else if |xs| > 1 {
      var rest := Join(xs[1..], sep);
      IndexAfterFree(xs[0], sep, rest);
      SplitJoin(xs[1..], sep);
      var t := xs[0] + sep + rest;
      assert t[..|xs[0]|] == xs[0];
      assert t[|xs[0]| + |sep|..] == rest;
      assert xs == [xs[0]] + xs[1..];
    }
  }

  /** gz: join on lineSeparator, whatever separator the caller passes, and compress. */
  function Gz(slices: seq<Bytes>, separator: string): (r: Bytes)
    ensures Decompress(r) == Ok(Join(slices, LineSeparator))
  {
    DecompressCompress(Join(slices, LineSeparator));
    Compress(Join(slices, LineSeparator))
  }

  /** ungz: decompress, then split on lineSeparator; a decompression error gives no lines. */
  function Ungz(zipped: Bytes): (r: Result<seq<Bytes>>)
    ensures r.Err? <==> Decompress(zipped).Err?
  {
    match Decompress(zipped)
    case Err(e) => Err(e)
    case Ok(bz) => Ok(Split(bz, LineSeparator))
  }

  /** ungz(gz(xs)) is the split of the joined batch, for any separator argument. */
  lemma {:induction false} UngzGz(slices: seq<Bytes>, separator: string)
    ensures Ungz(Gz(slices, separator)) == Ok(Split(Join(slices, LineSeparator), LineSeparator))
  {
    DecompressCompress(Join(slices, LineSeparator));
  }

  /** The transport round trip: a batch of separator-free records arrives as sent. */
  lemma {:induction false} UngzGzRoundTrip(slices: seq<Bytes>, separator: string)
    requires slices != []
    requires forall k :: 0 <= k < |slices| ==> !Contains(slices[k], LineSeparator)
    ensures Ungz(Gz(slices, separator)) == Ok(slices)
  {
    UngzGz(slices, separator);
    LineSeparatorNoSelfOverlap();
    SplitJoin(slices, LineSeparator);
  }

  /** A record that contains "☃" arrives as two lines: "A☃B" sent alone comes back as "A" and "B". */
  lemma {:induction false} SeparatorInRecordSplits(separator: string)
    ensures var a, b := [0x41], [0x42];
            Ungz(Gz([a + LineSeparator + b], separator)) == Ok([a, b])
  {
    var a, b := [0x41], [0x42];
    var x := a + LineSeparator + b;
    assert Join([x], LineSeparator) == x;
    UngzGz([x], separator);
    assert forall j :: !At(a, LineSeparator, j) && !At(b, LineSeparator, j);
    LineSeparatorNoSelfOverlap();
    SplitJoin([a, b], LineSeparator);
    JoinCons(a, [b], LineSeparator);
    assert Join([a, b], LineSeparator) == x;
  }
}
