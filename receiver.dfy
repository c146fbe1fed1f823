/**
 * The request handler that StartReceiving installs (receiver.go): read the
 * body, ungz it, hand every non-empty line to the eachLine callback, then
 * answer 200 "ok"; a body that cannot be read is answered 500 "error"; a
 * body that does not decompress is reported to the callback and the handler
 * returns without writing a status.
 */
module Receiver {
  import opened Types
  import opened Transport

  /** What the handler does, in the order it does it. */
  datatype Effect =
    | Callback(line: Bytes, err: Option<Error>)  // eachLine(line, err)
    | WriteHeader(status: int)                   // w.WriteHeader(status)
    | WriteBody(body: Bytes)                     // w.Write(body)

  /** "ok" */
  const OkBody: Bytes := [0x6F, 0x6B]

  /** "error" */
  const ErrorBody: Bytes := [0x65, 0x72, 0x72, 0x6F, 0x72]

  /** The lines with the empty ones left out, in their order. */
  function NonEmpty(lines: seq<Bytes>): (r: seq<Bytes>)
    ensures |r| <= |lines|
    ensures forall i :: 0 <= i < |r| ==> r[i] != []
  {
    if lines == [] then []
    else
      var init, last := NonEmpty(lines[..|lines| - 1]), lines[|lines| - 1];
      if last == [] then init else init + [last]
  }

  /** One eachLine(line, nil) per line, in order. */
  function Callbacks(lines: seq<Bytes>): seq<Effect>
  {
    if lines == [] then [] else Callbacks(lines[..|lines| - 1]) + [Callback(lines[|lines| - 1], None)]
  }

  lemma {:induction false} CallbacksSpec(lines: seq<Bytes>)
    ensures |Callbacks(lines)| == |lines|
    ensures forall i :: 0 <= i < |lines| ==> Callbacks(lines)[i] == Callback(lines[i], None)
  {
    if lines != [] {
      CallbacksSpec(lines[..|lines| - 1]);
    }
  }

  /** Filtering keeps exactly the non-empty lines. */
  lemma {:induction false} NonEmptyMembers(a: seq<Bytes>)
    ensures forall x :: x in NonEmpty(a) <==> x in a && x != []
  {
    if a != [] {
      var init := a[..|a| - 1];
      NonEmptyMembers(init);
      assert a == init + [a[|a| - 1]];
    }
  }

  /** Filtering a concatenation filters each part, so the order of the lines is kept. */
  lemma {:induction false} NonEmptyAppend(a: seq<Bytes>, b: seq<Bytes>)
    ensures NonEmpty(a + b) == NonEmpty(a) + NonEmpty(b)
    decreases |b|
  {
    if b == [] {
      assert a + b == a;
    } else {
      var binit := b[..|b| - 1];
      NonEmptyAppend(a, binit);
      assert (a + b)[..|a + b| - 1] == a + binit;
      assert (a + b)[|a + b| - 1] == b[|b| - 1];
    }
  }

  /** Lines none of which is empty pass the filter unchanged. */
  lemma {:induction false} NonEmptyIdentity(a: seq<Bytes>)
    requires forall i :: 0 <= i < |a| ==> a[i] != []
    ensures NonEmpty(a) == a
  {
    if a != [] {
      var init := a[..|a| - 1];
      NonEmptyIdentity(init);
      assert a == init + [a[|a| - 1]];
    }
  }

  /** The per-request handler: body is what ioutil.ReadAll read from the request, None when it failed. */
  method HandleRequest(body: Option<Bytes>) returns (effects: seq<Effect>)
    ensures body.None? ==> effects == [WriteHeader(500), WriteBody(ErrorBody)]
    ensures body.Some? && Ungz(body.value).Err? ==>
              effects == [Callback([], Some(Ungz(body.value).error))]
    ensures body.Some? && Ungz(body.value).Ok? ==>
              effects == Callbacks(NonEmpty(Ungz(body.value).value)) + [WriteHeader(200), WriteBody(OkBody)]
  {
    if body.None? {
      effects := [WriteHeader(500), WriteBody(ErrorBody)];
    } else {
      var decoded := Ungz(body.value);
      if decoded.Err? {
        effects := [Callback([], Some(decoded.error))];
        return;
      }
      var lines := decoded.value;
      effects := [];
      for i := 0 to |lines|
        invariant effects == Callbacks(NonEmpty(lines[..i]))
      {
        assert lines[..i + 1][..i] == lines[..i];
        var line := lines[i];
        if line == [] {
          continue;
        }
        effects := effects + [Callback(line, None)];
      }
      assert lines[..|lines|] == lines;
      effects := effects + [WriteHeader(200), WriteBody(OkBody)];
    }
  }

  /**
   * End to end: the lines dispatched for gz(xs) are exactly the non-empty
   * elements of xs, in order, when no element contains the separator. An
   * event stored as empty bytes is dropped here.
   */
  lemma {:induction false} DispatchOfGz(xs: seq<Bytes>, separator: string)
    requires forall k :: 0 <= k < |xs| ==> !Contains(xs[k], LineSeparator)
    ensures Ungz(Gz(xs, separator)).Ok?
    ensures NonEmpty(Ungz(Gz(xs, separator)).value) == NonEmpty(xs)
  {
    UngzGz(xs, separator);
    LineSeparatorNoSelfOverlap();
    SplitJoin(xs, LineSeparator);
  }

  /** The payload "A☃B☃" splits into "A", "B" and a trailing empty segment. */
  lemma {:induction false} TrailingSeparatorSplit()
    ensures var a, b := [0x41], [0x42];
            Ungz(Compress(a + LineSeparator + b + LineSeparator)) == Ok([a, b, []])
  {
    var a, b := [0x41], [0x42];
    var xs: seq<Bytes> := [a, b, []];
    assert forall j :: !At(a, LineSeparator, j) && !At(b, LineSeparator, j) && !At([], LineSeparator, j);
    JoinCons(a, [b, []], LineSeparator);
    JoinCons(b, [[]], LineSeparator);
    assert Join(xs, LineSeparator) == a + LineSeparator + b + LineSeparator;
    UngzGz(xs, "");
    LineSeparatorNoSelfOverlap();
    SplitJoin(xs, LineSeparator);
  }

  /** Of the segments "A", "B", "" only "A" and then "B" reach the callback. */
  lemma {:induction false} TrailingSeparatorDropped()
    ensures var a, b := [0x41], [0x42];
            Callbacks(NonEmpty([a, b, []])) == [Callback(a, None), Callback(b, None)]
  {
    var a, b := [0x41], [0x42];
    var ab: seq<Bytes> := [a, b];
    NonEmptyAppend(ab, [[]]);
    assert NonEmpty([[]]) == [];
    NonEmptyIdentity(ab);
    assert ab + [[]] == [a, b, []];
    assert NonEmpty([a, b, []]) == ab;
    assert ab[..1] == [a] && [a][..0] == ab[..0];
    assert Callbacks([a]) == [Callback(a, None)];
  }
}
