/**
 * The 8-byte big-endian key codec of storage.go (`itob`, `btoi`), and the
 * proof that it turns numeric order into the byte order bbolt keeps keys in.
 */
module KeyCodec {
  import opened Types

  function Pow256(n: nat): (p: nat)
    ensures p >= 1
  {
    if n == 0 then 1 else 256 * Pow256(n - 1)
  }

  /** The n low-order bytes of v, most significant first. */
  function BigEndian(v: nat, n: nat): (r: Bytes)
    ensures |r| == n
  {
    if n == 0 then [] else BigEndian(v / 256, n - 1) + [v % 256]
  }

  /** The number a big-endian byte string denotes. */
  function Decode(b: Bytes): (v: nat)
    ensures v < Pow256(|b|)
  {
    if b == [] then 0 else Decode(b[..|b| - 1]) * 256 + b[|b| - 1]
  }

  lemma {:induction false} DecodeBigEndian(v: nat, n: nat)
    requires v < Pow256(n)
    ensures Decode(BigEndian(v, n)) == v
  {
    if n > 0 {
      DecodeBigEndian(v / 256, n - 1);
      assert BigEndian(v, n)[..n - 1] == BigEndian(v / 256, n - 1);
    }
  }

  lemma {:induction false} BigEndianDecode(b: Bytes)
    ensures BigEndian(Decode(b), |b|) == b
  {
    if b != [] {
      var init, last := b[..|b| - 1], b[|b| - 1];
      BigEndianDecode(init);
      var v := Decode(b);
      assert v / 256 == Decode(init) && v % 256 == last;
      assert b == init + [last];
    }
  }

  lemma {:induction false} Pow256Of8()
    ensures Pow256(8) == 0x1_0000_0000_0000_0000
  {
  }

  /** itob: the 8-byte big-endian encoding of v. */
  function Itob(v: uint64): (r: Bytes)
    ensures |r| == 8
  {
    BigEndian(v, 8)
  }

  /**
   * btoi: binary.Read of a big-endian uint64 from the first 8 bytes of b.
   * With fewer than 8 bytes binary.Read fails and the source exits the
   * process (log.Fatalln); that outcome is None.
   */
  function Btoi(b: Bytes): (r: Option<uint64>)
    ensures r.None? <==> |b| < 8
    ensures r.Some? ==> Itob(r.value) == b[..8]
  {
    if |b| < 8 then None
    else
      var v := Decode(b[..8]);
      Pow256Of8();
      BigEndianDecode(b[..8]);
      Some(v)
  }

  /** btoi(itob(v)) == v for every uint64. */
  lemma {:induction false} BtoiItob(v: uint64)
    ensures Btoi(Itob(v)) == Some(v)
  {
    Pow256Of8();
    DecodeBigEndian(v, 8);
    assert Itob(v)[..8] == Itob(v);
  }

  /** itob is injective: distinct sequence numbers give distinct keys. */
  lemma {:induction false} ItobInjective(a: uint64, b: uint64)
    ensures Itob(a) == Itob(b) <==> a == b
  {
    BtoiItob(a);
    BtoiItob(b);
  }

  /** bytes.Compare(a, b) < 0: the lexicographic byte order of bbolt's cursor. */
  predicate LexLess(a: Bytes, b: Bytes)
  {
    |b| > 0 && (|a| == 0 || a[0] < b[0] || (a[0] == b[0] && LexLess(a[1..], b[1..])))
  }

  lemma {:induction false} LexLessSnoc(p: Bytes, q: Bytes, x: byte, y: byte)
    requires |p| == |q|
    ensures LexLess(p + [x], q + [y]) <==> LexLess(p, q) || (p == q && x < y)
  {
    if |p| > 0 {
      LexLessSnoc(p[1..], q[1..], x, y);
      assert (p + [x])[1..] == p[1..] + [x];
      assert (q + [y])[1..] == q[1..] + [y];
      assert p == q <==> p[0] == q[0] && p[1..] == q[1..];
    }
  }

  /** On strings of one length, byte order is the order of the numbers they denote. */
  lemma {:induction false} LexLessDecode(p: Bytes, q: Bytes)
    requires |p| == |q|
    ensures LexLess(p, q) <==> Decode(p) < Decode(q)
  {
    if |p| > 0 {
      var n := |p| - 1;
      var p', q' := p[..n], q[..n];
      LexLessDecode(p', q');
      LexLessSnoc(p', q', p[n], q[n]);
      assert p == p' + [p[n]] && q == q' + [q[n]];
      BigEndianDecode(p');
      BigEndianDecode(q');
      assert p' == q' <==> Decode(p') == Decode(q');
    }
  }

  /** itob is strictly order-preserving: cursor order on keys is numeric order on sequence numbers. */
  lemma {:induction false} ItobOrder(a: uint64, b: uint64)
    ensures LexLess(Itob(a), Itob(b)) <==> a < b
  {
    LexLessDecode(Itob(a), Itob(b));
    Pow256Of8();
    DecodeBigEndian(a, 8);
    DecodeBigEndian(b, 8);
  }
}
