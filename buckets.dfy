/**
 * A bbolt bucket keyed by itob-encoded sequence numbers, seen through its
 * cursor: keys are visited in ascending order (KeyCodec.ItobOrder shows the
 * byte order of the keys is the numeric order of the numbers), Seek goes to
 * the first key at or after a given one, Next to the following key, Last to
 * the greatest key.
 */
module Buckets {
  import opened Types

  /** x is the smallest key of s. */
  predicate IsLeast(x: uint64, s: set<uint64>)
  {
    x in s && forall k :: k in s ==> x <= k
  }

  /** x is the greatest key of s. */
  predicate IsGreatest(x: uint64, s: set<uint64>)
  {
    x in s && forall k :: k in s ==> k <= x
  }

  lemma {:induction false} LeastExists(s: set<uint64>)
    requires s != {}
    ensures exists x :: IsLeast(x, s)
    decreases |s|
  {
    var y :| y in s;
    var r := s - {y};
    if r == {} {
      assert s == {y};
      assert IsLeast(y, s);
    } else {
      LeastExists(r);
      var m :| IsLeast(m, r);
      var x := if y < m then y else m;
      assert IsLeast(x, s) by {
        forall k | k in s ensures x <= k { if k != y { assert k in r; } }
      }
    }
  }

  lemma {:induction false} GreatestExists(s: set<uint64>)
    requires s != {}
    ensures exists x :: IsGreatest(x, s)
    decreases |s|
  {
    var y :| y in s;
    var r := s - {y};
    if r == {} {
      assert s == {y};
      assert IsGreatest(y, s);
    } else {
      GreatestExists(r);
      var m :| IsGreatest(m, r);
      var x := if y > m then y else m;
      assert IsGreatest(x, s) by {
        forall k | k in s ensures k <= x { if k != y { assert k in r; } }
      }
    }
  }

  /** The smallest key of a non-empty key set (Cursor.First). */
  function Least(s: set<uint64>): (r: uint64)
    requires s != {}
    ensures r in s && forall k :: k in s ==> r <= k
  {
    LeastExists(s);
    var x :| IsLeast(x, s); x
  }

  /** The greatest key of a non-empty key set (Cursor.Last). */
  function Greatest(s: set<uint64>): (r: uint64)
    requires s != {}
    ensures r in s && forall k :: k in s ==> k <= r
  {
    GreatestExists(s);
    var x :| IsGreatest(x, s); x
  }

  function AtLeast(s: set<uint64>, k: uint64): set<uint64>
  {
    set j | j in s && k <= j
  }

  function Above(s: set<uint64>, k: uint64): set<uint64>
  {
    set j | j in s && k < j
  }

  /** Cursor.Seek(k): the first key at or after k, None past the end. */
  function Seek<V>(m: map<uint64, V>, k: uint64): (r: Option<uint64>)
    ensures r.None? <==> (forall j :: j in m ==> j < k)
    ensures r.Some? ==> r.value in m && k <= r.value && forall j :: j in m && k <= j ==> r.value <= j
  {
    var s := AtLeast(m.Keys, k);
    assert forall j :: j in m ==> (j in s <==> k <= j);
    if s == {} then None else Some(Least(s))
  }

  /** Cursor.Next after k: the first key strictly after k, None past the end. */
  function Next<V>(m: map<uint64, V>, k: uint64): (r: Option<uint64>)
    ensures r.None? <==> (forall j :: j in m ==> j <= k)
    ensures r.Some? ==> r.value in m && k < r.value && forall j :: j in m && k < j ==> r.value <= j
  {
    var s := Above(m.Keys, k);
    assert forall j :: j in m ==> (j in s <==> k < j);
    if s == {} then None else Some(Least(s))
  }

  predicate StrictlyIncreasing(q: seq<uint64>)
  {
    forall i, j :: 0 <= i < j < |q| ==> q[i] < q[j]
  }

  /** The keys of s in the order a cursor visits them. */
  function Ascending(s: set<uint64>): (r: seq<uint64>)
    decreases |s|
  {
    if s == {} then [] else var m := Least(s); [m] + Ascending(s - {m})
  }

  /** q holds exactly the keys of s. */
  ghost predicate SameKeys(q: seq<uint64>, s: set<uint64>)
  {
    forall k :: k in q <==> k in s
  }

  /** Ascending(s) lists every key of s exactly once, in strictly ascending order. */
  lemma {:induction false} AscendingSpec(s: set<uint64>)
    ensures StrictlyIncreasing(Ascending(s))
    ensures forall k :: k in Ascending(s) <==> k in s
    ensures |Ascending(s)| == |s|
    decreases |s|
  {
    if s != {} {
      var m := Least(s);
      var r := s - {m};
      AscendingSpec(r);
      var t := Ascending(r);
      assert Ascending(s) == [m] + t;
      ConsIncreasing(m, t, r);
    }
  }

  /** Putting a key below all of r in front of an ascending listing of r keeps it ascending. */
  lemma {:induction false} ConsIncreasing(m: uint64, t: seq<uint64>, r: set<uint64>)
    requires StrictlyIncreasing(t) && SameKeys(t, r)
    requires forall k :: k in r ==> m < k
    ensures StrictlyIncreasing([m] + t)
    ensures forall k :: k in [m] + t <==> k == m || k in r
  {
    var q := [m] + t;
    forall i, j | 0 <= i < j < |q| ensures q[i] < q[j] {
      assert q[j] == t[j - 1] && t[j - 1] in t;
      if i > 0 { assert q[i] == t[i - 1]; }
    }
  }

  /** Dropping the head of a strictly ascending listing of s lists s without its least key. */
  lemma {:induction false} TailKeys(q: seq<uint64>, s: set<uint64>)
    requires q != [] && StrictlyIncreasing(q) && SameKeys(q, s)
    ensures IsLeast(q[0], s)
    ensures StrictlyIncreasing(q[1..]) && SameKeys(q[1..], s - {q[0]})
  {
    forall k | k in s ensures q[0] <= k {
      var i :| 0 <= i < |q| && q[i] == k;
    }
    forall k ensures k in q[1..] <==> k in s - {q[0]} {
      if k in q[1..] {
        var i :| 0 <= i < |q| - 1 && q[1..][i] == k;
        assert q[i + 1] == k;
      }
      if k in s - {q[0]} {
        var i :| 0 <= i < |q| && q[i] == k;
        assert q[1..][i - 1] == k;
      }
    }
  }

  /** A strictly ascending listing of s is Ascending(s): the cursor order is the only one. */
  lemma {:induction false} AscendingUnique(q: seq<uint64>, s: set<uint64>)
    requires StrictlyIncreasing(q)
    requires forall k :: k in q <==> k in s
    ensures q == Ascending(s)
    decreases |q|
  {
    if q == [] {
      assert forall k :: k !in s;
    } else {
      TailKeys(q, s);
      assert Least(s) == q[0];
      AscendingUnique(q[1..], s - {q[0]});
      assert q == [q[0]] + q[1..];
    }
  }

  /** The keys left after removing the first n of a strictly ascending listing are its last ones. */
  lemma {:induction false} SuffixKeys(q: seq<uint64>, s: set<uint64>, n: nat)
    requires StrictlyIncreasing(q) && SameKeys(q, s) && n <= |q|
    ensures SameKeys(q[n..], s - set k | k in q[..n])
  {
    var removed := set k | k in q[..n];
    forall k | k in q[n..] ensures k in s - removed {
      var i :| 0 <= i < |q| - n && q[n..][i] == k;
      assert q[n + i] == k;
      forall j | 0 <= j < n ensures q[..n][j] != k {
        assert q[..n][j] == q[j];
      }
    }
    forall k | k in s - removed ensures k in q[n..] {
      var i :| 0 <= i < |q| && q[i] == k;
      assert forall j :: 0 <= j < n ==> q[..n][j] == q[j];
      assert q[n..][i - n] == k;
    }
  }

  /** Removing the first keys a cursor visits leaves the rest, still in cursor order. */
  lemma {:induction false} DropPrefix(s: set<uint64>, n: nat)
    requires n <= |Ascending(s)|
    ensures Ascending(s - set k | k in Ascending(s)[..n]) == Ascending(s)[n..]
  {
    var q := Ascending(s);
    AscendingSpec(s);
    SuffixKeys(q, s, n);
    assert StrictlyIncreasing(q[n..]) by {
      forall i, j | 0 <= i < j < |q| - n ensures q[n..][i] < q[n..][j] {
        assert q[n..][i] == q[n + i] && q[n..][j] == q[n + j];
      }
    }
    AscendingUnique(q[n..], s - set k | k in q[..n]);
  }

  /**
   * Stepping the cursor: the keys at or after Least(s) in the listing of
   * an upward-closed set S are Least(S) followed by those strictly after it.
   */
  lemma {:induction false} AtLeastStep<V>(m: map<uint64, V>, k: uint64)
    requires AtLeast(m.Keys, k) != {}
    ensures Least(AtLeast(m.Keys, k)) == Seek(m, k).value
    ensures AtLeast(m.Keys, k) - {Seek(m, k).value} == Above(m.Keys, Seek(m, k).value)
    ensures AtLeast(m.Keys, k) == AtLeast(m.Keys, Seek(m, k).value)
  {
  }

  lemma {:induction false} AboveStep<V>(m: map<uint64, V>, k: uint64)
    requires Above(m.Keys, k) != {}
    ensures Above(m.Keys, k) == AtLeast(m.Keys, Next(m, k).value)
  {
  }

  /** One cursor step from key k: the keys ahead are k, then those after k, which start at Next(m, k). */
  lemma {:induction false} CursorStep<V>(m: map<uint64, V>, k: uint64)
    requires k in m
    ensures Above(m.Keys, k) == AtLeast(m.Keys, k) - {k}
    ensures Ascending(AtLeast(m.Keys, k)) == [k] + Ascending(Above(m.Keys, k))
    ensures Next(m, k).None? ==> Above(m.Keys, k) == {}
    ensures Next(m, k).Some? ==> Above(m.Keys, k) == AtLeast(m.Keys, Next(m, k).value)
  {
    var s := AtLeast(m.Keys, k);
    assert k in s;
    assert Least(s) == k;
    assert s - {k} == Above(m.Keys, k);
    if Next(m, k).Some? {
      AboveStep(m, k);
    }
  }

  /**
   * A cursor walking over the keys S of m in ascending order has visited
   * `visited` and stands at cur (None: past the end).
   */
  ghost predicate CursorAt<V>(m: map<uint64, V>, S: set<uint64>, visited: seq<uint64>, cur: Option<uint64>)
  {
    match cur
    case None => visited == Ascending(S)
    case Some(k) => k in m && visited + Ascending(AtLeast(m.Keys, k)) == Ascending(S)
  }

  /** Starting a walk over the keys at or after k with Seek(m, k). */
  lemma {:induction false} CursorSeek<V>(m: map<uint64, V>, k: uint64)
    ensures CursorAt(m, AtLeast(m.Keys, k), [], Seek(m, k))
  {
    if Seek(m, k).Some? {
      AtLeastStep(m, k);
    } else {
      assert AtLeast(m.Keys, k) == {};
    }
  }

  /** Visiting the current key and moving on with Next(m, k). */
  lemma {:induction false} CursorAdvance<V>(m: map<uint64, V>, S: set<uint64>, visited: seq<uint64>, k: uint64)
    requires CursorAt(m, S, visited, Some(k))
    ensures CursorAt(m, S, visited + [k], Next(m, k))
    ensures |visited| < |Ascending(S)|
  {
    CursorStep(m, k);
    assert visited + Ascending(AtLeast(m.Keys, k)) == (visited + [k]) + Ascending(Above(m.Keys, k));
  }

  /** Where a walk stands, the visited keys are a prefix of the whole walk. */
  lemma {:induction false} CursorPrefix<V>(m: map<uint64, V>, S: set<uint64>, visited: seq<uint64>, cur: Option<uint64>)
    requires CursorAt(m, S, visited, cur)
    ensures |visited| <= |Ascending(S)| && visited == Ascending(S)[..|visited|]
    ensures cur.None? ==> visited == Ascending(S)
  {
    if cur.Some? {
      var rest := Ascending(AtLeast(m.Keys, cur.value));
      assert (visited + rest)[..|visited|] == visited;
    }
  }
}
