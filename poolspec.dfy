/**
 * Value-level specification of the server pool of the load balancer:
 * the unsigned 64-bit cursor, the cyclic scan for a live backend, the
 * status change by URL, and the abstract state of a pool. The classes in
 * module Pool are proved against these functions.
 */
module PoolSpec {

  datatype Option<T> = None | Some(value: T)

  /** 2^64: the cursor is a Go uint64 and wraps around at this value. */
  const U64: int := 0x1_0000_0000_0000_0000

  type Uint64 = x: int | 0 <= x < U64

  /** The abstract state of a ServerPool: URL and liveness of each backend, in pool order, and the cursor. */
  datatype PoolState = PoolState(urls: seq<string>, alive: seq<bool>, current: Uint64)
  {
    ghost predicate Wf() {
      |urls| == |alive| && |alive| > 0
    }
  }

  /** The cursor after one unsigned 64-bit increment. */
  function Inc(c: Uint64): (r: Uint64)
    ensures c < U64 - 1 ==> r == c + 1
    ensures c == U64 - 1 ==> r == 0
  {
    (c + 1) % U64
  }

  /** The index NextIndex returns when the cursor held c before the call. */
  function StartIndex(c: Uint64, n: nat): (i: nat)
    requires n > 0
    ensures i < n
  {
    Inc(c) % n
  }

  /** How many steps forward, cyclically in a pool of n, index `to` lies from index `from`. */
  function CyclicOffset(from: nat, to: nat, n: nat): (d: nat)
    requires n > 0
    ensures d < n
  {
    (to - from) % n
  }

  /** The index probed at offset m of a cyclic scan from start in a pool of n. */
  function Probe(start: nat, m: nat, n: nat): (i: nat)
    requires n > 0
    ensures i < n
  {
    (start + m) % n
  }

  /**
   * The scan of GetNextPeer: the least offset m in [j, n) such that the
   * backend at (start + m) % n is alive, or None if there is none.
   */
  function ScanFrom(alive: seq<bool>, start: nat, j: nat): (r: Option<nat>)
    requires start < |alive| && j <= |alive|
    ensures r.Some? ==> j <= r.value < |alive| && alive[Probe(start, r.value, |alive|)]
    ensures r.Some? ==> forall m :: j <= m < r.value ==> !alive[Probe(start, m, |alive|)]
    ensures r.None? ==> forall m :: j <= m < |alive| ==> !alive[Probe(start, m, |alive|)]
    decreases |alive| - j
  {
    if j == |alive| then None
    else if alive[Probe(start, j, |alive|)] then Some(j)
    else ScanFrom(alive, start, j + 1)
  }

  /** The result of one GetNextPeer call: the index of the returned backend (None for nil) and the new cursor. */
  datatype Selection = Selection(peer: Option<nat>, cursor: Uint64)

  /**
   * GetNextPeer on the liveness flags `alive` with cursor `current`: the
   * cursor is incremented, the scan starts at the incremented cursor mod n,
   * and if the live backend is found at a later offset the cursor is
   * overwritten with its index (as a uint64).
   */
  function Select(alive: seq<bool>, current: Uint64): (r: Selection)
    requires |alive| > 0
    ensures r.peer.Some? ==> r.peer.value < |alive| && alive[r.peer.value]
  {
    var n := |alive|;
    var c := Inc(current);
    var start := c % n;
    match ScanFrom(alive, start, 0)
    case None => Selection(None, c)
    case Some(off) =>
      var idx := Probe(start, off, n);
      Selection(Some(idx), if off != 0 then idx % U64 else c)
  }

  /** A positive multiple of n is at least n. */
  lemma {:induction false} MulAtLeast(n: int, d: int)
    requires n > 0 && d >= 1
    ensures n * d >= n
    decreases d
  {
    if d > 1 {
      MulAtLeast(n, d - 1);
      assert n * d == n * (d - 1) + n;
    }
  }

  /** Euclidean remainders are unique: x == n * q + r with 0 <= r < n fixes x % n. */
  lemma ModUnique(x: int, n: int, q: int, r: int)
    requires n > 0 && 0 <= r < n && x == n * q + r
    ensures x % n == r
  {
    var q', r' := x / n, x % n;
    assert x == n * q' + r';
    var d := q - q';
    assert n * d == r' - r;
    if d >= 1 {
      MulAtLeast(n, d);
    } else if d <= -1 {
      assert n * (-d) == -(n * d);
      MulAtLeast(n, -d);
    }
  }

  /** x % n for 0 <= x < 2n, without division. */
  lemma ModBelowTwice(x: int, n: int)
    requires 0 < n && 0 <= x < 2 * n
    ensures x % n == if x < n then x else x - n
  {
    if x < n {
      ModUnique(x, n, 0, x);
    } else {
      ModUnique(x, n, 1, x - n);
    }
  }

  /** (x - y) % n for -n < x - y < n. */
  lemma ModOfDifference(x: int, y: int, n: int)
    requires 0 < n && -n < x - y < n
    ensures (x - y) % n == if x >= y then x - y else x - y + n
  {
    if x >= y {
      ModUnique(x - y, n, 0, x - y);
    } else {
      ModUnique(x - y, n, -1, x - y + n);
    }
  }

  /** Probing at the cyclic offset of i from start lands on i. */
  lemma ProbeAtOffset(start: nat, i: nat, n: nat)
    requires start < n && i < n
    ensures Probe(start, CyclicOffset(start, i, n), n) == i
  {
    ModOfDifference(i, start, n);
    ModBelowTwice(start + CyclicOffset(start, i, n), n);
  }

  /** The cyclic offset of the probe at offset m is m. */
  lemma OffsetOfProbe(start: nat, m: nat, n: nat)
    requires start < n && m < n
    ensures CyclicOffset(start, Probe(start, m, n), n) == m
  {
    ModBelowTwice(start + m, n);
    ModOfDifference((start + m) % n, start, n);
  }

  /** Select yields no peer exactly when no backend is alive. */
  lemma {:induction false} SelectNoneIff(alive: seq<bool>, current: Uint64)
    requires |alive| > 0
    ensures Select(alive, current).peer.None? <==> forall i :: 0 <= i < |alive| ==> !alive[i]
  {
    var n := |alive|;
    var start := StartIndex(current, n);
    if Select(alive, current).peer.None? {
      assert ScanFrom(alive, start, 0).None?;
      forall i | 0 <= i < n
        ensures !alive[i]
      {
        ProbeAtOffset(start, i, n);
        var m := CyclicOffset(start, i, n);
        assert !alive[Probe(start, m, n)];
      }
    }
  }

  /**
   * A peer returned by Select is the first live backend in cyclic order from
   * the start index: every backend strictly before it in that order is dead.
   */
  lemma {:induction false} SelectFirstInCyclicOrder(alive: seq<bool>, current: Uint64)
    requires |alive| > 0
    ensures var n := |alive|;
            var start := StartIndex(current, n);
            var r := Select(alive, current);
            r.peer.Some? ==>
              && alive[r.peer.value]
              && forall i :: 0 <= i < n && CyclicOffset(start, i, n) < CyclicOffset(start, r.peer.value, n) ==> !alive[i]
  {
    var n := |alive|;
    var start := StartIndex(current, n);
    var r := Select(alive, current);
    if r.peer.Some? {
      var off := ScanFrom(alive, start, 0).value;
      OffsetOfProbe(start, off, n);
      forall i | 0 <= i < n && CyclicOffset(start, i, n) < CyclicOffset(start, r.peer.value, n)
        ensures !alive[i]
      {
        ProbeAtOffset(start, i, n);
      }
    }
  }

  /**
   * The cursor after Select: the plain increment when the peer sits at the
   * start index or there is no peer, the peer's index otherwise, in which case
   * the next selection starts just past that peer.
   */
  lemma {:induction false} SelectCursor(alive: seq<bool>, current: Uint64)
    requires 0 < |alive| < U64
    ensures var n := |alive|;
            var r := Select(alive, current);
            && (r.peer.None? ==> r.cursor == Inc(current))
            && (r.peer.Some? && r.peer.value == StartIndex(current, n) ==> r.cursor == Inc(current))
            && (r.peer.Some? && r.peer.value != StartIndex(current, n) ==>
                  r.cursor == r.peer.value && StartIndex(r.cursor, n) == (r.peer.value + 1) % n)
  {
    var n := |alive|;
    var start := StartIndex(current, n);
    var r := Select(alive, current);
    if r.peer.Some? {
      var off := ScanFrom(alive, start, 0).value;
      OffsetOfProbe(start, off, n);
      if off == 0 {
        ModBelowTwice(start, n);
      } else {
        ModBelowTwice(r.peer.value, U64);
        assert r.peer.value != start by {
          ModBelowTwice(start, n);
        }
      }
    }
  }

  /** The peers returned by m consecutive selections from cursor `current`. */
  function Picks(alive: seq<bool>, current: Uint64, m: nat): (r: seq<Option<nat>>)
    requires |alive| > 0
    ensures |r| == m
    decreases m
  {
    if m == 0 then []
    else
      var s := Select(alive, current);
      [s.peer] + Picks(alive, s.cursor, m - 1)
  }

  /** (x + 1) % n computed from x % n. */
  lemma ModSucc(x: nat, n: nat)
    requires n > 0
    ensures (x + 1) % n == if x % n + 1 == n then 0 else x % n + 1
  {
    var q := x / n;
    assert x == n * q + x % n;
    if x % n + 1 == n {
      ModUnique(x + 1, n, q + 1, 0);
    } else {
      ModUnique(x + 1, n, q, x % n + 1);
    }
  }

  /** With every backend alive each selection stays at the start index and only increments the cursor. */
  lemma {:induction false} AllAliveSelect(alive: seq<bool>, current: Uint64)
    requires |alive| > 0
    requires forall i :: 0 <= i < |alive| ==> alive[i]
    ensures Select(alive, current) == Selection(Some(StartIndex(current, |alive|)), Inc(current))
  {
    var n := |alive|;
    var start := StartIndex(current, n);
    assert alive[Probe(start, 0, n)] by {
      ModBelowTwice(start, n);
    }
    ModBelowTwice(start, n);
  }

  /** With every backend alive and no wrap of the cursor, the j-th pick is (current + 1 + j) % n. */
  lemma {:induction false} AllAlivePicks(alive: seq<bool>, current: Uint64, m: nat)
    requires |alive| > 0
    requires forall i :: 0 <= i < |alive| ==> alive[i]
    requires current + m < U64
    ensures forall j :: 0 <= j < m ==> Picks(alive, current, m)[j] == Some((current + 1 + j) % |alive|)
    decreases m
  {
    if m > 0 {
      AllAliveSelect(alive, current);
      var c' := Inc(current);
      assert c' == current + 1;
      AllAlivePicks(alive, c', m - 1);
      var r := Picks(alive, current, m);
      forall j | 0 <= j < m
        ensures r[j] == Some((current + 1 + j) % |alive|)
      {
        if j > 0 {
          assert r[j] == Picks(alive, c', m - 1)[j - 1];
        }
      }
    }
  }

  /** The residues (b + j) % n for j in [0, n) are pairwise distinct. */
  lemma ResiduesDistinct(b: nat, j1: nat, j2: nat, n: nat)
    requires n > 0 && j1 < j2 < n
    ensures (b + j1) % n != (b + j2) % n
  {
    var q := b / n;
    var r0 := b % n;
    assert b == n * q + r0;
    ModBelowTwice(r0 + j1, n);
    ModBelowTwice(r0 + j2, n);
    AddMultiple(q, r0 + j1, n);
    AddMultiple(q, r0 + j2, n);
  }

  /** Adding a multiple of n does not change the residue. */
  lemma AddMultiple(q: int, y: int, n: int)
    requires n > 0
    ensures (n * q + y) % n == y % n
  {
    var a := y / n;
    assert y == n * a + y % n;
    assert n * q + y == n * (q + a) + y % n;
    ModUnique(n * q + y, n, q + a, y % n);
  }

  /**
   * Round robin: with every backend alive and no uint64 wrap-around of the
   * cursor during the n calls, n consecutive selections return every backend
   * exactly once, in cyclic order starting just after the cursor.
   */
  lemma {:induction false} RoundRobin(alive: seq<bool>, current: Uint64)
    requires |alive| > 0
    requires forall i :: 0 <= i < |alive| ==> alive[i]
    requires current + |alive| < U64
    ensures var n := |alive|;
            var r := Picks(alive, current, n);
            && (forall j :: 0 <= j < n ==> r[j] == Some((current + 1 + j) % n))
            && (forall j1, j2 :: 0 <= j1 < j2 < n ==> r[j1] != r[j2])
            && (forall i :: 0 <= i < n ==> Some(i) in r)
  {
    var n := |alive|;
    var r := Picks(alive, current, n);
    AllAlivePicks(alive, current, n);
    forall j1, j2 | 0 <= j1 < j2 < n
      ensures r[j1] != r[j2]
    {
      ResiduesDistinct(current + 1, j1, j2, n);
    }
    forall i | 0 <= i < n
      ensures Some(i) in r
    {
      var b := (current + 1) % n;
      ProbeAtOffset(b, i, n);
      var j := CyclicOffset(b, i, n);
      AddMultiple((current + 1) / n, b + j, n);
      assert current + 1 + j == n * ((current + 1) / n) + (b + j);
      assert r[j] == Some(i);
    }
  }

  /**
   * At the uint64 wrap-around the rotation breaks when n does not divide 2^64:
   * with three live backends and the cursor two below 2^64, two consecutive
   * selections both return backend 0.
   */
  lemma WrapRepeatsBackend()
    ensures Picks([true, true, true], U64 - 2, 2) == [Some(0), Some(0)]
  {
    AllAliveSelect([true, true, true], U64 - 2);
    AllAliveSelect([true, true, true], U64 - 1);
  }

  /**
   * When n divides 2^64 the wrap keeps the rotation: with two live backends
   * and the cursor two below 2^64, two consecutive selections return
   * backends 1 and 0, that is (current + 1 + j) % 2.
   */
  lemma WrapKeepsRotationForTwo()
    ensures Picks([true, true], U64 - 2, 2) == [Some(1), Some(0)]
  {
    AllAliveSelect([true, true], U64 - 2);
    AllAliveSelect([true, true], U64 - 1);
  }

  /** The index of the first URL equal to u, as ChangeBackendStatus's loop finds it. */
  function FirstMatch(urls: seq<string>, u: string): (r: Option<nat>)
    ensures r.Some? ==> r.value < |urls| && urls[r.value] == u && forall j :: 0 <= j < r.value ==> urls[j] != u
    ensures r.None? <==> u !in urls
  {
    if urls == [] then None
    else if urls[0] == u then Some(0)
    else
      match FirstMatch(urls[1..], u)
      case None => None
      case Some(i) => Some(i + 1)
  }

  /**
   * The liveness flags after ChangeBackendStatus(u, a): the first backend
   * whose URL is u gets a; every other backend, later duplicates of u
   * included, keeps its flag.
   */
  function MarkFirst(urls: seq<string>, alive: seq<bool>, u: string, a: bool): (r: seq<bool>)
    requires |urls| == |alive|
    ensures |r| == |alive|
    ensures u !in urls ==> r == alive
    ensures forall i :: 0 <= i < |urls| && urls[i] == u && (forall j :: 0 <= j < i ==> urls[j] != u) ==> r[i] == a
    ensures forall i :: 0 <= i < |urls| && (urls[i] != u || exists j :: 0 <= j < i && urls[j] == u) ==> r[i] == alive[i]
  {
    match FirstMatch(urls, u)
    case None => alive
    case Some(i) => alive[i := a]
  }

  /** Distinct URLs: each backend address occurs once in the pool. */
  ghost predicate DistinctUrls(urls: seq<string>) {
    forall i, j :: 0 <= i < j < |urls| ==> urls[i] != urls[j]
  }

  /** With distinct URLs, marking u dead changes exactly the backend at u's index. */
  lemma MarkFirstDistinct(urls: seq<string>, alive: seq<bool>, i: nat, a: bool)
    requires |urls| == |alive| && i < |urls| && DistinctUrls(urls)
    ensures MarkFirst(urls, alive, urls[i], a) == alive[i := a]
  {
    var r := MarkFirst(urls, alive, urls[i], a);
    assert FirstMatch(urls, urls[i]) == Some(i);
  }
}
