/**
 * The backends and the server pool of the load balancer as heap objects:
 * each Backend carries its own liveness flag, and the ServerPool holds the
 * ordered backends and the shared uint64 cursor. Every method is proved
 * against the value-level functions of module PoolSpec. Locks and atomic
 * operations are read as plain sequential reads and writes.
 */
module Pool {
  import opened PoolSpec

  class Backend {
    /** The backend's URL, as its String() form; fixed at construction. */
    const url: string
    var alive: bool

    constructor (url: string, alive: bool)
      ensures this.url == url && this.alive == alive
    {
      this.url := url;
      this.alive := alive;
    }

    method SetAlive(a: bool)
      modifies this
      ensures alive == a
    {
      alive := a;
    }

    method IsAlive() returns (a: bool)
      ensures a == alive
    {
      a := alive;
    }
  }

  class ServerPool {
    var backends: seq<Backend>
    var current: Uint64

    /** The zero value of a Go ServerPool: no backends, cursor 0. */
    constructor ()
      ensures backends == [] && current == 0
    {
      backends := [];
      current := 0;
    }

    /** Each Backend object is registered once. */
    ghost predicate Valid()
      reads this
    {
      forall i, j :: 0 <= i < j < |backends| ==> backends[i] != backends[j]
    }

    function Urls(): (r: seq<string>)
      reads this
      ensures |r| == |backends|
      ensures forall i :: 0 <= i < |backends| ==> r[i] == backends[i].url
    {
      seq(|backends|, i requires 0 <= i < |backends| reads this => backends[i].url)
    }

    ghost function Alive(): (r: seq<bool>)
      reads this, backends
      ensures |r| == |backends|
      ensures forall i :: 0 <= i < |backends| ==> r[i] == backends[i].alive
    {
      seq(|backends|, i requires 0 <= i < |backends| reads this, backends => backends[i].alive)
    }

    ghost function State(): PoolState
      reads this, backends
    {
      PoolState(Urls(), Alive(), current)
    }

    /** Increments the cursor (wrapping at 2^64) and returns it modulo the number of backends. */
    method NextIndex() returns (i: nat)
      requires |backends| > 0
      modifies this`current
      ensures current == Inc(old(current))
      ensures i == StartIndex(old(current), |backends|) && i < |backends|
    {
      current := Inc(current);
      i := current % |backends|;
    }

    /**
     * Returns the first live backend in cyclic order from NextIndex(), or
     * null if none is alive; when the live backend is not at the start index
     * the cursor is overwritten with its index.
     */
    method GetNextPeer() returns (peer: Backend?)
      requires |backends| > 0
      modifies this`current
      ensures var sel := Select(old(Alive()), old(current));
              && current == sel.cursor
              && (peer == null <==> sel.peer.None?)
              && (sel.peer.Some? ==> peer == backends[sel.peer.value])
      ensures Alive() == old(Alive())
    {
      ghost var flags := Alive();
      var next := NextIndex();
      var n := |backends|;
      var l := n + next;
      var i := next;
      while i < l
        invariant next <= i <= l
        invariant current == Inc(old(current))
        invariant Alive() == flags
        invariant ScanFrom(flags, next, i - next) == ScanFrom(flags, next, 0)
      {
        var idx := i % n;
        assert idx == Probe(next, i - next, n);
        var a := backends[idx].IsAlive();
        if a {
          if i != next {
            current := idx % U64;
          }
          return backends[idx];
        }
        i := i + 1;
      }
      return null;
    }

    /** Appends b at the end of the pool; the pool stays valid exactly when b was not registered yet. */
    method AddBackend(b: Backend)
      modifies this`backends
      ensures backends == old(backends) + [b]
      ensures Valid() <==> old(Valid()) && b !in old(backends)
      ensures Urls() == old(Urls()) + [b.url]
      ensures Alive() == old(Alive()) + [b.alive]
    {
      ghost var before := backends;
      backends := backends + [b];
      if b in before {
        var k :| 0 <= k < |before| && before[k] == b;
        assert backends[k] == backends[|before|];
        assert !Valid();
      } else {
        assert forall k :: 0 <= k < |before| ==> backends[k] == before[k] != b;
      }
    }

    /**
     * Sets the liveness of the first backend whose URL is u; later backends
     * with the same URL and all other backends keep theirs.
     */
    method ChangeBackendStatus(u: string, a: bool)
      requires Valid()
      modifies backends
      ensures Alive() == MarkFirst(Urls(), old(Alive()), u, a)
      ensures State() == old(State()).(alive := MarkFirst(Urls(), old(Alive()), u, a))
    {
      ghost var flags := Alive();
      var i := 0;
      while i < |backends|
        invariant 0 <= i <= |backends|
        invariant forall j :: 0 <= j < i ==> backends[j].url != u
        invariant Alive() == flags
      {
        if backends[i].url == u {
          backends[i].SetAlive(a);
          assert FirstMatch(Urls(), u) == Some(i);
          assert Alive() == flags[i := a];
          break;
        }
        i := i + 1;
      }
    }

    /** Overwrites every backend's liveness with the probe's verdict on its URL, whatever it was before. */
    method HealthCheck(probe: string -> bool)
      modifies backends
      ensures forall i :: 0 <= i < |backends| ==> backends[i].alive == probe(backends[i].url)
      ensures Urls() == old(Urls()) && current == old(current)
    {
      var i := 0;
      while i < |backends|
        invariant 0 <= i <= |backends|
        invariant forall j :: 0 <= j < i ==> backends[j].alive == probe(backends[j].url)
      {
        var b := backends[i];
        var up := probe(b.url);
        b.SetAlive(up);
        i := i + 1;
      }
    }
  }
}
