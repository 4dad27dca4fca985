/** The connection pool of mysqlx_client.cc as a value, and what each of its operations does to it.
    `H` is the type of connection handles: object references in `ConnectionPool`, numbers in
    `PoolProtocol`. */
module PoolModel {

  /** A pooled connection nobody uses, with the instant from which it may be pruned. */
  datatype Idle<+H> = Idle(connection: H, expiry: int)

  /** The fields that the pool's mutex guards. */
  datatype Pool<H> = Pool(active: set<H>, idle: seq<Idle<H>>, nextPrune: int)

  function Empty<H>(): Pool<H> { Pool({}, [], 0) }

  function Size<H>(p: Pool<H>): nat { |p.active| + |p.idle| }

  predicate HasIdle<H>(p: Pool<H>) { p.idle != [] }

  function Add<H>(p: Pool<H>, h: H): Pool<H> {
    p.(active := p.active + {h})
  }

  /** The front connection becomes active. */
  function TakeIdle<H>(p: Pool<H>): Pool<H>
    requires HasIdle(p)
  {
    p.(active := p.active + {p.idle[0].connection}, idle := p.idle[1..])
  }

  /** on_close: `h` leaves the active set; if it can be pooled, `replacement`, the handle its
      physical connection is moved into, joins the back of the idle queue. */
  function Release<H>(p: Pool<H>, h: H, poolable: bool, replacement: H, expiry: int): Pool<H> {
    if h !in p.active then p
    else if poolable then p.(active := p.active - {h}, idle := p.idle + [Idle(replacement, expiry)])
    else p.(active := p.active - {h})
  }

  /** Index of the first idle connection that has not expired. */
  function FirstUnexpired<H>(idle: seq<Idle<H>>, now: int): (k: nat)
    ensures k <= |idle|
    ensures forall i :: 0 <= i < k ==> idle[i].expiry <= now
    ensures k < |idle| ==> now < idle[k].expiry
  {
    if idle == [] || now < idle[0].expiry then 0 else 1 + FirstUnexpired(idle[1..], now)
  }

  predicate PruneDue<H>(p: Pool<H>, now: int, maxIdle: nat) {
    maxIdle != 0 && p.nextPrune < now
  }

  function Prune<H>(p: Pool<H>, now: int, maxIdle: nat): Pool<H> {
    if PruneDue(p, now, maxIdle)
    then p.(idle := p.idle[FirstUnexpired(p.idle, now)..], nextPrune := now + maxIdle)
    else p
  }

  /** close: closing a connection of the active set, or then of the queue, may throw, and what was not
      cleared by then stays. */
  function Close<H>(p: Pool<H>, activeThrows: bool, idleThrows: bool): Pool<H> {
    if activeThrows then p
    else if idleThrows then p.(active := {})
    else p.(active := {}, idle := [])
  }

  function Handles<H(==)>(idle: seq<Idle<H>>): set<H> {
    set c <- idle :: c.connection
  }

  predicate Apart<H(==)>(idle: seq<Idle<H>>, i: nat, j: nat)
    requires i < |idle| && j < |idle|
  {
    idle[i].connection != idle[j].connection
  }

  /** No handle is there twice. */
  ghost predicate DistinctIdle<H>(idle: seq<Idle<H>>) {
    forall i, j :: 0 <= i < j < |idle| ==> Apart(idle, i, j)
  }

  lemma FrontHandle<H>(idle: seq<Idle<H>>)
    requires idle != []
    ensures Handles(idle) == Handles(idle[1..]) + {idle[0].connection}
    ensures DistinctIdle(idle) ==> idle[0].connection !in Handles(idle[1..])
  {
    assert idle[..1] == [idle[0]] && idle[0] in idle[..1];
    assert idle == [idle[0]] + idle[1..];
    if DistinctIdle(idle) { DistinctParts(idle, 1); }
  }

  lemma DistinctParts<H>(idle: seq<Idle<H>>, k: nat)
    requires k <= |idle| && DistinctIdle(idle)
    ensures Handles(idle[..k]) !! Handles(idle[k..])
  {
    forall c, d | c in idle[..k] && d in idle[k..]
      ensures c.connection != d.connection
    {
      var i :| 0 <= i < k && idle[i] == c;
      var j :| 0 <= j < |idle[k..]| && idle[k..][j] == d;
      assert Apart(idle, i, k + j);
    }
  }

  lemma SuffixHandles<H>(idle: seq<Idle<H>>, k: nat)
    requires k <= |idle|
    ensures Handles(idle[k..]) <= Handles(idle)
    ensures DistinctIdle(idle) ==> DistinctIdle(idle[k..])
  {
    assert forall c <- idle[k..] :: c in idle;
    if DistinctIdle(idle) {
      forall i, j | 0 <= i < j < |idle[k..]|
        ensures Apart(idle[k..], i, j)
      {
        assert Apart(idle, k + i, k + j);
      }
    }
  }

  lemma PushedHandle<H>(idle: seq<Idle<H>>, c: Idle<H>)
    ensures Handles(idle + [c]) == Handles(idle) + {c.connection}
    ensures DistinctIdle(idle) && c.connection !in Handles(idle) ==> DistinctIdle(idle + [c])
  {
    if DistinctIdle(idle) && c.connection !in Handles(idle) {
      forall i, j | 0 <= i < j < |idle + [c]|
        ensures Apart(idle + [c], i, j)
      {
        assert j < |idle| ==> Apart(idle, i, j);
        assert idle[i] in idle;
      }
    }
  }

  // ---- the reference meaning of pruning ----

  /** Every connection of `idle` that is still usable at `now`, in order. */
  function Unexpired<H>(idle: seq<Idle<H>>, now: int): seq<Idle<H>> {
    if idle == [] then []
    else (if now < idle[0].expiry then [idle[0]] else []) + Unexpired(idle[1..], now)
  }

  ghost predicate SortedByExpiry<H>(idle: seq<Idle<H>>) {
    forall i, j :: 0 <= i < j < |idle| ==> idle[i].expiry <= idle[j].expiry
  }

  ghost predicate AllUnexpired<H>(idle: seq<Idle<H>>, now: int) {
    forall c <- idle :: now < c.expiry
  }

  lemma {:induction false} UnexpiredBounds<H>(idle: seq<Idle<H>>, now: int)
    ensures |Unexpired(idle, now)| <= |idle|
    ensures Unexpired(idle, now) == idle <==> AllUnexpired(idle, now)
  {
    if idle != [] {
      UnexpiredBounds(idle[1..], now);
      assert idle == [idle[0]] + idle[1..];
    }
  }

  lemma {:induction false} UnexpiredSkipsExpiredPrefix<H>(idle: seq<Idle<H>>, now: int)
    ensures Unexpired(idle, now) == Unexpired(idle[FirstUnexpired(idle, now)..], now)
  {
    if idle != [] && idle[0].expiry <= now {
      UnexpiredSkipsExpiredPrefix(idle[1..], now);
      assert idle[1..][FirstUnexpired(idle[1..], now)..] == idle[FirstUnexpired(idle, now)..];
    }
  }

  /** No expired connection stands behind an unexpired one. */
  ghost predicate ExpiredInFront<H>(idle: seq<Idle<H>>, now: int) {
    forall i, j :: 0 <= i < j < |idle| && now < idle[i].expiry ==> now < idle[j].expiry
  }

  lemma UnexpiredTailIff<H>(idle: seq<Idle<H>>, now: int, k: nat)
    requires k <= |idle| && forall i :: 0 <= i < k ==> idle[i].expiry <= now
    requires k < |idle| ==> now < idle[k].expiry
    ensures AllUnexpired(idle[k..], now) <==> ExpiredInFront(idle, now)
  {
    var tail := idle[k..];
    if ExpiredInFront(idle, now) {
      forall c | c in tail
        ensures now < c.expiry
      {
        var i :| 0 <= i < |tail| && tail[i] == c;
        assert c == idle[k + i];
      }
    }
    if AllUnexpired(tail, now) {
      forall i, j | 0 <= i < j < |idle| && now < idle[i].expiry
        ensures now < idle[j].expiry
      {
        assert tail[j - k] == idle[j] && tail[j - k] in tail;
      }
    }
  }

  /** Erasing the expired prefix removes exactly the expired connections if and only if no expired
      connection stands behind an unexpired one. */
  lemma PrefixEraseIsFilter<H>(idle: seq<Idle<H>>, now: int)
    ensures idle[FirstUnexpired(idle, now)..] == Unexpired(idle, now) <==> ExpiredInFront(idle, now)
  {
    UnexpiredSkipsExpiredPrefix(idle, now);
    UnexpiredBounds(idle[FirstUnexpired(idle, now)..], now);
    UnexpiredTailIff(idle, now, FirstUnexpired(idle, now));
  }

  lemma SortedPruneIsFilter<H>(idle: seq<Idle<H>>, now: int)
    requires SortedByExpiry(idle)
    ensures idle[FirstUnexpired(idle, now)..] == Unexpired(idle, now)
  {
    PrefixEraseIsFilter(idle, now);
  }
}
