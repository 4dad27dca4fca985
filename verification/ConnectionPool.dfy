/** The pool and its sessions as the objects of mysqlx_client.cc and mysqlx_session.cc. Each method
    is one critical section and is proved against the operation of `PoolModel` of the same name. */
module PooledSessions {
  import opened PoolModel
  import opened Options

  /** A session handle. Its physical connection is what create_idle_connection moves out of it. */
  class Session {
    var connection: Option<nat>
    var pooled: bool             // its pool callback is set
    var closed: bool
    var closedWithError: bool

    constructor (connection: Option<nat>, pooled: bool)
      ensures this.connection == connection && this.pooled == pooled
      ensures !closed && !closedWithError
    {
      this.connection, this.pooled, closed, closedWithError := connection, pooled, false, false;
    }
  }

  /** What get_connection does when it does not have to wait, and when it does. */
  datatype Got = Got(session: Session) | ConnectFailed | ResetFailed | MustWait

  /** Each session owns a physical connection, and `owner` says which session owns which. */
  ghost predicate Owning(sessions: set<Session>, owner: map<nat, Session>)
    reads sessions
  {
    forall s <- sessions ::
      s.pooled && s.connection.Some? && s.connection.value in owner && owner[s.connection.value] == s
  }

  /** The session-related part of the pool's invariant. */
  ghost predicate Consistent(active: set<Session>, idle: seq<Idle<Session>>, owner: map<nat, Session>)
    reads active, Handles(idle)
  {
    DistinctIdle(idle) && Handles(idle) !! active && Owning(active + Handles(idle), owner)
  }

  lemma AddKeepsConsistent(active: set<Session>, idle: seq<Idle<Session>>, owner: map<nat, Session>, s: Session)
    requires Consistent(active, idle, owner) && s !in active + Handles(idle)
    requires s.pooled && s.connection.Some?
    requires forall t <- active + Handles(idle) :: t.connection != s.connection
    ensures Consistent(active + {s}, idle, owner[s.connection.value := s])
  {
    assert active + {s} + Handles(idle) == active + Handles(idle) + {s};
  }

  lemma RemoveKeepsConsistent(active: set<Session>, idle: seq<Idle<Session>>, owner: map<nat, Session>, s: Session)
    requires Consistent(active, idle, owner) && s in active
    ensures Consistent(active - {s}, idle, owner)
    ensures s !in active - {s} + Handles(idle) && Owning({s}, owner)
  {
  }

  lemma PopKeepsConsistent(active: set<Session>, idle: seq<Idle<Session>>, owner: map<nat, Session>)
    requires Consistent(active, idle, owner) && idle != []
    ensures idle[0].connection !in active
    ensures Consistent(active + {idle[0].connection}, idle[1..], owner)
  {
    FrontHandle(idle);
    SuffixHandles(idle, 1);
    assert active + {idle[0].connection} + Handles(idle[1..]) == active + Handles(idle);
  }

  lemma PushKeepsConsistent(active: set<Session>, idle: seq<Idle<Session>>, owner: map<nat, Session>,
                            closing: Session, c: Idle<Session>)
    requires Consistent(active, idle, owner)
    requires closing !in active + Handles(idle) && c.connection !in active + Handles(idle)
    requires c.connection.pooled && c.connection.connection.Some?
    requires var k := c.connection.connection.value; k in owner && owner[k] == closing
    ensures Consistent(active, idle + [c], owner[c.connection.connection.value := c.connection])
  {
    PushedHandle(idle, c);
  }

  method FindUnexpired(idle: seq<Idle<Session>>, now: int) returns (it: nat)
    ensures it == FirstUnexpired(idle, now)
  {
    it := 0;
    while it < |idle| && idle[it].expiry <= now
      invariant it <= |idle|
      invariant FirstUnexpired(idle, now) == it + FirstUnexpired(idle[it..], now)
    {
      assert idle[it..][1..] == idle[it + 1..];
      it := it + 1;
    }
  }

  class ConnectionPool {
    const maxSize: nat
    const maxIdle: nat
    var active: set<Session>
    var idle: seq<Idle<Session>>
    var nextPrune: int
    ghost var owner: map<nat, Session>  // of physical connections

    ghost function Sessions(): set<Session>
      reads this
    {
      active + Handles(idle)
    }

    /** The abstract pool. */
    ghost function Value(): Pool<Session>
      reads this
    {
      Pool(active, idle, nextPrune)
    }

    /** Within capacity; idle sessions distinct and not active; every session in the pool owns a
        physical connection that no other session in the pool owns. */
    ghost predicate Valid()
      reads this, Sessions()
    {
      && Size(Value()) <= maxSize
      && Consistent(active, idle, owner)
    }

    constructor (maxSize: nat, maxIdle: nat)
      ensures Valid() && Value() == Empty()
      ensures this.maxSize == maxSize && this.maxIdle == maxIdle
    {
      this.maxSize, this.maxIdle := maxSize, maxIdle;
      active, idle, nextPrune, owner := {}, [], 0, map[];
    }

    /** The source asserts that the count never exceeds the capacity. */
    method IsFull() returns (full: bool)
      requires Valid()
      ensures full <==> Size(Value()) == maxSize
    {
      var count := |active| + |idle|;
      assert count <= maxSize;
      full := count == maxSize;
    }

    method AddNewConnection(connection: Option<nat>) returns (got: Got)
      requires Valid() && Size(Value()) < maxSize
      requires connection.Some? ==> forall s <- Sessions() :: s.connection != connection
      modifies this`active, this`owner
      ensures Valid()
      ensures connection.None? ==> got == ConnectFailed && Value() == old(Value())
      ensures connection.Some? ==> got.Got? && fresh(got.session) && got.session.connection == connection
      ensures got.Got? ==> Value() == Add(old(Value()), got.session)
    {
      if connection.None? { return ConnectFailed; }
      var s := new Session(connection, true);
      ghost var active0, owner0 := active, owner;
      active, owner := active + {s}, owner[connection.value := s];
      assert Value() == Add(Pool(active0, idle, nextPrune), s);
      AddKeepsConsistent(active0, idle, owner0, s);
      got := Got(s);
    }

    /** `resetThrows` is the outcome of `reset`, which runs after the session became active. */
    method PopIdleConnection(resetThrows: bool) returns (got: Got)
      requires Valid() && idle != []
      modifies this`active, this`idle
      ensures Valid()
      ensures Value() == TakeIdle(old(Value()))
      ensures got == if resetThrows then ResetFailed else Got(old(idle)[0].connection)
    {
      PopKeepsConsistent(active, idle, owner);
      var s := idle[0].connection;
      active, idle := active + {s}, idle[1..];
      assert Consistent(active, idle, owner);
      got := if resetThrows then ResetFailed else Got(s);
    }

    /** get_connection up to the point where it either returns or starts to wait. */
    method GetConnection(connection: Option<nat>, resetThrows: bool) returns (got: Got)
      requires Valid()
      requires connection.Some? ==> forall s <- Sessions() :: s.connection != connection
      modifies this`active, this`idle, this`owner
      ensures Valid()
      ensures got.Got? ==> got.session in active && got.session !in old(active)
      ensures old(idle) != [] ==>
                && Value() == TakeIdle(old(Value()))
                && got == if resetThrows then ResetFailed else Got(old(idle)[0].connection)
      ensures old(idle) == [] && old(Size(Value())) == maxSize ==> got == MustWait && Value() == old(Value())
      ensures old(idle) == [] && old(Size(Value())) < maxSize ==>
                (got.Got? <==> connection.Some?) && got != MustWait
                && Value() == if got.Got? then Add(old(Value()), got.session) else old(Value())
    {
      if idle != [] {
        assert idle[0].connection in Handles(idle);
        got := PopIdleConnection(resetThrows);
        return;
      }
      var full := IsFull();
      if full { return MustWait; }
      got := AddNewConnection(connection);
    }

    /** The physical connection leaves `closing`, which is closed and no longer pooled. */
    method CreateIdleConnection(closing: Session) returns (replacement: Session)
      modifies closing
      ensures fresh(replacement)
      ensures replacement.connection == old(closing.connection) && replacement.pooled == old(closing.pooled)
      ensures closing.connection == None && !closing.pooled && closing.closed && !closing.closedWithError
    {
      replacement := new Session(closing.connection, closing.pooled);
      closing.connection, closing.pooled, closing.closed, closing.closedWithError := None, false, true, false;
    }

    method PushIdleConnection(closing: Session, now: int) returns (ghost replacement: Session)
      requires Valid() && closing !in Sessions() && Size(Value()) < maxSize
      requires Owning({closing}, owner)
      modifies this`idle, this`owner, closing
      ensures Valid() && closing !in Sessions()
      ensures idle == old(idle) + [Idle(replacement, now + maxIdle)]
      ensures fresh(replacement) && replacement.connection == old(closing.connection)
      ensures closing.connection == None && !closing.pooled && closing.closed
    {
      ghost var idle0, owner0 := idle, owner;
      var s := CreateIdleConnection(closing);
      replacement := s;
      idle, owner := idle + [Idle(s, now + maxIdle)], owner[s.connection.value := s];
      PushKeepsConsistent(active, idle0, owner0, closing, Idle(s, now + maxIdle));
      PushedHandle(idle0, Idle(s, now + maxIdle));
    }

    method OnClose(closing: Session, now: int)
      requires Valid()
      modifies this`active, this`idle, this`owner, closing
      ensures Valid() && closing !in active
      ensures old(closing !in active) ==> Value() == old(Value()) && unchanged(closing)
      ensures old(closing in active) ==> closing !in Sessions()
      ensures old(closing in active && closing.closedWithError) ==>
                Value() == Release(old(Value()), closing, false, closing, 0) && unchanged(closing)
      ensures old(closing in active && !closing.closedWithError) ==>
                && |idle| == |old(idle)| + 1
                && var replacement := idle[|old(idle)|].connection;
                && Value() == Release(old(Value()), closing, true, replacement, now + maxIdle)
                && fresh(replacement) && replacement.connection == old(closing.connection)
                && closing.connection == None && !closing.pooled && closing.closed
    {
      if closing !in active { return; }
      RemoveKeepsConsistent(active, idle, owner, closing);
      active := active - {closing};
      assert Consistent(active, idle, owner) && Size(Value()) < maxSize;
      if !closing.closedWithError {
        ghost var replacement := PushIdleConnection(closing, now);
      }
    }

    method PruneExpiredConnections(now: int)
      requires Valid()
      modifies this`idle, this`nextPrune
      ensures Valid()
      ensures Value() == Prune(old(Value()), now, maxIdle)
      ensures maxIdle != 0 && old(nextPrune) < now ==>
                idle == old(idle)[FirstUnexpired(old(idle), now)..] && nextPrune == now + maxIdle
      ensures maxIdle == 0 || now <= old(nextPrune) ==> Value() == old(Value())
    {
      if maxIdle == 0 || now <= nextPrune { return; }
      var it := FindUnexpired(idle, now);
      SuffixHandles(idle, it);
      idle := idle[it..];
      assert Sessions() <= old(Sessions());
      nextPrune := now + maxIdle;
    }

    method CloseActiveConnections(failing: set<Session>) returns (thrown: bool)
      requires Valid()
      modifies this`active, active
      ensures Valid()
      ensures thrown <==> old(Failing(active, failing))
      ensures active == if thrown then old(active) else {}
      ensures forall s <- old(active) :: s.connection == old(s.connection) && (!thrown ==> s.closed)
    {
      thrown := CloseSessions(active, failing);
      if !thrown { active := {}; }
    }

    method CloseIdleConnections(failing: set<Session>) returns (thrown: bool)
      requires Valid()
      modifies this`idle, Handles(idle)
      ensures Valid()
      ensures thrown <==> old(Failing(Handles(idle), failing))
      ensures idle == if thrown then old(idle) else []
      ensures forall s <- old(Handles(idle)) :: s.connection == old(s.connection) && (!thrown ==> s.closed)
    {
      thrown := CloseSessions(Handles(idle), failing);
      if !thrown { idle := []; }
    }

    /** Closes every session of the pool explicitly and forgets it, the active ones first. Closing a
        session of `failing` throws: nothing of that part is forgotten then. */
    method Close(failing: set<Session>) returns (thrown: bool)
      requires Valid()
      modifies this`active, this`idle, Sessions()
      ensures Valid()
      ensures var activeThrows, idleThrows := old(Failing(active, failing)), old(Failing(Handles(idle), failing));
              && Value() == PoolModel.Close(old(Value()), activeThrows, idleThrows)
              && (thrown <==> activeThrows || idleThrows)
      ensures forall s <- old(Sessions()) :: s.connection == old(s.connection) && (!thrown ==> s.closed)
      ensures !thrown ==> active == {} && idle == []
    {
      assert active !! Handles(idle);
      thrown := CloseActiveConnections(failing);
      if thrown { return; }
      assert Failing(Handles(idle), failing) == old(Failing(Handles(idle), failing));
      thrown := CloseIdleConnections(failing);
    }
  }

  /** No two sessions of a pool share a physical connection. */
  lemma OneOwner(pool: ConnectionPool, s: Session, t: Session)
    requires pool.Valid() && s in pool.Sessions() && t in pool.Sessions()
    requires s.connection == t.connection
    ensures s == t
  {
    assert pool.owner[s.connection.value] == s;
  }

  /** Some session is still open and its close throws. */
  ghost predicate Failing(sessions: set<Session>, failing: set<Session>)
    reads sessions
  {
    exists s <- sessions :: s in failing && !s.closed
  }

  /** session->close(Explicit) on each, until one throws because the server reports the end of the
      connection meanwhile. A session already closed is left as it is. */
  method CloseSessions(sessions: set<Session>, failing: set<Session>) returns (thrown: bool)
    modifies sessions
    ensures thrown <==> old(Failing(sessions, failing))
    ensures forall s <- sessions :: s.connection == old(s.connection) && s.pooled == old(s.pooled)
    ensures forall s <- sessions :: (!thrown || old(s.closed)) ==> s.closed
  {
    var rest := sessions;
    while rest != {}
      invariant rest <= sessions
      invariant forall s <- sessions :: s.connection == old(s.connection) && s.pooled == old(s.pooled)
      invariant forall s <- sessions - rest :: s.closed && (s in failing ==> old(s.closed))
      invariant forall s <- rest :: s.closed == old(s.closed)
      modifies sessions
      decreases rest
    {
      var s :| s in rest;
      if !s.closed {
        s.closed, s.closedWithError := true, s in failing;
        if s in failing { return true; }
      }
      rest := rest - {s};
    }
    thrown := false;
  }

  /** The pool after a session of it was closed: a broken connection is dropped, any other waits under
      a fresh handle at the back of the queue. */
  twostate predicate ClosedOnce(pool: ConnectionPool, session: Session, now: int)
    reads pool, session, Handles(pool.idle)
  {
    && pool.active == old(pool.active) - {session} && pool.nextPrune == old(pool.nextPrune)
    && if old(session.closedWithError) then pool.idle == old(pool.idle)
       else
         && |pool.idle| == old(|pool.idle|) + 1
         && var last := pool.idle[old(|pool.idle|)];
            && pool.idle == old(pool.idle) + [last] && last.expiry == now + pool.maxIdle
            && fresh(last.connection) && last.connection.connection == old(session.connection)
  }

  /** Session_data::close_connection: through the pool if the session still has its callback. A
      client never holds an idle session, since releasing made a fresh one. */
  method CloseConnection(pool: ConnectionPool, session: Session, now: int)
    requires pool.Valid() && session !in Handles(pool.idle)
    modifies pool`active, pool`idle, pool`owner, session
    ensures pool.Valid() && session !in pool.Sessions()
    ensures old(session !in pool.active) ==> pool.Value() == old(pool.Value())
    ensures old(session in pool.active) ==> ClosedOnce(pool, session, now)
  {
    if session.pooled {
      pool.OnClose(session, now);
    } else if !session.closed {
      session.closed, session.closedWithError := true, false;
    }
  }

  /** Closing a session any number of times leaves the pool as the first close left it. */
  method CloseRepeatedly(pool: ConnectionPool, session: Session, times: nat, now: int)
    requires pool.Valid() && session !in Handles(pool.idle)
    modifies pool`active, pool`idle, pool`owner, session
    ensures pool.Valid()
    ensures times > 0 ==> session !in pool.Sessions()
    ensures times == 0 || old(session !in pool.active) ==> pool.Value() == old(pool.Value())
    ensures times > 0 && old(session in pool.active) ==> ClosedOnce(pool, session, now)
  {
    if times > 0 {
      CloseConnection(pool, session, now);
      CloseRepeatedly(pool, session, times - 1, now);
    }
  }
}
