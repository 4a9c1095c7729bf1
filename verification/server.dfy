/** The whole server: the listener loop (`startServer`) admitting handlers
    under the permit pool, and any handler taking its next step. Handlers
    are keyed by the id of their writer; a handler that has closed stays in
    the map in its Closed phase. */
module ChatServer {
  import opened Prelude
  import opened Admission
  import opened Protocol

  datatype Server = Server(shared: Shared, handlers: map<WriterId, Handler>, nextId: WriterId, maxThreads: nat)

  /** Handlers that have been admitted and have not yet run their cleanup:
      each holds one permit. */
  function Live(s: Server): set<WriterId> {
    set id | id in s.handlers && !s.handlers[id].phase.Closed?
  }

  /** Some active handler carries `u` as its name. */
  ghost predicate Owned(s: Server, u: string) {
    exists id :: id in s.handlers && s.handlers[id].phase.Active? && s.handlers[id].name == Some(u)
  }

  /** What holds in every reachable server state. A bijection between
      names and writers does not: a listed name always belongs to an active
      session, but an active session's name can be missing from `users`
      (see `Protocol.MalformedLineEvicts`). */
  ghost predicate Inv(s: Server) {
    && (forall id :: id in s.handlers ==> s.handlers[id].id == id && id < s.nextId && WellFormed(s.handlers[id]))
    && NoDuplicates(s.shared.users)
    && NoDuplicates(s.shared.writers)
    && (forall w :: w in s.shared.writers <==> w in s.handlers && s.handlers[w].phase.Active?)
    && (forall u :: u in s.shared.users ==> Owned(s, u))
    && s.shared.pool.available + |Live(s)| == s.maxThreads
  }

  /** `new ChatServer(maxThreads)`: empty lists, a full pool, no handlers. */
  function Init(maxThreads: nat): (s: Server)
    ensures Inv(s) && Live(s) == {}
    ensures s.shared.pool.available == maxThreads
  {
    Server(Shared([], [], NewPool(maxThreads)), map[], 0, maxThreads)
  }

  /** One turn of the listener loop: acquire a permit, accept a connection
      and start its handler, which sends its first `/NAME` prompt. None while
      `acquire` would block. */
  function Admit(s: Server): (r: Option<(Server, seq<Out>)>)
    ensures r.None? <==> s.shared.pool.available == 0
    ensures r.Some? ==>
      && r.value.0.handlers == s.handlers[s.nextId := Handler(s.nextId, None, Negotiating)]
      && r.value.0.shared.pool.available + 1 == s.shared.pool.available
      && r.value.0.shared.users == s.shared.users
      && r.value.0.shared.writers == s.shared.writers
      && r.value.1 == [Out(s.nextId, NameRequest)]
  {
    match Acquire(s.shared.pool)
    case None => None
    case Some(pool) =>
      var h := Handler(s.nextId, None, Negotiating);
      Some((s.(shared := s.shared.(pool := pool), handlers := s.handlers[s.nextId := h], nextId := s.nextId + 1),
            [Out(s.nextId, NameRequest)]))
  }

  /** Handler `id` reads `input` and reacts, as one atomic step. */
  function Deliver(s: Server, id: WriterId, input: Input, clock: string): (r: (Server, seq<Out>))
    requires id in s.handlers && WellFormed(s.handlers[id]) && !s.handlers[id].phase.Closed?
    ensures r.0.handlers.Keys == s.handlers.Keys && r.0.nextId == s.nextId
    ensures forall other :: other in s.handlers && other != id ==> r.0.handlers[other] == s.handlers[other]
  {
    var step := Receive(s.handlers[id], s.shared, input, clock);
    (s.(shared := step.shared, handlers := s.handlers[id := step.handler]), step.outputs)
  }

  /** Never more live handlers than permits: the (N+1)th connection is not
      accepted until one of the first N handlers has cleaned up. */
  lemma LiveBounded(s: Server)
    requires Inv(s)
    ensures |Live(s)| <= s.maxThreads
    ensures |Live(s)| == s.maxThreads ==> Admit(s).None?
  {
  }

  lemma AdmitPreservesInv(s: Server)
    requires Inv(s) && Admit(s).Some?
    ensures Inv(Admit(s).value.0)
    ensures Live(Admit(s).value.0) == Live(s) + {s.nextId}
  {
    var s' := Admit(s).value.0;
    var n := s.nextId;
    assert n !in s.handlers;
    assert n !in Live(s);
    assert Live(s') == Live(s) + {n};
    forall u | u in s'.shared.users
      ensures Owned(s', u)
    {
      assert Owned(s, u);
      var id :| id in s.handlers && s.handlers[id].phase.Active? && s.handlers[id].name == Some(u);
      assert s'.handlers[id] == s.handlers[id];
    }
  }

  lemma DeliverPreservesInv(s: Server, id: WriterId, input: Input, clock: string)
    requires Inv(s) && id in s.handlers && !s.handlers[id].phase.Closed?
    ensures Inv(Deliver(s, id, input, clock).0)
  {
    var h := s.handlers[id];
    var step := Receive(h, s.shared, input, clock);
    if step.handler.phase.Closed? {
      CloseStepPreservesInv(s, id, input, clock);
    } else if h.phase.Negotiating? && step.handler.phase.Active? {
      JoinStepPreservesInv(s, id, input, clock);
    } else {
      QuietStepPreservesInv(s, id, input, clock);
    }
  }

  lemma QuietStepPreservesInv(s: Server, id: WriterId, input: Input, clock: string)
    requires Inv(s) && id in s.handlers && !s.handlers[id].phase.Closed?
    requires var h := s.handlers[id]; var r := Receive(h, s.shared, input, clock);
      !r.handler.phase.Closed? && !(h.phase.Negotiating? && r.handler.phase.Active?)
    ensures Inv(Deliver(s, id, input, clock).0)
  {
    var h := s.handlers[id];
    ReceiveQuietStep(h, s.shared, input, clock);
    var s' := Deliver(s, id, input, clock).0;
    assert s'.shared == s.shared;
    assert s'.handlers[id].phase == h.phase;
    assert Live(s') == Live(s);
    forall u | u in s'.shared.users
      ensures Owned(s', u)
    {
      assert Owned(s, u);
      var j :| j in s.handlers && s.handlers[j].phase.Active? && s.handlers[j].name == Some(u);
      assert s'.handlers[j] == s.handlers[j];
    }
  }

  lemma JoinStepPreservesInv(s: Server, id: WriterId, input: Input, clock: string)
    requires Inv(s) && id in s.handlers && s.handlers[id].phase.Negotiating?
    requires Receive(s.handlers[id], s.shared, input, clock).handler.phase.Active?
    ensures Inv(Deliver(s, id, input, clock).0)
  {
    var h := s.handlers[id];
    ReceiveActivatedIsJoin(h, s.shared, input, clock);
    var name := input.text[MarkerLength..];
    var s' := Deliver(s, id, input, clock).0;
    assert s'.shared.users == s.shared.users + [name];
    assert s'.shared.writers == s.shared.writers + [id];
    assert s'.handlers[id] == Handler(id, Some(name), Active(clock));
    AppendFreshNoDuplicates(s.shared.users, name);
    assert id !in s.shared.writers;
    AppendFreshNoDuplicates(s.shared.writers, id);
    assert Live(s') == Live(s);
    forall u | u in s'.shared.users
      ensures Owned(s', u)
    {
      if u != name {
        assert Owned(s, u);
        var j :| j in s.handlers && s.handlers[j].phase.Active? && s.handlers[j].name == Some(u);
        assert s'.handlers[j] == s.handlers[j];
      } else {
        assert s'.handlers[id].name == Some(u);
      }
    }
  }

  lemma CloseStepPreservesInv(s: Server, id: WriterId, input: Input, clock: string)
    requires Inv(s) && id in s.handlers && !s.handlers[id].phase.Closed?
    requires Receive(s.handlers[id], s.shared, input, clock).handler.phase.Closed?
    ensures Inv(Deliver(s, id, input, clock).0)
  {
    CloseStepWriters(s, id, input, clock);
    CloseStepUsers(s, id, input, clock);
    CloseStepPermits(s, id, input, clock);
    CloseStepHandlers(s, id, input, clock);
  }

  lemma CloseStepPermits(s: Server, id: WriterId, input: Input, clock: string)
    requires Inv(s) && id in s.handlers && !s.handlers[id].phase.Closed?
    requires Receive(s.handlers[id], s.shared, input, clock).handler.phase.Closed?
    ensures var s' := Deliver(s, id, input, clock).0;
      s'.shared.pool.available + |Live(s')| == s'.maxThreads
  {
    var s' := Deliver(s, id, input, clock).0;
    assert id in Live(s);
    assert Live(s') == Live(s) - {id};
  }

  lemma CloseStepHandlers(s: Server, id: WriterId, input: Input, clock: string)
    requires Inv(s) && id in s.handlers && !s.handlers[id].phase.Closed?
    requires Receive(s.handlers[id], s.shared, input, clock).handler.phase.Closed?
    ensures var s' := Deliver(s, id, input, clock).0;
      forall i :: i in s'.handlers ==> s'.handlers[i].id == i && i < s'.nextId && WellFormed(s'.handlers[i])
  {
  }

  lemma CloseStepWriters(s: Server, id: WriterId, input: Input, clock: string)
    requires Inv(s) && id in s.handlers && !s.handlers[id].phase.Closed?
    requires Receive(s.handlers[id], s.shared, input, clock).handler.phase.Closed?
    ensures var s' := Deliver(s, id, input, clock).0;
      && NoDuplicates(s'.shared.writers)
      && (forall w :: w in s'.shared.writers <==> w in s'.handlers && s'.handlers[w].phase.Active?)
  {
    var h := s.handlers[id];
    ReceiveClosedIsCleanup(h, s.shared, input, clock);
    var s' := Deliver(s, id, input, clock).0;
    assert s'.shared.writers == RemoveFirst(s.shared.writers, id);
    assert s'.handlers[id].phase.Closed?;
    RemoveFirstKeepsNoDuplicates(s.shared.writers, id);
    forall w
      ensures w in s'.shared.writers <==> w in s'.handlers && s'.handlers[w].phase.Active?
    {
      RemoveFirstMembership(s.shared.writers, id, w);
    }
  }

  lemma CloseStepUsers(s: Server, id: WriterId, input: Input, clock: string)
    requires Inv(s) && id in s.handlers && !s.handlers[id].phase.Closed?
    requires Receive(s.handlers[id], s.shared, input, clock).handler.phase.Closed?
    ensures var s' := Deliver(s, id, input, clock).0;
      && NoDuplicates(s'.shared.users)
      && (forall u :: u in s'.shared.users ==> Owned(s', u))
  {
    var h := s.handlers[id];
    ReceiveClosedIsCleanup(h, s.shared, input, clock);
    var exit := ExitName(h, input);
    var s' := Deliver(s, id, input, clock).0;
    if exit.Some? {
      assert s'.shared.users == RemoveFirst(s.shared.users, exit.value);
      RemoveFirstKeepsNoDuplicates(s.shared.users, exit.value);
    } else {
      assert s'.shared.users == s.shared.users;
    }
    forall u | u in s'.shared.users
      ensures Owned(s', u)
    {
      if exit.Some? {
        RemoveFirstMembership(s.shared.users, exit.value, u);
      }
      assert Owned(s, u);
      var j :| j in s.handlers && s.handlers[j].phase.Active? && s.handlers[j].name == Some(u);
      assert j != id;
      assert s'.handlers[j] == s.handlers[j];
    }
  }

  /** The server with two permits after "alice" has joined as handler 0. */
  function AliceJoined(): Server {
    Server(Shared(["alice"], [0], Pool(1)), map[0 := Handler(0, Some("alice"), Active("12:00"))], 1, 2)
  }

  /** "alice" joins as handler 0 of a fresh server with two permits. */
  lemma AliceJoins()
    ensures Deliver(Admit(Init(2)).value.0, 0, Line("/USERalice"), "12:00").0 == AliceJoined()
  {
    var s1 := Admit(Init(2)).value.0;
    assert s1.handlers == map[0 := Handler(0, None, Negotiating)];
    assert s1.shared == Shared([], [], Pool(1));
    assert StartsWith("/USERalice", SubmitName);
    assert "/USERalice"[5..] == "alice";
    NameFreeJoins(s1.handlers[0], s1.shared, "/USERalice", "12:00");
  }

  /** The server after a second connection was admitted beside "alice". */
  function AliceAndNewcomer(): Server {
    Server(Shared(["alice"], [0], Pool(0)),
           map[0 := Handler(0, Some("alice"), Active("12:00")), 1 := Handler(1, None, Negotiating)], 2, 2)
  }

  /** A second connection is admitted as handler 1, taking the last permit. */
  lemma NewcomerAdmitted()
    ensures Admit(AliceJoined()).Some? && Admit(AliceJoined()).value.0 == AliceAndNewcomer()
  {
    var s3 := Admit(AliceJoined()).value.0;
    assert s3.handlers == AliceAndNewcomer().handlers;
  }

  /** A reachable state in which an active session's name is gone from
      `users`: after "alice" has joined as handler 0, handler 1 answers its
      `/NAME` prompt with the bare line "alice", and its cleanup removes
      "alice" while handler 0 stays active and registered as a writer. */
  lemma EvictionFromInit()
    ensures var s3 := Admit(AliceJoined()).value.0;
      var s4 := Deliver(s3, 1, Line("alice"), "12:01").0;
      && s4.handlers[0] == Handler(0, Some("alice"), Active("12:00"))
      && s4.shared == Shared([], [0], Pool(1))
  {
    NewcomerAdmitted();
    var s3 := AliceAndNewcomer();
    assert !StartsWith("alice", SubmitName) by { assert "alice"[..5][0] != SubmitName[0]; }
    var c := Cleanup(Handler(1, Some("alice"), Negotiating), s3.shared);
    assert Receive(s3.handlers[1], s3.shared, Line("alice"), "12:01") == c;
    assert c.shared == Shared([], [0], Pool(1)) by {
      assert RemoveFirst(["alice"], "alice") == [];
      assert RemoveFirst([0], 1) == [0];
    }
  }

  /** Once an active session's name has been evicted, the next admitted
      handler can claim the same name: two active sessions then carry it,
      against the uniqueness the name check is meant to give. */
  lemma EvictedNameCanBeClaimedTwice(s: Server, id: WriterId, clock: string)
    requires Inv(s) && id in s.handlers && s.handlers[id].phase.Active?
    requires s.handlers[id].name.value !in s.shared.users
    requires s.shared.pool.available > 0
    ensures var name := s.handlers[id].name.value;
      var s1 := Admit(s).value.0;
      var s2 := Deliver(s1, s.nextId, Line(SubmitName + name), clock).0;
      && s2.handlers[id] == s.handlers[id]
      && s2.handlers[s.nextId] == Handler(s.nextId, Some(name), Active(clock))
  {
    var name := s.handlers[id].name.value;
    var s1 := Admit(s).value.0;
    var l := SubmitName + name;
    assert StartsWith(l, SubmitName) && l[MarkerLength..] == name;
    NameFreeJoins(s1.handlers[s.nextId], s1.shared, l, clock);
  }
}
