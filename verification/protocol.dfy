/** One connection handler of the chat server (`ChatServer.Handler.run`) as a
    sequential transition system. Each read of a client line, together with
    the registry update and the lines written in reaction to it, is one
    atomic step over the state the handlers share: the ordered list of
    claimed names (`users`), the ordered list of outbound writers
    (`writers`) and the admission pool. */
module Protocol {
  import opened Prelude
  import opened Admission

  /** Identifies a handler and, equally, the `PrintWriter` to its client. */
  type WriterId = nat

  // Wire literals of the server side.
  const NameRequest := "/NAME"
  const SubmitName := "/USER"
  const Accepted := "/ACPT"
  const ListCommand := "/USRS"
  const QuitCommand := "/QUIT"
  const QuitAck := "/QUIT"
  const Message := "/MSGE"
  const Placeholder := "        "
  const AloneReply := "/MSGEyou are alone :("

  /** Length of the marker `extractMessage` strips (`substring(5)`). */
  const MarkerLength := 5

  /** Negotiating: prompting for a name. Active: joined, with the HH:mm
      string fixed once when the session became active. Closed: the
      `finally` block has run. */
  datatype Phase = Negotiating | Active(joinTime: string) | Closed

  /** The handler's own fields. `name` is the Java field of that name: null
      at first, then whatever was last assigned to it, which is not always a
      registered name. */
  datatype Handler = Handler(id: WriterId, name: Option<string>, phase: Phase)

  /** What one `readLine` on the client's stream yields. */
  datatype Input = Line(text: string) | EndOfStream | ReadFailure

  /** One line written to one client's writer. */
  datatype Out = Out(to: WriterId, line: string)

  /** The state all handlers share. */
  datatype Shared = Shared(users: seq<string>, writers: seq<WriterId>, pool: Pool)

  /** The result of one handler step. */
  datatype Step = Step(handler: Handler, shared: Shared, outputs: seq<Out>)

  predicate WellFormed(h: Handler) {
    h.phase.Active? ==> h.name.Some?
  }

  function JoinNotice(name: string): string {
    Message + Placeholder + name + " joined"
  }

  function QuitNotice(name: string, time: string): string {
    Message + name + " (" + time + ") disconnected"
  }

  function ChatLine(name: string, time: string, text: string): string {
    Message + "(" + time + ") " + name + ": " + "\"" + text + "\""
  }

  const ListHeader := Message + Placeholder + "list of users:"

  /** One line to each writer, in registry order. */
  function Broadcast(writers: seq<WriterId>, line: string): (r: seq<Out>)
    ensures |r| == |writers|
    ensures forall i :: 0 <= i < |r| ==> r[i] == Out(writers[i], line)
  {
    seq(|writers|, i requires 0 <= i < |writers| => Out(writers[i], line))
  }

  function Recipients(outs: seq<Out>): (r: seq<WriterId>)
    ensures |r| == |outs|
    ensures forall i :: 0 <= i < |r| ==> r[i] == outs[i].to
  {
    seq(|outs|, i requires 0 <= i < |outs| => outs[i].to)
  }

  /** The users other than the requester, in registry order. */
  function Others(users: seq<string>, name: string): (r: seq<string>)
    ensures forall u :: u in r <==> u in users && u != name
    ensures NoDuplicates(users) && name in users ==> |r| == |users| - 1
    ensures name !in users ==> r == users
  {
    if |users| == 0 then []
    else if users[0] == name then Others(users[1..], name)
    else [users[0]] + Others(users[1..], name)
  }

  /** The listing keeps registry order: listing two halves of the registry
      gives the two listings one after the other, and a single entry is
      listed exactly when it is not the requester. */
  lemma {:induction false} OthersPreservesOrder(a: seq<string>, b: seq<string>, name: string)
    ensures Others(a + b, name) == Others(a, name) + Others(b, name)
    ensures Others([name], name) == []
    ensures forall u :: u != name ==> Others([u], name) == [u]
    decreases |a|
  {
    if |a| == 0 {
      assert [] + b == b;
    } else {
      assert (a + b)[1..] == a[1..] + b;
      OthersPreservesOrder(a[1..], b, name);
    }
    assert [name][1..] == [];
    forall u | u != name
      ensures Others([u], name) == [u]
    {
      assert [u][1..] == [];
    }
  }

  /** `"[" + u + "] "` for each listed user, concatenated. */
  function Bracketed(names: seq<string>): string {
    if |names| == 0 then "" else "[" + names[0] + "] " + Bracketed(names[1..])
  }

  /** The reply to `/USRS`, all of it addressed to the requester. */
  function UserListReply(id: WriterId, s: Shared, name: string): seq<Out> {
    if |s.writers| == 1 then [Out(id, AloneReply)]
    else [Out(id, ListHeader), Out(id, Message + Placeholder + Bracketed(Others(s.users, name)))]
  }

  /** The `finally` block: remove `name` (when non-null) from `users`, the
      handler's writer from `writers`, close the socket and release one
      permit. Nothing is written to any client. */
  function Cleanup(h: Handler, s: Shared): (r: Step)
    ensures r.handler == h.(phase := Closed)
    ensures r.outputs == []
    ensures r.shared.pool.available == s.pool.available + 1
    ensures h.name.None? ==> r.shared.users == s.users
    ensures h.name.Some? ==> multiset(r.shared.users) == multiset(s.users) - multiset{h.name.value}
    ensures multiset(r.shared.writers) == multiset(s.writers) - multiset{h.id}
  {
    var users := if h.name.Some? then RemoveFirst(s.users, h.name.value) else s.users;
    Step(h.(phase := Closed), Shared(users, RemoveFirst(s.writers, h.id), Release(s.pool)), [])
  }

  /** Cleanup keeps the order of what remains: `users` and `writers` each
      lose their first occurrence of the removed entry and nothing else
      moves, so later broadcasts and listings keep registry order. */
  lemma CleanupKeepsOrder(h: Handler, s: Shared)
    ensures var r := Cleanup(h, s);
      && (h.name.Some? && h.name.value in s.users ==>
            var i := FirstIndex(s.users, h.name.value); r.shared.users == s.users[..i] + s.users[i + 1..])
      && (h.id in s.writers ==>
            var i := FirstIndex(s.writers, h.id); r.shared.writers == s.writers[..i] + s.writers[i + 1..])
  {
    if h.name.Some? {
      RemoveFirstSplits(s.users, h.name.value);
    }
    RemoveFirstSplits(s.writers, h.id);
  }

  /** Acceptance of a fresh name: `/ACPT` to the newcomer, the join notice to
      every writer registered so far, then the newcomer's own writer is
      appended. */
  function Join(h: Handler, s: Shared, clock: string): Step
    requires h.name.Some?
  {
    var name := h.name.value;
    Step(h.(phase := Active(clock)),
         s.(users := s.users + [name], writers := s.writers + [h.id]),
         [Out(h.id, Accepted)] + Broadcast(s.writers, JoinNotice(name)))
  }

  /** One round of the negotiation loop, after its `/NAME` prompt: read a
      line and abort, re-prompt or join. */
  function Negotiate(h: Handler, s: Shared, input: Input, clock: string): Step
    requires h.phase.Negotiating?
  {
    match input
    case EndOfStream => Cleanup(h.(name := None), s)
    case ReadFailure => Cleanup(h, s)
    case Line(l) =>
      if !StartsWith(l, SubmitName) then Cleanup(h.(name := Some(l)), s)
      else
        var candidate := l[MarkerLength..];
        if candidate in s.users then Step(h.(name := Some(candidate)), s, [Out(h.id, NameRequest)])
        else Join(h.(name := Some(candidate)), s, clock)
  }

  /** One iteration of the active loop. */
  function Converse(h: Handler, s: Shared, input: Input): Step
    requires h.phase.Active? && h.name.Some?
  {
    var name := h.name.value;
    var time := h.phase.joinTime;
    match input
    case EndOfStream => Cleanup(h, s)
    case ReadFailure => Cleanup(h, s)
    case Line(l) =>
      if l == QuitCommand + name then
        Step(h, s, [Out(h.id, QuitAck)] + Broadcast(s.writers, QuitNotice(name, time)))
      else if l == ListCommand then
        Step(h, s, UserListReply(h.id, s, name))
      else
        match Substring(l, MarkerLength)
        case None => Cleanup(h, s)
        case Some(text) => Step(h, s, Broadcast(s.writers, ChatLine(name, time, text)))
  }

  /** One step of a running handler on one read. `clock` is the HH:mm string
      the handler would format when it becomes active. */
  function Receive(h: Handler, s: Shared, input: Input, clock: string): (r: Step)
    requires WellFormed(h) && !h.phase.Closed?
    ensures r.handler.id == h.id && WellFormed(r.handler)
    ensures r.handler.phase.Closed? ==> r.shared.pool.available == s.pool.available + 1 && r.outputs == []
    ensures !r.handler.phase.Closed? ==> r.shared.pool == s.pool
    ensures h.phase.Active? ==> r.handler.phase in {h.phase, Closed}
    ensures h.phase.Active? && !r.handler.phase.Closed? ==> r.handler == h && r.shared == s
    ensures forall o :: o in r.outputs ==> o.to == h.id || o.to in s.writers
  {
    if h.phase.Negotiating? then Negotiate(h, s, input, clock) else Converse(h, s, input)
  }

  /** The string the `finally` block finds in `name` when a step ends the
      handler: end-of-stream during negotiation nulls it, a malformed
      negotiation line is left in it, and otherwise it is unchanged. */
  function ExitName(h: Handler, input: Input): Option<string> {
    if h.phase.Negotiating? && input.EndOfStream? then None
    else if h.phase.Negotiating? && input.Line? then Some(input.text)
    else h.name
  }

  /** Every step that ends a handler is the cleanup of the handler holding
      its exit name. */
  lemma ReceiveClosedIsCleanup(h: Handler, s: Shared, input: Input, clock: string)
    requires WellFormed(h) && !h.phase.Closed?
    requires Receive(h, s, input, clock).handler.phase.Closed?
    ensures Receive(h, s, input, clock) == Cleanup(h.(name := ExitName(h, input)), s)
  {
    if h.phase.Negotiating? {
      match input
      case EndOfStream =>
      case ReadFailure =>
      case Line(l) =>
        assert !StartsWith(l, SubmitName);
    } else {
      match input
      case EndOfStream =>
      case ReadFailure =>
      case Line(l) =>
        assert l != QuitCommand + h.name.value && l != ListCommand && |l| < MarkerLength;
    }
  }

  /** Every step that activates a handler is the join of a free candidate. */
  lemma ReceiveActivatedIsJoin(h: Handler, s: Shared, input: Input, clock: string)
    requires h.phase.Negotiating?
    requires Receive(h, s, input, clock).handler.phase.Active?
    ensures input.Line? && StartsWith(input.text, SubmitName)
    ensures input.text[MarkerLength..] !in s.users
    ensures Receive(h, s, input, clock) == Join(h.(name := Some(input.text[MarkerLength..])), s, clock)
  {
  }

  /** Every other step leaves the shared state alone and the phase as it
      was. */
  lemma ReceiveQuietStep(h: Handler, s: Shared, input: Input, clock: string)
    requires WellFormed(h) && !h.phase.Closed?
    requires !Receive(h, s, input, clock).handler.phase.Closed?
    requires !(h.phase.Negotiating? && Receive(h, s, input, clock).handler.phase.Active?)
    ensures Receive(h, s, input, clock).shared == s
    ensures Receive(h, s, input, clock).handler.phase == h.phase
    ensures h.phase.Active? ==> Receive(h, s, input, clock).handler == h
  {
  }

  // ---------------------------------------------------------------------
  // Negotiation

  /** End-of-stream or a line without the `/USER` marker ends the handler
      and adds nothing to `users`; end-of-stream leaves `name` null, so
      nothing is removed either. */
  lemma NegotiationAbort(h: Handler, s: Shared, input: Input, clock: string)
    requires h.phase.Negotiating?
    requires input.EndOfStream? || (input.Line? && !StartsWith(input.text, SubmitName))
    ensures var r := Receive(h, s, input, clock);
      && r.handler.phase.Closed?
      && (forall u :: u in r.shared.users ==> u in s.users)
      && (input.EndOfStream? ==> r.shared.users == s.users)
  {
    var r := Receive(h, s, input, clock);
    if input.Line? {
      forall u | u in r.shared.users
        ensures u in s.users
      {
        assert multiset(r.shared.users)[u] <= multiset(s.users)[u];
      }
    }
  }

  /** A submitted `/USER` line offers the rest of the line, after its first
      five characters, as the candidate name; a taken candidate is answered
      with another `/NAME` prompt and nothing shared changes. */
  lemma NameTakenReprompts(h: Handler, s: Shared, l: string, clock: string)
    requires h.phase.Negotiating? && StartsWith(l, SubmitName)
    requires l[MarkerLength..] in s.users
    ensures var r := Receive(h, s, Line(l), clock);
      && r.handler == h.(name := Some(l[MarkerLength..]))
      && r.shared == s
      && r.outputs == [Out(h.id, NameRequest)]
  {
  }

  /** A free candidate is appended to `users`; the newcomer gets `/ACPT`;
      the join notice goes to exactly the writers registered before, in
      their order; then the newcomer's writer is appended. A newcomer whose
      writer was not yet registered is therefore not told of its own join. */
  lemma NameFreeJoins(h: Handler, s: Shared, l: string, clock: string)
    requires h.phase.Negotiating? && StartsWith(l, SubmitName)
    requires l[MarkerLength..] !in s.users
    ensures var r := Receive(h, s, Line(l), clock);
      && r.handler == Handler(h.id, Some(l[MarkerLength..]), Active(clock))
      && r.shared.users == s.users + [l[MarkerLength..]]
      && r.shared.writers == s.writers + [h.id]
      && r.shared.pool == s.pool
      && r.outputs[0] == Out(h.id, Accepted)
      && Recipients(r.outputs[1..]) == s.writers
      && (forall o :: o in r.outputs[1..] ==> o.line == JoinNotice(l[MarkerLength..]))
      && (h.id !in s.writers ==> Out(h.id, JoinNotice(l[MarkerLength..])) !in r.outputs)
  {
    var r := Receive(h, s, Line(l), clock);
    assert r.outputs[1..] == Broadcast(s.writers, JoinNotice(l[MarkerLength..]));
  }

  /** Whatever a step does, `users` stays free of duplicates: a name is
      appended only when absent and removals only shrink the list. */
  lemma ReceiveKeepsUsersDistinct(h: Handler, s: Shared, input: Input, clock: string)
    requires WellFormed(h) && !h.phase.Closed? && NoDuplicates(s.users)
    ensures NoDuplicates(Receive(h, s, input, clock).shared.users)
  {
    var r := Receive(h, s, input, clock);
    if r.handler.phase.Closed? {
      CleanupKeepsUsersDistinct(h, s, input, clock);
    } else if h.phase.Negotiating? && r.handler.phase.Active? {
      var l := input.text;
      assert r.shared.users == s.users + [l[MarkerLength..]];
      AppendFreshNoDuplicates(s.users, l[MarkerLength..]);
    }
  }

  lemma CleanupKeepsUsersDistinct(h: Handler, s: Shared, input: Input, clock: string)
    requires WellFormed(h) && !h.phase.Closed? && NoDuplicates(s.users)
    requires Receive(h, s, input, clock).handler.phase.Closed?
    ensures NoDuplicates(Receive(h, s, input, clock).shared.users)
  {
    ReceiveClosedIsCleanup(h, s, input, clock);
    var name := ExitName(h, input);
    if name.Some? {
      RemoveFirstKeepsNoDuplicates(s.users, name.value);
    }
  }

  // ---------------------------------------------------------------------
  // Active state

  /** `/USRS` is answered to the requester alone: "you are alone" when
      exactly one writer is registered, otherwise a header and the
      bracketed names of every other user, in registry order. */
  lemma ListUsersRepliesToRequester(h: Handler, s: Shared, clock: string)
    requires h.phase.Active? && h.name.Some?
    ensures var r := Receive(h, s, Line(ListCommand), clock);
      && r.handler == h && r.shared == s
      && (forall o :: o in r.outputs ==> o.to == h.id)
      && (|s.writers| == 1 ==> r.outputs == [Out(h.id, AloneReply)])
      && (|s.writers| != 1 ==>
            && |r.outputs| == 2 && r.outputs[0].line == ListHeader
            && r.outputs[1].line == Message + Placeholder + Bracketed(Others(s.users, h.name.value)))
  {
    assert ListCommand != QuitCommand + h.name.value by {
      assert ListCommand[1] != (QuitCommand + h.name.value)[1];
    }
  }

  /** Any other line of at least five characters is broadcast, marker
      stripped and quoted, with the join-time stamp, to every registered
      writer, the sender's included. */
  lemma ChatLineReachesEveryWriter(h: Handler, s: Shared, l: string, clock: string)
    requires h.phase.Active? && h.name.Some?
    requires l != QuitCommand + h.name.value && l != ListCommand && |l| >= MarkerLength
    ensures var r := Receive(h, s, Line(l), clock);
      && r.handler == h && r.shared == s
      && Recipients(r.outputs) == s.writers
      && (forall o :: o in r.outputs ==> o.line == ChatLine(h.name.value, h.phase.joinTime, l[MarkerLength..]))
  {
  }

  /** A line shorter than the marker makes `substring` throw; only cleanup
      runs. */
  lemma ShortLineEndsSession(h: Handler, s: Shared, l: string, clock: string)
    requires h.phase.Active? && h.name.Some?
    requires l != QuitCommand + h.name.value && l != ListCommand && |l| < MarkerLength
    ensures Receive(h, s, Line(l), clock) == Cleanup(h, s)
  {
  }

  /** `/QUIT` followed by the session's name is acknowledged to the sender
      and announced to every writer, but the handler stays active and
      registered: only end-of-stream or an exception leaves the loop. */
  lemma QuitStaysActive(h: Handler, s: Shared, clock: string)
    requires h.phase.Active? && h.name.Some?
    ensures var r := Receive(h, s, Line(QuitCommand + h.name.value), clock);
      && r.handler == h && r.shared == s
      && r.outputs[0] == Out(h.id, QuitAck)
      && Recipients(r.outputs[1..]) == s.writers
      && (forall o :: o in r.outputs[1..] ==> o.line == QuitNotice(h.name.value, h.phase.joinTime))
  {
    var r := Receive(h, s, Line(QuitCommand + h.name.value), clock);
    assert r.outputs[1..] == Broadcast(s.writers, QuitNotice(h.name.value, h.phase.joinTime));
  }

  /** Once joined, a session's output no longer depends on the clock: its
      chat lines and its disconnect notice carry the stamp fixed when it
      joined, whatever the time is now. */
  lemma StampFixedAtJoin(h: Handler, s: Shared, l: string, clock1: string, clock2: string)
    requires h.phase.Active? && h.name.Some?
    ensures Receive(h, s, Line(l), clock1) == Receive(h, s, Line(l), clock2)
  {
  }

  // ---------------------------------------------------------------------
  // Cleanup

  /** Ending a session on end-of-stream or a read failure removes its name
      and its writer and frees its permit. */
  lemma ActiveCleanupUnregisters(h: Handler, s: Shared, input: Input, clock: string)
    requires h.phase.Active? && h.name.Some? && !input.Line?
    requires NoDuplicates(s.users) && NoDuplicates(s.writers)
    ensures var r := Receive(h, s, input, clock);
      && r.handler.phase.Closed?
      && (forall u :: u in r.shared.users <==> u in s.users && u != h.name.value)
      && (forall w :: w in r.shared.writers <==> w in s.writers && w != h.id)
      && r.shared.pool.available == s.pool.available + 1
  {
    forall u ensures u in RemoveFirst(s.users, h.name.value) <==> u in s.users && u != h.name.value {
      RemoveFirstMembership(s.users, h.name.value, u);
    }
    forall w ensures w in RemoveFirst(s.writers, h.id) <==> w in s.writers && w != h.id {
      RemoveFirstMembership(s.writers, h.id, w);
    }
  }

  /** A malformed line during negotiation is kept in `name`, and cleanup
      removes it from `users`: when that string is another session's name,
      that session is evicted from the list although it is still active. */
  lemma MalformedLineEvicts(h: Handler, s: Shared, l: string, clock: string)
    requires h.phase.Negotiating? && !StartsWith(l, SubmitName) && l in s.users
    requires NoDuplicates(s.users)
    ensures l !in Receive(h, s, Line(l), clock).shared.users
  {
    RemoveFirstMembership(s.users, l, l);
  }

  /** After a candidate lost the uniqueness check, a failing read leaves the
      candidate in `name`; cleanup then removes the winner's entry. */
  lemma LostCandidateEvicts(h: Handler, s: Shared, clock: string)
    requires h.phase.Negotiating? && h.name.Some? && h.name.value in s.users
    requires NoDuplicates(s.users)
    ensures h.name.value !in Receive(h, s, ReadFailure, clock).shared.users
  {
    RemoveFirstMembership(s.users, h.name.value, h.name.value);
  }
}
