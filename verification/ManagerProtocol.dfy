/**
 The manager of zookeeper.c and one of its data builders (data_builder.c): commands of
 clients go to the child over one pipe, one at a time, and its responses come back over
 another. Pipes, the child and the event loop are steps of a state machine.
 */
module ManagerProtocol {
  import opened Options

  const CMD_CONNECTED: int := 1
  const CMD_DISPLAY_HEADERS: int := 5

  datatype ManagerIO = ManagerIO(command: int, arg: int)

  /** The commands a builder answers; any other is dropped. */
  predicate IsCommand(io: ManagerIO) { CMD_CONNECTED <= io.command <= CMD_DISPLAY_HEADERS }

  datatype Request = Request(client: nat, io: ManagerIO)

  /** A reply to a client: the response of the builder, or the error that it was stopped. */
  datatype Result = Response(io: ManagerIO) | Stopped

  datatype Answer = Answer(request: Request, result: Result)

  /**
   One entry of `pipes`. `issued` are all requests that were ever accepted and `answers` all replies
   that were ever sent, in order; `crashed` is a NULL dereference in the manager.
   */
  datatype Builder = Builder(
    running: bool, cmdList: seq<Request>, toChild: seq<ManagerIO>, toManager: seq<ManagerIO>,
    alive: bool, working: Option<ManagerIO>,
    issued: seq<Request>, answers: seq<Answer>, crashed: bool)

  const NO_BUILDER := Builder(false, [], [], [], false, None, [], [], false)

  datatype Step =
    | Start
    | Issue(request: Request)
    | ChildReceive
    | ChildRespond(arg: int)
    | ChildDies
    | ManagerRead
    | Stop

  // ----- The manager -----

  /** send_manager_command_now: a command to a child that is gone is lost. */
  function SendNow(b: Builder, io: ManagerIO): Builder {
    if b.alive then b.(toChild := b.toChild + [io]) else b
  }

  /** send_manager_command_async. */
  function SendAsync(b: Builder, request: Request): Builder {
    var queued := b.(cmdList := b.cmdList + [request], issued := b.issued + [request]);
    if b.cmdList == [] then SendNow(queued, request.io) else queued
  }

  function StoppedAnswers(requests: seq<Request>): (answers: seq<Answer>)
    ensures |answers| == |requests|
    ensures forall i :: 0 <= i < |requests| ==> answers[i] == Answer(requests[i], Stopped)
  {
    seq(|requests|, i requires 0 <= i < |requests| => Answer(requests[i], Stopped))
  }

  /** clean_up_child_process_pipes: every command left gets an error. */
  function CleanUp(b: Builder): Builder {
    Builder(false, [], [], [], false, None, b.issued, b.answers + StoppedAnswers(b.cmdList), b.crashed)
  }

  /** child_read_proc, called when the pipe is readable: a response, or the end of the file. */
  function Read(b: Builder): Builder {
    if b.toManager == [] then if b.alive then b else CleanUp(b)
    else if b.cmdList == [] then b.(crashed := true)
    else
      var rest := b.(cmdList := b.cmdList[1..], toManager := b.toManager[1..],
                     answers := b.answers + [Answer(b.cmdList[0], Response(b.toManager[0]))]);
      if rest.cmdList == [] then rest else SendNow(rest, rest.cmdList[0].io)
  }

  // ----- All steps; a step that is not possible changes nothing -----

  function Next(b: Builder, step: Step): Builder {
    match step
    case Start => if b.running then b else b.(running := true, alive := true)
    case Issue(request) => if b.running then SendAsync(b, request) else b
    case ChildReceive =>
      if b.alive && b.working.None? && b.toChild != [] then
        b.(toChild := b.toChild[1..], working := if IsCommand(b.toChild[0]) then Some(b.toChild[0]) else None)
      else b
    case ChildRespond(arg) =>
      if b.alive && b.working.Some? then b.(working := None, toManager := b.toManager + [b.working.value.(arg := arg)]) else b
    case ChildDies => b.(alive := false, working := None, toChild := [])
    case ManagerRead => if b.running then Read(b) else b
    case Stop => if b.running then CleanUp(b) else b
  }

  ghost predicate AreCommands(steps: seq<Step>) {
    forall i :: 0 <= i < |steps| && steps[i].Issue? ==> 1 <= steps[i].request.io.command <= 5
  }

  function Run(b: Builder, steps: seq<Step>): Builder {
    if steps == [] then b else Next(Run(b, steps[..|steps| - 1]), steps[|steps| - 1])
  }

  // ----- What every step keeps -----

  function Requests(answers: seq<Answer>): (rs: seq<Request>)
    ensures |rs| == |answers| && forall i :: 0 <= i < |answers| ==> rs[i] == answers[i].request
  {
    seq(|answers|, i requires 0 <= i < |answers| => answers[i].request)
  }

  /** A response carries the code of the command it answers. */
  predicate Matches(response: ManagerIO, io: ManagerIO) { response.command == io.command }

  /** At most one command is outstanding; it is the head of the queue, on its way, worked on, or answered. */
  ghost predicate OneOutstanding(b: Builder) {
    if b.cmdList == [] then b.toChild == [] && b.working.None? && b.toManager == []
    else
      var head := b.cmdList[0].io;
      || (b.toChild == [head] && b.working.None? && b.toManager == [])
      || (b.toChild == [] && b.working == Some(head) && b.toManager == [])
      || (b.toChild == [] && b.working.None? && |b.toManager| == 1 && Matches(b.toManager[0], head))
      || (b.toChild == [] && b.working.None? && b.toManager == [] && !b.alive)
  }

  ghost predicate InOrder(b: Builder) {
    && b.issued == Requests(b.answers) + b.cmdList
    && forall i :: 0 <= i < |b.answers| && b.answers[i].result.Response? ==> Matches(b.answers[i].result.io, b.answers[i].request.io)
  }

  ghost predicate Ok(b: Builder) {
    && !b.crashed
    && OneOutstanding(b) && InOrder(b)
    && (forall i :: 0 <= i < |b.cmdList| ==> IsCommand(b.cmdList[i].io))
    && (b.alive ==> b.running)
    && (!b.alive ==> b.toChild == [] && b.working.None?)
    && (!b.running ==> b.cmdList == [])
  }

  lemma RequestsAppend(answers: seq<Answer>, more: seq<Answer>)
    ensures Requests(answers + more) == Requests(answers) + Requests(more)
  {
  }

  lemma CleanUpIsOk(b: Builder)
    requires Ok(b)
    ensures Ok(CleanUp(b))
  {
    var more := StoppedAnswers(b.cmdList);
    RequestsAppend(b.answers, more);
    assert Requests(more) == b.cmdList;
    assert Requests(b.answers) + b.cmdList + [] == Requests(b.answers) + b.cmdList;
  }

  lemma ReadIsOk(b: Builder)
    requires Ok(b) && b.running && b.toManager != []
    ensures Ok(Read(b))
  {
    var answer := Answer(b.cmdList[0], Response(b.toManager[0]));
    RequestsAppend(b.answers, [answer]);
    assert Requests([answer]) == [b.cmdList[0]];
    assert [b.cmdList[0]] + b.cmdList[1..] == b.cmdList;
    assert Requests(b.answers) + [b.cmdList[0]] + b.cmdList[1..] == Requests(b.answers) + b.cmdList;
  }

  lemma IssueIsOk(b: Builder, request: Request)
    requires Ok(b) && b.running && IsCommand(request.io)
    ensures Ok(SendAsync(b, request))
  {
    assert Requests(b.answers) + b.cmdList + [request] == Requests(b.answers) + (b.cmdList + [request]);
  }

  lemma StepIsOk(b: Builder, step: Step)
    requires Ok(b) && (step.Issue? ==> IsCommand(step.request.io))
    ensures Ok(Next(b, step))
  {
    match step
    case Issue(request) =>
      if b.running {
        IssueIsOk(b, request);
      }
    case ManagerRead =>
      if b.toManager != [] && b.running {
        ReadIsOk(b);
      } else {
        CleanUpIsOk(b);
      }
    case Stop => CleanUpIsOk(b);
    case _ =>
  }

  lemma {:induction false} RunIsOk(steps: seq<Step>)
    requires AreCommands(steps)
    ensures Ok(Run(NO_BUILDER, steps))
    decreases |steps|
  {
    if steps != [] {
      hide Ok, Next, IsCommand;
      RunIsOk(steps[..|steps| - 1]);
      StepIsOk(Run(NO_BUILDER, steps[..|steps| - 1]), steps[|steps| - 1]);
    } else {
      assert Requests([]) + [] == [];
    }
  }

  /**
   Over every run, in any interleaving: the k-th reply goes to the client that issued the k-th command and,
   unless the builder was stopped, carries the code of that command; the manager never reads a response that
   it has no command for; and once the builder is gone every accepted command has had exactly one reply.
   */
  lemma {:induction false} RepliesMatchCommands(steps: seq<Step>)
    requires AreCommands(steps)
    ensures
      var b := Run(NO_BUILDER, steps);
      && !b.crashed && |b.answers| + |b.cmdList| == |b.issued|
      && |b.toChild| + (if b.working.Some? then 1 else 0) + |b.toManager| <= 1
      && (forall k :: 0 <= k < |b.answers| ==>
            && b.answers[k].request == b.issued[k]
            && (b.answers[k].result.Response? ==> b.answers[k].result.io.command == b.issued[k].io.command))
      && (!b.running ==> |b.answers| == |b.issued|)
  {
    RunIsOk(steps);
  }

  // ----- What the clients are told, from the steps alone -----

  /** What has become of the oldest command without a reply; Nowhere when there is none. */
  datatype Whereabouts = Nowhere | OnItsWay | WorkedOn | Answered(arg: int) | Lost

  /** The books: commands that were accepted, and the replies so far, with the number of a response or None for the error. */
  datatype Account = Account(running: bool, alive: bool, accepted: seq<Request>, replies: seq<Option<int>>, oldest: Whereabouts)

  /** The builder is gone: everything that is open gets the error. */
  function Closed(a: Account): Account
    requires |a.replies| <= |a.accepted|
  {
    Account(false, false, a.accepted, a.replies + seq(|a.accepted| - |a.replies|, i => None), Nowhere)
  }

  /** A command that is now the oldest one. */
  function Sent(a: Account): Whereabouts { if a.alive then OnItsWay else Lost }

  function Entry(a: Account, step: Step): (r: Account)
    requires |a.replies| <= |a.accepted| && (a.oldest != Nowhere ==> |a.replies| < |a.accepted|)
    ensures |r.replies| <= |r.accepted| && (r.oldest != Nowhere ==> |r.replies| < |r.accepted|)
  {
    match step
    case Start => if a.running then a else a.(running := true, alive := true)
    case Issue(request) =>
      if a.running then a.(accepted := a.accepted + [request], oldest := if a.oldest == Nowhere then Sent(a) else a.oldest) else a
    case ChildReceive => if a.oldest == OnItsWay then a.(oldest := WorkedOn) else a
    case ChildRespond(arg) => if a.oldest == WorkedOn then a.(oldest := Answered(arg)) else a
    case ChildDies => a.(alive := false, oldest := if a.oldest == OnItsWay || a.oldest == WorkedOn then Lost else a.oldest)
    case ManagerRead =>
      if !a.running then a
      else if a.oldest.Answered? then
        var replies := a.replies + [Some(a.oldest.arg)];
        a.(replies := replies, oldest := if |replies| == |a.accepted| then Nowhere else Sent(a))
      else if a.alive then a
      else Closed(a)
    case Stop => if a.running then Closed(a) else a
  }

  function AccountOf(steps: seq<Step>): (a: Account)
    ensures |a.replies| <= |a.accepted| && (a.oldest != Nowhere ==> |a.replies| < |a.accepted|)
  {
    if steps == [] then Account(false, false, [], [], Nowhere)
    else Entry(AccountOf(steps[..|steps| - 1]), steps[|steps| - 1])
  }

  /** What the client of the `k`-th accepted command is told. */
  function Reply(a: Account, k: nat): Answer
    requires k < |a.replies| <= |a.accepted|
  {
    var request := a.accepted[k];
    Answer(request, if a.replies[k].None? then Stopped else Response(ManagerIO(request.io.command, a.replies[k].value)))
  }

  /** Queue, pipes and child are where the books say. */
  ghost predicate InBooks(b: Builder, a: Account) {
    && b.running == a.running && b.alive == a.alive && b.issued == a.accepted
    && |b.answers| == |a.replies| <= |a.accepted| && b.cmdList == a.accepted[|a.replies|..]
    && (forall k :: 0 <= k < |a.replies| ==> b.answers[k] == Reply(a, k))
    && b.toChild == (if a.oldest == OnItsWay && b.cmdList != [] then [b.cmdList[0].io] else [])
    && b.working == (if a.oldest == WorkedOn && b.cmdList != [] then Some(b.cmdList[0].io) else None)
    && b.toManager == (if a.oldest.Answered? && b.cmdList != [] then [b.cmdList[0].io.(arg := a.oldest.arg)] else [])
    && (a.oldest == Nowhere <==> b.cmdList == [])
    && (a.oldest == Lost ==> !a.alive) && (a.oldest == OnItsWay || a.oldest == WorkedOn ==> a.alive)
    && (a.alive ==> a.running) && (!a.running ==> a.oldest == Nowhere)
  }

  lemma BooksClosed(b: Builder, a: Account)
    requires InBooks(b, a)
    ensures InBooks(CleanUp(b), Closed(a))
  {
    var n := |a.replies|;
    forall k | 0 <= k < |a.accepted|
      ensures CleanUp(b).answers[k] == Reply(Closed(a), k)
    {
      if k >= n {
        assert b.cmdList[k - n] == a.accepted[k];
      } else {
        assert b.answers[k] == Reply(a, k);
      }
    }
  }

  lemma BooksRead(b: Builder, a: Account)
    requires InBooks(b, a) && a.running && a.oldest.Answered? && |a.replies| < |a.accepted|
    ensures InBooks(Read(b), Entry(a, ManagerRead))
  {
    var r := Entry(a, ManagerRead);
    forall k | 0 <= k < |r.replies|
      ensures Read(b).answers[k] == Reply(r, k)
    {
      if k < |a.replies| {
        assert b.answers[k] == Reply(a, k);
      }
    }
  }

  lemma BooksIssue(b: Builder, a: Account, request: Request)
    requires InBooks(b, a) && a.running
    ensures InBooks(SendAsync(b, request), Entry(a, Issue(request)))
  {
    var r := Entry(a, Issue(request));
    assert r.accepted[|a.replies|..] == b.cmdList + [request];
    forall k | 0 <= k < |r.replies|
      ensures SendAsync(b, request).answers[k] == Reply(r, k)
    {
      assert b.answers[k] == Reply(a, k);
    }
  }

  lemma BooksStep(b: Builder, a: Account, step: Step)
    requires InBooks(b, a) && (forall i :: 0 <= i < |b.cmdList| ==> IsCommand(b.cmdList[i].io))
    requires a.oldest != Nowhere ==> |a.replies| < |a.accepted|
    ensures InBooks(Next(b, step), Entry(a, step))
  {
    match step
    case Issue(request) =>
      if a.running {
        BooksIssue(b, a, request);
      }
    case ManagerRead =>
      if a.running && a.oldest.Answered? {
        BooksRead(b, a);
      } else {
        BooksClosed(b, a);
      }
    case Stop => BooksClosed(b, a);
    case Start => SameReplies(b, a, Entry(a, step));
    case ChildReceive => SameReplies(b, a, Entry(a, step));
    case ChildRespond(_) => SameReplies(b, a, Entry(a, step));
    case ChildDies => SameReplies(b, a, Entry(a, step));
  }

  lemma SameReplies(b: Builder, a: Account, r: Account)
    requires InBooks(b, a) && r.accepted == a.accepted && r.replies == a.replies
    ensures forall k :: 0 <= k < |r.replies| ==> b.answers[k] == Reply(r, k)
  {
    forall k | 0 <= k < |r.replies|
      ensures b.answers[k] == Reply(r, k)
    {
      assert b.answers[k] == Reply(a, k);
    }
  }

  lemma {:induction false} RunIsInBooks(steps: seq<Step>)
    requires AreCommands(steps)
    ensures InBooks(Run(NO_BUILDER, steps), AccountOf(steps))
    decreases |steps|
  {
    if steps != [] {
      hide InBooks, Next, Ok, Entry, IsCommand;
      var n := |steps| - 1;
      RunIsInBooks(steps[..n]);
      RunIsOk(steps[..n]);
      AllCommands(Run(NO_BUILDER, steps[..n]));
      BooksStep(Run(NO_BUILDER, steps[..n]), AccountOf(steps[..n]), steps[n]);
    }
  }

  lemma AllCommands(b: Builder)
    requires Ok(b)
    ensures forall i :: 0 <= i < |b.cmdList| ==> IsCommand(b.cmdList[i].io)
  {
  }

  /** The requests that came while a builder ran, in order. */
  function Accepted(steps: seq<Step>): seq<Request> {
    if steps == [] then []
    else
      var n := |steps| - 1;
      Accepted(steps[..n]) + if steps[n].Issue? && AccountOf(steps[..n]).running then [steps[n].request] else []
  }

  lemma {:induction false} AcceptedAre(steps: seq<Step>)
    ensures AccountOf(steps).accepted == Accepted(steps)
    decreases |steps|
  {
    if steps != [] {
      AcceptedAre(steps[..|steps| - 1]);
    }
  }

  /**
   Over every run, in any interleaving: the commands accepted are exactly those issued while a builder ran; each
   is answered once, in order, with the number that the child responded to it, or with the error once the builder
   is gone; and a builder runs exactly when the books say.
   */
  lemma {:induction false} EveryCommandIsAnswered(steps: seq<Step>)
    requires AreCommands(steps)
    ensures
      var b, a := Run(NO_BUILDER, steps), AccountOf(steps);
      && b.running == a.running && b.issued == Accepted(steps) == a.accepted
      && |b.answers| == |a.replies| <= |Accepted(steps)|
      && (forall k :: 0 <= k < |a.replies| ==>
            b.answers[k] == Answer(Accepted(steps)[k],
              if a.replies[k].None? then Stopped else Response(ManagerIO(Accepted(steps)[k].io.command, a.replies[k].value))))
      && (!a.running ==> |b.answers| == |Accepted(steps)|)
  {
    RunIsInBooks(steps);
    AcceptedAre(steps);
    var b, a := Run(NO_BUILDER, steps), AccountOf(steps);
    forall k | 0 <= k < |a.replies|
      ensures b.answers[k] == Reply(a, k)
    {
    }
  }

  /** The head of the queue gets its reply as soon as the child and the manager have had a turn. */
  lemma HeadIsAnswered(b: Builder, arg: int)
    requires Ok(b) && b.alive && b.cmdList != []
    ensures
      var r := Run(b, [ChildReceive, ChildRespond(arg), ManagerRead]);
      && |r.answers| == |b.answers| + 1
      && r.answers[|b.answers|].request == b.cmdList[0] && r.answers[|b.answers|].result.Response?
      && r.cmdList == b.cmdList[1..]
  {
    var steps := [ChildReceive, ChildRespond(arg), ManagerRead];
    assert steps[..2] == [ChildReceive, ChildRespond(arg)] && steps[..2][..1] == [ChildReceive] && [ChildReceive][..0] == [];
    var received := Next(b, ChildReceive);
    assert Run(b, [ChildReceive]) == Next(Run(b, []), ChildReceive);
    assert Run(b, steps[..2]) == Next(received, ChildRespond(arg));
  }

  // ----- A client that disconnects -----

  /** A queued command as clean_up_disconnected_client finds it; its client is None once it has been set to NULL. */
  datatype Queued = Queued(client: Option<nat>, io: ManagerIO)

  /** clean_up_disconnected_client over one list, `n` nodes of which are left to visit: None is a NULL dereference. */
  function Disconnect(list: seq<Queued>, c: nat, n: nat): Option<seq<Queued>>
    requires n <= |list|
    decreases n
  {
    if n == 0 then Some(list)
    else if list[0].client.None? then None
    else Disconnect(if list[0].client == Some(c) then list[0 := list[0].(client := None)] else list, c, n - 1)
  }

  /** What it is meant to do: no command of the client has a client any more. */
  function Forget(list: seq<Queued>, c: nat): (r: seq<Queued>)
    ensures |r| == |list|
  {
    seq(|list|, i requires 0 <= i < |list| => if list[i].client == Some(c) then list[i].(client := None) else list[i])
  }

  lemma {:induction false} DisconnectKeeps(list: seq<Queued>, c: nat, n: nat)
    requires 0 < |list| && n <= |list| && list[0].client.Some? && list[0].client != Some(c)
    ensures Disconnect(list, c, n) == Some(list)
    decreases n
  {
    if n > 0 {
      DisconnectKeeps(list, c, n - 1);
    }
  }

  /**
   It tests the head instead of the node it visits, so it does what it is meant to do just when the head has
   not been set to NULL before, no command but the head is the client's, and the head is not or is the only one.
   */
  predicate CanDisconnect(list: seq<Queued>, c: nat) {
    && (list != [] ==> list[0].client.Some?)
    && (forall i :: 1 <= i < |list| ==> list[i].client != Some(c))
    && (list != [] && list[0].client == Some(c) ==> |list| == 1)
  }

  lemma {:induction false} DisconnectIsRight(list: seq<Queued>, c: nat)
    ensures Disconnect(list, c, |list|) == Some(Forget(list, c)) <==> CanDisconnect(list, c)
  {
    if list == [] {
      assert Forget(list, c) == list;
    } else if list[0].client == Some(c) {
      var r := list[0 := list[0].(client := None)];
      assert Disconnect(list, c, |list|) == Disconnect(r, c, |list| - 1);
      if |list| == 1 {
        assert Forget(list, c) == r;
      }
    } else if list[0].client.Some? {
      DisconnectKeeps(list, c, |list|);
      if forall i :: 1 <= i < |list| ==> list[i].client != Some(c) {
        assert Forget(list, c) == list;
      } else {
        var i :| 1 <= i < |list| && list[i].client == Some(c);
        assert Forget(list, c)[i] != list[i];
      }
    }
  }

  /** NULL is dereferenced exactly when the head is NULL, or becomes NULL while there are nodes left to visit. */
  lemma {:induction false} DisconnectCrashes(list: seq<Queued>, c: nat)
    ensures Disconnect(list, c, |list|).None? <==> list != [] && (list[0].client.None? || (list[0].client == Some(c) && |list| > 1))
  {
    if list != [] && list[0].client.Some? {
      if list[0].client == Some(c) {
        assert Disconnect(list, c, |list|) == Disconnect(list[0 := list[0].(client := None)], c, |list| - 1);
      } else {
        DisconnectKeeps(list, c, |list|);
      }
    }
  }

  /** The client of the only command disconnects as it is meant to, and then no client can disconnect any more. */
  lemma {:induction false} SecondDisconnectionCrashes(a: nat, c: nat, io: ManagerIO)
    ensures
      var first := Disconnect([Queued(Some(a), io)], a, 1);
      && first == Some(Forget([Queued(Some(a), io)], a)) && first.value != []
      && Disconnect(first.value, c, |first.value|).None? && !CanDisconnect(first.value, c)
  {
    DisconnectIsRight([Queued(Some(a), io)], a);
    var first := Forget([Queued(Some(a), io)], a);
    DisconnectCrashes(first, c);
  }

  /** clean_up_disconnected_client over the lists of all running builders, one after the other. */
  function DisconnectAll(lists: seq<seq<Queued>>, c: nat): (r: Option<seq<seq<Queued>>>)
    ensures r.Some? ==> |r.value| == |lists|
  {
    if lists == [] then Some([])
    else
      var n := |lists| - 1;
      match DisconnectAll(lists[..n], c)
      case None => None
      case Some(done) =>
        match Disconnect(lists[n], c, |lists[n]|)
        case None => None
        case Some(list) => Some(done + [list])
  }

  function ForgetAll(lists: seq<seq<Queued>>, c: nat): (r: seq<seq<Queued>>)
    ensures |r| == |lists|
  {
    seq(|lists|, i requires 0 <= i < |lists| => Forget(lists[i], c))
  }

  lemma SameAppended<T>(a: seq<T>, x: T, b: seq<T>, y: T)
    requires |a| == |b|
    ensures a + [x] == b + [y] <==> a == b && x == y
  {
    assert (a + [x])[..|a|] == a && (b + [y])[..|b|] == b;
    assert (a + [x])[|a|] == x && (b + [y])[|b|] == y;
  }

  ghost predicate CanDisconnectAll(lists: seq<seq<Queued>>, c: nat) {
    forall i :: 0 <= i < |lists| ==> CanDisconnect(lists[i], c)
  }

  /** It is right for all builders just when it is right for each; one NULL anywhere ends the manager. */
  lemma {:induction false} DisconnectAllIsRight(lists: seq<seq<Queued>>, c: nat)
    ensures DisconnectAll(lists, c) == Some(ForgetAll(lists, c)) <==> CanDisconnectAll(lists, c)
    decreases |lists|
  {
    hide Disconnect, Forget, CanDisconnect;
    if lists != [] {
      var n := |lists| - 1;
      DisconnectAllIsRight(lists[..n], c);
      DisconnectIsRight(lists[n], c);
      assert ForgetAll(lists, c) == ForgetAll(lists[..n], c) + [Forget(lists[n], c)];
      assert CanDisconnectAll(lists, c) <==> CanDisconnectAll(lists[..n], c) && CanDisconnect(lists[n], c) by {
        assert forall i :: 0 <= i < n ==> lists[..n][i] == lists[i];
      }
      var done, list := DisconnectAll(lists[..n], c), Disconnect(lists[n], c, |lists[n]|);
      if done.Some? && list.Some? {
        SameAppended(done.value, list.value, ForgetAll(lists[..n], c), Forget(lists[n], c));
      }
    }
  }

  // ----- The linked list of commands -----

  class ManagerIOList {
    const request: Request
    var next: ManagerIOList?

    constructor (request: Request)
      ensures this.request == request && next == null
    {
      this.request := request;
      next := null;
    }
  }

  class IpcPipe {
    var cmdList: ManagerIOList?
    var running: bool
    var toChild: seq<ManagerIO>
    var toManager: seq<ManagerIO>
    var alive: bool
    var working: Option<ManagerIO>
    var issued: seq<Request>
    var answers: seq<Answer>

    /** The nodes of the list, in order. */
    ghost var nodes: seq<ManagerIOList>

    ghost predicate Valid()
      reads this`nodes, this`cmdList, nodes
    {
      && cmdList == NodeAt(0)
      && (forall i :: 0 <= i < |nodes| ==> nodes[i].next == NodeAt(i + 1))
      && (forall i, j :: 0 <= i < j < |nodes| ==> nodes[i] != nodes[j])
    }

    ghost function NodeAt(i: nat): ManagerIOList?
      reads this`nodes
    {
      if i < |nodes| then nodes[i] else null
    }

    ghost function Queue(): seq<Request>
      reads this`nodes
    {
      RequestsOf(nodes)
    }

    static ghost function RequestsOf(nodes: seq<ManagerIOList>): seq<Request> {
      seq(|nodes|, i requires 0 <= i < |nodes| => nodes[i].request)
    }

    ghost function View(): Builder
      reads this
    {
      Builder(running, Queue(), toChild, toManager, alive, working, issued, answers, false)
    }

    constructor ()
      ensures Valid() && View() == NO_BUILDER
    {
      cmdList, nodes, running, toChild, toManager := null, [], false, [], [];
      alive, working, issued, answers := false, None, [], [];
    }

    /** send_manager_command_now. */
    method SendManagerCommandNow(io: ManagerIO)
      requires Valid()
      modifies this`toChild
      ensures Valid() && View() == SendNow(old(View()), io)
    {
      if alive {
        toChild := toChild + [io];
      }
    }

    /** send_manager_command_async: straight to the child when nothing is queued, or behind the last node. */
    method SendManagerCommandAsync(request: Request)
      requires Valid()
      modifies this, nodes
      ensures Valid() && View() == SendAsync(old(View()), request)
      ensures Queue() == old(Queue()) + [request] && issued == old(issued) + [request]
    {
      var thisCmd := new ManagerIOList(request);
      issued := issued + [request];
      if cmdList == null {
        cmdList := thisCmd;
        nodes := [thisCmd];
        assert Queue() == [request];
        SendManagerCommandNow(request.io);
      } else {
        var thisNode := cmdList;
        ghost var k := 0;
        while thisNode.next != null
          invariant k < |nodes| && thisNode == nodes[k]
          decreases |nodes| - k
        {
          thisNode := thisNode.next;
          k := k + 1;
        }
        thisNode.next := thisCmd;
        nodes := nodes + [thisCmd];
        assert Queue() == old(Queue()) + [request];
      }
    }

    /** Unlink the head. */
    method PopCommand() returns (request: Request)
      requires Valid() && cmdList != null
      modifies this`cmdList, this`nodes
      ensures Valid() && [request] + Queue() == old(Queue()) && |nodes| == |old(nodes)| - 1
    {
      request := cmdList.request;
      cmdList := cmdList.next;
      nodes := nodes[1..];
    }

    static lemma StoppedFirst(answers: seq<Answer>, request: Request, rest: seq<Request>)
      ensures answers + StoppedAnswers([request] + rest) == answers + [Answer(request, Stopped)] + StoppedAnswers(rest)
    {
      assert StoppedAnswers([request] + rest) == [Answer(request, Stopped)] + StoppedAnswers(rest);
    }

    /** clean_up_child_process_pipes. */
    method CleanUpChildProcessPipes()
      requires Valid()
      modifies this
      ensures Valid() && View() == CleanUp(old(View()))
    {
      while cmdList != null
        invariant Valid() && issued == old(issued)
        invariant answers + StoppedAnswers(Queue()) == old(answers) + StoppedAnswers(old(Queue()))
        decreases |nodes|
      {
        ghost var before := answers;
        var request := PopCommand();
        StoppedFirst(before, request, Queue());
        answers := answers + [Answer(request, Stopped)];
      }
      assert Queue() == [] && StoppedAnswers([]) == [];
      running, alive := false, false;
      toChild, toManager, working := [], [], None;
    }

    /** child_read_proc: a response for the head of the list, or the end of the file. */
    method ChildReadProc()
      requires Valid() && (toManager != [] ==> cmdList != null) && (toManager == [] ==> !alive)
      modifies this
      ensures Valid() && View() == Read(old(View()))
    {
      if toManager == [] {
        CleanUpChildProcessPipes();
        return;
      }
      var recvCmd := toManager[0];
      toManager := toManager[1..];
      var request := PopCommand();
      assert old(Queue())[0] == request && Queue() == old(Queue())[1..];
      answers := answers + [Answer(request, Response(recvCmd))];
      if cmdList != null {
        SendManagerCommandNow(cmdList.request.io);
      }
    }

    /** start_builder_command in the parent: whether there was no builder yet. */
    method StartBuilder() returns (started: bool)
      requires Valid() && (!running ==> !alive)
      modifies this`running, this`alive
      ensures Valid() && View() == Next(old(View()), Start) && started == !old(running)
    {
      if running {
        return false;
      }
      running, alive := true, true;
      started := true;
    }

    /** stop_builder_command: whether there was a builder to stop. */
    method StopBuilder() returns (stopped: bool)
      requires Valid()
      modifies this
      ensures Valid() && View() == Next(old(View()), Stop) && stopped == old(running)
    {
      if !running {
        return false;
      }
      CleanUpChildProcessPipes();
      stopped := true;
    }

    /** builder_send_command_generic: whether the command was accepted. */
    method IssueCommand(request: Request) returns (accepted: bool)
      requires Valid()
      modifies this, nodes
      ensures Valid() && View() == Next(old(View()), Issue(request)) && accepted == old(running)
      ensures accepted ==> Queue() == old(Queue()) + [request] && issued == old(issued) + [request]
    {
      if !running {
        return false;
      }
      SendManagerCommandAsync(request);
      accepted := true;
    }

    /** receive_manager_io and respond_to_manager_io, in one turn of the main loop of the builder. */
    method ServeManager(arg: int)
      requires Valid() && alive && working.None?
      modifies this`toChild, this`toManager, this`working
      ensures Valid() && View() == Next(Next(old(View()), ChildReceive), ChildRespond(arg))
    {
      if toChild == [] {
        return;
      }
      var managerCommand := toChild[0];
      toChild := toChild[1..];
      if IsCommand(managerCommand) {
        toManager := toManager + [managerCommand.(arg := arg)];
      }
    }
  }
}
