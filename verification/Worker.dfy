/**
 * The resolver worker: the event loop, the libunbound thread, the two lists of
 * requests between them and the shutdown, as a state machine over interleaved
 * steps (src/rs_worker.c).
 */
module Worker {
  import opened Bytes

  type Id = nat

  /** Where the libunbound thread is. */
  datatype Thread =
    | Stopped
    | Checking                // about to look at the pending list
    | Sleeping(woken: bool)   // in uv_cond_wait
    | Polling                 // in ub_wait
    | HandOff(id: Id)         // the request is off the pending list
    | Signalling              // the response is queued
    | Leaving                 // told to exit
    | Exited                  // has sent the quit signal

  /** Where the event loop is. */
  datatype Loop =
    | Idle
    | Draining   // between two responses of after_resolve_async
    | Calling    // in the callback of a request
    | Stopping   // in the stop callback
    | Freeing    // in the final drain
    | Freed

  /**
   * `pending` and `responses` are the two lists; `sending` is the request between its
   * enqueueing and the moment libunbound takes it on or turns it down, inside ub_resolve_async;
   * a callback may run before that call returns. `inflight` are those libunbound has taken on
   * and not answered. The history variables `accepted`, `answered` and `delivered` record what
   * libunbound has taken on, what went onto the response list, and whose callback ran.
   */
  datatype State = State(
    open: bool, exit: bool, thread: Thread, loop: Loop,
    pending: seq<Id>, responses: seq<Id>, sending: Option<Id>, inflight: set<Id>,
    async: bool, quit: bool, counter: Id,
    accepted: set<Id>, answered: seq<Id>, delivered: seq<Id>)

  datatype Action =
    // The owner of the worker, on the event loop.
    | Open | Close | Resolve | Free
    // The event loop.
    | Accept | Refuse | AsyncFires | DrainNext | CallbackReturns | QuitFires | StopReturns | FreeNext
    // The libunbound thread.
    | Look | Spurious | Answer(answer: Id) | Enqueue | Signal | PollReturns | SendQuit

  const INITIAL := State(false, false, Stopped, Idle, [], [], None, {}, false, false, 0, {}, [], [])

  /** The event loop is in code of the owner, who may use the worker. */
  predicate AtOwner(s: State) {
    s.sending.None? && (s.loop == Idle || s.loop == Calling || s.loop == Stopping)
  }

  /**
   * The step can be taken; for the owner's steps, also that the owner uses the worker as the source's
   * checks and asserts ask, and does not free it from the callback of a request.
   */
  predicate Enabled(s: State, a: Action) {
    match a
    case Open => AtOwner(s) && !s.exit && !s.open
    case Close => AtOwner(s) && (s.exit || s.open)
    case Resolve => AtOwner(s) && !s.exit && s.open
    case Free => AtOwner(s) && s.loop != Calling && !s.exit && !s.open
    case Accept => s.sending.Some?
    case Refuse => s.sending.Some?
    case AsyncFires => s.sending.None? && s.async && (s.loop == Idle || s.loop == Freed)
    case DrainNext => s.sending.None? && s.loop == Draining
    case CallbackReturns => s.sending.None? && s.loop == Calling
    case QuitFires => s.sending.None? && s.loop == Idle && s.quit
    case StopReturns => s.sending.None? && s.loop == Stopping
    case FreeNext => s.loop == Freeing
    case Look => s.thread == Checking || s.thread == Sleeping(true)
    case Spurious => s.thread == Sleeping(false)
    case Answer(id) => s.thread == Polling && id in s.inflight
    case Enqueue => s.thread.HandOff?
    case Signal => s.thread == Signalling
    case PollReturns => s.thread == Polling
    case SendQuit => s.thread == Leaving
  }

  /** The list without its first occurrence of id. */
  function Remove(p: seq<Id>, id: Id): seq<Id> {
    if p == [] then []
    else if p[0] == id then p[1..]
    else [p[0]] + Remove(p[1..], id)
  }

  lemma {:induction false} Removed(p: seq<Id>, id: Id)
    ensures multiset(Remove(p, id)) == multiset(p) - multiset{id}
  {
    if p != [] {
      assert p == [p[0]] + p[1..];
      if p[0] != id {
        Removed(p[1..], id);
      }
    }
  }

  /** The thread after uv_cond_signal. */
  function Woken(t: Thread): Thread {
    if t.Sleeping? then Sleeping(true) else t
  }

  function Step(s: State, a: Action): State
    requires Enabled(s, a)
  {
    match a
    case Open => s.(open := true, thread := Checking)
    case Close => if s.exit then s else s.(exit := true, thread := Woken(s.thread))
    case Resolve => s.(pending := s.pending + [s.counter], sending := Some(s.counter), counter := s.counter + 1,
                       thread := Woken(s.thread))
    case Free => s.(loop := Freeing)
    case Accept => s.(sending := None, inflight := s.inflight + {s.sending.value},
                      accepted := s.accepted + {s.sending.value})
    case Refuse => s.(sending := None, pending := Remove(s.pending, s.sending.value))
    case AsyncFires => s.(async := false, loop := if s.loop == Freed then Freed else Draining)
    case DrainNext => if s.responses == [] then s.(loop := Idle) else Deliver(s).(loop := Calling)
    case CallbackReturns => s.(loop := Draining)
    case QuitFires => s.(quit := false, exit := false, open := false, thread := Stopped, loop := Stopping)
    case StopReturns => s.(loop := Idle)
    case FreeNext => if s.responses == [] then s.(loop := Freed) else Deliver(s)
    case Look => s.(thread := if s.pending != [] then Polling else if s.exit then Leaving else Sleeping(false))
    case Spurious => s.(thread := Sleeping(true))
    case Answer(id) => s.(inflight := s.inflight - {id}, pending := Remove(s.pending, id), thread := HandOff(id))
    case Enqueue => s.(responses := s.responses + [s.thread.id], answered := s.answered + [s.thread.id],
                       thread := Signalling)
    case Signal => s.(async := true, thread := Polling)
    case PollReturns => s.(thread := Checking)
    case SendQuit => s.(quit := true, thread := Exited)
  }

  /** The callback of the oldest response runs. */
  function Deliver(s: State): State
    requires s.responses != []
  {
    s.(responses := s.responses[1..], delivered := s.delivered + [s.responses[0]])
  }

  /** What the asserts of the source state at each step. */
  predicate Asserts(s: State, a: Action) {
    match a
    // hsk_rs_pending_remove: the request is on the list.
    case Refuse => s.sending.Some? && s.sending.value in s.pending
    case Answer(id) => id in s.pending
    // run_unbound_worker: the context is set while the thread runs.
    case Look => s.open
    // after_quit_async and hsk_rs_pending_reset: nothing is pending once the thread is gone.
    case QuitFires => s.thread == Exited && s.pending == []
    // hsk_rs_worker_uninit and hsk_rs_pending_uninit.
    case Free => !s.exit && !s.open && s.pending == []
    case _ => true
  }

  // ----- The invariant

  function One(x: Option<Id>): multiset<Id> {
    if x.Some? then multiset{x.value} else multiset{}
  }

  function Hand(t: Thread): Option<Id> {
    if t.HandOff? then Some(t.id) else None
  }

  /** Every request taken on, or being sent, is in exactly one place. */
  predicate Balance(pending: seq<Id>, hand: Option<Id>, answered: seq<Id>, accepted: set<Id>, sending: Option<Id>) {
    multiset(pending) + One(hand) + multiset(answered) == multiset(accepted) + One(sending)
  }

  /** Nothing is lost or doubled on the way from the request to the callback. */
  predicate Conserved(s: State) {
    Balance(s.pending, Hand(s.thread), s.answered, s.accepted, s.sending)
  }

  /** Callbacks run in the order of the answers. */
  predicate InOrder(s: State) {
    s.answered == s.delivered + s.responses
  }

  /** Libunbound holds exactly the pending requests, save the one being sent. */
  predicate Matches(pending: seq<Id>, inflight: set<Id>, sending: Option<Id>) {
    multiset(pending) == multiset(inflight) + One(sending)
  }

  predicate Held(s: State) {
    && Matches(s.pending, s.inflight, s.sending)
    && (s.sending.Some? ==> s.sending.value !in s.accepted && s.sending.value < s.counter)
    && (forall id :: id in s.accepted ==> id < s.counter)
    && (forall id :: id in s.inflight ==> id in s.accepted)
  }

  /** A sleeping thread has nothing to do, unless it has been woken. */
  predicate NoLostWakeUp(s: State) {
    s.thread == Sleeping(false) ==> s.pending == [] && !s.exit
  }

  /** Every queued response has somebody on the way to deliver it. */
  predicate NoStrandedResponse(s: State) {
    s.responses != [] ==> s.async || s.thread == Signalling || s.loop in {Draining, Calling, Freeing}
  }

  predicate Shutdown(s: State) {
    && (s.open <==> s.thread != Stopped)
    && (s.exit ==> s.open)
    && (s.quit <==> s.thread == Exited)
    && (s.thread == Leaving || s.thread == Exited ==> s.exit && s.pending == [])
    && (!s.open ==> s.pending == [])
    && (s.loop == Freeing || s.loop == Freed ==> !s.open && s.sending.None?)
    && (s.loop == Freed ==> s.responses == [])
    && (s.sending.Some? ==> s.open && !s.exit && s.loop in {Idle, Calling, Stopping})
  }

  predicate Inv(s: State) {
    Conserved(s) && InOrder(s) && Held(s) && NoLostWakeUp(s) && NoStrandedResponse(s) && Shutdown(s)
  }

  lemma BalanceResolve(pending: seq<Id>, hand: Option<Id>, answered: seq<Id>, accepted: set<Id>, id: Id)
    requires Balance(pending, hand, answered, accepted, None)
    ensures Balance(pending + [id], hand, answered, accepted, Some(id))
  {
    var p, q := multiset(pending), One(hand) + multiset(answered);
    assert multiset(accepted) + One(None) == multiset(accepted);
    assert p + q == multiset(accepted);
    assert multiset(pending + [id]) + q == multiset(accepted) + multiset{id};
  }

  lemma BalanceAccept(pending: seq<Id>, hand: Option<Id>, answered: seq<Id>, accepted: set<Id>, id: Id)
    requires Balance(pending, hand, answered, accepted, Some(id)) && id !in accepted
    ensures Balance(pending, hand, answered, accepted + {id}, None)
  {
    assert multiset(accepted + {id}) == multiset(accepted) + multiset{id};
  }

  lemma TakeOut(p: multiset<Id>, q: multiset<Id>, a: multiset<Id>, id: Id)
    requires id in p && p + q == a + multiset{id}
    ensures (p - multiset{id}) + q == a
  {
    forall x ensures ((p - multiset{id}) + q)[x] == a[x] {
      assert (p + q)[x] == (a + multiset{id})[x];
    }
  }

  lemma BalanceRefuse(pending: seq<Id>, hand: Option<Id>, answered: seq<Id>, accepted: set<Id>, id: Id)
    requires Balance(pending, hand, answered, accepted, Some(id)) && id in pending
    ensures Balance(Remove(pending, id), hand, answered, accepted, None)
  {
    hide Remove;
    Removed(pending, id);
    var p, q, a := multiset(pending), One(hand) + multiset(answered), multiset(accepted);
    assert p + q == a + multiset{id} by { assert p + One(hand) + multiset(answered) == p + q; }
    TakeOut(p, q, a, id);
    assert Balance(Remove(pending, id), hand, answered, accepted, None) by {
      assert (p - multiset{id}) + One(hand) + multiset(answered) == (p - multiset{id}) + q;
    }
  }

  lemma BalanceAnswer(pending: seq<Id>, answered: seq<Id>, accepted: set<Id>, sending: Option<Id>, id: Id)
    requires Balance(pending, None, answered, accepted, sending) && id in pending
    ensures Balance(Remove(pending, id), Some(id), answered, accepted, sending)
  {
    hide Remove;
    Removed(pending, id);
  }

  lemma BalanceEnqueue(pending: seq<Id>, answered: seq<Id>, accepted: set<Id>, sending: Option<Id>, id: Id)
    requires Balance(pending, Some(id), answered, accepted, sending)
    ensures Balance(pending, None, answered + [id], accepted, sending)
  {
  }

  lemma ConservedKeeps(s: State, a: Action)
    requires Inv(s) && Enabled(s, a)
    ensures Conserved(Step(s, a))
  {
    hide NoLostWakeUp, NoStrandedResponse, Balance, InOrder, Matches, Remove, One;
    match a
    case Resolve => BalanceResolve(s.pending, Hand(s.thread), s.answered, s.accepted, s.counter);
    case Accept => BalanceAccept(s.pending, Hand(s.thread), s.answered, s.accepted, s.sending.value);
    case Refuse =>
      MatchesIn(s.pending, s.inflight, s.sending);
      BalanceRefuse(s.pending, Hand(s.thread), s.answered, s.accepted, s.sending.value);
    case Answer(id) =>
      MatchesIn(s.pending, s.inflight, s.sending);
      BalanceAnswer(s.pending, s.answered, s.accepted, s.sending, id);
    case Enqueue => BalanceEnqueue(s.pending, s.answered, s.accepted, s.sending, s.thread.id);
    case _ =>
  }

  lemma MatchesIn(pending: seq<Id>, inflight: set<Id>, sending: Option<Id>)
    requires Matches(pending, inflight, sending)
    ensures forall id :: id in inflight ==> id in pending
    ensures sending.Some? ==> sending.value in pending
  {
    forall id | id in inflight ensures id in pending {
      assert id in multiset(inflight) + One(sending);
    }
    if sending.Some? {
      assert sending.value in multiset(inflight) + One(sending);
    }
  }

  lemma MatchesResolve(pending: seq<Id>, inflight: set<Id>, id: Id)
    requires Matches(pending, inflight, None)
    ensures Matches(pending + [id], inflight, Some(id))
  {
  }

  lemma MatchesAccept(pending: seq<Id>, inflight: set<Id>, id: Id)
    requires Matches(pending, inflight, Some(id)) && id !in inflight
    ensures Matches(pending, inflight + {id}, None)
  {
    assert multiset(inflight + {id}) == multiset(inflight) + multiset{id};
  }

  lemma MatchesRefuse(pending: seq<Id>, inflight: set<Id>, id: Id)
    requires Matches(pending, inflight, Some(id))
    ensures Matches(Remove(pending, id), inflight, None)
  {
    hide Remove;
    Removed(pending, id);
  }

  lemma MatchesAnswer(pending: seq<Id>, inflight: set<Id>, sending: Option<Id>, id: Id)
    requires Matches(pending, inflight, sending) && id in inflight
    ensures Matches(Remove(pending, id), inflight - {id}, sending)
  {
    hide Remove;
    Removed(pending, id);
    assert multiset(inflight) == multiset(inflight - {id}) + multiset{id};
  }

  lemma HeldKeeps(s: State, a: Action)
    requires Inv(s) && Enabled(s, a)
    ensures Held(Step(s, a))
  {
    hide NoLostWakeUp, NoStrandedResponse, Conserved, InOrder, Matches, Remove, One;
    match a
    case Resolve => MatchesResolve(s.pending, s.inflight, s.counter);
    case Accept => MatchesAccept(s.pending, s.inflight, s.sending.value);
    case Refuse => MatchesRefuse(s.pending, s.inflight, s.sending.value);
    case Answer(id) => MatchesAnswer(s.pending, s.inflight, s.sending, id);
    case _ =>
  }

  lemma WakeUpKeeps(s: State, a: Action)
    requires Inv(s) && Enabled(s, a)
    ensures NoLostWakeUp(Step(s, a))
  {
    hide Conserved, InOrder, Matches, Remove, NoStrandedResponse;
    if a == Refuse || a.Answer? {
      MatchesIn(s.pending, s.inflight, s.sending);
    }
  }

  lemma ResponseKeeps(s: State, a: Action)
    requires Inv(s) && Enabled(s, a)
    ensures NoStrandedResponse(Step(s, a))
  {
    hide Conserved, InOrder, Held, Remove, NoLostWakeUp;
  }

  lemma ShutdownKeeps(s: State, a: Action)
    requires Inv(s) && Enabled(s, a)
    ensures Shutdown(Step(s, a))
  {
    hide Conserved, InOrder, Matches, Remove, NoLostWakeUp, NoStrandedResponse;
    if a == Refuse || a.Answer? {
      MatchesIn(s.pending, s.inflight, s.sending);
    }
  }

  lemma OrderKeeps(s: State, a: Action)
    requires Inv(s) && Enabled(s, a)
    ensures InOrder(Step(s, a))
  {
    hide Conserved, Held, NoLostWakeUp, NoStrandedResponse, Shutdown, Remove;
    if (a == DrainNext || a == FreeNext) && s.responses != [] {
      assert s.delivered + s.responses == (s.delivered + [s.responses[0]]) + s.responses[1..];
    }
  }

  /** Every step keeps the invariant. */
  lemma StepKeeps(s: State, a: Action)
    requires Inv(s) && Enabled(s, a)
    ensures Inv(Step(s, a))
  {
    hide Step, Conserved, InOrder, Held, NoLostWakeUp, NoStrandedResponse, Shutdown, Enabled;
    ConservedKeeps(s, a);
    OrderKeeps(s, a);
    HeldKeeps(s, a);
    WakeUpKeeps(s, a);
    ResponseKeeps(s, a);
    ShutdownKeeps(s, a);
  }

  /** At every step of a run, the asserts of the source hold. */
  lemma AssertsHold(s: State, a: Action)
    requires Inv(s) && Enabled(s, a)
    ensures Asserts(s, a)
  {
    hide Conserved, InOrder, NoStrandedResponse, Matches;
    MatchesIn(s.pending, s.inflight, s.sending);
  }

  // ----- Whole runs

  predicate IsRun(s: State, actions: seq<Action>)
    decreases |actions|
  {
    actions != [] ==> Enabled(s, actions[0]) && IsRun(Step(s, actions[0]), actions[1..])
  }

  function After(s: State, actions: seq<Action>): State
    requires IsRun(s, actions)
    decreases |actions|
  {
    if actions == [] then s else After(Step(s, actions[0]), actions[1..])
  }

  lemma {:induction false} RunKeeps(s: State, actions: seq<Action>)
    requires Inv(s) && IsRun(s, actions)
    ensures Inv(After(s, actions))
    decreases |actions|
  {
    hide Inv, Step, Enabled;
    if actions != [] {
      StepKeeps(s, actions[0]);
      RunKeeps(Step(s, actions[0]), actions[1..]);
    }
  }

  lemma InitialInv()
    ensures Inv(INITIAL)
  {
  }

  ghost predicate Reachable(s: State) {
    exists actions :: IsRun(INITIAL, actions) && After(INITIAL, actions) == s
  }

  lemma ReachableInv(s: State)
    requires Reachable(s)
    ensures Inv(s)
  {
    hide Inv, Step, Enabled;
    var actions :| IsRun(INITIAL, actions) && After(INITIAL, actions) == s;
    InitialInv();
    RunKeeps(INITIAL, actions);
  }

  /** How often a request stands on the pending list, in the hand-off, on the response list or among the delivered. */
  function Places(s: State, id: Id): nat {
    multiset(s.pending)[id] + One(Hand(s.thread))[id] + multiset(s.responses)[id] + multiset(s.delivered)[id]
  }

  /**
   * In every reachable state, each request taken on is in exactly one place, and any other request in
   * none, except that one in the middle of hsk_rs_worker_resolve is on the pending list.
   */
  lemma ExactlyOnePlace(s: State, id: Id)
    requires Reachable(s)
    ensures Places(s, id) == (if id in s.accepted then 1 else 0) + One(s.sending)[id]
    ensures s.sending == Some(id) ==> id !in s.accepted && Places(s, id) == multiset(s.pending)[id] == 1
  {
    hide Reachable, NoLostWakeUp, NoStrandedResponse, Shutdown;
    ReachableInv(s);
    assert (multiset(s.pending) + One(Hand(s.thread)) + multiset(s.answered))[id]
        == (multiset(s.accepted) + One(s.sending))[id];
    assert multiset(s.answered) == multiset(s.delivered) + multiset(s.responses);
    if s.sending == Some(id) {
      MatchesIn(s.pending, s.inflight, s.sending);
    }
  }

  lemma AllDelivered(s: State)
    requires Conserved(s) && InOrder(s) && s.pending == [] && s.responses == [] && Hand(s.thread).None? && s.sending.None?
    ensures multiset(s.delivered) == multiset(s.accepted)
  {
    assert s.answered == s.delivered;
    assert multiset(s.pending) + One(Hand(s.thread)) + multiset(s.answered) == multiset(s.answered);
    assert multiset(s.accepted) + One(s.sending) == multiset(s.accepted);
  }

  /** Once the worker is freed, the callback of each request taken on has run exactly once, and no other. */
  lemma FreedDelivers(s: State)
    requires Reachable(s) && s.loop == Freed
    ensures multiset(s.delivered) == multiset(s.accepted)
  {
    hide Reachable, NoLostWakeUp, NoStrandedResponse, Held, Conserved, InOrder;
    ReachableInv(s);
    AllDelivered(s);
  }

  /** The source's asserts hold at every step of every run. */
  lemma RunAsserts(s: State, a: Action)
    requires Reachable(s) && Enabled(s, a)
    ensures Asserts(s, a)
  {
    hide *;
    ReachableInv(s);
    AssertsHold(s, a);
  }

  /** Steps that happen by themselves, without the owner asking and without spurious wake-ups. */
  predicate Spontaneous(a: Action) {
    !(a in {Open, Close, Resolve, Free, Spurious})
  }

  lemma RestingThread(s: State)
    requires Inv(s) && forall a :: Spontaneous(a) ==> !Enabled(s, a)
    ensures s.thread == Stopped || s.thread == Sleeping(false)
    ensures s.sending.None? && (s.loop == Idle || s.loop == Freed)
  {
    hide Conserved, InOrder, Held, NoLostWakeUp, NoStrandedResponse;
    assert !Enabled(s, Accept) && !Enabled(s, DrainNext) && !Enabled(s, CallbackReturns);
    assert !Enabled(s, StopReturns) && !Enabled(s, FreeNext) && !Enabled(s, QuitFires);
    assert !Enabled(s, Look) && !Enabled(s, Enqueue) && !Enabled(s, Signal) && !Enabled(s, PollReturns);
    assert !Enabled(s, SendQuit);
  }

  /** The system cannot get stuck: it comes to rest only with every callback run and no shutdown under way. */
  lemma RestsWhenDone(s: State)
    requires Reachable(s) && forall a :: Spontaneous(a) ==> !Enabled(s, a)
    ensures multiset(s.delivered) == multiset(s.accepted) && s.pending == [] && s.responses == []
    ensures !s.exit && (s.thread == Stopped || s.thread == Sleeping(false)) && (s.loop == Idle || s.loop == Freed)
  {
    hide Reachable, Conserved, Held, InOrder;
    ReachableInv(s);
    RestingThread(s);
    assert !Enabled(s, AsyncFires);
    AllDelivered(s);
  }

  // ----- Progress

  /** Nothing is on its way any more, and no shutdown is under way. */
  predicate Settled(s: State) {
    s.sending.None? && s.pending == [] && s.responses == [] && Hand(s.thread).None? && !s.exit
  }

  function LoopRank(l: Loop): nat {
    match l
    case Calling => 2
    case Draining => 1
    case Stopping => 1
    case Freeing => 1
    case _ => 0
  }

  /** How far the thread is from its end; with requests left to answer it polls, else it looks for the exit flag. */
  function ThreadRank(t: Thread, busy: bool): nat {
    match t
    case Checking => if busy then 6 else 4
    case Sleeping(_) => if busy then 6 else 4
    case Polling => 5
    case HandOff(_) => 13
    case Signalling => 8
    case Leaving => 3
    case Exited => 2
    case Stopped => 0
  }

  function Rank(s: State): nat {
    30 * |s.inflight| + 4 * |s.responses| + (if s.async then 2 else 0) + LoopRank(s.loop)
    + ThreadRank(s.thread, s.inflight != {}) + (if s.sending.Some? then 1 else 0)
  }

  /** The step happens by itself and brings the system closer to rest; a shutdown ends with nothing left to do. */
  predicate Closer(s: State, a: Action) {
    && Spontaneous(a) && Enabled(s, a) && Rank(Step(s, a)) < Rank(s) && Step(s, a).accepted == s.accepted
    && (if a == QuitFires then s.responses == [] && s.pending == [] else s.exit ==> Step(s, a).exit)
  }

  lemma Progress(s: State) returns (a: Action)
    requires Inv(s) && !Settled(s)
    ensures Closer(s, a)
  {
    hide Conserved, InOrder, Matches, Closer, NoLostWakeUp, NoStrandedResponse, Held;
    if s.sending.Some? {
      a := Refuse;
      Refuses(s);
    } else if s.loop in {Calling, Draining, Stopping, Freeing} {
      a := match s.loop case Calling => CallbackReturns case Draining => DrainNext case Stopping => StopReturns case _ => FreeNext;
      Turns(s, a);
    } else if s.responses != [] && s.async {
      a := AsyncFires;
      Turns(s, a);
    } else {
      PendingIsHeld(s);
      a := ThreadProgress(s);
    }
  }

  lemma Refuses(s: State)
    requires s.sending.Some?
    ensures Closer(s, Refuse)
  {
    hide Remove;
  }

  lemma Turns(s: State, a: Action)
    requires s.sending.None?
    requires match s.loop
      case Calling => a == CallbackReturns
      case Draining => a == DrainNext
      case Stopping => a == StopReturns
      case Freeing => a == FreeNext
      case Idle => a == AsyncFires && s.async
      case Freed => false
    ensures Closer(s, a)
  {
  }

  lemma ThreadProgress(s: State) returns (a: Action)
    requires NoLostWakeUp(s) && NoStrandedResponse(s) && Shutdown(s) && !Settled(s)
    requires s.sending.None? && (s.loop == Idle || s.loop == Freed) && (s.responses == [] || !s.async)
    requires s.pending == [] <==> s.inflight == {}
    ensures Closer(s, a)
  {
    hide Closer;
    if s.thread.HandOff? || s.thread == Signalling {
      a := if s.thread.HandOff? then Enqueue else Signal;
      HandsOn(s, a);
    } else if s.thread == Checking || s.thread.Sleeping? {
      a := Look;
      Looks(s);
    } else if s.thread == Polling && s.inflight != {} {
      var id :| id in s.inflight;
      a := Answer(id);
      Answers(s, id);
    } else {
      a := if s.thread == Polling then PollReturns else if s.thread == Leaving then SendQuit else QuitFires;
      Leaves(s, a);
    }
  }

  lemma HandsOn(s: State, a: Action)
    requires (a == Enqueue && s.thread.HandOff?) || (a == Signal && s.thread == Signalling)
    ensures Closer(s, a)
  {
  }

  lemma Looks(s: State)
    requires s.thread == Checking || s.thread == Sleeping(true)
    requires (s.pending == [] <==> s.inflight == {}) && (s.pending != [] || s.exit)
    ensures Closer(s, Look)
  {
  }

  lemma Answers(s: State, id: Id)
    requires s.thread == Polling && id in s.inflight
    ensures Closer(s, Answer(id))
  {
    hide Remove;
    assert |s.inflight - {id}| == |s.inflight| - 1;
  }

  lemma Leaves(s: State, a: Action)
    requires s.sending.None? && s.loop == Idle && s.responses == [] && Shutdown(s)
    requires (a == PollReturns && s.thread == Polling && s.inflight == {}) || (a == SendQuit && s.thread == Leaving)
          || (a == QuitFires && s.thread == Exited)
    ensures Closer(s, a)
  {
  }

  lemma PendingIsHeld(s: State)
    requires Held(s) && s.sending.None?
    ensures s.pending == [] <==> s.inflight == {}
  {
    if s.pending != [] {
      assert s.pending[0] in multiset(s.pending);
    }
    if s.inflight != {} {
      var id :| id in s.inflight;
      assert id in multiset(s.pending);
    }
  }

  /**
   * From every reachable state some run of spontaneous steps delivers every request taken on, and ends a
   * shutdown that is under way with the thread gone.
   */
  lemma ComesToRest(s: State) returns (actions: seq<Action>)
    requires Reachable(s)
    ensures IsRun(s, actions) && forall i :: 0 <= i < |actions| ==> Spontaneous(actions[i])
    ensures var t := After(s, actions);
      && multiset(t.delivered) == multiset(t.accepted) && t.accepted == s.accepted && Settled(t)
      && (s.exit ==> t.thread == Stopped)
  {
    hide Reachable, Inv;
    ReachableInv(s);
    actions := RestsFrom(s);
  }

  lemma RestsFrom(s: State) returns (actions: seq<Action>)
    requires Inv(s)
    ensures IsRun(s, actions) && forall i :: 0 <= i < |actions| ==> Spontaneous(actions[i])
    ensures var t := After(s, actions);
      && multiset(t.delivered) == multiset(t.accepted) && t.accepted == s.accepted && Settled(t)
      && (s.exit ==> t.thread == Stopped)
    decreases Rank(s)
  {
    hide Rank, Step, Enabled, Held, NoLostWakeUp, NoStrandedResponse, Shutdown, Conserved, InOrder, Spontaneous;
    if Settled(s) {
      actions := [];
      AllDelivered(s);
    } else {
      var a := Progress(s);
      StepKeeps(s, a);
      var more := [];
      if a == QuitFires {
        QuitSettles(s);
        AllDelivered(Step(s, a));
      } else {
        more := RestsFrom(Step(s, a));
      }
      actions := [a] + more;
      assert actions[1..] == more;
    }
  }

  lemma QuitSettles(s: State)
    requires Inv(s) && Enabled(s, QuitFires) && s.responses == [] && s.pending == []
    ensures Settled(Step(s, QuitFires)) && Step(s, QuitFires).thread == Stopped
  {
  }
}
