/** Submitters, the closer and the writer around the request channel. */
module CloseProtocol {

  const QUEUE_CAPACITY := 1024

  /** What travels through the channel: writes and syncs of callers, and the one close. */
  datatype Request = Write(id: nat) | Sync(id: nat) | CloseRequest

  /** How far `Close` has come. */
  datatype Closer = NotClosing | Closing | Stopped | Queued | Returned

  datatype State = State(
    closed: bool,               // set under the exclusive lock
    entering: set<Request>,     // submitters that saw `closed` unset and still hold the shared lock
    queue: seq<Request>,        // the channel
    hand: seq<Request>,         // taken by the writer, not answered yet
    written: nat,               // how many of these are in the log and not applied yet
    sent: seq<Request>,         // everything ever queued, in order
    answered: seq<Request>,     // everything answered, in order
    logged: seq<Request>,       // the records in the log
    applied: seq<Request>,      // the records applied to the shards
    latched: bool,
    closer: Closer,
    done: bool)                 // the writer has returned

  datatype Action =
    | Enter(request: Request)
    | Send(request: Request)
    | BeginClose
    | StopTickers
    | SendClose
    | Take
    | WriteRound(count: nat)
    | FailRound(left: nat)
    | ApplyAndAnswer
    | Refuse
    | AnswerControl
    | ReturnClose

  predicate Control(r: Request) { !r.Write? }

  predicate AllWrites(r: seq<Request>) { forall i :: 0 <= i < |r| ==> r[i].Write? }

  /** The writes among these requests, in order. */
  function Writes(r: seq<Request>): seq<Request> {
    if r == [] then []
    else
      var n := |r| - 1;
      Writes(r[..n]) + if r[n].Write? then [r[n]] else []
  }

  predicate Init(s: State) {
    s == State(false, {}, [], [], 0, [], [], [], [], false, NotClosing, false)
  }

  predicate Enabled(s: State, a: Action) {
    match a
    // submit: take the shared lock and look at `closed`
    case Enter(request) => !s.closed && !request.CloseRequest? && request !in s.entering && request !in s.sent
    // submit: the channel send, still under the shared lock
    case Send(request) => request in s.entering && |s.queue| < QUEUE_CAPACITY
    // Close: the exclusive lock waits for every shared holder
    case BeginClose => !s.closed && s.entering == {} && s.closer.NotClosing?
    case StopTickers => s.closer.Closing?
    case SendClose => s.closer.Stopped? && |s.queue| < QUEUE_CAPACITY
    // the writer receives; after a control request it first deals with what it has
    case Take => !s.done && s.queue != [] && (s.hand == [] || !Control(s.hand[|s.hand| - 1]))
    // writeBatch: one successful write of the first `count` requests
    case WriteRound(count) => !s.done && !s.latched && s.written == 0 && 0 < count <= |s.hand| && AllWrites(s.hand[..count])
    // writeBatch: a write that fails with the first `left` records whole in the file, or any other latch
    case FailRound(left) => !s.done && !s.latched && s.written == 0 && left <= |s.hand| && AllWrites(s.hand[..left])
    case ApplyAndAnswer => !s.done && s.written > 0 && s.hand != []
    // respondAll, or a write handed to a latched store
    case Refuse => !s.done && s.latched && s.hand != [] && s.hand[0].Write?
    case AnswerControl => !s.done && s.hand != [] && Control(s.hand[0])
    // Close returns once its request is answered and the writer is gone
    case ReturnClose => s.closer.Queued? && s.done
  }

  /** The oldest request in hand is answered. */
  function Answered(s: State): State
    requires s.hand != []
  {
    s.(hand := s.hand[1..], answered := s.answered + [s.hand[0]], done := s.hand[0].CloseRequest?)
  }

  function Effect(s: State, a: Action): State
    requires Enabled(s, a)
  {
    match a
    case Enter(request) => s.(entering := s.entering + {request})
    case Send(request) => s.(entering := s.entering - {request}, queue := s.queue + [request], sent := s.sent + [request])
    case BeginClose => s.(closed := true, closer := Closing)
    case StopTickers => s.(closer := Stopped)
    case SendClose => s.(queue := s.queue + [CloseRequest], sent := s.sent + [CloseRequest], closer := Queued)
    case Take => s.(queue := s.queue[1..], hand := s.hand + [s.queue[0]])
    case WriteRound(count) => s.(logged := s.logged + s.hand[..count], written := count)
    case FailRound(left) => s.(logged := s.logged + s.hand[..left], latched := true)
    case ApplyAndAnswer => Answered(s).(applied := s.applied + [s.hand[0]], written := s.written - 1)
    case Refuse => Answered(s)
    case AnswerControl => Answered(s)
    case ReturnClose => s.(closer := Returned)
  }

  // ----- the queue -----

  predicate NoRepeats(r: seq<Request>) { forall i, j :: 0 <= i < j < |r| ==> r[i] != r[j] }

  /** Requests pass from the queue through the writer's hand without overtaking. */
  predicate InOrder(s: State) { s.sent == s.answered + s.hand + s.queue }

  predicate CloseSent(s: State) { s.closer.Queued? || s.closer.Returned? }

  /** Nothing is queued twice; the close request, once queued, is the last one; before
      that there is none, and submitters still entering will not queue it. */
  ghost predicate CloseLast(s: State) {
    && NoRepeats(s.sent)
    && (forall r :: r in s.entering ==> !r.CloseRequest? && r !in s.sent)
    && (CloseSent(s) ==> |s.sent| > 0 && s.sent[|s.sent| - 1].CloseRequest?)
    && (forall i :: 0 <= i < |s.sent| && s.sent[i].CloseRequest? ==> i == |s.sent| - 1 && CloseSent(s))
  }

  predicate Phases(s: State) {
    && (!s.closer.NotClosing? ==> s.closed && s.entering == {})
    && (s.closer.NotClosing? ==> !s.closed)
    && (s.done <==> |s.answered| > 0 && s.answered[|s.answered| - 1].CloseRequest?)
    && (s.closer.Returned? ==> s.done)
  }

  // ----- the records -----

  /** What is in the log is what has been applied and what the writer is about to apply;
      after a failure, possibly some more. Writes are answered in the order they were
      applied, and until the store latches no write is answered that was not applied. */
  predicate Records(s: State) {
    && s.written <= |s.hand| && AllWrites(s.hand[..s.written])
    && (s.latched ==> s.written == 0)
    && s.applied <= s.logged && (!s.latched ==> s.logged == s.applied + s.hand[..s.written])
    && s.applied <= Writes(s.answered) && (!s.latched ==> s.applied == Writes(s.answered))
  }

  ghost predicate Inv(s: State) { InOrder(s) && CloseLast(s) && Phases(s) && Records(s) }

  lemma SentSplit(s: State, i: nat)
    requires InOrder(s) && i < |s.sent|
    ensures i < |s.answered| ==> s.sent[i] == s.answered[i]
    ensures |s.answered| <= i < |s.answered| + |s.hand| ==> s.sent[i] == s.hand[i - |s.answered|]
    ensures |s.answered| + |s.hand| <= i ==> s.sent[i] == s.queue[i - |s.answered| - |s.hand|]
  {
  }

  /** Answering moves the oldest request in hand. */
  lemma AnsweredOrder(s: State)
    requires InOrder(s) && s.hand != []
    ensures InOrder(Answered(s))
    ensures Writes(Answered(s).answered) == Writes(s.answered) + if s.hand[0].Write? then [s.hand[0]] else []
  {
    assert s.hand == [s.hand[0]] + s.hand[1..];
    assert (s.answered + [s.hand[0]])[..|s.answered|] == s.answered;
  }

  lemma StepOrder(s: State, a: Action)
    requires InOrder(s) && Enabled(s, a)
    ensures InOrder(Effect(s, a))
  {
    hide Answered, Writes, AllWrites;
    match a {
      case Take => assert s.queue == [s.queue[0]] + s.queue[1..];
      case ApplyAndAnswer => AnsweredOrder(s);
      case Refuse => AnsweredOrder(s);
      case AnswerControl => AnsweredOrder(s);
      case _ =>
    }
  }

  lemma OneMoreSent(sent: seq<Request>, r: Request)
    requires NoRepeats(sent) && r !in sent
    ensures NoRepeats(sent + [r]) && forall x :: x in sent + [r] <==> x in sent || x == r
  {
  }

  lemma StepCloseLast(s: State, a: Action)
    requires CloseLast(s) && Phases(s) && Enabled(s, a)
    ensures CloseLast(Effect(s, a))
  {
    hide Writes, AllWrites, Control;
    if a.Send? || a.SendClose? {
      var s' := Effect(s, a);
      OneMoreSent(s.sent, s'.sent[|s.sent|]);
    }
  }

  lemma StepPhases(s: State, a: Action)
    requires InOrder(s) && CloseLast(s) && Phases(s) && Enabled(s, a)
    ensures Phases(Effect(s, a))
  {
    hide Writes, AllWrites, NoRepeats;
    if a.ApplyAndAnswer? || a.Refuse? || a.AnswerControl? {
      SentSplit(s, |s.answered|);
    }
  }

  lemma ApplyRecords(s: State)
    requires InOrder(s) && Records(s) && Enabled(s, ApplyAndAnswer)
    ensures Records(Effect(s, ApplyAndAnswer))
  {
    hide Writes;
    AnsweredOrder(s);
    var rest := s.hand[1..];
    assert s.hand[..s.written] == [s.hand[0]] + rest[..s.written - 1];
    assert forall i :: 0 <= i < s.written - 1 ==> rest[i] == s.hand[..s.written][i + 1];
  }

  lemma AnswerRecords(s: State, a: Action)
    requires InOrder(s) && Records(s) && Enabled(s, a) && (a.Refuse? || a.AnswerControl?)
    ensures Records(Effect(s, a))
  {
    hide Writes;
    AnsweredOrder(s);
    assert s.written == 0 && s.hand[..0] == [] == s.hand[1..][..0];
    assert Writes(s.answered) + [] == Writes(s.answered);
  }

  lemma StepRecords(s: State, a: Action)
    requires InOrder(s) && Records(s) && Enabled(s, a)
    ensures Records(Effect(s, a))
  {
    hide Writes, InOrder;
    match a {
      case Take => assert (s.hand + [s.queue[0]])[..s.written] == s.hand[..s.written];
      case WriteRound(count) => assert s.logged == s.applied by { assert s.hand[..0] == []; }
      case FailRound(left) => assert s.logged == s.applied by { assert s.hand[..0] == []; }
      case ApplyAndAnswer => ApplyRecords(s);
      case Refuse => AnswerRecords(s, a);
      case AnswerControl => AnswerRecords(s, a);
      case _ =>
    }
  }

  lemma StepInv(s: State, a: Action)
    requires Inv(s) && Enabled(s, a)
    ensures Inv(Effect(s, a))
  {
    hide Enabled, Effect, InOrder, CloseLast, Phases, Records;
    StepOrder(s, a);
    StepCloseLast(s, a);
    StepPhases(s, a);
    StepRecords(s, a);
  }

  ghost predicate IsRun(states: seq<State>, actions: seq<Action>) {
    && |states| == |actions| + 1 && Init(states[0])
    && forall i :: 0 <= i < |actions| ==> Follows(states[i], actions[i], states[i + 1])
  }

  predicate Follows(s: State, a: Action, s': State) { Enabled(s, a) && s' == Effect(s, a) }

  lemma {:induction false} RunInv(states: seq<State>, actions: seq<Action>, i: nat)
    requires IsRun(states, actions) && i < |states|
    ensures Inv(states[i])
  {
    hide Inv, Enabled, Effect;
    if i == 0 {
      InitInv(states[0]);
    } else {
      RunInv(states, actions, i - 1);
      assert Follows(states[i - 1], actions[i - 1], states[i]);
      StepInv(states[i - 1], actions[i - 1]);
    }
  }

  lemma InitInv(s: State)
    requires Init(s)
    ensures Inv(s)
  {
  }

  /** Once the writer is done everything ever queued has been answered. */
  lemma DoneIsDrained(s: State)
    requires Inv(s) && s.done
    ensures s.answered == s.sent && s.hand == [] && s.queue == []
  {
    hide Records;
    SentSplit(s, |s.answered| - 1);
    assert |s.answered| == |s.sent|;
    assert s.answered + s.hand + s.queue == s.answered;
  }

  /** In every reachable state: what was queued is what was answered, what the writer
      holds and what waits, in that order and without repetition; the close request
      is the last thing ever queued; and once `Close` has returned, every request
      that entered the queue has been answered, exactly once, first come first
      served, with nothing left behind. If the store did not latch, every write among
      them is in the log and applied, in that order, and nothing else is. */
  lemma CloseDrainsEverything(states: seq<State>, actions: seq<Action>, i: nat)
    requires IsRun(states, actions) && i < |states|
    ensures
      var s := states[i];
      && s.sent == s.answered + s.hand + s.queue && NoRepeats(s.sent)
      && (forall j :: 0 <= j < |s.sent| && s.sent[j].CloseRequest? ==> j == |s.sent| - 1)
      && s.applied <= s.logged && s.applied <= Writes(s.answered)
      && (s.closer.Returned? ==>
            && s.answered == s.sent && s.hand == [] && s.queue == [] && s.entering == {}
            && (!s.latched ==> s.applied == s.logged == Writes(s.sent)))
  {
    hide Writes;
    RunInv(states, actions, i);
    var s := states[i];
    if s.done { DoneIsDrained(s); }
  }

  /** After the writer is done nothing is queued, answered, logged or applied any more. */
  lemma {:induction false} NothingAfterClose(states: seq<State>, actions: seq<Action>, i: nat, j: nat)
    requires IsRun(states, actions) && i <= j < |states| && states[i].done
    ensures states[j].done
    ensures states[j].sent == states[i].sent && states[j].answered == states[i].answered
    ensures states[j].logged == states[i].logged && states[j].applied == states[i].applied
    decreases j
  {
    hide Inv, Effect;
    if i < j {
      NothingAfterClose(states, actions, i, j - 1);
      var s, a := states[j - 1], actions[j - 1];
      assert Follows(s, a, states[j]);
      RunInv(states, actions, j - 1);
      DoneStays(s, a);
    }
  }

  lemma DoneStays(s: State, a: Action)
    requires Inv(s) && s.done && Enabled(s, a)
    ensures
      var s' := Effect(s, a);
      s'.done && s'.sent == s.sent && s'.answered == s.answered && s'.logged == s.logged && s'.applied == s.applied
  {
    hide Records;
    DoneIsDrained(s);
    assert CloseSent(s) by { assert s.sent[|s.sent| - 1].CloseRequest?; }
  }

  // ----- requests get their answers, and closing comes to an end -----

  function PhaseLeft(c: Closer): nat {
    match c
    case NotClosing => 7
    case Closing => 6
    case Stopped => 5
    case Queued => 1
    case Returned => 0
  }

  /** How much is left to do: four steps for a submitter that has entered, three for a
      request that waits, two for one in hand or one once it is written, the one latch, and
      the rest of `Close`. */
  function Left(s: State): nat
    requires s.written <= |s.hand|
  {
    4 * |s.entering| + 3 * |s.queue| + (2 * |s.hand| - s.written) + (if s.latched then 0 else 1) + PhaseLeft(s.closer)
  }

  lemma FrontIsWrite(s: State)
    requires Records(s) && s.written > 0
    ensures s.hand != [] && s.hand[0].Write?
  {
    assert s.hand[..s.written][0].Write?;
  }

  /** Every step but the entry of a new submitter leaves less to do. */
  lemma StepLeavesLess(s: State, a: Action)
    requires Inv(s) && Enabled(s, a) && !a.Enter?
    ensures
      var s' := Effect(s, a);
      s'.written <= |s'.hand| && Left(s') < Left(s)
  {
    hide InOrder, CloseLast, Writes;
    if s.written > 0 { FrontIsWrite(s); }
  }

  /** Nothing waits for an answer, and `Close` has not begun or has returned. */
  predicate Idle(s: State) {
    s.entering == {} && s.queue == [] && s.hand == [] && (s.closer.NotClosing? || s.closer.Returned?)
  }

  /** The writer can always go on while there is something in hand or in the channel. */
  lemma WriterMoves(s: State) returns (a: Action)
    requires Records(s) && !s.done && (s.hand != [] || s.queue != [])
    ensures Enabled(s, a) && !a.Enter? && !a.BeginClose?
  {
    hide Writes;
    if s.hand == [] { a := Take; }
    else if s.written > 0 { a := ApplyAndAnswer; }
    else if Control(s.hand[0]) { a := AnswerControl; }
    else if s.latched { a := Refuse; }
    else { a := WriteRound(1); }
  }

  /** Nothing waits for ever: while anything is left to do some step does a part of it,
      however full the channel is. */
  lemma NeverStuck(s: State) returns (a: Action)
    requires Inv(s) && !Idle(s)
    ensures Enabled(s, a) && !a.Enter? && !a.BeginClose?
  {
    hide Records, NoRepeats;
    if s.closer.Closing? { return StopTickers; }
    if s.closer.Queued? && s.done { return ReturnClose; }
    if s.closer.Stopped? && |s.queue| < QUEUE_CAPACITY { return SendClose; }
    if s.entering != {} && |s.queue| < QUEUE_CAPACITY {
      var r :| r in s.entering;
      return Send(r);
    }
    if s.done { DoneIsDrained(s); }
    assert s.hand != [] || s.queue != [] by { assert s.hand + s.queue == [] ==> s.sent == s.answered; }
    a := WriterMoves(s);
  }

  lemma {:induction false} LeavesLess(states: seq<State>, actions: seq<Action>, i: nat, j: nat)
    requires IsRun(states, actions) && i <= j < |states| && forall k :: i <= k < j ==> !actions[k].Enter?
    ensures Records(states[i]) && Records(states[j]) && j - i + Left(states[j]) <= Left(states[i])
    decreases j
  {
    hide Enabled, Effect, Left, Records, InOrder, CloseLast, Phases;
    RunInv(states, actions, i);
    RunInv(states, actions, j);
    if i < j {
      LeavesLess(states, actions, i, j - 1);
      var s, a := states[j - 1], actions[j - 1];
      assert Follows(s, a, states[j]);
      RunInv(states, actions, j - 1);
      StepLeavesLess(s, a);
    }
  }

  /** Every submitter gets its answer: as long as no new one enters, no run goes on for more
      steps than there were things left to do, and where it can go no further, short of
      closing, everything ever queued has been answered. */
  lemma EveryoneIsAnswered(states: seq<State>, actions: seq<Action>, i: nat, j: nat)
    requires IsRun(states, actions) && i <= j < |states| && forall k :: i <= k < j ==> !actions[k].Enter?
    ensures Records(states[i]) && Records(states[j]) && j - i + Left(states[j]) <= Left(states[i])
    ensures (forall a :: Enabled(states[j], a) ==> a.Enter? || a.BeginClose?)
            ==> states[j].entering == {} && states[j].answered == states[j].sent
  {
    hide Enabled, Left, Records, CloseLast, Phases;
    LeavesLess(states, actions, i, j);
    RunInv(states, actions, j);
    if !Idle(states[j]) { var a := NeverStuck(states[j]); }
    assert Idle(states[j]) ==> states[j].sent == states[j].answered;
  }

  lemma {:induction false} StillClosing(states: seq<State>, actions: seq<Action>, i: nat, j: nat)
    requires IsRun(states, actions) && i <= j < |states| && !states[i].closer.NotClosing?
    ensures !states[j].closer.NotClosing? && forall k :: i <= k < j ==> !actions[k].Enter?
    decreases j
  {
    hide InOrder, CloseLast, Records;
    if i < j {
      StillClosing(states, actions, i, j - 1);
      RunInv(states, actions, j - 1);
      assert Follows(states[j - 1], actions[j - 1], states[j]);
    }
  }

  /** `Close` returns: from where it begins, no run goes on for more steps than there were
      things left to do, and one that can go no further has seen it return. */
  lemma CloseReturns(states: seq<State>, actions: seq<Action>, i: nat, j: nat)
    requires IsRun(states, actions) && i <= j < |states| && !states[i].closer.NotClosing?
    ensures Records(states[i]) && Records(states[j]) && j - i + Left(states[j]) <= Left(states[i])
    ensures (forall a :: !Enabled(states[j], a)) ==> states[j].closer.Returned?
  {
    hide Enabled, Left, Records, InOrder, CloseLast, Phases;
    StillClosing(states, actions, i, j);
    LeavesLess(states, actions, i, j);
    RunInv(states, actions, j);
    if !Idle(states[j]) { var a := NeverStuck(states[j]); }
  }
}
