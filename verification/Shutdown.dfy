/** The shutdown protocol of the server: any number of `Serve` and `Close` calls that
    interleave step by step. Accepted connections are not part of it. */
module Shutdown {
  import opened Wrappers

  /** A call of `Serve`. Deferred calls run last first: the listener is forgotten, then
      closed. */
  datatype ServePc =
    | SBegin      // about to lock
    | SLocked     // has the mutex
    | SCleared    // ... and has seen that there is no shutdown
    | SInserted   // ... and is in the listener set
    | SCounted    // ... and has added itself to the wait group
    | SDenied     // has the mutex and has seen a shutdown
    | SAccepting  // in Accept
    | SFailed     // Accept has returned an error; about to lock
    | SRelocked   // has the mutex again
    | SDeleted    // ... and has left the listener set
    | SUncounted  // ... and the wait group
    | SClosing    // about to close the listener
    | SRunning    // inside the close of the underlying listener
    | SDone

  /** A call of `Close`. */
  datatype ClosePc =
    | CBegin
    | CFlagged                            // the shutdown flag is set; about to lock
    | CSweeping(todo: set<nat>)           // has the mutex, closes listeners
    | CRunning(todo: set<nat>, ln: nat)   // inside the close of one of them
    | CWaiting                            // waits for the group
    | CPassed                             // about to lock again
    | CRelocked                           // has the mutex, closes connections
    | CDone

  datatype Thread = Server(id: nat) | Closer(id: nat)

  /** `sync.OnceValue` around the close of a listener. */
  datatype Once = Fresh | Running | Finished

  /** Serve call `t` has listener `t`. The last three fields only record what happened. */
  datatype State = State(
    serve: seq<ServePc>, close: seq<ClosePc>,
    owner: Option<Thread>, inShutdown: bool, listeners: set<nat>, group: int,
    once: seq<Once>, closes: seq<nat>,
    locked: bool,   // some Close has had the mutex
    swept: bool,    // some Close has closed all listeners
    passed: bool)   // some Close has been let through by the wait group

  function Init(servers: nat, closers: nat): (s: State)
    ensures Inv(s)
  {
    State(seq(servers, _ => SBegin), seq(closers, _ => CBegin), None, false, {}, 0,
          seq(servers, _ => Fresh), seq(servers, _ => 0), false, false, false)
  }

  /** The next step of a thread; only `Accept` has a choice of outcomes. */
  datatype Step =
    | Serve(t: nat, failed: bool)
    | Close(c: nat, pick: nat)

  /** One entry per Serve call everywhere. */
  predicate Shaped(s: State) {
    && |s.once| == |s.closes| == |s.serve|
    && (forall t :: t in s.listeners ==> t < |s.serve|)
  }

  predicate ServeEnabled(s: State, t: nat)
    requires Shaped(s)
  {
    t < |s.serve| &&
    match s.serve[t]
    case SBegin => s.owner.None?
    case SFailed => s.owner.None?
    case SClosing => s.once[t] != Running
    case SDone => false
    case _ => true
  }

  function ServeStep(s: State, t: nat, failed: bool): State
    requires Shaped(s) && ServeEnabled(s, t)
  {
    match s.serve[t]
    case SBegin => s.(serve := s.serve[t := SLocked], owner := Some(Server(t)))
    case SLocked => s.(serve := s.serve[t := if s.inShutdown then SDenied else SCleared])
    case SCleared => s.(serve := s.serve[t := SInserted], listeners := s.listeners + {t})
    case SInserted => s.(serve := s.serve[t := SCounted], group := s.group + 1)
    case SCounted => s.(serve := s.serve[t := SAccepting], owner := None)
    case SDenied => s.(serve := s.serve[t := SClosing], owner := None)
    case SAccepting => if failed then s.(serve := s.serve[t := SFailed]) else s
    case SFailed => s.(serve := s.serve[t := SRelocked], owner := Some(Server(t)))
    case SRelocked => s.(serve := s.serve[t := SDeleted], listeners := s.listeners - {t})
    case SDeleted => s.(serve := s.serve[t := SUncounted], group := s.group - 1)
    case SUncounted => s.(serve := s.serve[t := SClosing], owner := None)
    case SClosing =>
      if s.once[t] == Fresh
      then s.(serve := s.serve[t := SRunning], once := s.once[t := Running], closes := s.closes[t := s.closes[t] + 1])
      else s.(serve := s.serve[t := SDone])
    case SRunning => s.(serve := s.serve[t := SDone], once := s.once[t := Finished])
    case SDone => s
  }

  predicate CloseEnabled(s: State, c: nat, pick: nat)
    requires Shaped(s)
  {
    c < |s.close| &&
    match s.close[c]
    case CFlagged => s.owner.None?
    case CSweeping(todo) => todo != {} ==> pick in todo && pick < |s.once| && s.once[pick] != Running
    case CRunning(_, ln) => ln < |s.once|
    case CWaiting => s.group == 0
    case CPassed => s.owner.None?
    case CDone => false
    case _ => true
  }

  /** `pick` is the next listener of the sweep; maps are gone through in any order. */
  function CloseStep(s: State, c: nat, pick: nat): State
    requires Shaped(s) && CloseEnabled(s, c, pick)
  {
    match s.close[c]
    case CBegin => s.(close := s.close[c := CFlagged], inShutdown := true)
    case CFlagged => s.(close := s.close[c := CSweeping(s.listeners)], owner := Some(Closer(c)), locked := true)
    case CSweeping(todo) =>
      if todo == {} then s.(close := s.close[c := CWaiting], owner := None, swept := true)
      else if s.once[pick] == Fresh
      then s.(close := s.close[c := CRunning(todo - {pick}, pick)], once := s.once[pick := Running], closes := s.closes[pick := s.closes[pick] + 1])
      else s.(close := s.close[c := CSweeping(todo - {pick})])
    case CRunning(todo, ln) => s.(close := s.close[c := CSweeping(todo)], once := s.once[ln := Finished])
    case CWaiting => s.(close := s.close[c := CPassed], passed := true)
    case CPassed => s.(close := s.close[c := CRelocked], owner := Some(Closer(c)))
    case CRelocked => s.(close := s.close[c := CDone], owner := None)
    case CDone => s
  }

  predicate Enabled(s: State, step: Step)
    requires Shaped(s)
  {
    match step
    case Serve(t, _) => ServeEnabled(s, t)
    case Close(c, pick) => CloseEnabled(s, c, pick)
  }

  function Apply(s: State, step: Step): State
    requires Shaped(s) && Enabled(s, step)
  {
    match step
    case Serve(t, failed) => ServeStep(s, t, failed)
    case Close(c, pick) => CloseStep(s, c, pick)
  }

  // ----- the invariant

  predicate Locks(pc: ServePc) {
    pc in {SLocked, SCleared, SInserted, SCounted, SDenied, SRelocked, SDeleted, SUncounted}
  }

  predicate CloserLocks(pc: ClosePc) {
    pc.CSweeping? || pc.CRunning? || pc.CRelocked?
  }

  /** The thread's listener is in the set. */
  predicate Tracked(pc: ServePc) {
    pc in {SInserted, SCounted, SAccepting, SFailed, SRelocked}
  }

  function PcDrift(pc: ServePc): int {
    match pc
    case SInserted => -1
    case SDeleted => 1
    case _ => 0
  }

  /** How far the group is ahead of the set: only within a critical section. */
  function Drift(s: State): int {
    match s.owner
    case Some(Server(t)) => if t < |s.serve| then PcDrift(s.serve[t]) else 0
    case _ => 0
  }

  /** The listener that a sweeping Close is inside the close of. */
  function Sweeping(s: State): Option<nat> {
    if s.owner.Some? && s.owner.value.Closer? && s.owner.value.id < |s.close| && s.close[s.owner.value.id].CRunning?
    then Some(s.close[s.owner.value.id].ln) else None
  }

  /** What holds of every Serve call: it has the mutex exactly where it should, its
      listener is in the set exactly while it may accept, and its listener has been
      closed at most once, by one thread. */
  ghost predicate ServerValid(s: State, t: nat)
    requires Shaped(s) && t < |s.serve|
  {
    var pc := s.serve[t];
    && (Locks(pc) <==> s.owner == Some(Server(t)))
    && (t in s.listeners <==> Tracked(pc))
    && (s.once[t] == Running <==> pc == SRunning || Sweeping(s) == Some(t))
    && (pc == SRunning ==> Sweeping(s) != Some(t))
    && (pc == SDone ==> s.once[t] == Finished)
    && s.closes[t] == (if s.once[t] == Fresh then 0 else 1)
    && (s.locked ==> pc != SCleared && pc != SInserted)
  }

  predicate Behind(pc: ClosePc) {
    pc.CWaiting? || pc.CPassed? || pc.CRelocked? || pc.CDone?
  }

  /** All listeners are closed, but for those still to do. */
  ghost predicate ClosedBut(s: State, todo: set<nat>)
    requires Shaped(s)
  {
    forall t :: t in s.listeners && t !in todo ==> s.once[t] == Finished
  }

  /** What holds of every Close call. */
  ghost predicate CloserValid(s: State, c: nat)
    requires Shaped(s) && c < |s.close|
  {
    var pc := s.close[c];
    && (CloserLocks(pc) <==> s.owner == Some(Closer(c)))
    && (pc != CBegin ==> s.inShutdown)
    && (CloserLocks(pc) || Behind(pc) ==> s.locked)
    && (Behind(pc) ==> s.swept)
    && (pc == CPassed || pc == CRelocked || pc == CDone ==> s.passed)
    && (pc.CSweeping? ==> pc.todo <= s.listeners && ClosedBut(s, pc.todo))
    && (pc.CRunning? ==> pc.todo <= s.listeners && pc.ln in s.listeners && ClosedBut(s, pc.todo + {pc.ln}))
  }

  /** The group counts the set, but for the critical section that is under way. */
  predicate Counted(s: State)
    requires Shaped(s)
  {
    && (s.owner.Some? ==> if s.owner.value.Server? then s.owner.value.id < |s.serve| else s.owner.value.id < |s.close|)
    && s.group == |s.listeners| + Drift(s)
  }

  /** What the stages that some Close has reached mean for everybody. */
  ghost predicate Staged(s: State)
    requires Shaped(s)
  {
    && (s.locked ==> s.inShutdown)
    && (s.swept ==> s.locked && ClosedBut(s, {}))
    && (s.passed ==> s.swept && s.listeners == {} && s.group == 0)
  }

  ghost predicate Inv(s: State) {
    && Shaped(s)
    && (forall t: nat :: t < |s.serve| ==> ServerValid(s, t))
    && (forall c: nat :: c < |s.close| ==> CloserValid(s, c))
    && Counted(s) && Staged(s)
  }

  // ----- steps of Serve

  lemma ServeShaped(s: State, t: nat, failed: bool)
    requires Shaped(s) && ServeEnabled(s, t)
    ensures Shaped(ServeStep(s, t, failed))
  {
  }

  /** Serve never steps between a sweeping Close and its listener. */
  lemma ServeKeepsSweeping(s: State, t: nat, failed: bool)
    requires Shaped(s) && ServeEnabled(s, t) && ServerValid(s, t)
    ensures Sweeping(ServeStep(s, t, failed)) == Sweeping(s)
  {
    hide Shaped;
    match s.serve[t]
    case SBegin =>
    case SLocked =>
    case SCleared =>
    case SInserted =>
    case SCounted =>
    case SDenied =>
    case SAccepting =>
    case SFailed =>
    case SRelocked =>
    case SDeleted =>
    case SUncounted =>
    case SClosing =>
    case SRunning =>
    case SDone =>
  }

  /** Before `Accept`. */
  predicate Entering(pc: ServePc) {
    pc == SBegin || pc == SLocked || pc == SCleared || pc == SInserted || pc == SCounted || pc == SDenied
  }

  lemma EnteringKeepsLocks(s: State, t: nat, failed: bool)
    requires Shaped(s) && ServeEnabled(s, t) && ServerValid(s, t) && Entering(s.serve[t])
    ensures var s' := ServeStep(s, t, failed);
      && t < |s'.serve|
      && (Locks(s'.serve[t]) <==> s'.owner == Some(Server(t)))
      && (t in s'.listeners <==> Tracked(s'.serve[t]))
  {
    hide Shaped, Sweeping;
    match s.serve[t]
    case SBegin =>
    case SLocked =>
    case SCleared =>
    case SInserted =>
    case SCounted =>
    case SDenied =>
  }

  lemma LeavingKeepsLocks(s: State, t: nat, failed: bool)
    requires Shaped(s) && ServeEnabled(s, t) && ServerValid(s, t) && !Entering(s.serve[t])
    ensures var s' := ServeStep(s, t, failed);
      && t < |s'.serve|
      && (Locks(s'.serve[t]) <==> s'.owner == Some(Server(t)))
      && (t in s'.listeners <==> Tracked(s'.serve[t]))
  {
    hide Shaped, Sweeping;
    match s.serve[t]
    case SAccepting =>
    case SFailed =>
    case SRelocked =>
    case SDeleted =>
    case SUncounted =>
    case SClosing =>
    case SRunning =>
  }

  lemma ServeKeepsLocks(s: State, t: nat, failed: bool)
    requires Shaped(s) && ServeEnabled(s, t) && ServerValid(s, t)
    ensures var s' := ServeStep(s, t, failed);
      && t < |s'.serve|
      && (Locks(s'.serve[t]) <==> s'.owner == Some(Server(t)))
      && (t in s'.listeners <==> Tracked(s'.serve[t]))
  {
    hide Shaped, Sweeping, ServeStep, Locks, Tracked, Entering;
    if Entering(s.serve[t]) {
      EnteringKeepsLocks(s, t, failed);
    } else {
      LeavingKeepsLocks(s, t, failed);
    }
  }

  ghost predicate OnceKept(s: State, s': State, t: nat)
    requires Shaped(s)
  {
    && t < |s'.serve| && t < |s'.once| && t < |s'.closes|
    && (s'.once[t] == Running <==> s'.serve[t] == SRunning || Sweeping(s) == Some(t))
    && (s'.serve[t] == SRunning ==> Sweeping(s) != Some(t))
    && (s'.serve[t] == SDone ==> s'.once[t] == Finished)
    && s'.closes[t] == (if s'.once[t] == Fresh then 0 else 1)
    && (s'.locked ==> s'.serve[t] != SCleared && s'.serve[t] != SInserted)
  }

  lemma EnteringKeepsOnce(s: State, t: nat, failed: bool)
    requires Shaped(s) && ServeEnabled(s, t) && ServerValid(s, t)
    requires s.locked ==> s.inShutdown
    requires Entering(s.serve[t])
    ensures OnceKept(s, ServeStep(s, t, failed), t)
  {
    assert |s.once| == |s.closes| == |s.serve|;
    hide Shaped, Sweeping;
    match s.serve[t]
    case SBegin =>
    case SLocked =>
    case SCleared =>
    case SInserted =>
    case SCounted =>
    case SDenied =>
  }

  lemma LeavingKeepsOnce(s: State, t: nat, failed: bool)
    requires Shaped(s) && ServeEnabled(s, t) && ServerValid(s, t)
    requires s.locked ==> s.inShutdown
    requires !Entering(s.serve[t])
    ensures OnceKept(s, ServeStep(s, t, failed), t)
  {
    assert |s.once| == |s.closes| == |s.serve|;
    hide Shaped, Sweeping;
    match s.serve[t]
    case SAccepting =>
    case SFailed =>
    case SRelocked =>
    case SDeleted =>
    case SUncounted =>
    case SClosing =>
    case SRunning =>
  }

  lemma ServeKeepsOnce(s: State, t: nat, failed: bool)
    requires Shaped(s) && ServeEnabled(s, t) && ServerValid(s, t)
    requires s.locked ==> s.inShutdown
    ensures OnceKept(s, ServeStep(s, t, failed), t)
  {
    hide Shaped, Sweeping, ServeStep, OnceKept, Entering;
    if Entering(s.serve[t]) {
      EnteringKeepsOnce(s, t, failed);
    } else {
      LeavingKeepsOnce(s, t, failed);
    }
  }

  lemma ServeKeepsOwn(s: State, t: nat, failed: bool)
    requires Shaped(s) && ServeEnabled(s, t)
    requires ServerValid(s, t) && (s.locked ==> s.inShutdown)
    ensures Shaped(ServeStep(s, t, failed)) && t < |ServeStep(s, t, failed).serve| && ServerValid(ServeStep(s, t, failed), t)
  {
    hide ServeStep, ServeEnabled, Sweeping, Locks, Tracked;
    ServeShaped(s, t, failed);
    ServeKeepsSweeping(s, t, failed);
    ServeKeepsLocks(s, t, failed);
    ServeKeepsOnce(s, t, failed);
  }

  ghost predicate OthersSame(s: State, s': State, t: nat)
    requires Shaped(s) && Shaped(s') && |s'.serve| == |s.serve|
  {
    forall u: nat :: u < |s.serve| && u != t ==>
      s'.serve[u] == s.serve[u] && s'.once[u] == s.once[u] && s'.closes[u] == s.closes[u] && (u in s'.listeners <==> u in s.listeners)
  }

  lemma ServeLeavesOthers(s: State, t: nat, failed: bool)
    requires Shaped(s) && ServeEnabled(s, t)
    ensures Shaped(ServeStep(s, t, failed)) && |ServeStep(s, t, failed).serve| == |s.serve|
    ensures OthersSame(s, ServeStep(s, t, failed), t)
  {
    ServeShaped(s, t, failed);
    hide Shaped;
    match s.serve[t]
    case SBegin =>
    case SLocked =>
    case SCleared =>
    case SInserted =>
    case SCounted =>
    case SDenied =>
    case SAccepting =>
    case SFailed =>
    case SRelocked =>
    case SDeleted =>
    case SUncounted =>
    case SClosing =>
    case SRunning =>
    case SDone =>
  }

  /** A step of Serve leaves the other threads alone. */
  ghost predicate OnlyThread(s: State, s': State, t: nat)
    requires Shaped(s) && Shaped(s') && t < |s.serve|
  {
    && s'.close == s.close && |s'.serve| == |s.serve|
    && s'.inShutdown == s.inShutdown && s'.locked == s.locked && s'.swept == s.swept && s'.passed == s.passed
    && OthersSame(s, s', t)
    && (s'.owner == s.owner || (s.owner in {None, Some(Server(t))} && s'.owner in {None, Some(Server(t))}))
    && (s.owner != Some(Server(t)) ==> s'.listeners == s.listeners)
    && (s'.serve[t] in {SInserted, SLocked, SCleared, SCounted, SAccepting, SDenied} || s'.listeners <= s.listeners)
    && (s.once[t] == Finished ==> s'.once[t] == Finished)
  }

  lemma ServeIsLocal(s: State, t: nat, failed: bool)
    requires Shaped(s) && ServeEnabled(s, t) && ServerValid(s, t)
    ensures Shaped(ServeStep(s, t, failed)) && OnlyThread(s, ServeStep(s, t, failed), t)
  {
    ServeLeavesOthers(s, t, failed);
    hide OthersSame;
    match s.serve[t]
    case SBegin =>
    case SLocked =>
    case SCleared =>
    case SInserted =>
    case SCounted =>
    case SDenied =>
    case SAccepting =>
    case SFailed =>
    case SRelocked =>
    case SDeleted =>
    case SUncounted =>
    case SClosing =>
    case SRunning =>
    case SDone =>
  }

  lemma ServeKeepsOther(s: State, s': State, t: nat, u: nat)
    requires Shaped(s) && Shaped(s') && t < |s.serve| && OnlyThread(s, s', t) && u < |s.serve| && u != t
    requires ServerValid(s, t) && ServerValid(s, u)
    ensures ServerValid(s', u)
  {
  }

  lemma ServeKeepsCloser(s: State, s': State, t: nat, c: nat)
    requires Shaped(s) && Shaped(s') && t < |s.serve| && OnlyThread(s, s', t) && c < |s.close|
    requires ServerValid(s, t) && CloserValid(s, c)
    ensures CloserValid(s', c)
  {
  }

  lemma GroupMoves(s: State, t: nat, failed: bool)
    requires Shaped(s) && ServeEnabled(s, t)
    ensures ServeStep(s, t, failed).group == s.group + if s.serve[t] == SInserted then 1 else if s.serve[t] == SDeleted then -1 else 0
    ensures ServeStep(s, t, failed).listeners
            == if s.serve[t] == SCleared then s.listeners + {t} else if s.serve[t] == SRelocked then s.listeners - {t} else s.listeners
  {
    hide Shaped;
    match s.serve[t]
    case SBegin =>
    case SLocked =>
    case SCleared =>
    case SInserted =>
    case SCounted =>
    case SDenied =>
    case SAccepting =>
    case SFailed =>
    case SRelocked =>
    case SDeleted =>
    case SUncounted =>
    case SClosing =>
    case SRunning =>
    case SDone =>
  }

  lemma PcMoves(s: State, t: nat, failed: bool)
    requires Shaped(s) && ServeEnabled(s, t)
    ensures t < |s.serve| == |ServeStep(s, t, failed).serve|
    ensures var pc := ServeStep(s, t, failed).serve[t];
      && (s.serve[t] == SCleared <==> pc == SInserted)
      && (s.serve[t] == SRelocked <==> pc == SDeleted)
  {
    hide Shaped;
    match s.serve[t]
    case SBegin =>
    case SLocked =>
    case SCleared =>
    case SInserted =>
    case SCounted =>
    case SDenied =>
    case SAccepting =>
    case SFailed =>
    case SRelocked =>
    case SDeleted =>
    case SUncounted =>
    case SClosing =>
    case SRunning =>
    case SDone =>
  }

  /** Set and group move together, step by step. */
  lemma CountMoves(s: State, t: nat, failed: bool)
    requires Shaped(s) && ServeEnabled(s, t) && ServerValid(s, t)
    ensures |ServeStep(s, t, failed).serve| == |s.serve|
    ensures var s' := ServeStep(s, t, failed);
      s'.group - |s'.listeners| - PcDrift(s'.serve[t]) == s.group - |s.listeners| - PcDrift(s.serve[t])
  {
    hide ServeStep, Shaped;
    GroupMoves(s, t, failed);
    PcMoves(s, t, failed);
    if s.serve[t] == SCleared {
      assert |s.listeners + {t}| == |s.listeners| + 1;
    } else if s.serve[t] == SRelocked {
      assert s.listeners == (s.listeners - {t}) + {t};
    }
  }

  lemma DriftMoves(s: State, s': State, t: nat)
    requires Shaped(s) && Shaped(s') && t < |s.serve| && OnlyThread(s, s', t)
    requires ServerValid(s, t) && ServerValid(s', t)
    ensures Drift(s') - Drift(s) == PcDrift(s'.serve[t]) - PcDrift(s.serve[t])
  {
  }

  lemma ServeKeepsCount(s: State, t: nat, failed: bool)
    requires Shaped(s) && ServeEnabled(s, t) && ServerValid(s, t) && Counted(s) && (s.locked ==> s.inShutdown)
    ensures Shaped(ServeStep(s, t, failed)) && Counted(ServeStep(s, t, failed))
  {
    ServeSizes(s, t, failed);
    ServeIsLocal(s, t, failed);
    ServeKeepsOwn(s, t, failed);
    CountMoves(s, t, failed);
    DriftMoves(s, ServeStep(s, t, failed), t);
    hide ServeStep, ServeEnabled, ServerValid, Drift, Shaped;
  }

  lemma ServeKeepsStages(s: State, t: nat, failed: bool)
    requires Shaped(s) && ServeEnabled(s, t) && ServerValid(s, t) && Counted(s) && Staged(s)
    ensures Shaped(ServeStep(s, t, failed)) && Staged(ServeStep(s, t, failed))
  {
  }

  lemma ServeStepInv(s: State, t: nat, failed: bool)
    requires Inv(s) && ServeEnabled(s, t)
    ensures Inv(ServeStep(s, t, failed))
  {
    hide ServeEnabled, ServeStep, Shaped, OnlyThread, ServerValid, CloserValid, Counted;
    var s' := ServeStep(s, t, failed);
    ServeShaped(s, t, failed);
    ServeSizes(s, t, failed);
    assert ServerValid(s, t);
    ServeIsLocal(s, t, failed);
    forall u: nat | u < |s.serve| ensures ServerValid(s', u) {
      if u == t {
        ServeKeepsOwn(s, t, failed);
      } else {
        ServeKeepsOther(s, s', t, u);
      }
    }
    forall c: nat | c < |s.close| ensures CloserValid(s', c) {
      ServeKeepsCloser(s, s', t, c);
    }
    ServeKeepsCount(s, t, failed);
    ServeKeepsStages(s, t, failed);
  }

  lemma ServeSizes(s: State, t: nat, failed: bool)
    requires Shaped(s) && ServeEnabled(s, t)
    ensures t < |s.serve| == |ServeStep(s, t, failed).serve| && |ServeStep(s, t, failed).close| == |s.close|
  {
  }

  // ----- steps of Close

  lemma CloseShaped(s: State, c: nat, pick: nat)
    requires Shaped(s) && CloseEnabled(s, c, pick)
    ensures Shaped(CloseStep(s, c, pick))
    ensures c < |s.close| == |CloseStep(s, c, pick).close| && |CloseStep(s, c, pick).serve| == |s.serve|
  {
  }

  lemma CloseKeepsServer(s: State, c: nat, pick: nat, u: nat)
    requires Shaped(s) && CloseEnabled(s, c, pick) && u < |s.serve|
    requires CloserValid(s, c) && ServerValid(s, u)
    ensures Shaped(CloseStep(s, c, pick)) && ServerValid(CloseStep(s, c, pick), u)
  {
  }

  lemma CloseKeepsCloser(s: State, c: nat, pick: nat, d: nat)
    requires Shaped(s) && CloseEnabled(s, c, pick) && d < |s.close|
    requires CloserValid(s, c) && CloserValid(s, d)
    ensures Shaped(CloseStep(s, c, pick)) && CloserValid(CloseStep(s, c, pick), d)
  {
  }

  lemma CloseKeepsCount(s: State, c: nat, pick: nat)
    requires Shaped(s) && CloseEnabled(s, c, pick) && CloserValid(s, c) && Counted(s)
    ensures Shaped(CloseStep(s, c, pick)) && Counted(CloseStep(s, c, pick))
  {
  }

  lemma CloseKeepsStages(s: State, c: nat, pick: nat)
    requires Shaped(s) && CloseEnabled(s, c, pick) && CloserValid(s, c) && Counted(s) && Staged(s)
    requires s.owner.Some? && s.owner.value.Server? && s.owner.value.id < |s.serve| ==> ServerValid(s, s.owner.value.id)
    ensures Shaped(CloseStep(s, c, pick)) && Staged(CloseStep(s, c, pick))
  {
  }

  lemma CloseStepInv(s: State, c: nat, pick: nat)
    requires Inv(s) && CloseEnabled(s, c, pick)
    ensures Inv(CloseStep(s, c, pick))
  {
    hide CloseEnabled, CloseStep, Shaped, ServerValid, CloserValid, Counted, Staged;
    var s' := CloseStep(s, c, pick);
    CloseShaped(s, c, pick);
    forall u: nat | u < |s.serve| ensures ServerValid(s', u) {
      CloseKeepsServer(s, c, pick, u);
    }
    forall d: nat | d < |s.close| ensures CloserValid(s', d) {
      CloseKeepsCloser(s, c, pick, d);
    }
    CloseKeepsCount(s, c, pick);
    CloseKeepsStages(s, c, pick);
  }

  // ----- whole runs

  lemma StepInv(s: State, step: Step)
    requires Inv(s) && Enabled(s, step)
    ensures Inv(Apply(s, step))
  {
    hide Inv, ServeEnabled, CloseEnabled, ServeStep, CloseStep;
    match step
    case Serve(t, failed) => ServeStepInv(s, t, failed);
    case Close(c, pick) => CloseStepInv(s, c, pick);
  }

  /** Every step of `steps` is possible where it is taken. */
  ghost predicate Possible(s: State, steps: seq<Step>)
    requires Inv(s)
    decreases |steps|
  {
    steps == [] || (Enabled(s, steps[0]) && (StepInv(s, steps[0]); Possible(Apply(s, steps[0]), steps[1..])))
  }

  ghost function After(s: State, steps: seq<Step>): (r: State)
    requires Inv(s) && Possible(s, steps)
    ensures Inv(r)
    decreases |steps|
  {
    if steps == [] then s else StepInv(s, steps[0]); After(Apply(s, steps[0]), steps[1..])
  }

  /** Outside critical sections the group counts the tracked listeners; it is never
      negative; no listener is closed twice; and who returns from `Serve` has closed its own. */
  ghost predicate Safe(s: State) {
    && (s.owner.None? ==> s.group == |s.listeners|)
    && s.group >= 0
    && |s.closes| == |s.serve|
    && (forall t :: 0 <= t < |s.closes| ==> s.closes[t] <= 1)
    && (forall t :: 0 <= t < |s.serve| && s.serve[t] == SDone ==> s.closes[t] == 1)
    && (s.passed ==> s.listeners == {} && s.group == 0)
  }

  lemma InvIsSafe(s: State)
    requires Inv(s)
    ensures Safe(s)
  {
    forall t: nat | t < |s.serve| ensures s.closes[t] <= 1 && (s.serve[t] == SDone ==> s.closes[t] == 1) {
      assert ServerValid(s, t);
    }
    if s.owner.Some? && s.owner.value.Server? {
      assert ServerValid(s, s.owner.value.id);
      if s.serve[s.owner.value.id] == SInserted {
        assert s.owner.value.id in s.listeners;
      }
    }
  }

  /** In every interleaving of any number of calls. */
  lemma RunsAreSafe(servers: nat, closers: nat, steps: seq<Step>)
    requires Possible(Init(servers, closers), steps)
    ensures Safe(After(Init(servers, closers), steps))
  {
    InvIsSafe(After(Init(servers, closers), steps));
  }

  /** Once some Close has been let through, the listener set is empty and stays so. */
  lemma {:induction false} NothingAfterClose(s: State, steps: seq<Step>)
    requires Inv(s) && Possible(s, steps) && s.passed
    ensures After(s, steps).listeners == {} && After(s, steps).group == 0 && After(s, steps).passed
    decreases |steps|
  {
    if steps != [] {
      StepInv(s, steps[0]);
      PassedStays(s, steps[0]);
      NothingAfterClose(Apply(s, steps[0]), steps[1..]);
    }
  }

  lemma PassedStays(s: State, step: Step)
    requires Inv(s) && Enabled(s, step) && s.passed
    ensures Apply(s, step).passed
  {
  }

  // ----- every Close returns

  /** A step that must come: an Accept may wait for ever, unless its listener is closed. */
  ghost predicate Due(s: State, step: Step)
    requires Shaped(s)
  {
    Enabled(s, step) && (step.Serve? && s.serve[step.t] == SAccepting ==> step.failed && s.once[step.t] == Finished)
  }

  predicate AllDone(s: State) {
    (forall t :: 0 <= t < |s.serve| ==> s.serve[t] == SDone) && (forall c :: 0 <= c < |s.close| ==> s.close[c] == CDone)
  }

  /** With a call of Close nothing is ever stuck: until all calls have returned, some
      step is due. */
  lemma NoDeadlock(s: State) returns (step: Step)
    requires Inv(s) && s.close != [] && !AllDone(s)
    ensures Due(s, step)
  {
    if s.owner.Some? {
      step := OwnerMoves(s);
    } else if c: nat :| c < |s.close| && s.close[c] != CDone && s.close[c] != CWaiting {
      assert CloserValid(s, c);
      step := Close(c, 0);
    } else if t: nat :| t < |s.serve| && s.serve[t] != SDone {
      assert CloserValid(s, 0) && ServerValid(s, t);
      step := Serve(t, true);
    } else {
      var c: nat :| c < |s.close| && s.close[c] == CWaiting;
      NobodyTracked(s);
      step := Close(c, 0);
    }
  }

  lemma NobodyTracked(s: State)
    requires Inv(s) && s.owner.None? && forall t :: 0 <= t < |s.serve| ==> s.serve[t] == SDone
    ensures s.group == 0
  {
    if t :| t in s.listeners {
      TrackedIsNotDone(s, t);
    }
  }

  lemma TrackedIsNotDone(s: State, t: nat)
    requires Inv(s) && t in s.listeners
    ensures t < |s.serve| && s.serve[t] != SDone
  {
    assert ServerValid(s, t);
  }

  /** Whoever has the mutex can go on, or waits for a close that can. */
  lemma OwnerMoves(s: State) returns (step: Step)
    requires Inv(s) && s.owner.Some?
    ensures Due(s, step)
  {
    match s.owner.value
    case Server(t) =>
      assert ServerValid(s, t);
      step := Serve(t, true);
    case Closer(c) =>
      assert CloserValid(s, c);
      step := Close(c, 0);
      if s.close[c].CSweeping? && s.close[c].todo != {} {
        var t :| t in s.close[c].todo;
        assert ServerValid(s, t);
        step := if s.once[t] == Running then Serve(t, true) else Close(c, t);
      }
  }

  function ServeRank(pc: ServePc): nat {
    match pc
    case SBegin => 12
    case SLocked => 11
    case SCleared => 10
    case SInserted => 9
    case SCounted => 8
    case SAccepting => 7
    case SFailed => 6
    case SRelocked => 5
    case SDeleted => 4
    case SUncounted => 3
    case SDenied => 3
    case SClosing => 2
    case SRunning => 1
    case SDone => 0
  }

  function CloseRank(pc: ClosePc, servers: nat): nat {
    match pc
    case CBegin => 2 * servers + 9
    case CFlagged => 2 * servers + 8
    case CSweeping(todo) => 2 * |todo| + 6
    case CRunning(todo, _) => 2 * |todo| + 7
    case CWaiting => 3
    case CPassed => 2
    case CRelocked => 1
    case CDone => 0
  }

  function ServeRanks(pcs: seq<ServePc>): nat {
    if pcs == [] then 0 else ServeRank(pcs[0]) + ServeRanks(pcs[1..])
  }

  function CloseRanks(pcs: seq<ClosePc>, servers: nat): nat {
    if pcs == [] then 0 else CloseRank(pcs[0], servers) + CloseRanks(pcs[1..], servers)
  }

  /** The most steps that all calls together can still take, accepted connections aside. */
  function Rank(s: State): nat {
    ServeRanks(s.serve) + CloseRanks(s.close, |s.serve|)
  }

  lemma {:induction false} ServeRanksUpdate(pcs: seq<ServePc>, t: nat, pc: ServePc)
    requires t < |pcs|
    ensures ServeRanks(pcs[t := pc]) == ServeRanks(pcs) - ServeRank(pcs[t]) + ServeRank(pc)
  {
    if t == 0 {
      assert pcs[t := pc][1..] == pcs[1..];
    } else {
      ServeRanksUpdate(pcs[1..], t - 1, pc);
      assert pcs[t := pc][1..] == pcs[1..][t - 1 := pc];
    }
  }

  lemma {:induction false} CloseRanksUpdate(pcs: seq<ClosePc>, servers: nat, c: nat, pc: ClosePc)
    requires c < |pcs|
    ensures CloseRanks(pcs[c := pc], servers) == CloseRanks(pcs, servers) - CloseRank(pcs[c], servers) + CloseRank(pc, servers)
  {
    if c == 0 {
      assert pcs[c := pc][1..] == pcs[1..];
    } else {
      CloseRanksUpdate(pcs[1..], servers, c - 1, pc);
      assert pcs[c := pc][1..] == pcs[1..][c - 1 := pc];
    }
  }

  lemma {:induction false} SetBelow(s: set<nat>, n: nat)
    requires forall x :: x in s ==> x < n
    ensures |s| <= n
  {
    if n == 0 {
      if x :| x in s {
      }
    } else {
      SetBelow(s - {n - 1}, n - 1);
    }
  }

  /** A connection is accepted; nothing else changes. */
  predicate Accepts(s: State, step: Step)
    requires Shaped(s) && Enabled(s, step)
  {
    step.Serve? && s.serve[step.t] == SAccepting && !step.failed
  }

  lemma ServeChangesPc(s: State, t: nat, failed: bool)
    requires Shaped(s) && ServeEnabled(s, t)
    ensures t < |s.serve| == |ServeStep(s, t, failed).serve|
    ensures ServeStep(s, t, failed).serve == s.serve[t := ServeStep(s, t, failed).serve[t]]
    ensures ServeStep(s, t, failed).close == s.close
  {
    hide Shaped;
    match s.serve[t]
    case SBegin =>
    case SLocked =>
    case SCleared =>
    case SInserted =>
    case SCounted =>
    case SDenied =>
    case SAccepting =>
    case SFailed =>
    case SRelocked =>
    case SDeleted =>
    case SUncounted =>
    case SClosing =>
    case SRunning =>
    case SDone =>
  }

  lemma EnteringDescends(s: State, t: nat, failed: bool)
    requires Shaped(s) && ServeEnabled(s, t) && Entering(s.serve[t])
    ensures t < |s.serve| == |ServeStep(s, t, failed).serve|
    ensures ServeRank(ServeStep(s, t, failed).serve[t]) < ServeRank(s.serve[t])
  {
    hide Shaped;
    match s.serve[t]
    case SBegin =>
    case SLocked =>
    case SCleared =>
    case SInserted =>
    case SCounted =>
    case SDenied =>
  }

  lemma LeavingDescends(s: State, t: nat, failed: bool)
    requires Shaped(s) && ServeEnabled(s, t) && !Entering(s.serve[t]) && !(s.serve[t] == SAccepting && !failed)
    ensures t < |s.serve| == |ServeStep(s, t, failed).serve|
    ensures ServeRank(ServeStep(s, t, failed).serve[t]) < ServeRank(s.serve[t])
  {
    hide Shaped;
    match s.serve[t]
    case SAccepting =>
    case SFailed =>
    case SRelocked =>
    case SDeleted =>
    case SUncounted =>
    case SClosing =>
    case SRunning =>
  }

  lemma ServePcDescends(s: State, t: nat, failed: bool)
    requires Shaped(s) && ServeEnabled(s, t) && !(s.serve[t] == SAccepting && !failed)
    ensures t < |s.serve| == |ServeStep(s, t, failed).serve|
    ensures ServeRank(ServeStep(s, t, failed).serve[t]) < ServeRank(s.serve[t])
  {
    hide Shaped, ServeStep, ServeRank, Entering;
    if Entering(s.serve[t]) {
      EnteringDescends(s, t, failed);
    } else {
      LeavingDescends(s, t, failed);
    }
  }

  lemma ServeDescends(s: State, t: nat, failed: bool)
    requires Shaped(s) && ServeEnabled(s, t) && !(s.serve[t] == SAccepting && !failed)
    ensures Rank(ServeStep(s, t, failed)) < Rank(s)
  {
    hide ServeStep, ServeRank, ServeRanks, CloseRanks, Shaped;
    ServeChangesPc(s, t, failed);
    ServePcDescends(s, t, failed);
    ServeRanksUpdate(s.serve, t, ServeStep(s, t, failed).serve[t]);
  }

  lemma CloseChangesPc(s: State, c: nat, pick: nat)
    requires Shaped(s) && CloseEnabled(s, c, pick)
    ensures c < |s.close| == |CloseStep(s, c, pick).close|
    ensures CloseStep(s, c, pick).close == s.close[c := CloseStep(s, c, pick).close[c]]
    ensures CloseStep(s, c, pick).serve == s.serve
  {
    hide Shaped;
    match s.close[c]
    case CBegin =>
    case CFlagged =>
    case CSweeping(todo) =>
    case CRunning(_, _) =>
    case CWaiting =>
    case CPassed =>
    case CRelocked =>
    case CDone =>
  }

  lemma SweepDescends(s: State, c: nat, pick: nat)
    requires Shaped(s) && CloseEnabled(s, c, pick) && s.close[c].CSweeping?
    ensures c < |CloseStep(s, c, pick).close|
    ensures CloseRank(CloseStep(s, c, pick).close[c], |s.serve|) < CloseRank(s.close[c], |s.serve|)
  {
    var todo := s.close[c].todo;
    hide Shaped;
    if todo != {} {
      assert todo == (todo - {pick}) + {pick};
    }
  }

  lemma ClosePcDescends(s: State, c: nat, pick: nat)
    requires Shaped(s) && CloseEnabled(s, c, pick)
    ensures c < |CloseStep(s, c, pick).close|
    ensures CloseRank(CloseStep(s, c, pick).close[c], |s.serve|) < CloseRank(s.close[c], |s.serve|)
  {
    if s.close[c].CSweeping? {
      SweepDescends(s, c, pick);
    } else {
      SetBelow(s.listeners, |s.serve|);
      hide Shaped;
    }
  }

  lemma CloseDescends(s: State, c: nat, pick: nat)
    requires Shaped(s) && CloseEnabled(s, c, pick)
    ensures Rank(CloseStep(s, c, pick)) < Rank(s)
  {
    hide CloseStep, CloseRank, ServeRanks, CloseRanks, Shaped;
    CloseChangesPc(s, c, pick);
    ClosePcDescends(s, c, pick);
    CloseRanksUpdate(s.close, |s.serve|, c, CloseStep(s, c, pick).close[c]);
  }

  /** Steps of a run that are not accepted connections. */
  ghost function Moves(s: State, steps: seq<Step>): nat
    requires Inv(s) && Possible(s, steps)
    decreases |steps|
  {
    if steps == [] then 0
    else
      StepInv(s, steps[0]);
      (if Accepts(s, steps[0]) then 0 else 1) + Moves(Apply(s, steps[0]), steps[1..])
  }

  /** Every run comes to an end, accepted connections aside. */
  lemma {:induction false} MovesAreBounded(s: State, steps: seq<Step>)
    requires Inv(s) && Possible(s, steps)
    ensures Moves(s, steps) + Rank(After(s, steps)) <= Rank(s)
    decreases |steps|
  {
    if steps != [] {
      hide Inv, ServeStep, CloseStep, ServeEnabled, CloseEnabled, Rank;
      StepInv(s, steps[0]);
      Descends(s, steps[0]);
      MovesAreBounded(Apply(s, steps[0]), steps[1..]);
    }
  }

  lemma Descends(s: State, step: Step)
    requires Inv(s) && Enabled(s, step)
    ensures if Accepts(s, step) then Apply(s, step) == s else Rank(Apply(s, step)) < Rank(s)
  {
    hide Rank, ServerValid, CloserValid, Counted, Staged;
    match step
    case Serve(t, failed) =>
      if !Accepts(s, step) {
        ServeDescends(s, t, failed);
      }
    case Close(c, pick) =>
      CloseDescends(s, c, pick);
  }

  /** Whatever has happened, taking steps that are due brings all calls to an end. */
  lemma {:induction false} CanFinish(s: State) returns (more: seq<Step>)
    requires Inv(s) && s.close != []
    ensures Possible(s, more) && |more| <= Rank(s) && AllDone(After(s, more))
    decreases Rank(s)
  {
    assert Shaped(s);
    hide Inv, Shaped, Rank, Enabled, Apply, AllDone;
    if AllDone(s) {
      more := [];
    } else {
      var step := NoDeadlock(s);
      StepInv(s, step);
      Descends(s, step);
      CallKept(s, step);
      var rest := CanFinish(Apply(s, step));
      more := [step] + rest;
      assert more[1..] == rest;
    }
  }

  lemma ServeKeepsCalls(s: State, t: nat, failed: bool)
    requires Shaped(s) && ServeEnabled(s, t)
    ensures |ServeStep(s, t, failed).close| == |s.close|
  {
  }

  lemma CloseKeepsCalls(s: State, c: nat, pick: nat)
    requires Shaped(s) && CloseEnabled(s, c, pick)
    ensures |CloseStep(s, c, pick).close| == |s.close|
  {
  }

  lemma {:induction false} RunKeepsCalls(s: State, steps: seq<Step>)
    requires Inv(s) && Possible(s, steps)
    ensures |After(s, steps).close| == |s.close|
    decreases |steps|
  {
    if steps != [] {
      hide Inv, Enabled, Apply;
      StepInv(s, steps[0]);
      CallKept(s, steps[0]);
      RunKeepsCalls(Apply(s, steps[0]), steps[1..]);
    }
  }

  lemma CallKept(s: State, step: Step)
    requires Inv(s) && Enabled(s, step)
    ensures |Apply(s, step).close| == |s.close|
  {
    assert Shaped(s);
    hide Inv, Shaped, ServeStep, CloseStep, ServeEnabled, CloseEnabled;
    match step
    case Serve(t, failed) => ServeKeepsCalls(s, t, failed);
    case Close(c, pick) => CloseKeepsCalls(s, c, pick);
  }

  /** Every call returns: a run with at least one Close takes a bounded number of steps other
      than accepting connections, and as long as some call has not returned, a step is due
      that is not one of those. So a run that always takes such a step in the end has all
      calls returned, after which none is possible. */
  lemma EveryCallReturns(servers: nat, closers: nat, steps: seq<Step>)
    requires closers > 0 && Possible(Init(servers, closers), steps)
    ensures var s := After(Init(servers, closers), steps);
      && Moves(Init(servers, closers), steps) + Rank(s) <= Rank(Init(servers, closers))
      && (!AllDone(s) <==> exists step :: Due(s, step) && !Accepts(s, step))
      && exists more :: Possible(s, more) && |more| <= Rank(s) && AllDone(After(s, more))
  {
    var s := After(Init(servers, closers), steps);
    hide Inv, Rank, AllDone, Due, Accepts;
    MovesAreBounded(Init(servers, closers), steps);
    RunKeepsCalls(Init(servers, closers), steps);
    var more := CanFinish(s);
    if !AllDone(s) {
      var step := NoDeadlock(s);
      DueIsNoAccept(s, step);
    } else {
      NothingDue(s);
    }
  }

  lemma DueIsNoAccept(s: State, step: Step)
    requires Shaped(s) && Due(s, step)
    ensures !Accepts(s, step)
  {
  }

  lemma NothingDue(s: State)
    requires Inv(s) && AllDone(s)
    ensures forall step :: Enabled(s, step) ==> false
  {
  }

  // ----- who is let in

  /** Only a shutdown is a reason to deny a listener. */
  ghost predicate Denials(s: State) {
    forall t :: 0 <= t < |s.serve| && s.serve[t] == SDenied ==> s.inShutdown
  }

  lemma EnteringDenials(s: State, t: nat, failed: bool)
    requires Shaped(s) && ServeEnabled(s, t) && Denials(s) && Entering(s.serve[t])
    ensures Denials(ServeStep(s, t, failed))
  {
    hide Shaped;
  }

  lemma LeavingDenials(s: State, t: nat, failed: bool)
    requires Shaped(s) && ServeEnabled(s, t) && Denials(s) && !Entering(s.serve[t])
    ensures Denials(ServeStep(s, t, failed))
  {
    hide Shaped;
  }

  lemma CloseDenials(s: State, c: nat, pick: nat)
    requires Shaped(s) && CloseEnabled(s, c, pick) && Denials(s)
    ensures Denials(CloseStep(s, c, pick))
  {
    hide Shaped;
  }

  lemma {:induction false} RunDenials(s: State, steps: seq<Step>)
    requires Inv(s) && Possible(s, steps) && Denials(s)
    ensures Denials(After(s, steps))
    decreases |steps|
  {
    if steps != [] {
      assert Shaped(s);
      hide Inv, Shaped, Denials, ServeStep, CloseStep, ServeEnabled, CloseEnabled, Entering;
      StepInv(s, steps[0]);
      match steps[0] {
        case Serve(t, failed) =>
          if Entering(s.serve[t]) {
            EnteringDenials(s, t, failed);
          } else {
            LeavingDenials(s, t, failed);
          }
        case Close(c, pick) => CloseDenials(s, c, pick);
      }
      RunDenials(Apply(s, steps[0]), steps[1..]);
    }
  }

  /** Without a shutdown no listener is denied. */
  lemma DeniedMeansShutdown(servers: nat, closers: nat, steps: seq<Step>, t: nat)
    requires Possible(Init(servers, closers), steps)
    requires t < |After(Init(servers, closers), steps).serve| && After(Init(servers, closers), steps).serve[t] == SDenied
    ensures After(Init(servers, closers), steps).inShutdown
  {
    RunDenials(Init(servers, closers), steps);
  }

  /** A call of Serve that finds the mutex free and no shutdown gets to accept by its own steps,
      with its listener in the set and in the count. */
  lemma ServeGetsToAccept(s: State, t: nat)
    requires Inv(s) && t < |s.serve| && s.serve[t] == SBegin && s.owner.None? && !s.inShutdown
    ensures var steps := seq(5, _ => Serve(t, false));
      && Possible(s, steps)
      && After(s, steps) == s.(serve := s.serve[t := SAccepting], listeners := s.listeners + {t}, group := s.group + 1)
  {
    var step := Serve(t, false);
    var s1 := s.(serve := s.serve[t := SLocked], owner := Some(Server(t)));
    var s2 := s1.(serve := s1.serve[t := SCleared]);
    var s3 := s2.(serve := s2.serve[t := SInserted], listeners := s2.listeners + {t});
    var s4 := s3.(serve := s3.serve[t := SCounted], group := s3.group + 1);
    var s5 := s4.(serve := s4.serve[t := SAccepting], owner := None);
    OwnStep(s, s1, t);
    OwnStep(s1, s2, t);
    OwnStep(s2, s3, t);
    OwnStep(s3, s4, t);
    OwnStep(s4, s5, t);
    hide Inv, Enabled, Apply;
    ChainStart(s5);
    ChainOn(s4, s5, step, [], s5);
    ChainOn(s3, s4, step, [step], s5);
    ChainOn(s2, s3, step, [step, step], s5);
    ChainOn(s1, s2, step, [step, step, step], s5);
    ChainOn(s, s1, step, [step, step, step, step], s5);
    assert seq(5, _ => Serve(t, false)) == [step, step, step, step, step];
    assert s5.serve == s.serve[t := SAccepting];
  }

  lemma OwnStep(s: State, s': State, t: nat)
    requires Inv(s) && ServeEnabled(s, t) && ServeStep(s, t, false) == s'
    ensures Enabled(s, Serve(t, false)) && Apply(s, Serve(t, false)) == s' && Inv(s')
  {
    assert Shaped(s);
    hide Inv, Shaped, ServeEnabled, ServeStep;
    StepInv(s, Serve(t, false));
  }

  lemma ChainStart(s: State)
    requires Inv(s)
    ensures Possible(s, []) && After(s, []) == s
  {
    hide Inv;
  }

  lemma ChainOn(s: State, s': State, step: Step, steps: seq<Step>, end: State)
    requires Inv(s) && Shaped(s) && Enabled(s, step) && Apply(s, step) == s' && Inv(s')
    requires Possible(s', steps) && After(s', steps) == end
    ensures Possible(s, [step] + steps) && After(s, [step] + steps) == end
  {
    hide Inv, Enabled, Apply;
    assert ([step] + steps)[1..] == steps;
  }

  /** Calls that are not in yet, or on their way out without having been in. */
  predicate Outside(pc: ServePc) {
    pc == SBegin || pc == SLocked || pc == SDenied || pc == SClosing || pc == SRunning || pc == SDone
  }

  lemma StepStaysOutside(s: State, step: Step, t: nat)
    requires Shaped(s) && Enabled(s, step) && s.inShutdown && t < |s.serve| && Outside(s.serve[t])
    ensures Apply(s, step).inShutdown && t < |Apply(s, step).serve| && Outside(Apply(s, step).serve[t])
  {
    hide Shaped;
    match step
    case Serve(u, failed) => ServeStaysOutside(s, u, failed, t);
    case Close(c, pick) =>
  }

  lemma ServeStaysOutside(s: State, u: nat, failed: bool, t: nat)
    requires Shaped(s) && ServeEnabled(s, u) && s.inShutdown && t < |s.serve| && Outside(s.serve[t])
    ensures var s' := ServeStep(s, u, failed); s'.inShutdown && t < |s'.serve| && Outside(s'.serve[t])
  {
    ServeChangesPc(s, u, failed);
    if t != u {
      hide Shaped, Outside;
    }
  }

  /** A call that has not looked at the flag when it is set never gets to accept. */
  lemma {:induction false} LateServeNeverAccepts(s: State, steps: seq<Step>, t: nat)
    requires Inv(s) && Possible(s, steps) && s.inShutdown && t < |s.serve| && Outside(s.serve[t])
    ensures t < |After(s, steps).serve| && After(s, steps).serve[t] != SAccepting && t !in After(s, steps).listeners
    decreases |steps|
  {
    if steps == [] {
      assert ServerValid(s, t);
    } else {
      assert Shaped(s);
      hide Inv, Shaped, Outside, Enabled, Apply;
      StepInv(s, steps[0]);
      StepStaysOutside(s, steps[0], t);
      LateServeNeverAccepts(Apply(s, steps[0]), steps[1..], t);
    }
  }

  /** A Close sets the flag with its first step, and nothing takes it back. */
  lemma {:induction false} FlagStays(s: State, steps: seq<Step>)
    requires Inv(s) && Possible(s, steps) && s.inShutdown
    ensures After(s, steps).inShutdown
    decreases |steps|
  {
    if steps != [] {
      assert Shaped(s);
      hide Inv, Shaped, ServeStep, CloseStep, ServeEnabled, CloseEnabled;
      StepInv(s, steps[0]);
      StepKeepsFlag(s, steps[0]);
      FlagStays(Apply(s, steps[0]), steps[1..]);
    }
  }

  lemma StepKeepsFlag(s: State, step: Step)
    requires Shaped(s) && Enabled(s, step)
    ensures s.inShutdown ==> Apply(s, step).inShutdown
    ensures step.Close? && s.close[step.c] == CBegin ==> Apply(s, step).inShutdown
    ensures step.Serve? ==> Apply(s, step).inShutdown == s.inShutdown
  {
    hide Shaped;
  }

  // ----- a Close takes the mutex twice

  /** 1 if the step gives the mutex to this Close. */
  ghost function Takes(s: State, step: Step, c: nat): nat
    requires Shaped(s) && Enabled(s, step)
  {
    if s.owner != Some(Closer(c)) && Apply(s, step).owner == Some(Closer(c)) then 1 else 0
  }

  ghost function Takings(s: State, steps: seq<Step>, c: nat): nat
    requires Inv(s) && Possible(s, steps)
    decreases |steps|
  {
    if steps == [] then 0
    else StepInv(s, steps[0]); Takes(s, steps[0], c) + Takings(Apply(s, steps[0]), steps[1..], c)
  }

  function Sections(pc: ClosePc): nat {
    match pc
    case CBegin => 0
    case CFlagged => 0
    case CRelocked => 2
    case CDone => 2
    case _ => 1
  }

  lemma SectionsStep(s: State, step: Step, c: nat)
    requires Inv(s) && Enabled(s, step) && c < |s.close|
    ensures c < |Apply(s, step).close|
    ensures Sections(Apply(s, step).close[c]) == Sections(s.close[c]) + Takes(s, step, c)
  {
    StepInv(s, step);
    assert CloserValid(s, c);
    assert Shaped(s);
    match step {
      case Serve(t, failed) => ServeChangesPc(s, t, failed);
      case Close(d, pick) => CloseChangesPc(s, d, pick);
    }
    assert CloserValid(Apply(s, step), c);
    hide Inv, Shaped, ServerValid;
  }

  lemma {:induction false} SectionsCount(s: State, steps: seq<Step>, c: nat)
    requires Inv(s) && Possible(s, steps) && c < |s.close|
    ensures c < |After(s, steps).close|
    ensures Sections(After(s, steps).close[c]) == Sections(s.close[c]) + Takings(s, steps, c)
    decreases |steps|
  {
    if steps != [] {
      assert Shaped(s);
      hide Inv, Shaped, Enabled, Apply, Takes, Sections;
      StepInv(s, steps[0]);
      SectionsStep(s, steps[0], c);
      SectionsCount(Apply(s, steps[0]), steps[1..], c);
    }
  }

  /** By the time it returns, a Close has held the mutex once before and once after its wait. */
  lemma CloseLocksTwice(servers: nat, closers: nat, steps: seq<Step>, c: nat)
    requires Possible(Init(servers, closers), steps) && c < closers
    ensures c < |After(Init(servers, closers), steps).close|
    ensures var pc := After(Init(servers, closers), steps).close[c];
      && (pc == CWaiting || pc == CPassed ==> Takings(Init(servers, closers), steps, c) == 1)
      && (pc == CDone ==> Takings(Init(servers, closers), steps, c) == 2)
  {
    var s := Init(servers, closers);
    assert |s.close| == closers && s.close[c] == CBegin;
    hide Init;
    SectionsCount(s, steps, c);
  }
}
