/**
Lazy resolution of exports (bindings/runtime/win32/loader.go) as a protocol: any number of goroutines race
through Proc.once, whose body goes through DLL.once. One event is one atomic step of one goroutine;
the operating system answers as it likes.
*/
module LazyLoad {
  import opened Options
  import opened Names

  /** `proc` is empty when the DLL itself failed to load. */
  datatype ProcError = ProcError(dll: Name, proc: Name, errno: int)

  datatype Sentinel = ErrDLLNotFound | ErrProcNotFound

  /** ProcError.Is */
  predicate Is(e: ProcError, target: Sentinel) {
    if e.proc == "" then target == ErrDLLNotFound else target == ErrProcNotFound
  }

  datatype Once = NotStarted | Running(thread: int) | Done

  /** `loads` counts the loadSystemDLL calls for this DLL. */
  datatype DllState = DllState(name: Name, once: Once, handle: int, err: Option<ProcError>, loads: nat)

  /** `lookups` lists the handles GetProcAddress was called with for this export. */
  datatype ProcState = ProcState(dll: int, name: Name, once: Once, addr: int, err: Option<ProcError>, lookups: seq<int>)

  /** Where a goroutine is: outside, or at a point of find() for the Proc `p`. */
  datatype Pc =
    | Idle
    | EnterProc(p: int)   // at p.once.Do
    | EnterDll(p: int)    // in the body of p.once, at dll.once.Do
    | Loading(p: int)     // in the body of dll.once, before the load
    | Loaded(p: int)      // in the body of dll.once, after the load
    | AfterDll(p: int)    // dll.once.Do has returned
    | LookingUp(p: int)   // about to call GetProcAddress
    | Settling(p: int)    // at the end of the body of p.once
    | AfterProc(p: int)   // p.once.Do has returned

  datatype Outcome = Resolved(addr: int) | Failed(err: ProcError)

  /** A completed Find or Addr. */
  datatype Completed = Completed(p: int, outcome: Outcome)

  datatype State = State(dlls: seq<DllState>, procs: seq<ProcState>, threads: seq<Pc>, history: seq<Completed>)

  datatype Event =
    | Call(t: int, callee: int)
    | StepProc(t: int)
    | StepDll(t: int)
    | Load(t: int, handle: int, errno: int)
    | LeaveDll(t: int)
    | ReadDll(t: int)
    | Lookup(t: int, addr: int, errno: int, found: bool)
    | LeaveProc(t: int)
    | Report(t: int)

  function OutcomeOf(p: ProcState): Outcome {
    if p.err.Some? then Failed(p.err.value) else Resolved(p.addr)
  }

  /** A goroutine's own view: where it is, the Proc it is after, and that Proc's DLL. */
  datatype View = View(pc: Pc, proc: ProcState, dll: DllState)

  /** Can the goroutine take this step? At a once that another one is running it is blocked. */
  predicate CanStep(v: View, e: Event) {
    match e
    case Call(_, _) => v.pc.Idle?
    case StepProc(_) => v.pc.EnterProc? && !v.proc.once.Running?
    case StepDll(_) => v.pc.EnterDll? && !v.dll.once.Running?
    case Load(_, _, _) => v.pc.Loading?
    case LeaveDll(_) => v.pc.Loaded?
    case ReadDll(_) => v.pc.AfterDll?
    case Lookup(_, _, _, _) => v.pc.LookingUp?
    case LeaveProc(_) => v.pc.Settling?
    case Report(_) => v.pc.AfterProc?
  }

  function Step(v: View, e: Event): View
    requires CanStep(v, e)
  {
    match e
    case Call(_, p) => v.(pc := EnterProc(p))
    // a once that is done is passed, any other one is claimed and its body entered
    case StepProc(t) =>
      if v.proc.once.Done? then v.(pc := AfterProc(v.pc.p))
      else v.(pc := EnterDll(v.pc.p), proc := v.proc.(once := Running(t)))
    case StepDll(t) =>
      if v.dll.once.Done? then v.(pc := AfterDll(v.pc.p))
      else v.(pc := Loading(v.pc.p), dll := v.dll.(once := Running(t)))
    // the load: a handle, or no handle and an error without a procedure name
    case Load(_, handle, errno) =>
      v.(pc := Loaded(v.pc.p),
         dll := if handle == 0 then v.dll.(handle := 0, err := Some(ProcError(v.dll.name, "", errno)), loads := v.dll.loads + 1)
                else v.dll.(handle := handle, err := None, loads := v.dll.loads + 1))
    case LeaveDll(_) => v.(pc := AfterDll(v.pc.p), dll := v.dll.(once := Done))
    // a DLL that is missing ends the body with the DLL's own error
    case ReadDll(_) =>
      if v.dll.err.Some? then v.(pc := Settling(v.pc.p), proc := v.proc.(err := v.dll.err))
      else v.(pc := LookingUp(v.pc.p))
    // the lookup: an address, or an error that names the export
    case Lookup(_, addr, errno, found) =>
      var proc := v.proc.(lookups := v.proc.lookups + [v.dll.handle]);
      v.(pc := Settling(v.pc.p),
         proc := if found then proc.(addr := addr) else proc.(err := Some(ProcError(v.dll.name, proc.name, errno))))
    case LeaveProc(_) => v.(pc := AfterProc(v.pc.p), proc := v.proc.(once := Done))
    case Report(_) => v.(pc := Idle)
  }

  /** The Proc that the goroutine of this event is after, or goes after now. */
  function Subject(s: State, e: Event): int
    requires 0 <= e.t < |s.threads|
  {
    if e.Call? then e.callee else if s.threads[e.t].Idle? then -1 else s.threads[e.t].p
  }

  predicate InBounds(s: State, t: int, p: int) {
    0 <= t < |s.threads| && 0 <= p < |s.procs| && 0 <= s.procs[p].dll < |s.dlls|
  }

  function ViewOf(s: State, t: int, p: int): View
    requires InBounds(s, t, p)
  {
    View(s.threads[t], s.procs[p], s.dlls[s.procs[p].dll])
  }

  predicate Enabled(s: State, e: Event) {
    && 0 <= e.t < |s.threads|
    && InBounds(s, e.t, Subject(s, e))
    && CanStep(ViewOf(s, e.t, Subject(s, e)), e)
  }

  /** Store a goroutine's view back. */
  function Update(s: State, t: int, p: int, v: View): State
    requires InBounds(s, t, p)
  {
    s.(threads := s.threads[t := v.pc], procs := s.procs[p := v.proc], dlls := s.dlls[s.procs[p].dll := v.dll])
  }

  function Apply(s: State, e: Event): State
    requires Enabled(s, e)
  {
    var p := Subject(s, e);
    var s' := Update(s, e.t, p, Step(ViewOf(s, e.t, p), e));
    if e.Report? then s'.(history := s.history + [Completed(p, OutcomeOf(s.procs[p]))]) else s'
  }

  /** Freshly declared DLLs and Procs, and no goroutine inside. */
  ghost predicate Initial(s: State) {
    && (forall d :: 0 <= d < |s.dlls| ==> s.dlls[d] == DllState(s.dlls[d].name, NotStarted, 0, None, 0))
    && (forall p :: 0 <= p < |s.procs| ==>
          0 <= s.procs[p].dll < |s.dlls| && s.procs[p] == ProcState(s.procs[p].dll, s.procs[p].name, NotStarted, 0, None, []))
    && (forall t :: 0 <= t < |s.threads| ==> s.threads[t].Idle?)
    && s.history == []
  }

  ghost predicate IsRun(events: seq<Event>, states: seq<State>) {
    && |states| == |events| + 1
    && Initial(states[0])
    && forall i :: 0 <= i < |events| ==> Enabled(states[i], events[i]) && states[i + 1] == Apply(states[i], events[i])
  }

  // ---- what every state keeps ---------------------------------------------

  predicate InProcBody(pc: Pc) {
    pc.EnterDll? || pc.Loading? || pc.Loaded? || pc.AfterDll? || pc.LookingUp? || pc.Settling?
  }

  predicate InDllBody(pc: Pc) {
    pc.Loading? || pc.Loaded?
  }

  /** Loaded once: a handle, or the error that says the DLL is missing. */
  predicate DllSettled(d: DllState) {
    && d.loads == 1
    && (if d.err.Some? then d.err.value.proc == "" && d.err.value.dll == d.name && d.handle == 0 else d.handle != 0)
  }

  predicate DllUntouched(d: DllState) {
    d.loads == 0 && d.err.None? && d.handle == 0
  }

  /** Resolved once against a settled DLL: the DLL's own failure without a lookup, or one lookup with the
      handle the load returned. */
  predicate ProcSettled(p: ProcState, d: DllState) {
    && d.once.Done?
    && (if d.err.Some? then p.err == d.err && p.lookups == []
        else p.lookups == [d.handle]
             && (p.err.None? || (p.err.value.proc == p.name && p.err.value.dll == d.name)))
  }

  predicate ProcUntouched(p: ProcState) {
    p.lookups == [] && p.err.None?
  }

  /** What goroutine `t` at `v.pc` can rely on. A body is run by its goroutine only. */
  predicate ThreadRight(t: int, v: View) {
    && (InProcBody(v.pc) ==> v.proc.once == Running(t))
    && (InDllBody(v.pc) ==> v.dll.once == Running(t))
    && (v.pc.Loading? ==> DllUntouched(v.dll))
    && (v.pc.Loaded? ==> DllSettled(v.dll))
    && (v.pc.AfterDll? || v.pc.LookingUp? ==> v.dll.once.Done?)
    && (v.pc.LookingUp? ==> v.dll.err.None?)
    && (InProcBody(v.pc) && !v.pc.Settling? ==> ProcUntouched(v.proc))
    && (v.pc.Settling? ==> ProcSettled(v.proc, v.dll))
    && (v.pc.AfterProc? ==> v.proc.once.Done?)
  }

  predicate DllRight(d: DllState) {
    && (d.once.NotStarted? ==> DllUntouched(d))
    && (d.once.Done? ==> DllSettled(d))
  }

  predicate ProcRight(p: ProcState, d: DllState) {
    && (p.once.NotStarted? ==> ProcUntouched(p))
    && (p.once.Done? ==> ProcSettled(p, d))
  }

  predicate ThreadOk(s: State, t: int) {
    0 <= t < |s.threads| && !s.threads[t].Idle? ==>
      InBounds(s, t, s.threads[t].p) && ThreadRight(t, ViewOf(s, t, s.threads[t].p))
  }

  predicate ProcOk(s: State, p: int) {
    0 <= p < |s.procs| ==>
      && 0 <= s.procs[p].dll < |s.dlls|
      && ProcRight(s.procs[p], s.dlls[s.procs[p].dll])
      && (s.procs[p].once.Running? ==>
            var t := s.procs[p].once.thread;
            0 <= t < |s.threads| && InProcBody(s.threads[t]) && s.threads[t].p == p)
  }

  predicate DllOk(s: State, d: int) {
    0 <= d < |s.dlls| ==>
      && DllRight(s.dlls[d])
      && (s.dlls[d].once.Running? ==>
            var t := s.dlls[d].once.thread;
            && 0 <= t < |s.threads| && InDllBody(s.threads[t])
            && 0 <= s.threads[t].p < |s.procs| && s.procs[s.threads[t].p].dll == d)
  }

  predicate CompletedOk(s: State, i: int) {
    0 <= i < |s.history| ==>
      var r := s.history[i];
      0 <= r.p < |s.procs| && s.procs[r.p].once.Done? && r.outcome == OutcomeOf(s.procs[r.p])
  }

  ghost predicate Inv(s: State) {
    && (forall t :: ThreadOk(s, t))
    && (forall p :: ProcOk(s, p))
    && (forall d :: DllOk(s, d))
    && (forall i :: CompletedOk(s, i))
  }

  // ---- one step keeps it --------------------------------------------------

  /** A step of `t` touches a Proc or DLL only before its once starts or while `t` runs it. */
  predicate OnlyOwn(t: int, v: View, w: View) {
    && w.proc.dll == v.proc.dll && w.proc.name == v.proc.name && w.dll.name == v.dll.name
    && (w.proc == v.proc || v.proc.once.NotStarted? || v.proc.once == Running(t))
    && (w.dll == v.dll || v.dll.once.NotStarted? || v.dll.once == Running(t))
  }

  /** Everything one step has to establish about the goroutine's own view. */
  predicate StepRight(t: int, p: int, v: View, w: View) {
    && OnlyOwn(t, v, w)
    && (w.pc.Idle? || w.pc.p == p)
    && ThreadRight(t, w) && DllRight(w.dll) && ProcRight(w.proc, w.dll)
    && (w.proc.once == Running(t) <==> InProcBody(w.pc))
    && (w.dll.once == Running(t) <==> InDllBody(w.pc))
    && (w.proc.once.Running? && w.proc.once != Running(t) ==> w.proc == v.proc)
    && (w.dll.once.Running? && w.dll.once != Running(t) ==> w.dll == v.dll)
  }

  lemma {:induction false} LocalStep(t: int, p: int, v: View, e: Event)
    requires CanStep(v, e) && e.t == t && (e.Call? ==> e.callee == p) && (!v.pc.Idle? ==> v.pc.p == p)
    requires ThreadRight(t, v) && DllRight(v.dll) && ProcRight(v.proc, v.dll)
    requires v.proc.once == Running(t) ==> InProcBody(v.pc)
    requires v.dll.once == Running(t) ==> InDllBody(v.pc)
    ensures StepRight(t, p, v, Step(v, e))
  {}

  /** No other goroutine notices. */
  lemma {:induction false} OthersStable(t: int, v: View, w: View, u: int, x: View, y: View)
    requires OnlyOwn(t, v, w) && u != t && ThreadRight(u, x)
    requires y.pc == x.pc
    requires y.proc == x.proc || (x.proc == v.proc && y.proc == w.proc)
    requires y.dll == x.dll || (x.dll == v.dll && y.dll == w.dll)
    ensures ThreadRight(u, y)
  {}

  lemma {:induction false} ThreadsKept(s: State, t: int, p: int, w: View, u: int)
    requires InBounds(s, t, p) && Inv(s) && (s.threads[t].Idle? || s.threads[t].p == p)
    requires StepRight(t, p, ViewOf(s, t, p), w)
    ensures ThreadOk(Update(s, t, p, w), u)
  {
    assert ThreadOk(s, u);
    if 0 <= u < |s.threads| && u != t && !s.threads[u].Idle? {
      var q, s' := s.threads[u].p, Update(s, t, p, w);
      OthersStable(t, ViewOf(s, t, p), w, u, ViewOf(s, u, q), ViewOf(s', u, q));
    }
  }

  lemma {:induction false} ProcsKept(s: State, t: int, p: int, w: View, q: int)
    requires InBounds(s, t, p) && Inv(s) && (s.threads[t].Idle? || s.threads[t].p == p)
    requires StepRight(t, p, ViewOf(s, t, p), w)
    ensures ProcOk(Update(s, t, p, w), q)
  {
    assert ProcOk(s, q);
    assert ProcOk(s, p);
  }

  lemma {:induction false} DllsKept(s: State, t: int, p: int, w: View, d: int)
    requires InBounds(s, t, p) && Inv(s) && (s.threads[t].Idle? || s.threads[t].p == p)
    requires StepRight(t, p, ViewOf(s, t, p), w)
    ensures DllOk(Update(s, t, p, w), d)
  {
    assert DllOk(s, d);
    if 0 <= d < |s.dlls| && s.dlls[d].once.Running? {
      assert ThreadOk(s, s.dlls[d].once.thread);
    }
  }

  lemma {:induction false} HistoryKept(s: State, t: int, p: int, w: View, i: int)
    requires InBounds(s, t, p) && Inv(s)
    requires OnlyOwn(t, ViewOf(s, t, p), w)
    requires s.procs[p].once.Running? ==> s.procs[p].once == Running(t) || w.proc == s.procs[p]
    ensures CompletedOk(Update(s, t, p, w), i)
  {
    assert CompletedOk(s, i);
  }

  lemma {:induction false} StepKeepsInv(s: State, e: Event)
    requires Inv(s) && Enabled(s, e)
    ensures Inv(Apply(s, e))
  {
    var t, p := e.t, Subject(s, e);
    var v := ViewOf(s, t, p);
    var w := Step(v, e);
    assert ThreadOk(s, t) && ProcOk(s, p) && DllOk(s, s.procs[p].dll);
    LocalStep(t, p, v, e);
    var s' := Update(s, t, p, w);
    forall u ensures ThreadOk(s', u) { ThreadsKept(s, t, p, w, u); }
    forall q ensures ProcOk(s', q) { ProcsKept(s, t, p, w, q); }
    forall d ensures DllOk(s', d) { DllsKept(s, t, p, w, d); }
    forall i ensures CompletedOk(s', i) { HistoryKept(s, t, p, w, i); }
    if e.Report? {
      ReportKeepsInv(s', Completed(p, OutcomeOf(s.procs[p])));
    }
  }

  lemma {:induction false} ReportKeepsInv(s: State, r: Completed)
    requires Inv(s) && 0 <= r.p < |s.procs| && s.procs[r.p].once.Done? && r.outcome == OutcomeOf(s.procs[r.p])
    ensures Inv(s.(history := s.history + [r]))
  {
    var s' := s.(history := s.history + [r]);
    forall u ensures ThreadOk(s', u) { assert ThreadOk(s, u); }
    forall q ensures ProcOk(s', q) { assert ProcOk(s, q); }
    forall d ensures DllOk(s', d) { assert DllOk(s, d); }
    forall i ensures CompletedOk(s', i) { assert CompletedOk(s, i); }
  }

  lemma {:induction false} InitialInv(s: State)
    requires Initial(s)
    ensures Inv(s)
  {}

  lemma {:induction false} RunKeepsInv(events: seq<Event>, states: seq<State>, i: nat)
    requires IsRun(events, states) && i < |states|
    ensures Inv(states[i])
    decreases i
  {
    if i == 0 {
      InitialInv(states[0]);
    } else {
      RunKeepsInv(events, states, i - 1);
      StepKeepsInv(states[i - 1], events[i - 1]);
    }
  }

  // ---- safety -------------------------------------------------------------

  lemma {:induction false} DllCounts(s: State, d: int)
    requires Inv(s) && 0 <= d < |s.dlls|
    ensures s.dlls[d].loads <= 1
  {
    assert DllOk(s, d);
    if s.dlls[d].once.Running? {
      assert ThreadOk(s, s.dlls[d].once.thread);
    }
  }

  lemma {:induction false} ProcCounts(s: State, p: int)
    requires Inv(s) && 0 <= p < |s.procs|
    ensures |s.procs[p].lookups| <= 1
    ensures 0 <= s.procs[p].dll < |s.dlls|
    ensures forall h :: h in s.procs[p].lookups ==>
              var d := s.dlls[s.procs[p].dll];
              d.once.Done? && d.loads == 1 && d.err.None? && h == d.handle && h != 0
  {
    assert ProcOk(s, p);
    assert DllOk(s, s.procs[p].dll);
    if s.procs[p].once.Running? {
      assert ThreadOk(s, s.procs[p].once.thread);
    }
  }

  /**
  In every state of every interleaving: a DLL has been loaded at most once, an export looked up at most
  once, and only with the non-zero handle that its DLL's one successful load returned.
  */
  lemma {:induction false} LoadedAndLookedUpOnce(events: seq<Event>, states: seq<State>, i: nat)
    requires IsRun(events, states) && i < |states|
    ensures forall d :: 0 <= d < |states[i].dlls| ==> states[i].dlls[d].loads <= 1
    ensures forall p :: 0 <= p < |states[i].procs| ==> |states[i].procs[p].lookups| <= 1
    ensures forall p, h :: 0 <= p < |states[i].procs| && h in states[i].procs[p].lookups ==>
              && 0 <= states[i].procs[p].dll < |states[i].dlls|
              && var d := states[i].dlls[states[i].procs[p].dll];
                 d.once.Done? && d.loads == 1 && d.err.None? && h == d.handle && h != 0
  {
    var s := states[i];
    RunKeepsInv(events, states, i);
    forall d | 0 <= d < |s.dlls| ensures s.dlls[d].loads <= 1 {
      DllCounts(s, d);
    }
    forall p | 0 <= p < |s.procs|
      ensures |s.procs[p].lookups| <= 1
      ensures 0 <= s.procs[p].dll < |s.dlls|
      ensures forall h :: h in s.procs[p].lookups ==>
                var d := s.dlls[s.procs[p].dll];
                d.once.Done? && d.loads == 1 && d.err.None? && h == d.handle && h != 0
    {
      ProcCounts(s, p);
    }
  }

  lemma {:induction false} HistoryGrows(events: seq<Event>, states: seq<State>, i: nat, j: nat)
    requires IsRun(events, states) && i <= j < |states|
    ensures states[i].history <= states[j].history
    decreases j - i
  {
    if i < j {
      HistoryGrows(events, states, i, j - 1);
      assert states[j] == Apply(states[j - 1], events[j - 1]);
    }
  }

  /** All Find and Addr calls on one Proc that ever complete, at whatever times in a run, agree. */
  lemma {:induction false} CompletedCallsAgree(events: seq<Event>, states: seq<State>, i: nat, j: nat, a: nat, b: nat)
    requires IsRun(events, states) && i <= j < |states|
    requires a < |states[i].history| && b < |states[j].history|
    requires states[i].history[a].p == states[j].history[b].p
    ensures states[i].history[a].outcome == states[j].history[b].outcome
  {
    HistoryGrows(events, states, i, j);
    RunKeepsInv(events, states, j);
    assert CompletedOk(states[j], a) && CompletedOk(states[j], b);
    assert states[i].history[a] == states[j].history[a];
  }

  // ---- which error --------------------------------------------------------

  predicate Reports(r: Completed, target: Sentinel) {
    r.outcome.Failed? && Is(r.outcome.err, target)
  }

  /** What a completed call says about its DLL. */
  lemma {:induction false} ReportedErrors(s: State, i: nat)
    requires Inv(s) && i < |s.history|
    ensures InBoundsProc(s, s.history[i].p)
    ensures var proc := s.procs[s.history[i].p]; var dll := s.dlls[proc.dll];
            && dll.once.Done?
            && (Reports(s.history[i], ErrDLLNotFound) <==> dll.err.Some? || (proc.err.Some? && proc.name == ""))
            && (Reports(s.history[i], ErrProcNotFound) <==> dll.err.None? && proc.err.Some? && proc.name != "")
  {
    assert CompletedOk(s, i);
    var p := s.history[i].p;
    assert ProcOk(s, p);
    assert DllOk(s, s.procs[p].dll);
  }

  predicate InBoundsProc(s: State, p: int) {
    0 <= p < |s.procs| && 0 <= s.procs[p].dll < |s.dlls|
  }

  /**
  When a call on a named Proc has reported that its DLL is missing, then every call that completes on any Proc
  of that DLL reports the same, and none reports a missing export.
  */
  lemma {:induction false} MissingDllIsReportedByAll(events: seq<Event>, states: seq<State>, n: nat, i: nat, j: nat)
    requires IsRun(events, states) && n < |states| && i < |states[n].history| && j < |states[n].history|
    requires InBoundsProc(states[n], states[n].history[i].p) && InBoundsProc(states[n], states[n].history[j].p)
    requires states[n].procs[states[n].history[i].p].dll == states[n].procs[states[n].history[j].p].dll
    requires Reports(states[n].history[i], ErrDLLNotFound) && states[n].procs[states[n].history[i].p].name != ""
    ensures Reports(states[n].history[j], ErrDLLNotFound)
    ensures !Reports(states[n].history[j], ErrProcNotFound)
  {
    RunKeepsInv(events, states, n);
    ReportedErrors(states[n], i);
    ReportedErrors(states[n], j);
  }

  // ---- progress -----------------------------------------------------------

  /** Any step but a new call. */
  ghost predicate CanProceed(s: State, t: int) {
    exists e: Event :: e.t == t && !e.Call? && Enabled(s, e)
  }

  lemma {:induction false} Unblocked(s: State, t: int)
    requires Inv(s) && 0 <= t < |s.threads| && !s.threads[t].Idle?
    requires s.threads[t].EnterProc? && InBounds(s, t, s.threads[t].p) ==> !s.procs[s.threads[t].p].once.Running?
    requires s.threads[t].EnterDll? && InBounds(s, t, s.threads[t].p) ==> !ViewOf(s, t, s.threads[t].p).dll.once.Running?
    ensures CanProceed(s, t)
  {
    assert ThreadOk(s, t);
    var e := match s.threads[t]
      case EnterProc(_) => StepProc(t)
      case EnterDll(_) => StepDll(t)
      case Loading(_) => Load(t, 0, 0)
      case Loaded(_) => LeaveDll(t)
      case AfterDll(_) => ReadDll(t)
      case LookingUp(_) => Lookup(t, 0, 0, false)
      case Settling(_) => LeaveProc(t)
      case AfterProc(_) => Report(t)
      case Idle => Report(t);
    assert Enabled(s, e);
  }

  /** Inside a Proc's once, the goroutine itself or the one that is loading the DLL can step. */
  lemma {:induction false} BodyProceeds(s: State, t: int) returns (u: int)
    requires Inv(s) && 0 <= t < |s.threads| && InProcBody(s.threads[t])
    ensures CanProceed(s, u)
  {
    u := t;
    assert ThreadOk(s, t);
    var v := ViewOf(s, t, s.threads[t].p);
    if v.pc.EnterDll? && v.dll.once.Running? {
      assert DllOk(s, v.proc.dll);
      u := v.dll.once.thread;
      assert ThreadOk(s, u);
    }
    Unblocked(s, u);
  }

  /** The nested onces cannot deadlock: whenever some call is unfinished, some goroutine can step. */
  lemma {:induction false} NoDeadlock(events: seq<Event>, states: seq<State>, i: nat, t: int)
    requires IsRun(events, states) && i < |states|
    requires 0 <= t < |states[i].threads| && !states[i].threads[t].Idle?
    ensures exists u :: CanProceed(states[i], u)
  {
    var s := states[i];
    RunKeepsInv(events, states, i);
    assert ThreadOk(s, t);
    var p := s.threads[t].p;
    if s.threads[t].EnterProc? && s.procs[p].once.Running? {
      assert ProcOk(s, p);
      var u := BodyProceeds(s, s.procs[p].once.thread);
    } else if InProcBody(s.threads[t]) {
      var u := BodyProceeds(s, t);
    } else {
      Unblocked(s, t);
    }
  }

  /** An upper bound on the steps left in a call. */
  function StepsLeft(pc: Pc): nat {
    match pc
    case Idle => 0
    case AfterProc(_) => 1
    case Settling(_) => 2
    case LookingUp(_) => 3
    case AfterDll(_) => 4
    case Loaded(_) => 5
    case Loading(_) => 6
    case EnterDll(_) => 7
    case EnterProc(_) => 8
  }

  function Work(threads: seq<Pc>): nat {
    if threads == [] then 0 else StepsLeft(threads[0]) + Work(threads[1..])
  }

  lemma {:induction false} WorkBound(threads: seq<Pc>)
    ensures Work(threads) <= 8 * |threads|
  {
    if threads != [] {
      WorkBound(threads[1..]);
    }
  }

  lemma {:induction false} WorkDrops(threads: seq<Pc>, t: int, pc: Pc)
    requires 0 <= t < |threads| && StepsLeft(pc) < StepsLeft(threads[t])
    ensures Work(threads[t := pc]) < Work(threads)
    decreases |threads|
  {
    if t == 0 {
      assert threads[0 := pc][1..] == threads[1..];
    } else {
      assert threads[t := pc][1..] == threads[1..][t - 1 := pc];
      WorkDrops(threads[1..], t - 1, pc);
    }
  }

  /** Every step but a new call uses up work. */
  lemma {:induction false} StepUsesWork(s: State, e: Event)
    requires Enabled(s, e) && !e.Call?
    ensures |Apply(s, e).threads| == |s.threads|
    ensures Work(Apply(s, e).threads) < Work(s.threads)
  {
    var v := ViewOf(s, e.t, Subject(s, e));
    var w := Step(v, e);
    assert StepsLeft(w.pc) < StepsLeft(v.pc);
    WorkDrops(s.threads, e.t, w.pc);
    assert Apply(s, e).threads == s.threads[e.t := w.pc];
  }

  /** Calls in flight finish within eight steps each, however the goroutines interleave. */
  lemma {:induction false} CallsFinish(events: seq<Event>, states: seq<State>, i: nat, j: nat)
    requires IsRun(events, states) && i <= j < |states|
    requires forall k :: i <= k < j ==> !events[k].Call?
    ensures (j - i) + Work(states[j].threads) <= Work(states[i].threads) <= 8 * |states[i].threads|
    decreases j - i
  {
    WorkBound(states[i].threads);
    if i < j {
      CallsFinish(events, states, i, j - 1);
      StepUsesWork(states[j - 1], events[j - 1]);
    }
  }

  // ---- one goroutine, undisturbed -----------------------------------------

  /** What the operating system answers, should it be asked. */
  datatype Answers = Answers(handle: int, loadErrno: int, addr: int, lookupErrno: int, found: bool)

  /** The DLL after load(). */
  function LoadedDll(d: DllState, os: Answers): DllState {
    if d.once.Done? then d
    else d.(once := Done, loads := d.loads + 1, handle := os.handle,
            err := if os.handle == 0 then Some(ProcError(d.name, "", os.loadErrno)) else None)
  }

  /** The Proc after find(), against its DLL after load(). */
  function FoundProc(p: ProcState, d: DllState, os: Answers): ProcState {
    if p.once.Done? then p
    else if d.err.Some? then p.(once := Done, err := d.err)
    else if os.found then p.(once := Done, lookups := p.lookups + [d.handle], addr := os.addr)
    else p.(once := Done, lookups := p.lookups + [d.handle], err := Some(ProcError(d.name, p.name, os.lookupErrno)))
  }

  /** The DLL after find() on one of its Procs. */
  function DllAfter(p: ProcState, d: DllState, os: Answers): DllState {
    if p.once.Done? then d else LoadedDll(d, os)
  }

  /** A goroutine's view after find(). */
  function FoundView(v: View, os: Answers): View
    requires v.pc.EnterProc?
  {
    View(AfterProc(v.pc.p), FoundProc(v.proc, LoadedDll(v.dll, os), os), DllAfter(v.proc, v.dll, os))
  }

  /** load() at dll.once.Do. */
  function LoadEvents(t: int, d: DllState, os: Answers): seq<Event> {
    if d.once.Done? then [StepDll(t)] else [StepDll(t), Load(t, os.handle, os.loadErrno), LeaveDll(t)]
  }

  /** The rest of the body of p.once. */
  function ResolveEvents(t: int, d: DllState, os: Answers): seq<Event> {
    if d.err.Some? then [ReadDll(t), LeaveProc(t)]
    else [ReadDll(t), Lookup(t, os.addr, os.lookupErrno, os.found), LeaveProc(t)]
  }

  /** The steps of one call from entry to return. */
  function CallEvents(t: int, v: View, os: Answers): seq<Event> {
    if v.proc.once.Done? then [StepProc(t)]
    else [StepProc(t)] + (LoadEvents(t, v.dll, os) + ResolveEvents(t, LoadedDll(v.dll, os), os))
  }

  /** The view after these steps, if all of them can be taken. */
  function Steps(v: View, events: seq<Event>): Option<View>
    decreases |events|
  {
    if events == [] then Some(v)
    else if !CanStep(v, events[0]) then None
    else Steps(Step(v, events[0]), events[1..])
  }

  lemma {:induction false} StepsConcat(v: View, a: seq<Event>, b: seq<Event>)
    ensures Steps(v, a + b) == match Steps(v, a) case Some(w) => Steps(w, b) case None => None
    decreases |a|
  {
    if a == [] {
      assert a + b == b;
    } else if CanStep(v, a[0]) {
      assert (a + b)[1..] == a[1..] + b;
      StepsConcat(Step(v, a[0]), a[1..], b);
    }
  }

  lemma {:induction false} LoadAlone(t: int, v: View, os: Answers)
    requires v.pc.EnterDll? && !v.dll.once.Running? && DllRight(v.dll)
    ensures Steps(v, LoadEvents(t, v.dll, os)) == Some(v.(pc := AfterDll(v.pc.p), dll := LoadedDll(v.dll, os)))
  {
    var one := Step(v, StepDll(t));
    if v.dll.once.Done? {
      assert Steps(one, []) == Some(one);
    } else {
      var two := Step(one, Load(t, os.handle, os.loadErrno));
      var three := Step(two, LeaveDll(t));
      assert Steps(three, []) == Some(three);
      assert Steps(two, [LeaveDll(t)]) == Some(three);
      assert Steps(one, [Load(t, os.handle, os.loadErrno), LeaveDll(t)]) == Some(three);
    }
  }

  lemma {:induction false} ResolveAlone(t: int, v: View, os: Answers)
    requires v.pc.AfterDll? && v.proc.once == Running(t) && ProcUntouched(v.proc)
    ensures Steps(v, ResolveEvents(t, v.dll, os)) == Some(v.(pc := AfterProc(v.pc.p), proc := FoundProc(v.proc, v.dll, os)))
  {
    var one := Step(v, ReadDll(t));
    var two := if v.dll.err.Some? then one else Step(one, Lookup(t, os.addr, os.lookupErrno, os.found));
    var three := Step(two, LeaveProc(t));
    assert Steps(three, []) == Some(three);
    assert Steps(two, [LeaveProc(t)]) == Some(three);
    if v.dll.err.None? {
      assert Steps(one, [Lookup(t, os.addr, os.lookupErrno, os.found), LeaveProc(t)]) == Some(three);
    }
  }

  /** The protocol, run by one goroutine alone, is the sequential meaning of find(). */
  lemma {:induction false} AloneIsSequential(t: int, v: View, os: Answers)
    requires v.pc.EnterProc? && !v.proc.once.Running? && !v.dll.once.Running?
    requires DllRight(v.dll) && ProcRight(v.proc, v.dll)
    ensures Steps(v, CallEvents(t, v, os)) == Some(FoundView(v, os))
  {
    var one := Step(v, StepProc(t));
    assert Steps(one, []) == Some(one);
    if v.proc.once.NotStarted? {
      var d := LoadedDll(v.dll, os);
      LoadAlone(t, one, os);
      StepsConcat(one, LoadEvents(t, v.dll, os), ResolveEvents(t, d, os));
      ResolveAlone(t, one.(pc := AfterDll(v.pc.p), dll := d), os);
    }
  }

  lemma {:induction false} Extend(events: seq<Event>, states: seq<State>, e: Event)
    returns (events': seq<Event>, states': seq<State>)
    requires IsRun(events, states) && Enabled(states[|events|], e)
    ensures IsRun(events', states') && events' == events + [e] && states'[0] == states[0]
    ensures states'[|events'|] == Apply(states[|events|], e)
  {
    events', states' := events + [e], states + [Apply(states[|events|], e)];
  }

  lemma {:induction false} PlayOne(events: seq<Event>, states: seq<State>, t: int, p: int, e: Event)
    returns (events': seq<Event>, states': seq<State>)
    requires IsRun(events, states)
    requires InBounds(states[|events|], t, p) && !states[|events|].threads[t].Idle? && states[|events|].threads[t].p == p
    requires e.t == t && !e.Call? && !e.Report? && CanStep(ViewOf(states[|events|], t, p), e)
    ensures IsRun(events', states') && events' == events + [e] && states'[0] == states[0]
    ensures var w := Step(ViewOf(states[|events|], t, p), e);
            && states'[|events'|] == Update(states[|events|], t, p, w)
            && InBounds(states'[|events'|], t, p) && ViewOf(states'[|events'|], t, p) == w
            && !w.pc.Idle? && w.pc.p == p && w.proc.dll == states[|events|].procs[p].dll
  {
    events', states' := Extend(events, states, e);
  }

  /** Steps that a goroutine can take on its own view are steps of the whole protocol. */
  lemma {:induction false} Play(events: seq<Event>, states: seq<State>, t: int, p: int, more: seq<Event>)
    returns (events': seq<Event>, states': seq<State>)
    requires IsRun(events, states)
    requires InBounds(states[|events|], t, p) && !states[|events|].threads[t].Idle? && states[|events|].threads[t].p == p
    requires forall i :: 0 <= i < |more| ==> more[i].t == t && !more[i].Call? && !more[i].Report?
    requires Steps(ViewOf(states[|events|], t, p), more).Some?
    ensures IsRun(events', states') && events' == events + more && states'[0] == states[0]
    ensures states'[|events'|] == Update(states[|events|], t, p, Steps(ViewOf(states[|events|], t, p), more).value)
    decreases |more|
  {
    var s := states[|events|];
    var v := ViewOf(s, t, p);
    if more == [] {
      events', states' := events, states;
      assert Update(s, t, p, v) == s;
    } else {
      var w := Step(v, more[0]);
      events', states' := PlayOne(events, states, t, p, more[0]);
      events', states' := Play(events', states', t, p, more[1..]);
      UpdateTwice(s, t, p, w, Steps(w, more[1..]).value);
      assert [more[0]] + more[1..] == more;
    }
  }

  lemma {:induction false} UpdateTwice(s: State, t: int, p: int, v: View, w: View)
    requires InBounds(s, t, p) && v.proc.dll == s.procs[p].dll
    ensures Update(Update(s, t, p, v), t, p, w) == Update(s, t, p, w)
  {}

  /** From any reachable state with the onces free, a goroutine at p.once can run to the end alone, and leaves
      exactly what find() means sequentially. */
  lemma {:induction false} FindAlone(events: seq<Event>, states: seq<State>, t: int, os: Answers)
    returns (events': seq<Event>, states': seq<State>)
    requires IsRun(events, states) && 0 <= t < |states[|events|].threads| && states[|events|].threads[t].EnterProc?
    requires InBounds(states[|events|], t, states[|events|].threads[t].p)
    requires var v := ViewOf(states[|events|], t, states[|events|].threads[t].p); !v.proc.once.Running? && !v.dll.once.Running?
    ensures IsRun(events', states') && events <= events' && states'[0] == states[0]
    ensures var s := states[|events|]; var p := s.threads[t].p;
            states'[|events'|] == Update(s, t, p, FoundView(ViewOf(s, t, p), os))
  {
    var s := states[|events|];
    var p := s.threads[t].p;
    var v := ViewOf(s, t, p);
    RunKeepsInv(events, states, |events|);
    assert ThreadOk(s, t) && ProcOk(s, p) && DllOk(s, s.procs[p].dll);
    AloneIsSequential(t, v, os);
    events', states' := Play(events, states, t, p, CallEvents(t, v, os));
  }

  // ---- is "DLL not found" true? -------------------------------------------

  predicate LoadFailed(s: State, p: int) {
    InBoundsProc(s, p) && s.dlls[s.procs[p].dll].err.Some?
  }

  /** If call `i` is a failed one on `p`, it reports a missing DLL exactly when the load failed. */
  predicate TruthfulAt(s: State, i: int, p: int) {
    0 <= i < |s.history| && s.history[i].p == p && s.history[i].outcome.Failed? ==>
      (Reports(s.history[i], ErrDLLNotFound) <==> LoadFailed(s, p))
  }

  /** Every failed call on `p` in every run from `start` does. */
  ghost predicate Truthful(start: State, p: int) {
    forall events, states, i :: IsRun(events, states) && states[0] == start ==> TruthfulAt(states[|events|], i, p)
  }

  lemma {:induction false} DeclarationsKept(events: seq<Event>, states: seq<State>, i: nat, p: int)
    requires IsRun(events, states) && i < |states| && 0 <= p < |states[0].procs|
    ensures |states[i].procs| == |states[0].procs| && states[i].procs[p].name == states[0].procs[p].name
    decreases i
  {
    if i > 0 {
      DeclarationsKept(events, states, i - 1, p);
      assert states[i] == Apply(states[i - 1], events[i - 1]);
    }
  }

  /**
  Whatever the program declares: failed calls on a Proc tell a missing DLL from a missing export in every run
  if and only if the Proc has a name, goroutines to call it granted.
  */
  lemma {:induction false} TruthfulIffNamed(start: State, p: int)
    requires Initial(start) && 0 <= p < |start.procs|
    ensures Truthful(start, p) <==> start.procs[p].name != "" || start.threads == []
  {
    forall events: seq<Event>, states: seq<State>, i | IsRun(events, states) && states[0] == start && (start.procs[p].name != "" || start.threads == [])
      ensures TruthfulAt(states[|events|], i, p)
    {
      if 0 <= i < |states[|events|].history| && states[|events|].history[i].p == p {
        TruthfulWhenNamed(events, states, i, p);
      }
    }
    if start.procs[p].name == "" && start.threads != [] {
      var events, states := UnnamedExportMisreported(start, 0, p);
      assert !TruthfulAt(states[|events|], 0, p);
    }
  }

  lemma {:induction false} TruthfulWhenNamed(events: seq<Event>, states: seq<State>, i: nat, p: nat)
    requires IsRun(events, states) && p < |states[0].procs| && i < |states[|events|].history|
    requires states[|events|].history[i].p == p && (states[0].procs[p].name != "" || states[0].threads == [])
    ensures TruthfulAt(states[|events|], i, p)
  {
    var last := states[|events|];
    if states[0].threads == [] {
      NobodyCalls(events, states);
    }
    DeclarationsKept(events, states, |events|, p);
    RunKeepsInv(events, states, |events|);
    ReportedErrors(last, i);
    assert CompletedOk(last, i);
  }

  lemma {:induction false} NobodyCalls(events: seq<Event>, states: seq<State>)
    requires IsRun(events, states) && states[0].threads == []
    ensures events == []
  {
    var e := if events == [] then Report(0) else events[0];
    assert events != [] ==> Enabled(states[0], e);
  }

  /** From any start, on any unnamed Proc: the DLL does load and only the lookup fails, yet the call reports the
      DLL as missing. */
  lemma {:induction false} UnnamedExportMisreported(start: State, t: nat, p: nat)
    returns (events: seq<Event>, states: seq<State>)
    requires Initial(start) && t < |start.threads| && p < |start.procs| && start.procs[p].name == ""
    ensures IsRun(events, states) && states[0] == start
    ensures var last := states[|events|];
            && |last.history| == 1 && last.history[0].p == p
            && Reports(last.history[0], ErrDLLNotFound) && !LoadFailed(last, p)
  {
    events, states := Extend([], [start], Call(t, p));
    events, states := FindAlone(events, states, t, Answers(7, 0, 0, 127, false));
    events, states := Extend(events, states, Report(t));
  }
}
