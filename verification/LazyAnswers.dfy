/**
Where a completed call's answer comes from: the addresses, error numbers and handles of the lazy-loading protocol
are those the operating system gave in the run, to this export and this DLL.
*/
module LazyAnswers {
  import opened Options
  import opened Names
  import opened LazyLoad

  /** Step `k` of the run, before state `n`, is by a goroutine that is after Proc `p`. */
  predicate StepFor(events: seq<Event>, states: seq<State>, k: int, n: int, p: int) {
    && 0 <= k < n && k < |events| && k < |states|
    && 0 <= events[k].t < |states[k].threads| && Subject(states[k], events[k]) == p
  }

  /** At step `k` GetProcAddress was asked for Proc `p` and answered so. */
  predicate LookupAt(events: seq<Event>, states: seq<State>, k: int, n: int, p: int, addr: int, errno: int, found: bool) {
    && StepFor(events, states, k, n, p)
    && events[k] == Lookup(events[k].t, addr, errno, found)
  }

  /** At step `k` DLL `d` was asked to be loaded, with that answer. */
  predicate LoadAt(events: seq<Event>, states: seq<State>, k: int, n: int, d: int, handle: int, errno: int) {
    && 0 <= k < n && k < |events| && k < |states| && 0 <= events[k].t < |states[k].threads|
    && 0 <= Subject(states[k], events[k]) < |states[k].procs| && states[k].procs[Subject(states[k], events[k])].dll == d
    && events[k] == Load(events[k].t, handle, errno)
  }

  ghost predicate Loaded(events: seq<Event>, states: seq<State>, n: int, d: int, handle: int) {
    exists k, errno :: LoadAt(events, states, k, n, d, handle, errno)
  }

  ghost predicate LoadFailedWith(events: seq<Event>, states: seq<State>, n: int, d: int, errno: int) {
    exists k :: LoadAt(events, states, k, n, d, 0, errno)
  }

  ghost predicate FoundAt(events: seq<Event>, states: seq<State>, n: int, p: int, addr: int) {
    exists k, errno :: LookupAt(events, states, k, n, p, addr, errno, true)
  }

  ghost predicate LookupFailedWith(events: seq<Event>, states: seq<State>, n: int, p: int, errno: int) {
    exists k, addr :: LookupAt(events, states, k, n, p, addr, errno, false)
  }

  /** The error of a failed load or a failed lookup in this run. */
  ghost predicate ErrorFrom(events: seq<Event>, states: seq<State>, n: int, p: int, proc: ProcState, dll: DllState, e: ProcError) {
    || (e == ProcError(dll.name, proc.name, e.errno) && LookupFailedWith(events, states, n, p, e.errno))
    || (e == ProcError(dll.name, "", e.errno) && LoadFailedWith(events, states, n, proc.dll, e.errno))
  }

  // ---- every state --------------------------------------------------------

  ghost predicate DllFrom(events: seq<Event>, states: seq<State>, n: int, d: int, dll: DllState) {
    && (dll.err.Some? ==> dll.err.value == ProcError(dll.name, "", dll.err.value.errno)
                          && LoadFailedWith(events, states, n, d, dll.err.value.errno))
    && (dll.loads > 0 && dll.err.None? ==> dll.handle != 0 && Loaded(events, states, n, d, dll.handle))
  }

  ghost predicate ProcFrom(events: seq<Event>, states: seq<State>, n: int, p: int, proc: ProcState, dll: DllState) {
    && (forall h :: h in proc.lookups ==> Loaded(events, states, n, proc.dll, h))
    && (proc.err.Some? ==> ErrorFrom(events, states, n, p, proc, dll, proc.err.value))
    && (proc.err.None? && proc.lookups != [] ==> FoundAt(events, states, n, p, proc.addr))
  }

  ghost predicate AllFrom(events: seq<Event>, states: seq<State>, n: int)
    requires 0 <= n < |states|
  {
    && (forall d :: 0 <= d < |states[n].dlls| ==> DllFrom(events, states, n, d, states[n].dlls[d]))
    && (forall p :: InBoundsProc(states[n], p) ==>
          ProcFrom(events, states, n, p, states[n].procs[p], states[n].dlls[states[n].procs[p].dll]))
  }

  // ---- one step -----------------------------------------------------------

  lemma {:induction false} LaterDll(events: seq<Event>, states: seq<State>, n: int, d: int, dll: DllState)
    requires DllFrom(events, states, n, d, dll)
    ensures DllFrom(events, states, n + 1, d, dll)
  {
    if dll.err.Some? {
      var k :| LoadAt(events, states, k, n, d, 0, dll.err.value.errno);
      assert LoadAt(events, states, k, n + 1, d, 0, dll.err.value.errno);
    }
    if dll.loads > 0 && dll.err.None? {
      LaterLoaded(events, states, n, d, dll.handle);
    }
  }

  lemma {:induction false} LaterLoaded(events: seq<Event>, states: seq<State>, n: int, d: int, handle: int)
    requires Loaded(events, states, n, d, handle)
    ensures Loaded(events, states, n + 1, d, handle)
  {
    var k, errno :| LoadAt(events, states, k, n, d, handle, errno);
    assert LoadAt(events, states, k, n + 1, d, handle, errno);
  }

  lemma {:induction false} LaterError(events: seq<Event>, states: seq<State>, n: int, p: int, proc: ProcState, dll: DllState, e: ProcError)
    requires ErrorFrom(events, states, n, p, proc, dll, e)
    ensures ErrorFrom(events, states, n + 1, p, proc, dll, e)
  {
    if LookupFailedWith(events, states, n, p, e.errno) {
      var k, addr :| LookupAt(events, states, k, n, p, addr, e.errno, false);
      assert LookupAt(events, states, k, n + 1, p, addr, e.errno, false);
    }
    if LoadFailedWith(events, states, n, proc.dll, e.errno) {
      var k :| LoadAt(events, states, k, n, proc.dll, 0, e.errno);
      assert LoadAt(events, states, k, n + 1, proc.dll, 0, e.errno);
    }
  }

  lemma {:induction false} LaterProc(events: seq<Event>, states: seq<State>, n: int, p: int, proc: ProcState, dll: DllState)
    requires ProcFrom(events, states, n, p, proc, dll)
    ensures ProcFrom(events, states, n + 1, p, proc, dll)
  {
    forall h | h in proc.lookups ensures Loaded(events, states, n + 1, proc.dll, h) {
      LaterLoaded(events, states, n, proc.dll, h);
    }
    if proc.err.Some? {
      LaterError(events, states, n, p, proc, dll, proc.err.value);
    }
    if proc.err.None? && proc.lookups != [] {
      var k, errno :| LookupAt(events, states, k, n, p, proc.addr, errno, true);
      assert LookupAt(events, states, k, n + 1, p, proc.addr, errno, true);
    }
  }

  /** A Proc's provenance does not look at its DLL beyond the name. */
  lemma {:induction false} OtherDll(events: seq<Event>, states: seq<State>, n: int, p: int, proc: ProcState, dll: DllState, other: DllState)
    requires ProcFrom(events, states, n, p, proc, dll) && other.name == dll.name
    ensures ProcFrom(events, states, n, p, proc, other)
  {}

  lemma {:induction false} LoadStep(events: seq<Event>, states: seq<State>, n: nat, p: int, v: View, d: int)
    requires n < |events| && n < |states| && StepFor(events, states, n, n + 1, p) && InBounds(states[n], events[n].t, p)
    requires v == ViewOf(states[n], events[n].t, p) && d == states[n].procs[p].dll && CanStep(v, events[n])
    requires DllFrom(events, states, n, d, v.dll) && ThreadRight(events[n].t, v)
    ensures DllFrom(events, states, n + 1, d, Step(v, events[n]).dll)
  {
    var e := events[n];
    LaterDll(events, states, n, d, v.dll);
    if e.Load? {
      assert LoadAt(events, states, n, n + 1, d, e.handle, e.errno);
    }
  }

  lemma {:induction false} LookupStep(events: seq<Event>, states: seq<State>, n: nat, p: int, v: View)
    requires n < |events| && n < |states| && StepFor(events, states, n, n + 1, p) && InBounds(states[n], events[n].t, p)
    requires v == ViewOf(states[n], events[n].t, p) && CanStep(v, events[n])
    requires ProcFrom(events, states, n, p, v.proc, v.dll) && DllFrom(events, states, n, v.proc.dll, v.dll)
    requires ThreadRight(events[n].t, v) && DllRight(v.dll)
    ensures ProcFrom(events, states, n + 1, p, Step(v, events[n]).proc, v.dll)
  {
    var e, w := events[n], Step(v, events[n]);
    LaterProc(events, states, n, p, v.proc, v.dll);
    LaterDll(events, states, n, v.proc.dll, v.dll);
    if e.Lookup? {
      assert LookupAt(events, states, n, n + 1, p, e.addr, e.errno, e.found);
      if !e.found {
        assert LookupFailedWith(events, states, n + 1, p, e.errno);
      }
    }
  }

  /** `r` is `s` with this goroutine's Proc and DLL stored back. */
  predicate Stored(s: State, p: int, w: View, r: State) {
    InBoundsProc(s, p) && r.procs == s.procs[p := w.proc] && r.dlls == s.dlls[s.procs[p].dll := w.dll]
  }

  lemma {:induction false} DllsFrom(events: seq<Event>, states: seq<State>, n: nat, p: int, w: View, r: State, d: int)
    requires n < |states| && AllFrom(events, states, n) && Stored(states[n], p, w, r)
    requires DllFrom(events, states, n + 1, states[n].procs[p].dll, w.dll)
    requires 0 <= d < |r.dlls|
    ensures DllFrom(events, states, n + 1, d, r.dlls[d])
  {
    if d != states[n].procs[p].dll {
      LaterDll(events, states, n, d, states[n].dlls[d]);
    }
  }

  lemma {:induction false} ProcsFrom(events: seq<Event>, states: seq<State>, n: nat, p: int, v: DllState, w: View, r: State, q: int)
    requires n < |states| && AllFrom(events, states, n) && Stored(states[n], p, w, r)
    requires v == states[n].dlls[states[n].procs[p].dll] && w.dll.name == v.name && w.proc.dll == states[n].procs[p].dll
    requires ProcFrom(events, states, n + 1, p, w.proc, v)
    requires InBoundsProc(r, q)
    ensures ProcFrom(events, states, n + 1, q, r.procs[q], r.dlls[r.procs[q].dll])
  {
    var s := states[n];
    if q == p {
      OtherDll(events, states, n + 1, p, w.proc, v, w.dll);
    } else {
      var dll := s.dlls[s.procs[q].dll];
      LaterProc(events, states, n, q, s.procs[q], dll);
      OtherDll(events, states, n + 1, q, s.procs[q], dll, r.dlls[s.procs[q].dll]);
    }
  }

  lemma {:induction false} OneStep(events: seq<Event>, states: seq<State>, n: nat) returns (p: int, v: DllState, w: View)
    requires IsRun(events, states) && n < |events| && AllFrom(events, states, n)
    ensures Stored(states[n], p, w, states[n + 1])
    ensures v == states[n].dlls[states[n].procs[p].dll] && w.dll.name == v.name && w.proc.dll == states[n].procs[p].dll
    ensures DllFrom(events, states, n + 1, states[n].procs[p].dll, w.dll)
    ensures ProcFrom(events, states, n + 1, p, w.proc, v)
  {
    var s, e := states[n], events[n];
    p := Subject(s, e);
    var before := ViewOf(s, e.t, p);
    v, w := before.dll, Step(before, e);
    RunKeepsInv(events, states, n);
    assert ThreadOk(s, e.t) && DllOk(s, s.procs[p].dll);
    assert states[n + 1] == Apply(s, e);
    LoadStep(events, states, n, p, before, s.procs[p].dll);
    LookupStep(events, states, n, p, before);
  }

  lemma {:induction false} StepKeepsFrom(events: seq<Event>, states: seq<State>, n: nat)
    requires IsRun(events, states) && n < |events| && AllFrom(events, states, n)
    ensures AllFrom(events, states, n + 1)
  {
    var p, v, w := OneStep(events, states, n);
    var r := states[n + 1];
    forall d | 0 <= d < |r.dlls| ensures DllFrom(events, states, n + 1, d, r.dlls[d]) {
      DllsFrom(events, states, n, p, w, r, d);
    }
    forall q | InBoundsProc(r, q) ensures ProcFrom(events, states, n + 1, q, r.procs[q], r.dlls[r.procs[q].dll]) {
      ProcsFrom(events, states, n, p, v, w, r, q);
    }
  }

  lemma {:induction false} RunKeepsFrom(events: seq<Event>, states: seq<State>, n: nat)
    requires IsRun(events, states) && n < |states|
    ensures AllFrom(events, states, n)
    decreases n
  {
    if n > 0 {
      RunKeepsFrom(events, states, n - 1);
      StepKeepsFrom(events, states, n - 1);
    }
  }

  // ---- what completed calls report ----------------------------------------

  /**
  Over every run: a call that completed with an address has it from a successful lookup of its own export in this
  run; one that failed carries the error number of that export's failed lookup, or of its DLL's failed load; and an
  export is looked up only with a handle that a load of its own DLL answered.
  */
  lemma {:induction false} AnswersComeFromTheRun(events: seq<Event>, states: seq<State>, n: nat, i: nat)
    requires IsRun(events, states) && n < |states| && i < |states[n].history|
    ensures InBoundsProc(states[n], states[n].history[i].p)
    ensures var r := states[n].history[i]; var proc := states[n].procs[r.p];
            && (r.outcome.Resolved? ==> FoundAt(events, states, n, r.p, r.outcome.addr))
            && (r.outcome.Failed? ==> ErrorFrom(events, states, n, r.p, proc, states[n].dlls[proc.dll], r.outcome.err))
            && (forall h :: h in proc.lookups ==> h != 0 && Loaded(events, states, n, proc.dll, h))
  {
    RunKeepsInv(events, states, n);
    RunKeepsFrom(events, states, n);
    var s := states[n];
    var p := s.history[i].p;
    assert CompletedOk(s, i) && ProcOk(s, p) && DllOk(s, s.procs[p].dll);
    ProcCounts(s, p);
  }

  // ---- how often the operating system is asked ----------------------------

  lemma {:induction false} OneStepCounts(events: seq<Event>, states: seq<State>, n: nat, d: int, p: int)
    requires IsRun(events, states) && n < |events|
    requires 0 <= d < |states[n].dlls| && InBoundsProc(states[n], p)
    ensures |states[n + 1].dlls| == |states[n].dlls| && InBoundsProc(states[n + 1], p)
    ensures states[n].dlls[d].loads <= states[n + 1].dlls[d].loads
    ensures |states[n].procs[p].lookups| <= |states[n + 1].procs[p].lookups|
  {
    assert states[n + 1] == Apply(states[n], events[n]);
  }

  lemma {:induction false} CountsGrow(events: seq<Event>, states: seq<State>, i: nat, j: nat, d: int, p: int)
    requires IsRun(events, states) && i <= j < |states|
    requires 0 <= d < |states[i].dlls| && InBoundsProc(states[i], p)
    ensures |states[j].dlls| == |states[i].dlls| && InBoundsProc(states[j], p)
    ensures states[i].dlls[d].loads <= states[j].dlls[d].loads
    ensures |states[i].procs[p].lookups| <= |states[j].procs[p].lookups|
    decreases j - i
  {
    if i < j {
      CountsGrow(events, states, i, j - 1, d, p);
      OneStepCounts(events, states, j - 1, d, p);
    }
  }

  /** At a load the DLL has not been loaded before, and at a lookup the export has not been looked up. */
  lemma {:induction false} AskedFirst(events: seq<Event>, states: seq<State>, k: nat)
    requires IsRun(events, states) && k < |events| && (events[k].Load? || events[k].Lookup?)
    ensures var p := Subject(states[k], events[k]);
            && InBoundsProc(states[k], p) && InBoundsProc(states[k + 1], p)
            && states[k].procs[p].dll == states[k + 1].procs[p].dll
            && (events[k].Load? ==> states[k].dlls[states[k].procs[p].dll].loads == 0 < states[k + 1].dlls[states[k].procs[p].dll].loads)
            && (events[k].Lookup? ==> |states[k].procs[p].lookups| == 0 < |states[k + 1].procs[p].lookups|)
  {
    RunKeepsInv(events, states, k);
    assert ThreadOk(states[k], events[k].t);
    assert states[k + 1] == Apply(states[k], events[k]);
  }

  /** In any run LoadLibraryExW is called at most once for a DLL. */
  lemma {:induction false} OneLoad(events: seq<Event>, states: seq<State>, k: nat, l: nat, d: int, h: int, x: int, g: int, y: int)
    requires IsRun(events, states)
    requires LoadAt(events, states, k, |events|, d, h, x) && LoadAt(events, states, l, |events|, d, g, y)
    ensures k == l
  {
    var i, j := if k < l then k else l, if k < l then l else k;
    AskedFirst(events, states, i);
    AskedFirst(events, states, j);
    if i < j {
      CountsGrow(events, states, i + 1, j, d, Subject(states[i], events[i]));
    }
  }

  /** In any run GetProcAddress is called at most once for an export. */
  lemma {:induction false} OneLookup(events: seq<Event>, states: seq<State>, k: nat, l: nat, p: int, a: int, x: int, f: bool, b: int, y: int, g: bool)
    requires IsRun(events, states)
    requires LookupAt(events, states, k, |events|, p, a, x, f) && LookupAt(events, states, l, |events|, p, b, y, g)
    ensures k == l
  {
    var i, j := if k < l then k else l, if k < l then l else k;
    AskedFirst(events, states, i);
    AskedFirst(events, states, j);
    if i < j {
      CountsGrow(events, states, i + 1, j, states[i + 1].procs[p].dll, p);
    }
  }
}
