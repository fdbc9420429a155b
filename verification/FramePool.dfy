/**
The life of pooled call frames over all interleavings of concurrent, nested and re-entrant
calls: Get, plan, load, return, Put, and the pool dropping frames whenever it likes. Between a
call's load and its return the callee runs, and may make calls of its own.
*/
module FramePool {
  import opened Bytes
  import opened Calls
  import Arm64Planner
  import Amd64Planner
  import Aapcs64
  import Returns

  type FrameId = nat
  type CallId = nat

  /** What the trampoline loads before the call. */
  datatype Loaded = Loaded(fn: Word, ints: seq<Word>, floats: seq<Word>, stack: seq<Word>, x8: Word)

  /** A frame's fields: the argument part and what was captured after the call. */
  datatype Frame = Frame(loaded: Loaded, captured: Aapcs64.Captured)

  datatype Request = Request(arch: Arch, fn: Word, ret: Arg, retAt: Word, ops: seq<Operand>, memory: Memory) {
    ghost predicate WellFormed() {
      AllWellFormed(ops)
    }
  }

  ghost predicate FrameShaped(f: Frame) {
    |f.loaded.ints| == 8 && |f.loaded.floats| == 8 && |f.captured.v| == 4
  }

  const ZERO8: seq<Word> := [0, 0, 0, 0, 0, 0, 0, 0]

  /** A frame nobody has used. */
  const BLANK := Frame(Loaded(0, ZERO8, ZERO8, [], 0), Aapcs64.Captured(0, 0, [0, 0, 0, 0]))

  /** The reset of a pooled frame, field by field over whatever is there. */
  function Reset(f: Frame, fn: Word): Frame
    requires FrameShaped(f)
  {
    f.(loaded := f.loaded.(fn := fn, ints := seq(|f.loaded.ints|, _ => 0), floats := seq(|f.loaded.floats|, _ => 0), stack := [], x8 := 0),
       captured := Aapcs64.Captured(0, 0, seq(|f.captured.v|, _ => 0)))
  }

  /** The first words of an x64 call over an existing register file. */
  function Overwrite(regs: seq<Word>, words: seq<Word>): seq<Word>
    requires |regs| == 8
  {
    var n := if |words| <= 4 then |words| else 4;
    words[..n] + regs[n..]
  }

  /** The planner run over the registers the frame holds. */
  function PlanInto(f: Frame, q: Request): Frame
    requires FrameShaped(f) && q.WellFormed()
  {
    match q.arch
    case Arm64 =>
      var t := Arm64Planner.Run(Arm64Planner.State(f.loaded.ints, f.loaded.floats, 0, 0, f.loaded.stack, q.memory), q.ops);
      f.(loaded := f.loaded.(ints := t.ints, floats := t.floats, stack := t.stack,
                             x8 := if q.ret.kind.ArgStruct? && q.ret.hfa == 0 && q.ret.size > 16 then q.retAt else f.loaded.x8))
    case Amd64 =>
      var words := Amd64Planner.CallWords(q.ret, q.retAt, q.ops);
      f.(loaded := f.loaded.(ints := Overwrite(f.loaded.ints, words), floats := Overwrite(f.loaded.floats, words),
                             stack := f.loaded.stack + Amd64Planner.StackPart(words)))
  }

  /** What this call would load into a frame nobody has used. */
  function FirstUse(q: Request): Loaded
    requires q.WellFormed()
  {
    PlanInto(BLANK.(loaded := BLANK.loaded.(fn := q.fn)), q).loaded
  }

  lemma {:induction false} ResetIsBlank(f: Frame, fn: Word)
    requires FrameShaped(f)
    ensures Reset(f, fn) == BLANK.(loaded := BLANK.loaded.(fn := fn))
  {
    assert Reset(f, fn).loaded.ints == ZERO8 == Reset(f, fn).loaded.floats;
    assert Reset(f, fn).captured.v == [0, 0, 0, 0];
  }

  // ---- the protocol -------------------------------------------------------

  /** While the callee runs, `loaded` is what the trampoline gave it. */
  datatype Phase = Holding | Planned | Calling(loaded: Loaded) | Returned(regs: Aapcs64.Captured)

  /** `first` records what the call would load from a frame nobody has used. */
  datatype Live = Live(frame: FrameId, request: Request, first: Loaded, phase: Phase)

  /** `results` records what each finished call read out of its frame, and `seen` what the
      trampoline of that call captured. */
  datatype Pool = Pool(frames: map<FrameId, Frame>, free: set<FrameId>, live: map<CallId, Live>,
                       results: map<CallId, Aapcs64.Captured>, seen: map<CallId, Aapcs64.Captured>)

  datatype Event =
    | Get(c: CallId, id: FrameId, q: Request)
    | Plan(c: CallId)
    | Load(c: CallId)
    | Return(c: CallId, regs: Aapcs64.Captured)
    | Put(c: CallId)
    | Panic(c: CallId)
    | Drop(id: FrameId)

  ghost predicate Enabled(p: Pool, e: Event) {
    match e
    case Get(c, id, q) =>
      && c !in p.live && c !in p.seen && q.WellFormed()
      && (id in p.free || id !in p.frames)
    case Plan(c) => c in p.live && p.live[c].phase.Holding? && p.live[c].frame in p.frames && FrameShaped(p.frames[p.live[c].frame])
                    && p.live[c].request.WellFormed()
    case Load(c) =>
      && c in p.live && p.live[c].phase.Planned?
      && p.live[c].frame in p.frames && |p.frames[p.live[c].frame].loaded.stack| <= MAX_STACK_WORDS
    case Return(c, regs) => c in p.live && p.live[c].phase.Calling? && p.live[c].frame in p.frames && |regs.v| == 4
    case Put(c) => c in p.live && p.live[c].phase.Returned? && p.live[c].frame in p.frames
    case Panic(c) => c in p.live && !p.live[c].phase.Returned?
    case Drop(id) => id in p.free
  }

  /** Get takes a pooled frame as it was left, or a new one; Put reads the result, then
      recycles; a panic between the two leaks the frame. */
  ghost function Apply(p: Pool, e: Event): Pool
    requires Enabled(p, e)
  {
    match e
    case Get(c, id, q) =>
      p.(frames := if id in p.free then p.frames else p.frames[id := BLANK],
         free := p.free - {id},
         live := p.live[c := Live(id, q, FirstUse(q), Holding)])
    case Plan(c) =>
      var l := p.live[c];
      p.(frames := p.frames[l.frame := PlanInto(Reset(p.frames[l.frame], l.request.fn), l.request)],
         live := p.live[c := l.(phase := Planned)])
    case Load(c) =>
      var l := p.live[c];
      p.(live := p.live[c := l.(phase := Calling(p.frames[l.frame].loaded))])
    case Return(c, regs) =>
      var l := p.live[c];
      p.(frames := p.frames[l.frame := p.frames[l.frame].(captured := regs)],
         live := p.live[c := l.(phase := Phase.Returned(regs))],
         seen := p.seen[c := regs])
    case Put(c) =>
      var l := p.live[c];
      p.(free := p.free + {l.frame}, live := p.live - {c},
         results := p.results[c := p.frames[l.frame].captured])
    case Panic(c) => p.(live := p.live - {c})
    case Drop(id) => p.(free := p.free - {id})
  }

  const EMPTY := Pool(map[], {}, map[], map[], map[])

  ghost predicate IsRun(events: seq<Event>, states: seq<Pool>) {
    && |states| == |events| + 1
    && states[0] == EMPTY
    && forall i :: 0 <= i < |events| ==> Enabled(states[i], events[i]) && states[i + 1] == Apply(states[i], events[i])
  }

  // ---- what every state keeps ---------------------------------------------

  ghost predicate FramesSeparate(p: Pool) {
    && (forall c :: c in p.live ==> p.live[c].frame in p.frames && p.live[c].frame !in p.free)
    && (forall c, d :: c in p.live && d in p.live && c != d ==> p.live[c].frame != p.live[d].frame)
    && (forall id :: id in p.free ==> id in p.frames)
  }

  /** A planned frame holds what a first-use frame would, until its call returns, and so does the callee; a
      returned one holds its own capture. */
  ghost predicate FramesHold(p: Pool) {
    && (forall id :: id in p.frames ==> FrameShaped(p.frames[id]))
    && (forall c :: c in p.live && p.live[c].frame in p.frames && (p.live[c].phase.Planned? || p.live[c].phase.Calling?) ==>
          p.frames[p.live[c].frame].loaded == p.live[c].first)
    && (forall c :: c in p.live && p.live[c].phase.Calling? ==> p.live[c].phase.loaded == p.live[c].first)
    && (forall c :: c in p.live && p.live[c].frame in p.frames && p.live[c].phase.Returned? ==>
          && c in p.seen && p.seen[c] == p.live[c].phase.regs == p.frames[p.live[c].frame].captured)
  }

  ghost predicate FirstIsRight(l: Live) {
    l.request.WellFormed() && l.first == FirstUse(l.request)
  }

  ghost predicate FirstsRight(p: Pool) {
    forall c :: c in p.live ==> FirstIsRight(p.live[c])
  }

  ghost predicate ResultsAreOwn(p: Pool) {
    forall c :: c in p.results ==> c in p.seen && p.results[c] == p.seen[c]
  }

  ghost predicate Inv(p: Pool) {
    && FramesSeparate(p) && FramesHold(p) && FirstsRight(p) && ResultsAreOwn(p)
    && (forall c :: c in p.live && c in p.seen ==> p.live[c].phase.Returned?)
  }

  lemma {:induction false} PlanIsFirstUse(f: Frame, q: Request)
    requires FrameShaped(f) && q.WellFormed()
    ensures FrameShaped(PlanInto(Reset(f, q.fn), q))
    ensures PlanInto(Reset(f, q.fn), q).loaded == FirstUse(q)
  {
    ResetIsBlank(f, q.fn);
  }

  lemma {:induction false} SeparateKept(p: Pool, e: Event)
    requires FramesSeparate(p) && Enabled(p, e)
    ensures FramesSeparate(Apply(p, e))
  {}

  lemma {:induction false} FirstsKept(p: Pool, e: Event)
    requires FirstsRight(p) && Enabled(p, e)
    ensures FirstsRight(Apply(p, e))
  {
    var r := Apply(p, e);
    forall c | c in r.live ensures FirstIsRight(r.live[c]) {
      if c in p.live {
        assert FirstIsRight(p.live[c]);
      }
    }
  }

  lemma {:induction false} HoldKeptByPlan(p: Pool, c: CallId)
    requires FramesSeparate(p) && FramesHold(p) && FirstsRight(p) && Enabled(p, Plan(c))
    ensures FramesHold(Apply(p, Plan(c)))
  {
    var l := p.live[c];
    assert FirstIsRight(l);
    PlanIsFirstUse(p.frames[l.frame], l.request);
    HoldPlanned(p, c, PlanInto(Reset(p.frames[l.frame], l.request.fn), l.request));
  }

  lemma {:induction false} HoldPlanned(p: Pool, c: CallId, f: Frame)
    requires FramesSeparate(p) && FramesHold(p) && c in p.live && FrameShaped(f) && f.loaded == p.live[c].first
    ensures FramesHold(p.(frames := p.frames[p.live[c].frame := f], live := p.live[c := p.live[c].(phase := Planned)]))
  {}

  lemma {:induction false} HoldKeptByReturn(p: Pool, c: CallId, regs: Aapcs64.Captured)
    requires FramesSeparate(p) && FramesHold(p) && Enabled(p, Return(c, regs))
    ensures FramesHold(Apply(p, Return(c, regs)))
  {}

  lemma {:induction false} HoldKeptByGet(p: Pool, c: CallId, id: FrameId, q: Request)
    requires FramesSeparate(p) && FramesHold(p) && Enabled(p, Get(c, id, q))
    ensures FramesHold(Apply(p, Get(c, id, q)))
  {}

  lemma {:induction false} HoldKept(p: Pool, e: Event)
    requires FramesSeparate(p) && FramesHold(p) && Enabled(p, e) && !e.Plan? && !e.Return? && !e.Get?
    ensures FramesHold(Apply(p, e))
  {}

  lemma {:induction false} SeenKept(p: Pool, e: Event)
    requires Inv(p) && Enabled(p, e)
    ensures ResultsAreOwn(Apply(p, e))
    ensures forall c :: c in Apply(p, e).live && c in Apply(p, e).seen ==> Apply(p, e).live[c].phase.Returned?
  {}

  lemma {:induction false} StepKeepsInv(p: Pool, e: Event)
    requires Inv(p) && Enabled(p, e)
    ensures Inv(Apply(p, e))
  {
    SeparateKept(p, e);
    FirstsKept(p, e);
    SeenKept(p, e);
    match e {
      case Plan(c) => HoldKeptByPlan(p, c);
      case Return(c, regs) => HoldKeptByReturn(p, c, regs);
      case Get(c, id, q) => HoldKeptByGet(p, c, id, q);
      case _ => HoldKept(p, e);
    }
  }

  lemma {:induction false} RunKeepsInv(events: seq<Event>, states: seq<Pool>, i: nat)
    requires IsRun(events, states) && i < |states|
    ensures Inv(states[i])
    decreases i
  {
    if i > 0 {
      RunKeepsInv(events, states, i - 1);
      StepKeepsInv(states[i - 1], events[i - 1]);
    }
  }

  ghost predicate LoadsLikeFirstUse(p: Pool, c: CallId) {
    && c in p.live && p.live[c].frame in p.frames && p.live[c].request.WellFormed()
    && p.frames[p.live[c].frame].loaded == FirstUse(p.live[c].request)
  }

  /** The callee of `c` runs on first-use registers and stack, and its frame has not changed since the load. */
  ghost predicate RunsOnFirstUse(p: Pool, c: CallId) {
    && LoadsLikeFirstUse(p, c)
    && (p.live[c].phase.Calling? ==> p.frames[p.live[c].frame].loaded == p.live[c].phase.loaded)
  }

  /**
  Frame recycling, over every run: frames in flight are pairwise distinct and none is in the
  pool; the trampoline of every call loads what it would load from a frame used for the
  first time, whatever other calls did with that frame before; that frame is untouched until the call
  returns, whatever calls the callee or others make meanwhile; and every finished call reports the
  registers its own trampoline captured.
  */
  lemma {:induction false} RecyclingIsInvisible(events: seq<Event>, states: seq<Pool>, i: nat)
    requires IsRun(events, states) && i < |states|
    ensures FramesSeparate(states[i])
    ensures i < |events| && (events[i].Load? || events[i].Return?) ==> RunsOnFirstUse(states[i], events[i].c)
    ensures ResultsAreOwn(states[i])
  {
    RunKeepsInv(events, states, i);
    if i < |events| && (events[i].Load? || events[i].Return?) {
      assert FirstIsRight(states[i].live[events[i].c]);
    }
  }

  // ---- re-entrant calls ---------------------------------------------------

  ghost predicate Leads(p: Pool, e: Event, r: Pool) {
    Enabled(p, e) && r == Apply(p, e)
  }

  /** Call `c` is in its callee, and `d` could start. */
  ghost predicate CanReenter(p: Pool, c: CallId, d: CallId, id: FrameId, q: Request) {
    && c in p.live && p.live[c].phase.Calling? && d !in p.live && d !in p.seen
    && (id in p.free || id !in p.frames)
    && q.WellFormed() && |FirstUse(q).stack| <= MAX_STACK_WORDS
  }

  /** Nothing that belongs to call `c` differs. */
  ghost predicate SameCall(p: Pool, r: Pool, c: CallId) {
    && c in p.live && c in r.live && r.live[c] == p.live[c]
    && p.live[c].frame in p.frames && p.live[c].frame in r.frames
    && r.frames[p.live[c].frame] == p.frames[p.live[c].frame]
  }

  /** Other calls' events leave a call alone. */
  lemma {:induction false} OthersEvent(p: Pool, e: Event, c: CallId)
    requires Inv(p) && Enabled(p, e) && c in p.live && !e.Drop? && e.c != c
    ensures SameCall(p, Apply(p, e), c)
  {}

  ghost predicate At(p: Pool, d: CallId, id: FrameId, q: Request, phase: Phase) {
    q.WellFormed() && d in p.live && p.live[d] == Live(id, q, FirstUse(q), phase) && id in p.frames
  }

  lemma {:induction false} ReentryGet(p: Pool, c: CallId, d: CallId, id: FrameId, q: Request) returns (r: Pool)
    requires Inv(p) && CanReenter(p, c, d, id, q)
    ensures Leads(p, Get(d, id, q), r) && Inv(r)
    ensures SameCall(p, r, c) && At(r, d, id, q, Holding)
  {
    r := Apply(p, Get(d, id, q));
    StepKeepsInv(p, Get(d, id, q));
    OthersEvent(p, Get(d, id, q), c);
  }

  lemma {:induction false} ReentryPlan(p: Pool, c: CallId, d: CallId, id: FrameId, q: Request) returns (r: Pool)
    requires Inv(p) && c in p.live && c != d && At(p, d, id, q, Holding)
    ensures Leads(p, Plan(d), r) && Inv(r)
    ensures SameCall(p, r, c) && At(r, d, id, q, Planned)
  {
    r := Apply(p, Plan(d));
    StepKeepsInv(p, Plan(d));
    OthersEvent(p, Plan(d), c);
  }

  lemma {:induction false} ReentryLoad(p: Pool, c: CallId, d: CallId, id: FrameId, q: Request) returns (r: Pool)
    requires Inv(p) && c in p.live && c != d && At(p, d, id, q, Planned) && |FirstUse(q).stack| <= MAX_STACK_WORDS
    ensures Leads(p, Load(d), r) && Inv(r)
    ensures SameCall(p, r, c) && At(r, d, id, q, Calling(FirstUse(q)))
  {
    assert p.frames[p.live[d].frame].loaded == p.live[d].first;
    r := Apply(p, Load(d));
    StepKeepsInv(p, Load(d));
    OthersEvent(p, Load(d), c);
  }

  lemma {:induction false} ReentryReturn(p: Pool, c: CallId, d: CallId, id: FrameId, q: Request, regs: Aapcs64.Captured) returns (r: Pool)
    requires Inv(p) && c in p.live && c != d && q.WellFormed() && At(p, d, id, q, Calling(FirstUse(q))) && |regs.v| == 4
    ensures Leads(p, Return(d, regs), r) && Inv(r)
    ensures SameCall(p, r, c) && At(r, d, id, q, Phase.Returned(regs))
  {
    r := Apply(p, Return(d, regs));
    StepKeepsInv(p, Return(d, regs));
    OthersEvent(p, Return(d, regs), c);
  }

  lemma {:induction false} ReentryPut(p: Pool, c: CallId, d: CallId, id: FrameId, q: Request, regs: Aapcs64.Captured) returns (r: Pool)
    requires Inv(p) && c in p.live && c != d && At(p, d, id, q, Phase.Returned(regs))
    ensures Leads(p, Put(d), r)
    ensures SameCall(p, r, c) && d in r.results && r.results[d] == regs
  {
    r := Apply(p, Put(d));
    OthersEvent(p, Put(d), c);
  }

  /** From any reachable state: a callee that re-enters makes a whole call on a frame of its own and gets its own
      result, and the outer call notices nothing. */
  lemma {:induction false} Reentry(p: Pool, c: CallId, d: CallId, id: FrameId, q: Request, regs: Aapcs64.Captured)
    returns (p1: Pool, p2: Pool, p3: Pool, p4: Pool, r: Pool)
    requires Inv(p) && CanReenter(p, c, d, id, q) && |regs.v| == 4
    ensures Leads(p, Get(d, id, q), p1) && Leads(p1, Plan(d), p2) && Leads(p2, Load(d), p3)
    ensures Leads(p3, Return(d, regs), p4) && Leads(p4, Put(d), r)
    ensures SameCall(p, r, c) && d in r.results && r.results[d] == regs
  {
    p1 := ReentryGet(p, c, d, id, q);
    p2 := ReentryPlan(p1, c, d, id, q);
    p3 := ReentryLoad(p2, c, d, id, q);
    p4 := ReentryReturn(p3, c, d, id, q, regs);
    r := ReentryPut(p4, c, d, id, q, regs);
  }

  /** First use is the planner over a zeroed frame, on both architectures. */
  lemma {:induction false} FirstUseIsThePlan(q: Request)
    requires q.WellFormed()
    ensures q.arch.Arm64? ==>
      var t := Arm64Planner.Run(Arm64Planner.Initial(q.memory), q.ops);
      FirstUse(q) == Loaded(q.fn, t.ints, t.floats, t.stack, Returns.IndirectResult(q.ret, q.retAt))
    ensures q.arch.Amd64? ==>
      var plan := Amd64Planner.PlanCall(q.ret, q.retAt, q.ops, q.memory);
      FirstUse(q) == Loaded(q.fn, plan.ints, plan.floats, plan.stack, 0)
  {
    assert Arm64Planner.NoWords(8) == ZERO8;
    if q.arch.Amd64? {
      var words := Amd64Planner.CallWords(q.ret, q.retAt, q.ops);
      assert Overwrite(ZERO8, words) == Amd64Planner.RegisterFile(words);
    }
  }
}
