/**
 * The phases of a clean release build (build-clean-release.py): an invocation can die between any two of its
 * effects, and a later one resumes from the stamp file.
 */
module ReleaseBuild {
  import opened Wrappers

  /** "upstream-clean-audited" to "clean-candidate-inputs-built-not-packaged-or-accepted". */
  datatype Phase =
    | UpstreamClean | ApplyingIntegration | IntegrationApplied | RebuildingKernel
    | BuildingAosp | BuildingBootPayload | CheckingInputs | Finished

  datatype Step = Integrate | AuditTree | AuditIntegration | BuildKernel | BuildAosp | BuildBootPayload | CheckInputs

  /** The frozen fields: the two commits, and everything a resume must supply again (paths, manifest, recipe). */
  datatype Identity = Identity(device: nat, kernel: nat, recipe: nat)

  /** The stamp file. */
  datatype Audit = Audit(identity: Identity, phase: Phase, pipeline: Option<nat>)

  /** An effect: directories and worktrees before the first stamp, the stamps, and the steps that run. */
  datatype Action =
    | Prepare(k: nat) | Create(identity: Identity) | Stamp(phase: Phase) | StampPipeline(commit: nat)
    | Begin(step: Step) | End(step: Step)

  /** What survives an invocation: whether the directories exist, the stamp, and all effects so far. */
  datatype World = World(made: bool, audit: Option<Audit>, log: seq<Action>)

  function Apply(w: World, a: Action): World {
    var next := w.(log := w.log + [a]);
    match a
    case Prepare(_) => next.(made := true)
    case Create(identity) => next.(audit := Some(Audit(identity, UpstreamClean, None)))
    case Stamp(phase) => if w.audit.Some? then next.(audit := Some(w.audit.value.(phase := phase))) else next
    case StampPipeline(commit) =>
      if w.audit.Some? then next.(audit := Some(w.audit.value.(pipeline := Some(commit)))) else next
    case Begin(_) => next
    case End(_) => next
  }

  /** A running script: it dies before its effect number `budget`, and has no effects once dead. */
  datatype Process = Process(world: World, budget: nat, alive: bool)

  function Act(p: Process, a: Action): Process {
    if p.alive && p.budget > 0 then p.(world := Apply(p.world, a), budget := p.budget - 1) else p.(alive := false)
  }

  function ActAll(p: Process, actions: seq<Action>): Process
    decreases |actions|
  {
    if actions == [] then p else ActAll(Act(p, actions[0]), actions[1..])
  }

  const STAGES := 8

  /** The effects of one stage of main when it is reached in `phase`. */
  function Part(stage: nat, phase: Phase, commit: nat): seq<Action> {
    if stage == 0 && phase == UpstreamClean then
      [Stamp(ApplyingIntegration), Begin(Integrate), End(Integrate), Stamp(IntegrationApplied)]
    else if stage == 1 then [Begin(AuditTree), End(AuditTree), Begin(AuditIntegration), End(AuditIntegration)]
    else if stage == 2 && phase == IntegrationApplied then [Stamp(RebuildingKernel)]
    else if stage == 3 && phase == RebuildingKernel then [Begin(BuildKernel), End(BuildKernel), Stamp(BuildingAosp)]
    else if stage == 4 then [StampPipeline(commit)]
    else if stage == 5 && phase == BuildingAosp then [Begin(BuildAosp), End(BuildAosp), Stamp(BuildingBootPayload)]
    else if stage == 6 && phase == BuildingBootPayload then
      [Begin(BuildBootPayload), End(BuildBootPayload), Stamp(CheckingInputs)]
    else if stage == 7 && phase == CheckingInputs then [Begin(CheckInputs), End(CheckInputs), Stamp(Finished)]
    else []
  }

  function PhaseOf(w: World): Phase { if w.audit.Some? then w.audit.value.phase else Finished }

  /** The stages from `stage` on. */
  function Stages(p: Process, stage: nat, commit: nat): Process
    decreases STAGES - stage
  {
    if stage >= STAGES then p else Stages(ActAll(p, Part(stage, PhaseOf(p.world), commit)), stage + 1, commit)
  }

  function Creation(identity: Identity): seq<Action> {
    [Prepare(0), Prepare(1), Prepare(2), Prepare(3), Create(identity)]
  }

  /**
   * One call of the script: `admitted` when its arguments and the checkouts pass the checks made before any
   * effect, `worktrees` when the frozen worktrees do.
   */
  datatype Invocation = Invocation(resume: bool, identity: Identity, admitted: bool, worktrees: bool, commit: nat,
      budget: nat)

  /** The process when it reaches the first stage, or where it was refused. */
  function Started(w: World, i: Invocation): (Process, bool) {
    var p := Process(w, i.budget, true);
    if !i.admitted then (p, false)
    else if i.resume then
      (p, w.audit.Some? && w.audit.value.identity.recipe == i.identity.recipe
          && w.audit.value.phase != ApplyingIntegration && i.worktrees)
    else if w.made then (p, false)
    else (ActAll(p, Creation(i.identity)), i.worktrees)
  }

  function Invoke(w: World, i: Invocation): World {
    var (p, go) := Started(w, i);
    if go then Stages(p, 0, i.commit).world else p.world
  }

  function Empty(): World { World(false, None, []) }

  function History(w: World, calls: seq<Invocation>): World
    decreases |calls|
  {
    if calls == [] then w else History(Invoke(w, calls[0]), calls[1..])
  }

  // ---- The script -------------------------------------------------------

  class Builder {
    var world: World
    var budget: nat
    var alive: bool

    ghost function View(): Process
      reads this
    {
      Process(world, budget, alive)
    }

    constructor (w: World, effects: nat)
      ensures View() == Process(w, effects, true)
    {
      world, budget, alive := w, effects, true;
    }

    method Do(a: Action)
      modifies this
      ensures View() == Act(old(View()), a)
    {
      if alive && budget > 0 {
        world := Apply(world, a);
        budget := budget - 1;
      } else {
        alive := false;
      }
    }

    /** phase(value). */
    method EnterPhase(phase: Phase)
      modifies this
      ensures View() == Act(old(View()), Stamp(phase))
    {
      Do(Stamp(phase));
    }

    /** run([...]): begun, and ended when it succeeds. */
    method RunStep(step: Step)
      modifies this
      ensures View() == Act(Act(old(View()), Begin(step)), End(step))
    {
      Do(Begin(step));
      Do(End(step));
    }

    method CurrentPhase() returns (phase: Phase)
      ensures phase == PhaseOf(world)
    {
      phase := if world.audit.Some? then world.audit.value.phase else Finished;
    }

    /** The directories, the worktrees and the first stamp. */
    method CreateRecord(identity: Identity)
      modifies this
      ensures View() == ActAll(old(View()), Creation(identity))
    {
      Do(Prepare(0));
      Do(Prepare(1));
      Do(Prepare(2));
      Do(Prepare(3));
      Do(Create(identity));
      Unfold5(old(View()), Prepare(0), Prepare(1), Prepare(2), Prepare(3), Create(identity));
    }

    /** The integration, the two audits and the kernel. */
    method PrepareSources(commit: nat)
      modifies this
      ensures Stages(View(), 4, commit) == old(Stages(View(), 0, commit))
    {
      var phase := CurrentPhase();
      ghost var p0 := View();
      if phase == UpstreamClean {
        EnterPhase(ApplyingIntegration);
        RunStep(Integrate);
        EnterPhase(IntegrationApplied);
        Unfold4(p0, Stamp(ApplyingIntegration), Begin(Integrate), End(Integrate), Stamp(IntegrationApplied));
      }
      ghost var p1 := View();
      assert p1 == ActAll(p0, Part(0, PhaseOf(p0.world), commit));
      RunStep(AuditTree);
      RunStep(AuditIntegration);
      Unfold4(p1, Begin(AuditTree), End(AuditTree), Begin(AuditIntegration), End(AuditIntegration));
      phase := CurrentPhase();
      ghost var p2 := View();
      if phase == IntegrationApplied {
        EnterPhase(RebuildingKernel);
      }
      phase := CurrentPhase();
      ghost var p3 := View();
      assert p3 == ActAll(p2, Part(2, PhaseOf(p2.world), commit));
      if phase == RebuildingKernel {
        RunStep(BuildKernel);
        EnterPhase(BuildingAosp);
        Unfold3(p3, Begin(BuildKernel), End(BuildKernel), Stamp(BuildingAosp));
      }
    }

    /** The platform, the boot payload and the checks. */
    method BuildInputs(commit: nat)
      modifies this
      ensures View() == old(Stages(View(), 4, commit))
    {
      ghost var p4 := View();
      Do(StampPipeline(commit));
      ghost var p5 := View();
      assert p5 == ActAll(p4, Part(4, PhaseOf(p4.world), commit));
      var phase := CurrentPhase();
      if phase == BuildingAosp {
        RunStep(BuildAosp);
        EnterPhase(BuildingBootPayload);
        Unfold3(p5, Begin(BuildAosp), End(BuildAosp), Stamp(BuildingBootPayload));
      }
      phase := CurrentPhase();
      ghost var p6 := View();
      if phase == BuildingBootPayload {
        RunStep(BuildBootPayload);
        EnterPhase(CheckingInputs);
        Unfold3(p6, Begin(BuildBootPayload), End(BuildBootPayload), Stamp(CheckingInputs));
      }
      phase := CurrentPhase();
      ghost var p7 := View();
      if phase == CheckingInputs {
        RunStep(CheckInputs);
        EnterPhase(Finished);
        Unfold3(p7, Begin(CheckInputs), End(CheckInputs), Stamp(Finished));
      }
      StagesEnd(View(), commit);
    }

    /** main. */
    method RunMain(i: Invocation)
      requires alive && budget == i.budget
      modifies this
      ensures world == Invoke(old(world), i)
    {
      if !i.admitted {
        return;
      }
      if i.resume {
        if world.audit.None? || world.audit.value.identity.recipe != i.identity.recipe
            || world.audit.value.phase == ApplyingIntegration {
          return;
        }
      } else {
        if world.made {
          return;
        }
        CreateRecord(i.identity);
      }
      if !i.worktrees {
        return;
      }
      PrepareSources(i.commit);
      BuildInputs(i.commit);
    }
  }

  lemma Unfold3(p: Process, a: Action, b: Action, c: Action)
    ensures ActAll(p, [a, b, c]) == Act(Act(Act(p, a), b), c)
  {
    assert [a, b, c][1..] == [b, c] && [b, c][1..] == [c] && [c][1..] == [];
    assert ActAll(Act(Act(p, a), b), [c]) == Act(Act(Act(p, a), b), c);
  }

  lemma Unfold4(p: Process, a: Action, b: Action, c: Action, d: Action)
    ensures ActAll(p, [a, b, c, d]) == Act(Act(Act(Act(p, a), b), c), d)
  {
    assert [a, b, c, d][1..] == [b, c, d];
    Unfold3(Act(p, a), b, c, d);
  }

  lemma Unfold5(p: Process, a: Action, b: Action, c: Action, d: Action, e: Action)
    ensures ActAll(p, [a, b, c, d, e]) == Act(Act(Act(Act(Act(p, a), b), c), d), e)
  {
    assert [a, b, c, d, e][1..] == [b, c, d, e];
    Unfold4(Act(p, a), b, c, d, e);
  }

  lemma StagesEnd(p: Process, commit: nat)
    ensures Stages(p, STAGES, commit) == p
  {
  }

  // ---- What every history keeps -----------------------------------------

  function Rank(phase: Phase): nat {
    match phase
    case UpstreamClean => 0
    case ApplyingIntegration => 1
    case IntegrationApplied => 2
    case RebuildingKernel => 3
    case BuildingAosp => 4
    case BuildingBootPayload => 5
    case CheckingInputs => 6
    case Finished => 7
  }

  /** How often `a` happened. */
  function Count(log: seq<Action>, a: Action): nat {
    if log == [] then 0 else Count(log[..|log| - 1], a) + if log[|log| - 1] == a then 1 else 0
  }

  /** The steps that have ended before each phase, in the order they must end. */
  function Needed(phase: Phase): seq<Step> {
    var all := [Integrate, BuildKernel, BuildAosp, BuildBootPayload, CheckInputs];
    all[..if Rank(phase) < 2 then 0 else if Rank(phase) < 4 then 1 else Rank(phase) - 2]
  }

  /** The steps ended in this order, whatever happened between. */
  predicate EndedInOrder(log: seq<Action>, steps: seq<Step>)
    decreases |log|
  {
    if steps == [] then true
    else if log == [] then false
    else
      var last := |steps| - 1;
      EndedInOrder(log[..|log| - 1], if log[|log| - 1] == End(steps[last]) then steps[..last] else steps)
  }

  predicate Inv(w: World) {
    && (w.audit.Some? ==> w.made)
    && Count(w.log, Begin(Integrate)) <= 1
    && (PhaseOf(w) == UpstreamClean || w.audit.None? ==> Count(w.log, Begin(Integrate)) == 0)
    && (w.audit.Some? ==> EndedInOrder(w.log, Needed(PhaseOf(w))))
  }

  lemma CountStep(log: seq<Action>, x: Action, a: Action)
    ensures Count(log + [x], a) == Count(log, a) + if x == a then 1 else 0
  {
    assert (log + [x])[..|log|] == log;
  }

  lemma {:induction false} EndedKeeps(log: seq<Action>, x: Action, steps: seq<Step>)
    requires EndedInOrder(log, steps)
    ensures EndedInOrder(log + [x], steps)
    decreases |log|, 1
  {
    assert (log + [x])[..|log|] == log;
    if steps != [] {
      var last := |steps| - 1;
      if x == End(steps[last]) {
        EndedFewer(log, steps);
      }
    }
  }

  lemma {:induction false} EndedFewer(log: seq<Action>, steps: seq<Step>)
    requires steps != [] && EndedInOrder(log, steps)
    ensures EndedInOrder(log, steps[..|steps| - 1])
    decreases |log|, 0
  {
    var last := |steps| - 1;
    var before := log[..|log| - 1];
    assert log == before + [log[|log| - 1]];
    if log[|log| - 1] == End(steps[last]) {
      EndedKeeps(before, log[|log| - 1], steps[..last]);
    } else {
      EndedFewer(before, steps);
      EndedKeeps(before, log[|log| - 1], steps[..last]);
    }
  }

  lemma EndedMore(log: seq<Action>, steps: seq<Step>, step: Step)
    requires EndedInOrder(log, steps)
    ensures EndedInOrder(log + [End(step)], steps + [step])
  {
    assert (log + [End(step)])[..|log|] == log && (steps + [step])[..|steps|] == steps;
  }

  /** The phase only moves forward and the identity stays. */
  predicate Forward(w: World, v: World) {
    && (w.made ==> v.made)
    && (w.audit.Some? ==>
          v.audit.Some? && v.audit.value.identity == w.audit.value.identity && Rank(PhaseOf(v)) >= Rank(PhaseOf(w)))
  }

  /** Such effects leave phase and identity alone. */
  lemma PlainForward(p: Process, a: Action)
    requires Inv(p.world) && (a.StampPipeline? || a.End? || a.Begin?)
    ensures Forward(p.world, Act(p, a).world) && PhaseOf(Act(p, a).world) == PhaseOf(p.world)
    ensures Act(p, a).world.audit.Some? == p.world.audit.Some? && Act(p, a).world.made == p.world.made
    ensures Act(p, a).world.log == p.world.log || Act(p, a).world.log == p.world.log + [a]
  {
  }

  /** Effects that change neither the phase nor the count keep everything. */
  lemma PlainKeeps(p: Process, a: Action)
    requires Inv(p.world) && (a.StampPipeline? || a.End? || (a.Begin? && !a.step.Integrate?))
    ensures Inv(Act(p, a).world) && Forward(p.world, Act(p, a).world) && PhaseOf(Act(p, a).world) == PhaseOf(p.world)
  {
    PlainForward(p, a);
    CountStep(p.world.log, a, Begin(Integrate));
    assert Count(Act(p, a).world.log, Begin(Integrate)) == Count(p.world.log, Begin(Integrate));
    if p.world.audit.Some? {
      EndedKeeps(p.world.log, a, Needed(PhaseOf(p.world)));
    }
  }

  /** A later phase may be stamped once the steps it needs have ended. */
  lemma StampKeeps(p: Process, phase: Phase)
    requires Inv(p.world) && p.world.audit.Some?
    requires Rank(phase) > Rank(PhaseOf(p.world)) && EndedInOrder(p.world.log, Needed(phase))
    ensures Inv(Act(p, Stamp(phase)).world) && Forward(p.world, Act(p, Stamp(phase)).world)
    ensures Act(p, Stamp(phase)).alive ==> PhaseOf(Act(p, Stamp(phase)).world) == phase
    ensures Count(Act(p, Stamp(phase)).world.log, Begin(Integrate)) == Count(p.world.log, Begin(Integrate))
  {
    EndedKeeps(p.world.log, Stamp(phase), Needed(phase));
    CountStep(p.world.log, Stamp(phase), Begin(Integrate));
  }

  /** A step runs to its end and the next phase is stamped, or the process dies on the way. */
  lemma StepThenStamp(p: Process, step: Step, phase: Phase)
    requires Inv(p.world) && p.world.audit.Some? && !step.Integrate?
    requires Rank(phase) > Rank(PhaseOf(p.world)) && Needed(phase) == Needed(PhaseOf(p.world)) + [step]
    ensures var q := Act(Act(Act(p, Begin(step)), End(step)), Stamp(phase)); Inv(q.world) && Forward(p.world, q.world)
  {
    var p1 := Act(p, Begin(step));
    PlainKeeps(p, Begin(step));
    var p2 := Act(p1, End(step));
    PlainKeeps(p1, End(step));
    if p2.alive {
      EndedMore(p1.world.log, Needed(PhaseOf(p.world)), step);
      StampKeeps(p2, phase);
    }
  }

  /** The integration begins at most once, after its phase was stamped. */
  lemma BeginKeeps(p: Process)
    requires Inv(p.world) && p.world.audit.Some? && PhaseOf(p.world) == ApplyingIntegration
    requires Count(p.world.log, Begin(Integrate)) == 0
    ensures var q := Act(p, Begin(Integrate));
            Inv(q.world) && Forward(p.world, q.world) && PhaseOf(q.world) == ApplyingIntegration
  {
    CountStep(p.world.log, Begin(Integrate), Begin(Integrate));
  }

  lemma IntegrationKeeps(p: Process)
    requires Inv(p.world) && p.world.audit.Some? && PhaseOf(p.world) == UpstreamClean
    ensures var q := Act(Act(Act(Act(p, Stamp(ApplyingIntegration)), Begin(Integrate)), End(Integrate)),
            Stamp(IntegrationApplied));
            Inv(q.world) && Forward(p.world, q.world)
  {
    var p1 := Act(p, Stamp(ApplyingIntegration));
    StampKeeps(p, ApplyingIntegration);
    if p1.alive {
      var p2 := Act(p1, Begin(Integrate));
      BeginKeeps(p1);
      IntegrationEnds(p2);
    }
  }

  lemma IntegrationEnds(p: Process)
    requires Inv(p.world) && p.world.audit.Some? && PhaseOf(p.world) == ApplyingIntegration
    ensures var q := Act(Act(p, End(Integrate)), Stamp(IntegrationApplied)); Inv(q.world) && Forward(p.world, q.world)
  {
    var p1 := Act(p, End(Integrate));
    PlainKeeps(p, End(Integrate));
    if p1.alive {
      EndedMore(p.world.log, [], Integrate);
      assert [] + [Integrate] == [Integrate] == Needed(IntegrationApplied);
      StampKeeps(p1, IntegrationApplied);
    }
  }

  lemma KernelPhaseKeeps(p: Process)
    requires Inv(p.world) && p.world.audit.Some? && PhaseOf(p.world) == IntegrationApplied
    ensures Inv(Act(p, Stamp(RebuildingKernel)).world) && Forward(p.world, Act(p, Stamp(RebuildingKernel)).world)
  {
    StampKeeps(p, RebuildingKernel);
  }

  lemma ActAllOne(p: Process, a: Action)
    ensures ActAll(p, [a]) == Act(p, a)
  {
  }

  lemma PartKeepsInv(p: Process, stage: nat, commit: nat)
    requires Inv(p.world) && p.world.audit.Some? && stage < STAGES
    ensures var q := ActAll(p, Part(stage, PhaseOf(p.world), commit)); Inv(q.world) && Forward(p.world, q.world)
  {
    var phase := PhaseOf(p.world);
    if stage == 0 && phase == UpstreamClean {
      IntegrationKeeps(p);
      Unfold4(p, Stamp(ApplyingIntegration), Begin(Integrate), End(Integrate), Stamp(IntegrationApplied));
    } else if stage == 1 {
      var p1 := Act(p, Begin(AuditTree));
      var p2 := Act(p1, End(AuditTree));
      var p3 := Act(p2, Begin(AuditIntegration));
      PlainKeeps(p, Begin(AuditTree));
      PlainKeeps(p1, End(AuditTree));
      PlainKeeps(p2, Begin(AuditIntegration));
      PlainKeeps(p3, End(AuditIntegration));
      Unfold4(p, Begin(AuditTree), End(AuditTree), Begin(AuditIntegration), End(AuditIntegration));
    } else if stage == 2 && phase == IntegrationApplied {
      KernelPhaseKeeps(p);
      ActAllOne(p, Stamp(RebuildingKernel));
    } else if stage == 3 && phase == RebuildingKernel {
      StepThenStamp(p, BuildKernel, BuildingAosp);
      Unfold3(p, Begin(BuildKernel), End(BuildKernel), Stamp(BuildingAosp));
    } else if stage == 4 {
      PlainKeeps(p, StampPipeline(commit));
      ActAllOne(p, StampPipeline(commit));
    } else if stage == 5 && phase == BuildingAosp {
      StepThenStamp(p, BuildAosp, BuildingBootPayload);
      Unfold3(p, Begin(BuildAosp), End(BuildAosp), Stamp(BuildingBootPayload));
    } else if stage == 6 && phase == BuildingBootPayload {
      StepThenStamp(p, BuildBootPayload, CheckingInputs);
      Unfold3(p, Begin(BuildBootPayload), End(BuildBootPayload), Stamp(CheckingInputs));
    } else if stage == 7 && phase == CheckingInputs {
      StepThenStamp(p, CheckInputs, Finished);
      Unfold3(p, Begin(CheckInputs), End(CheckInputs), Stamp(Finished));
    }
  }

  lemma {:induction false} StagesKeepInv(p: Process, stage: nat, commit: nat)
    requires Inv(p.world) && p.world.audit.Some?
    ensures Inv(Stages(p, stage, commit).world) && Forward(p.world, Stages(p, stage, commit).world)
    decreases STAGES - stage
  {
    if stage < STAGES {
      PartKeepsInv(p, stage, commit);
      StagesKeepInv(ActAll(p, Part(stage, PhaseOf(p.world), commit)), stage + 1, commit);
    }
  }

  lemma PrepareKeeps(p: Process, k: nat)
    requires Inv(p.world) && p.world.audit.None?
    ensures Inv(Act(p, Prepare(k)).world) && Act(p, Prepare(k)).world.audit.None?
    ensures p.world.made ==> Act(p, Prepare(k)).world.made
    ensures Act(p, Prepare(k)).alive ==> Act(p, Prepare(k)).world.made
  {
    CountStep(p.world.log, Prepare(k), Begin(Integrate));
  }

  /** The stamp is created over whatever was prepared, unless the process is dead. */
  lemma CreateKeeps(p: Process, identity: Identity)
    requires Inv(p.world) && p.world.audit.None? && (p.alive ==> p.world.made)
    ensures var q := Act(p, Create(identity));
            Inv(q.world) && if q.alive then q.world.audit.Some? else q.world.audit.None?
  {
    CountStep(p.world.log, Create(identity), Begin(Integrate));
  }

  lemma CreationKeepsInv(p: Process, identity: Identity)
    requires Inv(p.world) && p.world.audit.None? && !p.world.made
    ensures var q := ActAll(p, Creation(identity)); Inv(q.world) && (q.alive ==> q.world.audit.Some?)
    ensures var q := ActAll(p, Creation(identity)); !q.alive ==> q.world.audit.None?
  {
    var p1 := Act(p, Prepare(0));
    var p2 := Act(p1, Prepare(1));
    var p3 := Act(p2, Prepare(2));
    var p4 := Act(p3, Prepare(3));
    PrepareKeeps(p, 0);
    PrepareKeeps(p1, 1);
    PrepareKeeps(p2, 2);
    PrepareKeeps(p3, 3);
    CreateKeeps(p4, identity);
    Unfold5(p, Prepare(0), Prepare(1), Prepare(2), Prepare(3), Create(identity));
  }

  /** A process that died without a stamp does nothing more. */
  lemma {:induction false} DeadDoesNothing(p: Process, actions: seq<Action>)
    requires !p.alive
    ensures ActAll(p, actions) == p
    decreases |actions|
  {
    if actions != [] {
      DeadDoesNothing(Act(p, actions[0]), actions[1..]);
    }
  }

  lemma {:induction false} DeadStages(p: Process, stage: nat, commit: nat)
    requires !p.alive
    ensures Stages(p, stage, commit) == p
    decreases STAGES - stage
  {
    if stage < STAGES {
      DeadDoesNothing(p, Part(stage, PhaseOf(p.world), commit));
      DeadStages(p, stage + 1, commit);
    }
  }

  lemma InvokeKeepsInv(w: World, i: Invocation)
    requires Inv(w)
    ensures Inv(Invoke(w, i)) && Forward(w, Invoke(w, i))
  {
    var p := Process(w, i.budget, true);
    if i.admitted && i.resume && w.audit.Some? {
      StagesKeepInv(p, 0, i.commit);
    } else if i.admitted && !i.resume && !w.made {
      CreationKeepsInv(p, i.identity);
      var q := ActAll(p, Creation(i.identity));
      if q.alive {
        StagesKeepInv(q, 0, i.commit);
      } else {
        DeadStages(q, 0, i.commit);
      }
    }
  }

  lemma {:induction false} HistoryKeepsInv(w: World, calls: seq<Invocation>)
    requires Inv(w)
    ensures Inv(History(w, calls)) && Forward(w, History(w, calls))
    decreases |calls|
  {
    if calls != [] {
      InvokeKeepsInv(w, calls[0]);
      HistoryKeepsInv(Invoke(w, calls[0]), calls[1..]);
    }
  }

  // ---- Main results -----------------------------------------------------

  /** Over every history of calls, crashes and failed steps, the integration is begun at most once. */
  lemma IntegrationBeginsOnce(calls: seq<Invocation>)
    ensures Count(History(Empty(), calls).log, Begin(Integrate)) <= 1
  {
    HistoryKeepsInv(Empty(), calls);
  }

  /** From any point of any history on, the phase never moves backwards and the frozen identity never changes. */
  lemma NeverBackwards(before: seq<Invocation>, after: seq<Invocation>)
    requires History(Empty(), before).audit.Some?
    ensures var w, v := History(Empty(), before), History(History(Empty(), before), after);
            && v.audit.Some? && v.audit.value.identity == w.audit.value.identity
            && Rank(v.audit.value.phase) >= Rank(w.audit.value.phase)
  {
    HistoryKeepsInv(Empty(), before);
    HistoryKeepsInv(History(Empty(), before), after);
  }

  /** Where steps that ended in order stand in the log. */
  lemma {:induction false} EndedPositions(log: seq<Action>, steps: seq<Step>) returns (at: seq<nat>)
    requires EndedInOrder(log, steps)
    ensures |at| == |steps| && forall i :: 0 <= i < |at| ==> at[i] < |log| && log[at[i]] == End(steps[i])
    ensures forall i, j :: 0 <= i < j < |at| ==> at[i] < at[j]
    decreases |log|
  {
    at := [];
    if steps != [] {
      var n, last := |log| - 1, |steps| - 1;
      if log[n] == End(steps[last]) {
        at := EndedPositions(log[..n], steps[..last]);
        at := at + [n];
      } else {
        at := EndedPositions(log[..n], steps);
      }
    }
  }

  /** The finished phase means integration, kernel, platform, boot payload and checks all ended, in that order. */
  lemma FinishedMeansDone(calls: seq<Invocation>) returns (at: seq<nat>)
    requires var w := History(Empty(), calls); w.audit.Some? && w.audit.value.phase == Finished
    ensures var log := History(Empty(), calls).log;
            && |at| == 5 && at[0] < at[1] < at[2] < at[3] < at[4] < |log|
            && log[at[0]] == End(Integrate) && log[at[1]] == End(BuildKernel) && log[at[2]] == End(BuildAosp)
            && log[at[3]] == End(BuildBootPayload) && log[at[4]] == End(CheckInputs)
  {
    HistoryKeepsInv(Empty(), calls);
    at := EndedPositions(History(Empty(), calls).log, Needed(Finished));
  }

  /** A call that dies during the integration leaves a record no later call will touch. */
  lemma InterruptedStays(calls: seq<Invocation>, i: Invocation)
    requires PhaseOf(History(Empty(), calls)) == ApplyingIntegration
    ensures Invoke(History(Empty(), calls), i) == History(Empty(), calls)
  {
    HistoryKeepsInv(Empty(), calls);
  }

  // ---- Resuming finishes ------------------------------------------------

  function MinRank(stage: nat): nat {
    if stage == 0 then 0
    else if stage <= 2 then 2
    else if stage == 3 then 3
    else if stage <= 5 then 4
    else if stage == 6 then 5
    else if stage == 7 then 6
    else 7
  }

  function Cost(stage: nat): nat
    decreases STAGES - stage
  {
    if stage >= STAGES then 0
    else (if stage <= 1 then 4 else if stage == 2 || stage == 4 then 1 else 3) + Cost(stage + 1)
  }

  lemma {:induction false} AllApply(p: Process, actions: seq<Action>)
    requires p.alive && p.budget >= |actions|
    ensures ActAll(p, actions).alive && ActAll(p, actions).budget == p.budget - |actions|
    decreases |actions|
  {
    if actions != [] {
      AllApply(Act(p, actions[0]), actions[1..]);
    }
  }

  lemma PartAdvances(p: Process, stage: nat, commit: nat)
    requires p.alive && p.budget >= 4 && p.world.audit.Some? && stage < STAGES
    requires MinRank(stage) <= Rank(PhaseOf(p.world)) && PhaseOf(p.world) != ApplyingIntegration
    ensures var q := ActAll(p, Part(stage, PhaseOf(p.world), commit));
            q.world.audit.Some? && MinRank(stage + 1) <= Rank(PhaseOf(q.world))
            && PhaseOf(q.world) != ApplyingIntegration
  {
    var phase := PhaseOf(p.world);
    if stage == 0 && phase == UpstreamClean {
      IntegrationAdvances(p);
    } else if stage == 1 {
      AuditsAdvance(p);
    } else if stage == 2 && phase == IntegrationApplied {
      ActAllOne(p, Stamp(RebuildingKernel));
    } else if stage == 3 && phase == RebuildingKernel {
      StepAdvances(p, BuildKernel, BuildingAosp);
    } else if stage == 4 {
      ActAllOne(p, StampPipeline(commit));
    } else if stage == 5 && phase == BuildingAosp {
      StepAdvances(p, BuildAosp, BuildingBootPayload);
    } else if stage == 6 && phase == BuildingBootPayload {
      StepAdvances(p, BuildBootPayload, CheckingInputs);
    } else if stage == 7 && phase == CheckingInputs {
      StepAdvances(p, CheckInputs, Finished);
    }
  }

  lemma {:induction false} IntegrationAdvances(p: Process)
    requires p.alive && p.budget >= 4 && p.world.audit.Some?
    ensures var q := ActAll(p,
            [Stamp(ApplyingIntegration), Begin(Integrate), End(Integrate), Stamp(IntegrationApplied)]);
            q.world.audit.Some? && PhaseOf(q.world) == IntegrationApplied
  {
    Unfold4(p, Stamp(ApplyingIntegration), Begin(Integrate), End(Integrate), Stamp(IntegrationApplied));
  }

  lemma StepLeaves(p: Process, a: Action)
    requires p.alive && p.budget > 0 && (a.Begin? || a.End?)
    ensures Act(p, a).world.audit == p.world.audit && Act(p, a).alive && Act(p, a).budget == p.budget - 1
  {
  }

  lemma {:induction false} AuditsAdvance(p: Process)
    requires p.alive && p.budget >= 4 && p.world.audit.Some?
    ensures var q := ActAll(p, [Begin(AuditTree), End(AuditTree), Begin(AuditIntegration), End(AuditIntegration)]);
            q.world.audit.Some? && PhaseOf(q.world) == PhaseOf(p.world)
  {
    Unfold4(p, Begin(AuditTree), End(AuditTree), Begin(AuditIntegration), End(AuditIntegration));
    var p1 := Act(p, Begin(AuditTree));
    var p2 := Act(p1, End(AuditTree));
    StepLeaves(p, Begin(AuditTree));
    StepLeaves(p1, End(AuditTree));
    StepLeaves(p2, Begin(AuditIntegration));
    StepLeaves(Act(p2, Begin(AuditIntegration)), End(AuditIntegration));
  }

  lemma StepAdvances(p: Process, step: Step, phase: Phase)
    requires p.alive && p.budget >= 3 && p.world.audit.Some?
    ensures var q := ActAll(p, [Begin(step), End(step), Stamp(phase)]); q.world.audit.Some? && PhaseOf(q.world) == phase
  {
    Unfold3(p, Begin(step), End(step), Stamp(phase));
  }

  lemma {:induction false} StagesFinish(p: Process, stage: nat, commit: nat)
    requires p.alive && p.budget >= Cost(stage) + 4 && p.world.audit.Some? && stage <= STAGES
    requires MinRank(stage) <= Rank(PhaseOf(p.world)) && PhaseOf(p.world) != ApplyingIntegration
    ensures PhaseOf(Stages(p, stage, commit).world) == Finished
    decreases STAGES - stage
  {
    if stage < STAGES {
      var part := Part(stage, PhaseOf(p.world), commit);
      AllApply(p, part);
      PartAdvances(p, stage, commit);
      StagesFinish(ActAll(p, part), stage + 1, commit);
    }
  }

  /** Every record but an interrupted integration is finished by one resume that lives long enough. */
  lemma ResumeFinishes(calls: seq<Invocation>, i: Invocation)
    requires var w := History(Empty(), calls);
             w.audit.Some? && w.audit.value.identity.recipe == i.identity.recipe
             && w.audit.value.phase != ApplyingIntegration
    requires i.resume && i.admitted && i.worktrees && i.budget >= 26
    ensures PhaseOf(Invoke(History(Empty(), calls), i)) == Finished
  {
    assert Cost(0) == 22;
    StagesFinish(Process(History(Empty(), calls), i.budget, true), 0, i.commit);
  }
}
