/** The effects of each call of the release build, written out: a call performs its plan, or a beginning of it. */
module ReleasePlan {
  import opened Wrappers
  import opened ReleaseBuild

  /** The two audits that every call makes. */
  function Audits(): seq<Action> { [Begin(AuditTree), End(AuditTree), Begin(AuditIntegration), End(AuditIntegration)] }

  /** A step, and the stamp of the phase it leads to. */
  function Through(step: Step, phase: Phase): seq<Action> { [Begin(step), End(step), Stamp(phase)] }

  /** What follows the pipeline's stamp. */
  function Late(phase: Phase): seq<Action>
    decreases Rank(Finished) - Rank(phase)
  {
    match phase
    case BuildingAosp => Through(BuildAosp, BuildingBootPayload) + Late(BuildingBootPayload)
    case BuildingBootPayload => Through(BuildBootPayload, CheckingInputs) + Late(CheckingInputs)
    case CheckingInputs => Through(CheckInputs, Finished)
    case _ => []
  }

  function Stamped(phase: Phase, commit: nat): seq<Action> { [StampPipeline(commit)] + Late(phase) }

  /** The kernel and everything after it. */
  function KernelOn(commit: nat): seq<Action> { Through(BuildKernel, BuildingAosp) + Stamped(BuildingAosp, commit) }

  /** What a call does that starts from a record in `phase`, when it lives long enough. */
  function Plan(phase: Phase, commit: nat): seq<Action> {
    match phase
    case UpstreamClean =>
      [Stamp(ApplyingIntegration), Begin(Integrate), End(Integrate), Stamp(IntegrationApplied)]
      + (Audits() + ([Stamp(RebuildingKernel)] + KernelOn(commit)))
    case IntegrationApplied => Audits() + ([Stamp(RebuildingKernel)] + KernelOn(commit))
    case RebuildingKernel => Audits() + KernelOn(commit)
    case _ => Audits() + Stamped(phase, commit)
  }

  /** Two audits run, in this order, before anything is built. */
  lemma AuditsComeFirst(phase: Phase, commit: nat, k: nat)
    requires k < |Plan(phase, commit)| && Plan(phase, commit)[k].Begin?
    requires Plan(phase, commit)[k].step !in {Integrate, AuditTree, AuditIntegration}
    ensures exists i: nat, j: nat :: i < j < k
              && Plan(phase, commit)[i] == End(AuditTree) && Plan(phase, commit)[j] == End(AuditIntegration)
  {
    var i := if phase == UpstreamClean then 5 else 1;
    assert Plan(phase, commit)[i] == End(AuditTree) && Plan(phase, commit)[i + 2] == End(AuditIntegration);
  }

  // ---- Stage by stage ---------------------------------------------------

  /** The phase after a stage that was reached in `phase`. */
  function After(stage: nat, phase: Phase): Phase {
    if stage == 0 && phase == UpstreamClean then IntegrationApplied
    else if stage == 2 && phase == IntegrationApplied then RebuildingKernel
    else if stage == 3 && phase == RebuildingKernel then BuildingAosp
    else if stage == 5 && phase == BuildingAosp then BuildingBootPayload
    else if stage == 6 && phase == BuildingBootPayload then CheckingInputs
    else if stage == 7 && phase == CheckingInputs then Finished
    else phase
  }

  function From(stage: nat, phase: Phase, commit: nat): seq<Action>
    decreases STAGES - stage
  {
    if stage >= STAGES then [] else Part(stage, phase, commit) + From(stage + 1, After(stage, phase), commit)
  }

  lemma {:induction false} ActAllJoin(p: Process, a: seq<Action>, b: seq<Action>)
    ensures ActAll(p, a + b) == ActAll(ActAll(p, a), b)
    decreases |a|
  {
    if a == [] {
      assert a + b == b;
    } else {
      assert (a + b)[0] == a[0] && (a + b)[1..] == a[1..] + b;
      ActAllJoin(Act(p, a[0]), a[1..], b);
    }
  }

  /** A process that survives some effects was alive and had the life for them. */
  lemma {:induction false} SurvivorHadLife(p: Process, actions: seq<Action>)
    requires ActAll(p, actions).alive
    ensures p.alive && p.budget >= |actions|
    decreases |actions|
  {
    if actions != [] {
      SurvivorHadLife(Act(p, actions[0]), actions[1..]);
    }
  }

  lemma StageLeads(p: Process, stage: nat, commit: nat)
    requires stage < STAGES && p.world.audit.Some?
    ensures var q := ActAll(p, Part(stage, PhaseOf(p.world), commit));
            q.alive ==> q.world.audit.Some? && PhaseOf(q.world) == After(stage, PhaseOf(p.world))
  {
    var phase := PhaseOf(p.world);
    var part := Part(stage, phase, commit);
    if ActAll(p, part).alive {
      SurvivorHadLife(p, part);
      if stage == 0 && phase == UpstreamClean {
        IntegrationAdvances(p);
      } else if stage == 1 {
        AuditsAdvance(p);
      } else if |part| == 1 {
        ActAllOne(p, part[0]);
      } else if |part| == 3 {
        StepAdvances(p, part[0].step, part[2].phase);
      }
    }
  }

  lemma {:induction false} StagesArePlan(p: Process, stage: nat, commit: nat)
    requires p.alive ==> p.world.audit.Some?
    ensures Stages(p, stage, commit) == ActAll(p, From(stage, PhaseOf(p.world), commit))
    decreases STAGES - stage
  {
    var phase := PhaseOf(p.world);
    if !p.alive {
      DeadStages(p, stage, commit);
      DeadDoesNothing(p, From(stage, phase, commit));
    } else if stage < STAGES {
      var part := Part(stage, phase, commit);
      var q := ActAll(p, part);
      StageLeads(p, stage, commit);
      StagesArePlan(q, stage + 1, commit);
      ActAllJoin(p, part, From(stage + 1, After(stage, phase), commit));
      if !q.alive {
        DeadDoesNothing(q, From(stage + 1, PhaseOf(q.world), commit));
        DeadDoesNothing(q, From(stage + 1, After(stage, phase), commit));
      }
    }
  }

  /** A stage that has nothing to do in `phase` is passed over. */
  lemma Passed(stage: nat, phase: Phase, commit: nat)
    requires stage < STAGES && Part(stage, phase, commit) == []
    ensures From(stage, phase, commit) == From(stage + 1, phase, commit)
  {
    assert [] + From(stage + 1, phase, commit) == From(stage + 1, phase, commit);
  }

  lemma LateStages(phase: Phase, commit: nat)
    requires phase in {BuildingAosp, BuildingBootPayload, CheckingInputs, ApplyingIntegration, Finished}
    ensures From(5, phase, commit) == Late(phase)
  {
    assert From(7, CheckingInputs, commit) == Through(CheckInputs, Finished);
    assert From(6, BuildingBootPayload, commit) == Through(BuildBootPayload, CheckingInputs) + Late(CheckingInputs);
    if phase != BuildingAosp {
      Passed(5, phase, commit);
      if phase != BuildingBootPayload {
        Passed(6, phase, commit);
      }
    }
  }

  lemma KernelStages(commit: nat)
    ensures From(3, RebuildingKernel, commit) == KernelOn(commit)
  {
    LateStages(BuildingAosp, commit);
    assert From(4, BuildingAosp, commit) == Stamped(BuildingAosp, commit);
  }

  lemma IntegratedStages(commit: nat)
    ensures From(2, IntegrationApplied, commit) == [Stamp(RebuildingKernel)] + KernelOn(commit)
  {
    KernelStages(commit);
  }

  /** The stages after the audits. */
  lemma BuildStages(phase: Phase, commit: nat)
    requires phase != UpstreamClean && phase != IntegrationApplied
    ensures From(2, phase, commit) == if phase == RebuildingKernel then KernelOn(commit) else Stamped(phase, commit)
  {
    Passed(2, phase, commit);
    if phase == RebuildingKernel {
      KernelStages(commit);
    } else {
      Passed(3, phase, commit);
      LateStages(phase, commit);
    }
  }

  lemma AllStages(phase: Phase, commit: nat)
    ensures From(0, phase, commit) == Plan(phase, commit)
  {
    if phase == UpstreamClean {
      IntegratedStages(commit);
      assert From(1, IntegrationApplied, commit) == Audits() + From(2, IntegrationApplied, commit);
    } else {
      Passed(0, phase, commit);
      assert From(1, phase, commit) == Audits() + From(2, phase, commit);
      if phase == IntegrationApplied {
        IntegratedStages(commit);
      } else {
        BuildStages(phase, commit);
      }
    }
  }

  /** The stages, whatever crash ends them, are the plan of the phase the record is in. */
  lemma StagesFollowPlan(p: Process, commit: nat)
    requires p.alive ==> p.world.audit.Some?
    ensures Stages(p, 0, commit) == ActAll(p, Plan(PhaseOf(p.world), commit))
  {
    StagesArePlan(p, 0, commit);
    AllStages(PhaseOf(p.world), commit);
  }

  // ---- Whole calls ------------------------------------------------------

  /** The effects of a call that nothing cuts short; none when it is refused. */
  function Effects(w: World, i: Invocation): seq<Action> {
    if !i.admitted then []
    else if i.resume then
      if w.audit.Some? && w.audit.value.identity.recipe == i.identity.recipe && i.worktrees
         && w.audit.value.phase != ApplyingIntegration
      then Plan(w.audit.value.phase, i.commit) else []
    else if w.made then []
    else
      [Prepare(0), Prepare(1), Prepare(2), Prepare(3), Create(i.identity)]
      + if i.worktrees then Plan(UpstreamClean, i.commit) else []
  }

  /** What `actions` leave of a world. */
  function Done(w: World, actions: seq<Action>): World
    decreases |actions|
  {
    if actions == [] then w else Apply(Done(w, actions[..|actions| - 1]), actions[|actions| - 1])
  }

  function Min(a: nat, b: nat): nat { if a < b then a else b }

  lemma {:induction false} DoneFirst(w: World, actions: seq<Action>)
    requires actions != []
    ensures Done(w, actions) == Done(Apply(w, actions[0]), actions[1..])
    decreases |actions|
  {
    if |actions| > 1 {
      DoneFirst(w, actions[..|actions| - 1]);
      assert actions[..|actions| - 1][1..] == actions[1..][..|actions| - 2];
    } else {
      assert actions[..0] == [] && actions[1..] == [];
    }
  }

  /** A process performs as many effects as it has life for. */
  lemma {:induction false} PrefixIsDone(p: Process, actions: seq<Action>)
    requires p.alive
    ensures ActAll(p, actions).world == Done(p.world, actions[..Min(p.budget, |actions|)])
    ensures ActAll(p, actions).alive <==> p.budget >= |actions|
    decreases |actions|
  {
    if actions != [] {
      var n, q := Min(p.budget, |actions|), Act(p, actions[0]);
      if p.budget == 0 {
        DeadDoesNothing(q, actions[1..]);
        assert actions[..n] == [];
      } else {
        PrefixIsDone(q, actions[1..]);
        DoneFirst(p.world, actions[..n]);
        assert actions[..n][1..] == actions[1..][..n - 1];
      }
    }
  }

  lemma {:induction false} CreationFollowsPlan(p: Process, i: Invocation)
    requires p.alive
    ensures Stages(ActAll(p, Creation(i.identity)), 0, i.commit)
            == ActAll(p, Creation(i.identity) + Plan(UpstreamClean, i.commit))
  {
    var q := ActAll(p, Creation(i.identity));
    ActAllJoin(p, Creation(i.identity), Plan(UpstreamClean, i.commit));
    if q.alive {
      Unfold5(p, Prepare(0), Prepare(1), Prepare(2), Prepare(3), Create(i.identity));
      StagesFollowPlan(q, i.commit);
    } else {
      DeadStages(q, 0, i.commit);
      DeadDoesNothing(q, Plan(UpstreamClean, i.commit));
    }
  }

  /** A resumed record. */
  lemma ResumeActs(w: World, i: Invocation)
    requires i.resume
    ensures Invoke(w, i) == ActAll(Process(w, i.budget, true), Effects(w, i)).world
  {
    if w.audit.Some? {
      StagesFollowPlan(Process(w, i.budget, true), i.commit);
    }
  }

  /** A new record. */
  lemma FreshActs(w: World, i: Invocation)
    requires !i.resume
    ensures Invoke(w, i) == ActAll(Process(w, i.budget, true), Effects(w, i)).world
  {
    var p, made := Process(w, i.budget, true), Creation(i.identity);
    CreationFollowsPlan(p, i);
    assert i.admitted && !w.made ==>
             Effects(w, i) == if i.worktrees then made + Plan(UpstreamClean, i.commit) else made;
  }

  /** The effects of a call are its plan, up to where the process dies. */
  lemma CallIsPlan(w: World, i: Invocation)
    ensures Invoke(w, i) == Done(w, Effects(w, i)[..Min(i.budget, |Effects(w, i)|)])
  {
    PrefixIsDone(Process(w, i.budget, true), Effects(w, i));
    if i.resume {
      ResumeActs(w, i);
    } else {
      FreshActs(w, i);
    }
  }

  lemma {:induction false} DoneIsLogged(w: World, actions: seq<Action>)
    ensures Done(w, actions).log == w.log + actions
    decreases |actions|
  {
    if actions != [] {
      DoneIsLogged(w, actions[..|actions| - 1]);
      assert actions == actions[..|actions| - 1] + [actions[|actions| - 1]];
    }
  }

  /**
   * A call changes something exactly when it is admitted, lives, and either starts a record where none was begun
   * or resumes one of the same recipe, with its worktrees intact and no integration interrupted.
   */
  lemma RefusedIff(w: World, i: Invocation)
    ensures Invoke(w, i) != w <==>
              && i.admitted && i.budget > 0
              && if i.resume then
                   && w.audit.Some? && w.audit.value.identity.recipe == i.identity.recipe && i.worktrees
                   && w.audit.value.phase != ApplyingIntegration
                 else !w.made
  {
    CallIsPlan(w, i);
    DoneIsLogged(w, Effects(w, i)[..Min(i.budget, |Effects(w, i)|)]);
  }

  /** No record is created, and the only pipeline stamped is that of `commit`. */
  predicate StampsOnly(actions: seq<Action>, commit: nat) {
    forall k :: 0 <= k < |actions| ==>
      !actions[k].Create? && (actions[k].StampPipeline? ==> actions[k].commit == commit)
  }

  /** Effects that stamp the pipeline's commit and create no record leave that commit in it. */
  lemma {:induction false} PipelineStays(w: World, actions: seq<Action>, commit: nat)
    requires w.audit.Some? && (StampPipeline(commit) in actions || w.audit.value.pipeline == Some(commit))
    requires StampsOnly(actions, commit)
    ensures Done(w, actions).audit.Some? && Done(w, actions).audit.value.pipeline == Some(commit)
    ensures Done(w, actions).audit.value.identity == w.audit.value.identity
    decreases |actions|
  {
    if actions != [] {
      DoneFirst(w, actions);
      var next := Apply(w, actions[0]);
      assert StampPipeline(commit) in actions[1..] || next.audit.value.pipeline == Some(commit);
      PipelineStays(next, actions[1..], commit);
    }
  }

  lemma LateStamps(phase: Phase, commit: nat)
    ensures StampsOnly(Stamped(phase, commit), commit) && StampPipeline(commit) == Stamped(phase, commit)[0]
  {
    assert StampsOnly(Late(CheckingInputs), commit);
    assert StampsOnly(Late(BuildingBootPayload), commit);
    assert StampsOnly(Late(BuildingAosp), commit);
  }

  /** Every plan stamps the pipeline, once. */
  lemma PlanStamps(phase: Phase, commit: nat)
    ensures StampsOnly(Plan(phase, commit), commit) && StampPipeline(commit) in Plan(phase, commit)
  {
    LateStamps(phase, commit);
    LateStamps(BuildingAosp, commit);
    var kernel := KernelOn(commit);
    StampsAfter(Through(BuildKernel, BuildingAosp), Stamped(BuildingAosp, commit), commit);
    StampsAfter([Stamp(RebuildingKernel)], kernel, commit);
    StampsAfter(Audits(), [Stamp(RebuildingKernel)] + kernel, commit);
    StampsAfter(Audits(), kernel, commit);
    StampsAfter(Audits(), Stamped(phase, commit), commit);
    StampsAfter([Stamp(ApplyingIntegration), Begin(Integrate), End(Integrate), Stamp(IntegrationApplied)],
                Audits() + ([Stamp(RebuildingKernel)] + kernel), commit);
  }

  /** Steps before a stamp of the pipeline change nothing about it. */
  lemma StampsAfter(steps: seq<Action>, rest: seq<Action>, commit: nat)
    requires forall k :: 0 <= k < |steps| ==> !steps[k].Create? && !steps[k].StampPipeline?
    requires StampsOnly(rest, commit) && StampPipeline(commit) in rest
    ensures StampsOnly(steps + rest, commit) && StampPipeline(commit) in steps + rest
  {
    var k :| 0 <= k < |rest| && rest[k] == StampPipeline(commit);
    assert (steps + rest)[|steps| + k] == StampPipeline(commit);
  }

  /** A resume that lives long enough records the commit of the pipeline that finished the build. */
  lemma FinishedByPipeline(w: World, i: Invocation)
    requires i.admitted && i.resume && i.worktrees && w.audit.Some? && w.audit.value.phase != ApplyingIntegration
    requires w.audit.value.identity.recipe == i.identity.recipe && i.budget >= |Effects(w, i)|
    ensures Invoke(w, i).audit.Some? && Invoke(w, i).audit.value.pipeline == Some(i.commit)
    ensures Invoke(w, i).audit.value.identity == w.audit.value.identity
  {
    var effects := Effects(w, i);
    CallIsPlan(w, i);
    assert effects[..|effects|] == effects;
    PlanStamps(w.audit.value.phase, i.commit);
    PipelineStays(w, effects, i.commit);
  }
}
