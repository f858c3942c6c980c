/** What a device reboot that comes back in the old slot, with an installation recorded, leaves possible. */
module OtaStranded {
  import opened Wrappers
  import opened Ota
  import opened OtaLimits

  function SlotSequence(slot: Boot): int { if slot.sequence.Some? then slot.sequence.value else 0 }

  /** An installation is recorded, and what booted is neither it nor a reported rollback. */
  predicate Stranded(s: State) {
    && s.prefs.rebootReady && SlotSequence(s.boot) < s.prefs.pending && !s.boot.rollback
    && s.engine.Idle? && AllInert(s.queue) && !s.installing
    && (s.worker.Booting? || s.worker.RollbackCheck? || s.worker.Resuming? || s.worker.Ready? || s.worker.Failing?)
  }

  predicate NoReboot(es: seq<Event>) { forall i :: 0 <= i < |es| ==> !es[i].DeviceReboot? }

  lemma StrandedStep(s: State, e: Event)
    requires Stranded(s) && Enabled(s, e) && !e.DeviceReboot?
    ensures Stranded(Step(s, e)) && Step(s, e).prefs == s.prefs && Step(s, e).files == s.files && !e.Submit?
  {
  }

  lemma {:induction false} StrandedRun(s: State, es: seq<Event>, t: State)
    requires Stranded(s) && Reaches(s, es, t) && NoReboot(es)
    ensures Stranded(t) && t.prefs == s.prefs && t.files == s.files && forall i :: 0 <= i < |es| ==> !es[i].Submit?
    decreases |es|
  {
    if es != [] {
      StrandedStep(s, es[0]);
      StrandedRun(Step(s, es[0]), es[1..], t);
      assert forall i :: 0 < i < |es| ==> es[i] == es[1..][i - 1];
    }
  }

  /** No run from here without a device reboot changes the saved preferences. */
  ghost predicate KeepsRecord(s: State) {
    forall es, t :: Reaches(s, es, t) && NoReboot(es) ==> t.prefs == s.prefs
  }

  /** Some run without a device reboot leads from `s` to `t`. */
  ghost predicate LeadsWithoutReboot(s: State, t: State) { exists es :: Reaches(s, es, t) && NoReboot(es) }

  lemma WithoutRebootThen(s: State, t: State, e: Event) returns (u: State)
    requires LeadsWithoutReboot(s, t) && Enabled(t, e) && !e.DeviceReboot?
    ensures u == Step(t, e) && LeadsWithoutReboot(s, u)
  {
    u := Step(t, e);
    var es :| Reaches(s, es, t) && NoReboot(es);
    assert Reaches(u, [e][1..], u);
    ReachesJoin(s, es, t, [e], u);
    assert NoReboot(es + [e]);
  }

  /** A start of the service completes an update whose slot booted, or finds a rollback, and then empties the record. */
  lemma EmptyingRun(s: State) returns (t: State)
    requires s.worker.Booting? && s.prefs.pending > 0
    requires s.boot.rollback || SlotSequence(s.boot) >= s.prefs.pending
    ensures LeadsWithoutReboot(s, t) && t.prefs.pending == 0
  {
    assert Reaches(s, [], s);
    var s1 := WithoutRebootThen(s, s, if SlotSequence(s.boot) >= s.prefs.pending then BootVerified else Work);
    var s2 := WithoutRebootThen(s, s1, Work);
    assert s2.worker.Clearing?;
    var s3 := WithoutRebootThen(s, s2, Work);
    t := WithoutRebootThen(s, s3, Work);
  }

  /**
   * With an installation recorded, a device reboot strands the service exactly when it comes back in a slot below
   * the pending sequence and no rollback is reported: until the next device reboot no command, callback or restart
   * of the process changes record or stages, and nothing is submitted.
   */
  lemma StrandedIff(slot: Boot, before: seq<Event>, s: State, next: Boot)
    requires Reaches(FirstStart(slot), before, s) && s.prefs.rebootReady
    ensures KeepsRecord(Step(s, DeviceReboot(next))) <==> !next.rollback && SlotSequence(next) < s.prefs.pending
  {
    RunKeepsInv(FirstStart(slot), before, s);
    var s0 := Step(s, DeviceReboot(next));
    if Stranded(s0) {
      forall es, t | Reaches(s0, es, t) && NoReboot(es) ensures t.prefs == s0.prefs {
        StrandedRun(s0, es, t);
      }
    } else {
      var t := EmptyingRun(s0);
    }
  }

  /** Over any run from such a reboot up to the next one. */
  lemma StrandedStays(slot: Boot, before: seq<Event>, s: State, next: Boot, es: seq<Event>, t: State)
    requires Reaches(FirstStart(slot), before, s) && s.prefs.rebootReady
    requires !next.rollback && SlotSequence(next) < s.prefs.pending
    requires Reaches(Step(s, DeviceReboot(next)), es, t) && NoReboot(es)
    ensures t.prefs == s.prefs && t.files == s.files && t.engine.Idle?
    ensures forall i :: 0 <= i < |es| ==> !es[i].Submit?
  {
    StrandedRun(Step(s, DeviceReboot(next)), es, t);
  }

  /** A run in which a reboot comes back in the old slot with an installation recorded. */
  lemma StrandedIsReached() returns (slot: Boot, es: seq<Event>, s: State)
    ensures Reaches(FirstStart(slot), es, s) && Stranded(s) && s.boot == slot
  {
    slot := Boot(Some(1), true, false);
    var s0 := InstallRun(slot, Package(Metadata(2, 0), true));
    var s1 := LeadsThen(FirstStart(slot), s0, EngineFinishes(0));
    var s2 := LeadsThen(FirstStart(slot), s1, Deliver);
    s := LeadsThen(FirstStart(slot), s2, DeviceReboot(slot));
    es :| Reaches(FirstStart(slot), es, s);
  }
}
