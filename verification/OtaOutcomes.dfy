/**
 * What each command of the update service comes to when nothing interrupts it, from its first effect to the
 * clean-up of a failure, and what a recorded completion proves about the slot that booted.
 */
module OtaOutcomes {
  import opened Wrappers
  import opened Ota
  import opened OtaService

  /** The slot that booted carries `sequence` or a later one, and its boot was verified. */
  predicate Booted(boot: Boot, sequence: int) {
    boot.verified && boot.sequence.Some? && boot.sequence.value >= sequence
  }

  /** The preferences when nothing is pending. */
  function Nothing(accepted: int): Prefs { Prefs(0, None, false, accepted) }

  function Without(files: map<StageId, Package>, file: Option<StageId>): map<StageId, Package> {
    map f | f in files && Some(f) != file :: files[f]
  }

  // ---- Completions ------------------------------------------------------

  lemma WorkAccepts(s: State)
    requires Worked(s).prefs.accepted != s.prefs.accepted
    ensures Worked(s).prefs.accepted == s.prefs.pending > 0 && Booted(s.boot, s.prefs.pending)
  {
  }

  lemma CommandAccepts(s: State, e: Event)
    requires Begin(s, e).prefs.accepted != s.prefs.accepted
    ensures Begin(s, e).prefs.accepted == s.prefs.pending > 0 && Booted(s.boot, s.prefs.pending)
  {
  }

  /** The accepted sequence changes only to the pending one, and only once its slot booted and was verified. */
  lemma AcceptedMeansBooted(s: State, e: Event)
    requires Enabled(s, e) && Step(s, e).prefs.accepted != s.prefs.accepted
    ensures Step(s, e).prefs.accepted == s.prefs.pending > 0 && Booted(s.boot, s.prefs.pending)
  {
    if e.Work? {
      WorkAccepts(s);
    } else if IsCommand(e) {
      CommandAccepts(s, e);
    }
  }

  /** In every run, whatever sequence is accepted was once pending in a verified boot of its slot. */
  lemma {:induction false} AcceptedWasBooted(s: State, es: seq<Event>, t: State) returns (n: nat, at: State)
    requires Reaches(s, es, t) && t.prefs.accepted != s.prefs.accepted
    ensures n < |es| && Reaches(s, es[..n], at) && Reaches(at, es[n..], t)
    ensures at.prefs.pending == t.prefs.accepted > 0 && Booted(at.boot, t.prefs.accepted)
    decreases |es|
  {
    var s1 := Step(s, es[0]);
    if s1.prefs.accepted == t.prefs.accepted {
      AcceptedMeansBooted(s, es[0]);
      n, at := 0, s;
      assert es[..0] == [] && es[0..] == es;
    } else {
      n, at := AcceptedWasBooted(s1, es[1..], t);
      n := n + 1;
      assert es[..n][1..] == es[1..][..n - 1] && es[n..] == es[1..][n - 1..];
    }
  }

  // ---- What a start or a command comes to -------------------------------

  /** A completed update: its sequence is accepted, its stage is gone, and nothing is pending. */
  function Completed(s: State): State {
    s.(prefs := Nothing(s.prefs.pending), files := Without(s.files, s.prefs.stage), torn := false)
  }

  /** Nothing is pending any more and the pending stage is gone. */
  function Emptied(s: State): State {
    s.(prefs := Nothing(s.prefs.accepted), files := Without(s.files, s.prefs.stage), torn := false)
  }

  /** A failed command gives up the stage it made and the record, unless an update is under way. */
  function GivenUp(s: State): State {
    if s.installing || s.prefs.rebootReady then s
    else Emptied(s.(files := Without(s.files, s.stageFile)))
  }

  predicate HasBooted(s: State) { s.prefs.pending > 0 && Booted(s.boot, s.prefs.pending) }

  lemma ClearingOutcome(s: State, after: After, w: World)
    ensures Finish(s.(worker := Clearing(false, after)), w) == Finish(Emptied(s).(worker := Continue(after)), w)
  {
    var s1 := s.(worker := Clearing(false, after));
    var s2 := Step(s1, Work);
    assert Discard(s.files, s.prefs.stage) == Without(s.files, s.prefs.stage);
    assert Finish(s2, w) == Finish(Step(s2, Work), w);
  }

  lemma FailingOutcome(s: State, w: World)
    ensures Finish(s.(worker := Failing), w) == GivenUp(s).(worker := Ready)
  {
    if !Busy(s) {
      var s1 := s.(files := Without(s.files, s.stageFile));
      assert Discard(s.files, s.stageFile) == Without(s.files, s.stageFile);
      assert Step(s.(worker := Failing), Work) == s1.(worker := Clearing(false, ToReady));
      ClearingOutcome(s1, ToReady, w);
    }
  }

  /** onCreate completes a pending update exactly when its slot booted and was verified, and clears up a rollback. */
  lemma StartOutcome(s: State, w: World)
    requires s.worker.Booting?
    ensures var t := if HasBooted(s) then Completed(s) else s;
            Finish(s, w) == (if s.boot.rollback then Emptied(t).(engine := Idle) else t).(worker := Ready)
  {
    var t := if HasBooted(s) then Completed(s) else s;
    if HasBooted(s) {
      var s1 := s.(prefs := s.prefs.(accepted := s.prefs.pending), torn := true);
      assert Step(s, Work) == s1.(worker := Clearing(false, ToRollback));
      ClearingOutcome(s1, ToRollback, w);
      assert Emptied(s1) == Completed(s);
    }
    assert Finish(s, w) == Finish(t.(worker := RollbackCheck), w);
    if s.boot.rollback {
      ClearingOutcome(t.(engine := Idle), ToReady, w);
    }
  }

  /** The staged file is sound, as announced, and newer than both the booted slot and every accepted sequence. */
  predicate Admissible(s: State, file: StageId, expected: Option<Metadata>) {
    && file in s.files && s.files[file].sound
    && (expected.Some? ==> expected.value == s.files[file].meta)
    && var n := s.files[file].meta.sequence;
    && n > 0 && n > s.prefs.accepted && (if s.boot.sequence.Some? then n > s.boot.sequence.value else n > 1)
  }

  /** The engine has the staged file, recorded as pending. */
  function Handed(s: State, file: StageId): State
    requires file in s.files
  {
    s.(engine := Applying(file, s.files[file]), installing := true, torn := false,
       prefs := Prefs(s.files[file].meta.sequence, Some(file), s.prefs.rebootReady, s.prefs.accepted))
  }

  /** What applying a staged file comes to. */
  function Applied(s: State, file: StageId, expected: Option<Metadata>, w: World): State {
    if !Admissible(s, file, expected) then GivenUp(s)
    else if w.accepts && s.engine.Idle? then Handed(s, file)
    else GivenUp(Emptied(s.(prefs := s.prefs.(stage := Some(file)), installing := false)))
  }

  lemma SubmitOutcome(s: State, file: StageId, w: World)
    requires file in s.files && s.prefs.stage == Some(file) && s.prefs.pending == s.files[file].meta.sequence && !s.torn
    ensures Finish(s.(worker := Committed(file)), w) ==
            (if w.accepts && s.engine.Idle? then Handed(s, file)
             else GivenUp(Emptied(s.(installing := false)))).(worker := Ready)
  {
    var s1 := s.(installing := true, worker := Marked(file));
    assert Step(s.(worker := Committed(file)), Work) == s1;
    var s2 := Step(s1, Submit(w.accepts));
    assert Finish(s1, w) == Finish(s2, w);
    if w.accepts && s.engine.Idle? {
      assert s2 == Handed(s, file).(worker := Ready);
      assert Finish(s2, w) == s2;
    } else {
      var t := s.(installing := false);
      assert s2 == t.(worker := Clearing(false, ToFailing));
      ClearingOutcome(t, ToFailing, w);
      FailingOutcome(Emptied(t), w);
    }
  }

  lemma ApplyOutcome(s: State, file: StageId, expected: Option<Metadata>, w: World)
    ensures Finish(s.(worker := Verifying(file, expected)), w) == Applied(s, file, expected, w).(worker := Ready)
  {
    var s0 := s.(worker := Verifying(file, expected));
    if Admissible(s, file, expected) {
      assert Step(s0, Work) == s.(worker := Checked(file));
      var n := s.files[file].meta.sequence;
      var s1 := s.(prefs := s.prefs.(pending := n, stage := Some(file)), torn := false);
      assert Step(s.(worker := Checked(file)), Work) == s1.(worker := Committed(file));
      SubmitOutcome(s1, file, w);
    } else {
      assert Step(s0, Work) == s.(worker := Failing);
      FailingOutcome(s, w);
    }
  }

  /** What download and import come to: a copy into a new stage, and then its application. */
  function Staged(s: State, expected: Option<Metadata>, w: World): State {
    if s.installing || s.prefs.rebootReady || w.id in s.files then GivenUp(s)
    else
      var copied := s.(stageFile := Some(w.id), files := s.files[w.id := w.package]);
      if w.complete then Applied(copied, w.id, expected, w) else GivenUp(copied)
  }

  lemma StageOutcome(s: State, expected: Option<Metadata>, w: World)
    ensures Finish(NewStage(s, w.id, expected), w) == Staged(s, expected, w).(worker := Ready)
  {
    if Busy(s) || w.id in s.files {
      FailingOutcome(s, w);
    } else {
      var s1 := NewStage(s, w.id, expected);
      var copied := s.(stageFile := Some(w.id), files := s.files[w.id := w.package]);
      assert s1.files[w.id := w.package] == copied.files;
      assert Step(s1, Copied(w.package, w.complete))
             == copied.(worker := if w.complete then Verifying(w.id, expected) else Failing);
      if w.complete {
        ApplyOutcome(copied, w.id, expected, w);
      } else {
        FailingOutcome(copied, w);
      }
    }
  }

  /** What resume comes to: a completion, or another submission of what is pending, or nothing. */
  function Resumed(s: State, w: World): State {
    if HasBooted(s) then Completed(s)
    else if !s.installing && !s.prefs.rebootReady && s.prefs.pending > s.prefs.accepted
            && s.prefs.pending > (if s.boot.sequence.Some? then s.boot.sequence.value else 1)
    then if s.prefs.stage.Some? then Applied(s, s.prefs.stage.value, None, w) else GivenUp(s)
    else s
  }

  lemma ResumeOutcome(s: State, w: World)
    requires s.worker.Ready?
    ensures Finish(Begin(s, Resume), w) == Resumed(s, w).(worker := Ready)
  {
    if HasBooted(s) {
      var s1 := s.(prefs := s.prefs.(accepted := s.prefs.pending), torn := true);
      assert Begin(s, Resume) == s1.(worker := Clearing(false, ToResume));
      ClearingOutcome(s1, ToResume, w);
      assert Emptied(s1) == Completed(s);
      assert Step(Completed(s).(worker := Resuming), Work) == Completed(s).(worker := Ready);
    } else {
      assert Begin(s, Resume) == s.(worker := Resuming);
      var s1 := Step(s.(worker := Resuming), Work);
      if s1.worker.Verifying? {
        ApplyOutcome(s, s.prefs.stage.value, None, w);
      } else if s1.worker.Failing? {
        FailingOutcome(s, w);
      }
    }
  }

  /** The newest release that the list confirms, if any is newer than the booted slot and every accepted sequence. */
  predicate Confirms(s: State, all: seq<Option<Metadata>>, k: nat) {
    && k < |all| && all[k].Some? && all[k].value.sequence > s.prefs.accepted
    && all[k].value.sequence > (if s.boot.sequence.Some? then s.boot.sequence.value else 1)
    && forall i :: 0 <= i < |all| && all[i].Some? ==>
         all[i].value.sequence <= all[k].value.sequence && (i < k ==> all[i].value.sequence < all[k].value.sequence)
  }

  function AfterCheck(s: State, w: World): State { Finish(Begin(s, EventOf(CheckCommand, w, Current(s))), w) }

  /** What check comes to when the list was fetched: the newest confirmed release, or none, or a failure. */
  lemma CheckOutcome(s: State, w: World) returns (k: nat)
    requires s.worker.Ready? && w.releases.Some?
    ensures var all := Considered(w.releases.value, w.authenticate);
            if s.installing || s.prefs.rebootReady then AfterCheck(s, w) == s
            else if exists i :: Confirms(s, all, i) then
              Confirms(s, all, k) && AfterCheck(s, w) == s.(candidate := all[k])
            else if None in all then AfterCheck(s, w) == GivenUp(s.(candidate := None))
            else AfterCheck(s, w) == s.(candidate := None)
  {
    var all := Considered(w.releases.value, w.authenticate);
    k := BestIsConfirmed(s, all);
    if Busy(s) {
      FailingOutcome(s, w);
    } else {
      CheckFinds(s, w, all);
    }
  }

  /** The release chosen is the newest confirmed one. */
  lemma BestIsConfirmed(s: State, all: seq<Option<Metadata>>) returns (k: nat)
    ensures Best(all, Current(s)).Some? <==> exists i :: Confirms(s, all, i)
    ensures Best(all, Current(s)).Some? ==> Confirms(s, all, k) && Best(all, Current(s)) == all[k]
  {
    k := BestIsNewest(all, Current(s));
    if Best(all, Current(s)).Some? {
      assert Confirms(s, all, k);
    }
  }

  /** A check of a service that is free, by what was chosen. */
  lemma CheckFinds(s: State, w: World, all: seq<Option<Metadata>>)
    requires s.worker.Ready? && !Busy(s) && w.releases.Some? && all == Considered(w.releases.value, w.authenticate)
    ensures var best := Best(all, Current(s));
            AfterCheck(s, w) ==
            if best.Some? then s.(candidate := best)
            else if None in all then GivenUp(s.(candidate := None)) else s.(candidate := None)
  {
    FailingOutcome(s.(candidate := None), w);
  }

  /** Asset `i` is the last one of its kind. */
  predicate IsLast(assets: seq<Asset>, kind: AssetKind, i: nat) {
    i < |assets| && assets[i].kind == kind && forall j :: i < j < |assets| ==> assets[j].kind != kind
  }

  /** A release that is no draft and whose last metadata file and last signature are these. */
  predicate Offers(r: Release, meta: nat, sig: nat) {
    !r.draft && IsLast(r.assets, MetadataFile, meta) && IsLast(r.assets, SignatureFile, sig)
  }

  lemma {:induction false} LatestIsLast(assets: seq<Asset>, kind: AssetKind) returns (i: nat)
    ensures if Latest(assets, kind).Some? then IsLast(assets, kind, i) && Latest(assets, kind) == Some(assets[i].url)
            else forall j :: 0 <= j < |assets| ==> assets[j].kind != kind
    decreases |assets|
  {
    i := |assets|;
    if assets != [] {
      i := |assets| - 1;
      if assets[i].kind != kind {
        i := LatestIsLast(assets[..i], kind);
      }
    }
  }

  ghost predicate IsOffered(r: Release, auth: Authenticate, o: Option<Metadata>) {
    exists m: nat, g: nat :: Offers(r, m, g) && o == auth(r.assets[m].url, r.assets[g].url)
  }

  ghost predicate OffersNothing(r: Release) { forall m: nat, g: nat :: !Offers(r, m, g) }

  /** `at` are the places of the releases that offer something, and `offers` what they offer. */
  ghost predicate OffersAt(releases: seq<Release>, auth: Authenticate, at: seq<nat>, offers: seq<Option<Metadata>>) {
    && |at| == |offers| && (forall i, j :: 0 <= i < j < |at| ==> at[i] < at[j])
    && (forall i :: 0 <= i < |at| ==> at[i] < |releases| && IsOffered(releases[at[i]], auth, offers[i]))
    && forall r :: 0 <= r < |releases| && r !in at ==> OffersNothing(releases[r])
  }

  /** What the last release offers, if it does. */
  lemma LastOffer(r: Release, auth: Authenticate)
    ensures Complete(r) ==>
              IsOffered(r, auth, auth(Latest(r.assets, MetadataFile).value, Latest(r.assets, SignatureFile).value))
    ensures !Complete(r) ==> OffersNothing(r)
  {
    var m := LatestIsLast(r.assets, MetadataFile);
    var g := LatestIsLast(r.assets, SignatureFile);
    if Complete(r) {
      assert Offers(r, m, g);
    }
  }

  lemma NoMoreOffers(releases: seq<Release>, auth: Authenticate, at: seq<nat>, offers: seq<Option<Metadata>>)
    requires releases != [] && OffersAt(releases[..|releases| - 1], auth, at, offers)
    requires OffersNothing(releases[|releases| - 1])
    ensures OffersAt(releases, auth, at, offers)
  {
    var before := releases[..|releases| - 1];
    forall i | 0 <= i < |at| ensures releases[at[i]] == before[at[i]] {
    }
    forall r | 0 <= r < |before| ensures releases[r] == before[r] {
    }
  }

  lemma OneMoreOffer(releases: seq<Release>, auth: Authenticate, at: seq<nat>, offers: seq<Option<Metadata>>,
      offer: Option<Metadata>)
    requires releases != [] && OffersAt(releases[..|releases| - 1], auth, at, offers)
    requires IsOffered(releases[|releases| - 1], auth, offer)
    ensures OffersAt(releases, auth, at + [|releases| - 1], offers + [offer])
  {
    var n := |releases| - 1;
    var before, more := releases[..n], at + [n];
    forall i | 0 <= i < |more|
      ensures more[i] < |releases| && IsOffered(releases[more[i]], auth, (offers + [offer])[i])
    {
      if i < |at| {
        assert releases[at[i]] == before[at[i]];
      }
    }
    forall r | 0 <= r < |releases| && r !in more ensures r < n && releases[r] == before[r] && r !in at {
      assert more[|at|] == n;
      assert forall i :: 0 <= i < |at| ==> more[i] == at[i];
    }
  }

  /**
   * The metadata considered are those of the published releases that have both files, in the list's order, and of
   * no others; each is authenticated with the last signature of its release.
   */
  lemma {:induction false} ConsideredAre(releases: seq<Release>, auth: Authenticate) returns (at: seq<nat>)
    ensures OffersAt(releases, auth, at, Considered(releases, auth))
    decreases |releases|
  {
    at := [];
    if releases != [] {
      var n := |releases| - 1;
      var before := ConsideredAre(releases[..n], auth);
      LastOffer(releases[n], auth);
      if Complete(releases[n]) {
        at := before + [n];
        var r := releases[n];
        OneMoreOffer(releases, auth, before, Considered(releases[..n], auth),
                     auth(Latest(r.assets, MetadataFile).value, Latest(r.assets, SignatureFile).value));
      } else {
        at := before;
        NoMoreOffers(releases, auth, before, Considered(releases[..n], auth));
      }
    }
  }

  /** Without the list, and for the remaining commands: nothing, or the clean-up of a failure. */
  lemma OtherOutcome(s: State, c: Command, w: World)
    requires s.worker.Ready? && (c.RebootCommand? || c.OtherCommand? || (c.CheckCommand? && w.releases.None?))
    ensures Finish(Begin(s, EventOf(c, w, Current(s))), w)
            == if c.RebootCommand? && s.prefs.rebootReady then s else GivenUp(s)
  {
    FailingOutcome(s, w);
  }

  /** What install and apply come to. */
  lemma InstallOutcome(s: State, c: Command, w: World)
    requires s.worker.Ready? && (c.InstallCommand? || c.ApplyCommand?)
    ensures Finish(Begin(s, EventOf(c, w, Current(s))), w) ==
            (if c.InstallCommand? then if s.candidate.Some? then Staged(s, s.candidate, w) else GivenUp(s)
             else if c.inbox then Staged(s, None, w) else GivenUp(s)).(worker := Ready)
  {
    FailingOutcome(s, w);
    StageOutcome(s, s.candidate, w);
    StageOutcome(s, None, w);
  }

  /** An install hands the engine a package exactly when nothing is under way and all of it is as it should be. */
  lemma InstallIff(s: State, w: World)
    requires s.worker.Ready? && s.engine.Idle?
    ensures Finish(Begin(s, EventOf(InstallCommand, w, Current(s))), w).engine.Applying? <==>
              && s.candidate == Some(w.package.meta) && !s.installing && !s.prefs.rebootReady
              && w.id !in s.files && w.complete && w.package.sound && w.accepts
              && w.package.meta.sequence > 0 && w.package.meta.sequence > s.prefs.accepted
              && w.package.meta.sequence > (if s.boot.sequence.Some? then s.boot.sequence.value else 1)
    ensures var t := Finish(Begin(s, EventOf(InstallCommand, w, Current(s))), w);
            t.engine.Applying? ==>
              && t.engine == Applying(w.id, w.package) && t.files == s.files[w.id := w.package] && t.installing
              && t.prefs == Prefs(w.package.meta.sequence, Some(w.id), false, s.prefs.accepted)
  {
    InstallOutcome(s, InstallCommand, w);
  }

  // ---- What an interrupted install can still submit ---------------------

  /** The worker follows an install of the release `meta`. */
  predicate Follows(s: State, meta: Metadata) {
    match s.worker
    case Copying(_, expected) => expected == Some(meta)
    case Verifying(_, expected) => expected == Some(meta)
    case Checked(file) => file in s.files ==> s.files[file].meta == meta
    case Committed(file) => file in s.files ==> s.files[file].meta == meta
    case Marked(file) => file in s.files ==> s.files[file].meta == meta
    case Resuming => false
    case Clearing(_, after) => !after.ToResume?
    case _ => true
  }

  predicate NoCommand(es: seq<Event>) { forall i :: 0 <= i < |es| ==> !IsCommand(es[i]) }

  lemma StepFollows(s: State, e: Event, meta: Metadata)
    requires Follows(s, meta) && Enabled(s, e) && !IsCommand(e)
    ensures Follows(Step(s, e), meta)
  {
  }

  lemma {:induction false} RunFollows(s: State, es: seq<Event>, t: State, meta: Metadata)
    requires Follows(s, meta) && Reaches(s, es, t) && NoCommand(es)
    ensures Follows(t, meta)
    decreases |es|
  {
    if es != [] {
      StepFollows(s, es[0], meta);
      RunFollows(Step(s, es[0]), es[1..], t, meta);
    }
  }

  /**
   * Whatever callbacks, reboots and restarts come between, what an install submits before the next command is
   * the release the last check found.
   */
  lemma SubmittedWasFound(slot: Boot, before: seq<Event>, s: State, id: StageId, es: seq<Event>, t: State)
    requires Reaches(FirstStart(slot), before, s) && s.worker.Ready? && s.candidate.Some?
    requires Reaches(Step(s, Install(id)), es, t) && NoCommand(es) && t.worker.Marked?
    ensures t.worker.file in t.files && t.files[t.worker.file].meta == s.candidate.value
  {
    var s1 := Step(s, Install(id));
    RunKeepsInv(FirstStart(slot), before, s);
    StepKeepsInv(s, Install(id));
    RunKeepsInv(s1, es, t);
    RunFollows(s1, es, t, s.candidate.value);
  }

  // ---- Callbacks --------------------------------------------------------

  /** What each report of the engine comes to; a success is recorded by the status that precedes it. */
  lemma CallbackOutcome(s: State, code: int)
    ensures Delivered(s, Progress) == s.(installing := true)
    ensures Delivered(s, NeedReboot) == s.(installing := false, prefs := s.prefs.(rebootReady := true))
    ensures Delivered(s, OtherStatus) == s && Delivered(s, Callback.Completed(0)) == s
    ensures code != 0 ==> Delivered(s, Callback.Completed(code)) == Emptied(s.(installing := false))
  {
    assert Discard(s.files, s.prefs.stage) == Without(s.files, s.prefs.stage);
  }

  /** Before a check has run since the last start of the process, there is nothing to install. */
  lemma {:induction false} NothingFoundYet(s: State, es: seq<Event>, t: State)
    requires s.candidate.None? && Reaches(s, es, t) && forall i :: 0 <= i < |es| ==> !es[i].Check?
    ensures t.candidate.None?
    decreases |es|
  {
    if es != [] {
      NothingFoundYet(Step(s, es[0]), es[1..], t);
    }
  }

  /** A start of the process forgets the release that was found and the stage of the command that died with it. */
  lemma StartForgets(s: State, e: Event, es: seq<Event>, t: State)
    requires Enabled(s, e) && (e.DeviceReboot? || e.ProcessRestart?)
    requires Reaches(Step(s, e), es, t) && forall i :: 0 <= i < |es| ==> !es[i].Check?
    ensures t.candidate.None? && Step(s, e).stageFile.None? && Step(s, e).queue == [] && !Step(s, e).installing
    ensures Step(s, e).prefs == s.prefs && Step(s, e).files == s.files
  {
    NothingFoundYet(Step(s, e), es, t);
  }
}
