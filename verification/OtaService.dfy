/**
 * UpdateService.java in its own form: an object whose methods update its fields, the saved preferences, the
 * stage files and the engine. Each method is proved to have exactly the effects of an uninterrupted run of
 * the steps in module Ota, so what every run of those steps keeps holds between any two method calls.
 */
module OtaService {
  import opened Wrappers
  import opened Ota

  datatype Command =
    CheckCommand | InstallCommand | ApplyCommand(inbox: bool) | ResumeCommand | RebootCommand | OtherCommand

  datatype AssetKind = MetadataFile | SignatureFile | OtherFile

  datatype Asset = Asset(kind: AssetKind, url: nat)

  datatype Release = Release(draft: bool, assets: seq<Asset>)

  /** Fetching and authenticating a metadata file with its signature; None when anything about them is rejected. */
  type Authenticate = (nat, nat) -> Option<Metadata>

  /**
   * What a command meets outside the service: the releases listed (None when the list cannot be fetched), how
   * their metadata authenticate, a new stage directory's name, the bytes copied into it, whether all of them
   * were copied, and whether the engine takes the payload.
   */
  datatype World = World(
    releases: Option<seq<Release>>, authenticate: Authenticate, id: StageId, package: Package, complete: bool,
    accepts: bool)

  // ---- The choice of a release ------------------------------------------

  /** The last asset of a kind. */
  function Latest(assets: seq<Asset>, kind: AssetKind): Option<nat> {
    if assets == [] then None
    else if assets[|assets| - 1].kind == kind then Some(assets[|assets| - 1].url)
    else Latest(assets[..|assets| - 1], kind)
  }

  predicate Complete(r: Release) {
    !r.draft && Latest(r.assets, MetadataFile).Some? && Latest(r.assets, SignatureFile).Some?
  }

  /** The metadata of the releases that are no drafts and have both files; None for those rejected. */
  function Considered(releases: seq<Release>, auth: Authenticate): seq<Option<Metadata>> {
    if releases == [] then []
    else
      var before, r := Considered(releases[..|releases| - 1], auth), releases[|releases| - 1];
      if !Complete(r) then before
      else before + [auth(Latest(r.assets, MetadataFile).value, Latest(r.assets, SignatureFile).value)]
  }

  /** The metadata chosen among `releases`: the first one of highest sequence above `current`. */
  function Best(releases: seq<Option<Metadata>>, current: int): (best: Option<Metadata>)
    ensures best.Some? ==> best.value.sequence > current
  {
    if releases == [] then None
    else
      var best := Best(releases[..|releases| - 1], current);
      var next := releases[|releases| - 1];
      if next.Some? && next.value.sequence > current && (best.None? || next.value.sequence > best.value.sequence)
      then next else best
  }

  function Outcome(releases: Option<seq<Release>>, auth: Authenticate, current: int): Releases {
    if releases.None? then Unreachable
    else
      var all := Considered(releases.value, auth);
      var best := Best(all, current);
      if best.Some? then Newer(best.value) else if None in all then Unverified else UpToDate
  }

  /** No verified metadata among the first `n` has a sequence above `bound`. */
  predicate AtMost(releases: seq<Option<Metadata>>, n: nat, bound: int)
    requires n <= |releases|
  {
    forall i :: 0 <= i < n && releases[i].Some? ==> releases[i].value.sequence <= bound
  }

  /**
   * Metadata are found exactly when verified ones are newer than `current`; they have the highest sequence and
   * come first among those that have it.
   */
  lemma {:induction false} BestIsNewest(releases: seq<Option<Metadata>>, current: int) returns (k: nat)
    ensures Best(releases, current).None? <==> AtMost(releases, |releases|, current)
    ensures Best(releases, current).Some? ==>
              && k < |releases| && releases[k] == Best(releases, current)
              && AtMost(releases, |releases|, releases[k].value.sequence)
              && AtMost(releases, k, releases[k].value.sequence - 1)
  {
    k := 0;
    if releases != [] {
      var n := |releases| - 1;
      var before := releases[..n];
      k := BestIsNewest(before, current);
      assert forall i :: 0 <= i < n ==> before[i] == releases[i];
      var best, next := Best(before, current), releases[n];
      if next.Some? && next.value.sequence > current && (best.None? || next.value.sequence > best.value.sequence) {
        k := n;
      }
    }
  }

  // ---- Uninterrupted runs -----------------------------------------------

  function EventOf(c: Command, w: World, current: int): Event {
    match c
    case CheckCommand => Check(Outcome(w.releases, w.authenticate, current))
    case InstallCommand => Install(w.id)
    case ApplyCommand(inbox) => ApplyOffline(inbox, w.id)
    case ResumeCommand => Resume
    case RebootCommand => Reboot
    case OtherCommand => Unknown
  }

  /** How many steps are left at most. */
  function Rank(at: Worker): nat {
    match at
    case Ready => 0
    case Booting => 6
    case RollbackCheck => 3
    case Resuming => 10
    case Copying(_, _) => 10
    case Verifying(_, _) => 9
    case Checked(_) => 8
    case Committed(_) => 7
    case Marked(_) => 6
    case Clearing(discarded, after) =>
      (if discarded then 1 else 2)
          + (match after case ToReady => 0 case ToFailing => 3 case ToRollback => 3 case ToResume => 10)
    case Failing => 3
  }

  function NextEvent(at: Worker, w: World): Event {
    if at.Copying? then Copied(w.package, w.complete) else if at.Marked? then Submit(w.accepts) else Work
  }

  /** The state the running command leaves when nothing interrupts it. */
  function Finish(s: State, w: World): State
    decreases Rank(s.worker)
  {
    if s.worker.Ready? then s else Finish(Step(s, NextEvent(s.worker, w)), w)
  }

  /** An uninterrupted command is one of the runs the results of module Ota are about. */
  lemma {:induction false} FinishIsReached(s: State, w: World) returns (es: seq<Event>)
    ensures Reaches(s, es, Finish(s, w)) && Finish(s, w).worker.Ready?
    decreases Rank(s.worker)
  {
    if s.worker.Ready? {
      es := [];
    } else {
      var rest := FinishIsReached(Step(s, NextEvent(s.worker, w)), w);
      es := [NextEvent(s.worker, w)] + rest;
      assert es[1..] == rest;
    }
  }

  /** While the engine has an update, in every run, no command of any kind changes anything. */
  lemma CommandsAreRefused(slot: Boot, es: seq<Event>, s: State, c: Command, w: World)
    requires Reaches(FirstStart(slot), es, s) && s.worker.Ready? && !s.engine.Idle?
    ensures Finish(Begin(s, EventOf(c, w, Current(s))), w) == s
  {
    RunKeepsInv(FirstStart(slot), es, s);
    var s1 := Begin(s, EventOf(c, w, Current(s)));
    assert s1.worker.Ready? || Step(s1, Work) == s;
  }

  // ---- The service ------------------------------------------------------

  class UpdateService {
    var installing: bool
    var candidate: Option<Metadata>
    var stageFile: Option<StageId>
    var prefs: Prefs
    var files: map<StageId, Package>
    var engine: Engine
    var queue: seq<Callback>
    var boot: Boot
    ghost var torn: bool

    /** The state of module Ota with the worker standing at `at`. */
    ghost function View(at: Worker): State
      reads this
    {
      State(installing, candidate, stageFile, prefs, files, engine, queue, boot, at, torn)
    }

    /** The first start of the service in slot `slot`, up to onCreate. */
    constructor (slot: Boot)
      ensures View(Booting) == FirstStart(slot)
    {
      installing, candidate, stageFile, prefs, files := false, None, None, Prefs(0, None, false, 0), map[];
      engine, queue, boot, torn := Idle, [], slot, false;
    }

    method DiscardStage(file: Option<StageId>)
      modifies this`files
      ensures files == Discard(old(files), file)
    {
      if file.Some? {
        files := files - {file.value};
      }
    }

    method Clear()
      modifies this`files, this`prefs, this`torn
      ensures forall at :: View(at) == ClearPending(old(View(at)))
    {
      DiscardStage(prefs.stage);
      prefs := prefs.(stage := None, pending := 0, rebootReady := false);
      torn := false;
    }

    method CurrentSequence() returns (r: int)
      ensures r == Current(View(Ready))
              && r == Max(if boot.sequence.Some? then boot.sequence.value else 1, prefs.accepted)
    {
      var booted := if boot.sequence.Some? then boot.sequence.value else 1;
      r := if booted > prefs.accepted then booted else prefs.accepted;
    }

    /** Clearing inside a command: its two effects, then on to `after`. */
    lemma ClearingFinishes(s: State, after: After, w: World)
      ensures Finish(s.(worker := Clearing(false, after)), w) == Finish(ClearPending(s).(worker := Continue(after)), w)
    {
      var s1 := s.(worker := Clearing(false, after));
      var s2 := Step(s1, Work);
      assert Finish(s2, w) == Finish(Step(s2, Work), w);
    }

    /** completeInstalled, on the way to `next`. */
    method CompleteInstalled(ghost next: After, ghost w: World)
      modifies this`files, this`prefs, this`torn
      ensures View(Ready) ==
              (var s := old(View(Ready));
               if CanComplete(s) then ClearPending(s.(prefs := s.prefs.(accepted := s.prefs.pending))) else s)
      ensures old(CanComplete(View(Ready))) ==>
                old(Finish(View(Clearing(false, next)).(prefs := prefs.(accepted := prefs.pending), torn := true), w))
                == Finish(View(Continue(next)), w)
    {
      var booted := if boot.sequence.Some? then boot.sequence.value else 0;
      if prefs.pending > 0 && booted >= prefs.pending && boot.verified {
        prefs := prefs.(accepted := prefs.pending);
        torn := true;
        ClearingFinishes(View(Ready), next, w);
        Clear();
      }
    }

    /** onCreate: complete an installed update, then clear up after a rollback. */
    method OnCreate(ghost w: World)
      modifies this
      ensures View(Ready) == old(Finish(View(Booting), w))
    {
      CompleteInstalled(ToRollback, w);
      assert Finish(View(RollbackCheck), w) == old(Finish(View(Booting), w));
      ghost var goal := Finish(View(RollbackCheck), w);
      if boot.rollback {
        engine := Idle;
        ClearingFinishes(View(Ready), ToReady, w);
        Clear();
      }
      assert goal == Finish(View(Ready), w);
    }

    method OnStatusUpdate(status: Callback, ghost at: Worker)
      requires !status.Completed?
      modifies this`installing, this`prefs
      ensures View(at) == Delivered(old(View(at)), status)
    {
      if status.NeedReboot? {
        installing := false;
        prefs := prefs.(rebootReady := true);
      } else if status.Progress? {
        installing := true;
      }
    }

    method OnPayloadApplicationComplete(code: int, ghost at: Worker)
      modifies this`installing, this`files, this`prefs, this`torn
      ensures View(at) == Delivered(old(View(at)), Completed(code))
    {
      if code != 0 {
        installing := false;
        Clear();
      }
    }

    /** The scan of one release's assets. */
    method ScanAssets(assets: seq<Asset>) returns (meta: Option<nat>, sig: Option<nat>)
      ensures meta == Latest(assets, MetadataFile) && sig == Latest(assets, SignatureFile)
    {
      meta, sig := None, None;
      for a := 0 to |assets|
        invariant meta == Latest(assets[..a], MetadataFile) && sig == Latest(assets[..a], SignatureFile)
      {
        assert assets[..a + 1][..a] == assets[..a];
        if assets[a].kind == MetadataFile {
          meta := Some(assets[a].url);
        }
        if assets[a].kind == SignatureFile {
          sig := Some(assets[a].url);
        }
      }
      assert assets[..|assets|] == assets;
    }

    /** The loop of check: the newest metadata above `current`, and how many were rejected. */
    method ScanReleases(all: seq<Release>, auth: Authenticate, current: int)
        returns (best: Option<Metadata>, rejected: nat)
      ensures best == Best(Considered(all, auth), current) && (rejected > 0 <==> None in Considered(all, auth))
    {
      best, rejected := None, 0;
      for r := 0 to |all|
        invariant best == Best(Considered(all[..r], auth), current)
        invariant rejected > 0 <==> None in Considered(all[..r], auth)
      {
        assert all[..r + 1][..r] == all[..r];
        var meta, sig := ScanAssets(all[r].assets);
        if !all[r].draft && meta.Some? && sig.Some? {
          var j := auth(meta.value, sig.value);
          ghost var before := Considered(all[..r], auth);
          assert Considered(all[..r + 1], auth) == before + [j] && (before + [j])[..|before|] == before;
          if j.None? {
            rejected := rejected + 1;
          } else if j.value.sequence > current && (best.None? || j.value.sequence > best.value.sequence) {
            best := j;
          }
        }
      }
      assert all[..|all|] == all;
    }

    /** check: remember the newest release above the current sequence; fails when nothing could be confirmed. */
    method CheckReleases(releases: Option<seq<Release>>, auth: Authenticate) returns (ok: bool)
      modifies this`candidate
      ensures candidate == match Outcome(releases, auth, Current(old(View(Ready))))
                           case Newer(meta) => Some(meta)
                           case Unreachable => old(candidate)
                           case _ => None
      ensures ok <==> (var o := Outcome(releases, auth, Current(old(View(Ready)))); o.Newer? || o.UpToDate?)
    {
      ok := releases.Some?;
      if ok {
        var current := CurrentSequence();
        assert current == Current(old(View(Ready)));
        var best, rejected := ScanReleases(releases.value, auth, current);
        candidate := best;
        ok := best.Some? || rejected == 0;
      }
    }

    /** newStage: an isolated directory, unless its name is taken. */
    method CreateStage(id: StageId) returns (ok: bool)
      modifies this`stageFile, this`files
      ensures ok <==> id !in old(files)
      ensures stageFile == if ok then Some(id) else old(stageFile)
      ensures files == if ok then old(files)[id := Package(Metadata(0, 0), false)] else old(files)
    {
      ok := id !in files;
      if ok {
        stageFile := Some(id);
        files := files[id := Package(Metadata(0, 0), false)];
      }
    }

    /** download and applyOffline from newStage on: copy into a fresh stage, verify, submit. */
    method Stage(expected: Option<Metadata>, w: World) returns (ok: bool)
      modifies this
      ensures Finish(View(if ok then Ready else Failing), w) == old(Finish(NewStage(View(Ready), w.id, expected), w))
    {
      ok := !installing && !prefs.rebootReady;
      if ok {
        ok := CreateStage(w.id);
        if ok {
          assert View(Copying(w.id, expected)) == old(NewStage(View(Ready), w.id, expected));
          files := files[w.id := w.package];
          if w.complete {
            ok := Apply(w.id, expected, w);
          } else {
            ok := false;
          }
        }
      }
    }

    /** The end of apply: mark the service busy and submit; a refusal undoes the record. */
    method Submit(file: StageId, w: World) returns (ok: bool)
      requires file in files
      modifies this
      ensures Finish(View(if ok then Ready else Failing), w) == old(Finish(View(Committed(file)), w))
    {
      ghost var goal := Finish(View(Committed(file)), w);
      installing := true;
      assert goal == Finish(View(Marked(file)), w);
      ok := w.accepts && engine.Idle?;
      if ok {
        engine := Applying(file, files[file]);
      } else {
        installing := false;
        assert goal == Finish(View(Clearing(false, ToFailing)), w);
        ClearingFinishes(View(Ready), ToFailing, w);
        Clear();
      }
    }

    /** The checks apply makes on a staged package. */
    method Verify(file: StageId, expected: Option<Metadata>) returns (ok: bool)
      ensures ok <==> Acceptable(View(Ready), file, expected)
    {
      var current := CurrentSequence();
      ok := file in files && files[file].sound && (expected.Some? ==> expected.value == files[file].meta)
        && files[file].meta.sequence > 0 && files[file].meta.sequence > current;
    }

    /** The record apply saves before it submits. */
    method Record(file: StageId)
      requires file in files
      modifies this`prefs, this`torn
      ensures View(Committed(file)) == Step(old(View(Checked(file))), Work)
    {
      prefs := prefs.(pending := files[file].meta.sequence, stage := Some(file));
      torn := false;
    }

    /** apply: check the staged package against what was expected, save it as pending, then submit. */
    method Apply(file: StageId, expected: Option<Metadata>, w: World) returns (ok: bool)
      modifies this
      ensures Finish(View(if ok then Ready else Failing), w) == old(Finish(View(Verifying(file, expected)), w))
    {
      ok := Verify(file, expected);
      if ok {
        assert View(Checked(file)) == Step(View(Verifying(file, expected)), Work);
        Record(file);
        ok := Submit(file, w);
      } else {
        assert View(Failing) == Step(View(Verifying(file, expected)), Work);
      }
    }

    /** The resume command after the wait for a verified boot. */
    method ResumePending(w: World) returns (ok: bool)
      modifies this
      ensures Finish(View(if ok then Ready else Failing), w) == old(Finish(Begin(View(Ready), Resume), w))
    {
      CompleteInstalled(ToResume, w);
      assert Finish(View(Resuming), w) == old(Finish(Begin(View(Ready), Resume), w));
      var current := CurrentSequence();
      ok := true;
      if prefs.pending > current && !installing && !prefs.rebootReady {
        if prefs.stage.Some? {
          ok := Apply(prefs.stage.value, None, w);
        } else {
          ok := false;
        }
      }
    }

    /** The check command. */
    method CheckWhenFree(w: World) returns (ok: bool)
      modifies this
      ensures Finish(View(if ok then Ready else Failing), w)
              == old(Finish(Begin(View(Ready), Check(Outcome(w.releases, w.authenticate, Current(View(Ready))))), w))
    {
      ok := !installing && !prefs.rebootReady;
      if ok {
        ok := CheckReleases(w.releases, w.authenticate);
      }
      assert View(if ok then Ready else Failing)
          == old(Begin(View(Ready), Check(Outcome(w.releases, w.authenticate, Current(View(Ready))))));
    }

    /** The branch the command names; false when it throws. */
    method Dispatch(c: Command, w: World) returns (ok: bool)
      modifies this
      ensures Finish(View(if ok then Ready else Failing), w)
              == old(Finish(Begin(View(Ready), EventOf(c, w, Current(View(Ready)))), w))
    {
      match c {
        case ResumeCommand => ok := ResumePending(w);
        case CheckCommand => ok := CheckWhenFree(w);
        case InstallCommand =>
          if candidate.None? {
            ok := false;
          } else {
            ok := Stage(candidate, w);
          }
        case ApplyCommand(inbox) =>
          if inbox {
            ok := Stage(None, w);
          } else {
            ok := false;
          }
        case RebootCommand => ok := prefs.rebootReady;
        case OtherCommand => ok := false;
      }
    }

    /** The catch clause: clean up after a failed command, unless an update is under way. */
    method CleanUp(ghost w: World)
      modifies this
      ensures View(Ready) == old(Finish(View(Failing), w))
    {
      ghost var goal := Finish(View(Failing), w);
      if !installing && !prefs.rebootReady {
        DiscardStage(stageFile);
        assert goal == Finish(View(Clearing(false, ToReady)), w);
        ClearingFinishes(View(Ready), ToReady, w);
        Clear();
      }
      assert goal == Finish(View(Ready), w);
    }

    /** What the worker does with one command, including what it does when the command fails. */
    method OnStartCommand(c: Command, w: World)
      modifies this
      ensures View(Ready) == old(Finish(Begin(View(Ready), EventOf(c, w, Current(View(Ready)))), w))
    {
      var ok := Dispatch(c, w);
      if !ok {
        CleanUp(w);
      }
    }
  }
}
