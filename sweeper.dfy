/**
 The retention sweep: the callback `processFiles` hands to the directory walk,
 and the loop over the configured locations in `main`.

 The walk itself (`fs.WalkDir` over `os.DirFS`) is not modelled: each location
 comes with the sequence of steps the walk reports for its source directory,
 in walk order.  A step is either an entry (relative path, whether it is a
 directory, and the elapsed time since its last modification, or None when
 reading its metadata failed) or an error.  An error makes the callback call
 `os.Exit(1)`, which ends the whole process: here the outcome is marked
 aborted and nothing further happens.
 */
module Sweeper {

  import opened Wrappers
  import opened Retention
  import opened Paths
  import opened Executor

  /** One configured location.  `action` is the raw configured string:
      only "delete" and "move" do anything. */
  datatype Location = Location(sourceDir: string, days: int, action: string, targetDir: string)

  /** An entry the walk reports. */
  datatype Entry = Entry(path: string, isDir: bool, info: Option<int>)

  /** What the walk passes to the callback: an entry, or an error. */
  datatype WalkStep = Visit(entry: Entry) | WalkError(path: string)

  /** A location together with the walk of its source directory. */
  datatype Job = Job(location: Location, walk: seq<WalkStep>)

  /** The actions emitted, in order, and whether the process exited early. */
  datatype Outcome = Outcome(actions: seq<Action>, aborted: bool)

  /** The condition of the callback: not a directory, and old enough. */
  predicate Qualifies(loc: Location, e: Entry)
  {
    !e.isDir && ShouldClean(e.info, loc.days)
  }

  /** The configured action for the file at relative path `path`: a delete
      of the file under the source root, a move to the same relative path
      under the target root, or nothing for any other action string. */
  function ActionFor(loc: Location, path: string): seq<Action>
  {
    var sourceFile := Join(loc.sourceDir, path);
    if loc.action == "delete" then [Delete(sourceFile)]
    else if loc.action == "move" then [Move(sourceFile, Join(loc.targetDir, path))]
    else []
  }

  /** The callback for an entry the walk reached without error. */
  function Dispatch(loc: Location, e: Entry): seq<Action>
  {
    if Qualifies(loc, e) then ActionFor(loc, e.path) else []
  }

  /** What the callback does with one entry: at most one action; none for a
      directory, for an entry whose metadata could not be read, or for an
      action string other than "delete" and "move"; otherwise a delete of
      the file under the source root, or a move to the same relative path
      under the target root. */
  lemma DispatchSpec(loc: Location, e: Entry)
    ensures e.isDir || e.info.None? ==> Dispatch(loc, e) == []
    ensures loc.action != "delete" && loc.action != "move" ==> Dispatch(loc, e) == []
    ensures |Dispatch(loc, e)| == (if Qualifies(loc, e) && (loc.action == "delete" || loc.action == "move") then 1 else 0)
    ensures forall a <- Dispatch(loc, e) ::
              && (a.Delete? <==> loc.action == "delete")
              && StripRoot(loc.sourceDir, a.SourcePath()) == Some(e.path)
              && (a.Move? ==> StripRoot(loc.targetDir, a.dest) == Some(e.path))
  {
    if Qualifies(loc, e) {
      StripJoin(loc.sourceDir, e.path);
      StripJoin(loc.targetDir, e.path);
    }
  }

  /** The effect of a whole walk, step by step: once a step is an error
      nothing more happens. */
  function PlanWalk(loc: Location, walk: seq<WalkStep>): Outcome
    decreases |walk|
  {
    if walk == [] then Outcome([], false)
    else
      var prior := PlanWalk(loc, walk[..|walk| - 1]);
      if prior.aborted then prior
      else match walk[|walk| - 1]
        case WalkError(_) => Outcome(prior.actions, true)
        case Visit(e) => Outcome(prior.actions + Dispatch(loc, e), false)
  }

  /** `processFiles`: walk the location, carrying out each qualifying file's
      action as it is reached.  `fs` is the filesystem's answer to each call;
      whatever it answers, the walk goes on in the same way. */
  method ProcessFiles(location: Location, walk: seq<WalkStep>, fs: Call -> bool)
    returns (actions: seq<Action>, calls: seq<Call>, aborted: bool)
    ensures Outcome(actions, aborted) == PlanWalk(location, walk)
    ensures calls == CallsOfAll(actions)
  {
    actions, calls := [], [];
    var i := 0;
    while i < |walk|
      invariant 0 <= i <= |walk|
      invariant PlanWalk(location, walk[..i]) == Outcome(actions, false)
      invariant calls == CallsOfAll(actions)
    {
      match walk[i]
      case WalkError(_) =>
        PlanWalkStep(location, walk, i);
        AbortIsFinal(location, walk[..i + 1], walk[i + 1..]);
        assert walk[..i + 1] + walk[i + 1..] == walk;
        return actions, calls, true;
      case Visit(d) =>
        var emitted, done := HandleEntry(location, d, fs);
        CallsOfAllAppend(actions, emitted);
        actions := actions + emitted;
        calls := calls + done;
        PlanWalkStep(location, walk, i);
      i := i + 1;
    }
    assert walk[..i] == walk;
    aborted := false;
  }

  /** The callback's work for one visited entry: when the file qualifies,
      carry out the configured action on it. */
  method HandleEntry(location: Location, d: Entry, fs: Call -> bool)
    returns (emitted: seq<Action>, done: seq<Call>)
    ensures emitted == Dispatch(location, d)
    ensures done == CallsOfAll(emitted)
  {
    emitted, done := [], [];
    if !d.isDir && ShouldClean(d.info, location.days) {
      var sourceFile := Join(location.sourceDir, d.path);
      if location.action == "delete" {
        var log;
        done, log := DeleteFiles(sourceFile, fs(Remove(sourceFile)));
        emitted := [Delete(sourceFile)];
        CallsOfAllSnoc([], Delete(sourceFile));
      } else if location.action == "move" {
        var targetFile := Join(location.targetDir, d.path);
        var log;
        done, log := MoveFiles(sourceFile, targetFile, fs(MkdirAll(Dir(targetFile))), fs(Rename(sourceFile, targetFile)));
        emitted := [Move(sourceFile, targetFile)];
        CallsOfAllSnoc([], Move(sourceFile, targetFile));
      }
    }
  }

  /** Composition: a walk is its first part followed by its second, unless
      the first part already ended the process. */
  lemma {:induction false} PlanWalkAppend(loc: Location, a: seq<WalkStep>, b: seq<WalkStep>)
    ensures PlanWalk(loc, a + b) ==
              if PlanWalk(loc, a).aborted then PlanWalk(loc, a)
              else Outcome(PlanWalk(loc, a).actions + PlanWalk(loc, b).actions, PlanWalk(loc, b).aborted)
    decreases |b|
  {
    if b == [] {
      assert a + b == a;
    } else {
      var b' := b[..|b| - 1];
      assert (a + b)[..|a + b| - 1] == a + b';
      assert (a + b)[|a + b| - 1] == b[|b| - 1];
      PlanWalkAppend(loc, a, b');
    }
  }

  /** One more step of a walk that has not ended. */
  lemma PlanWalkStep(loc: Location, walk: seq<WalkStep>, i: nat)
    requires i < |walk| && !PlanWalk(loc, walk[..i]).aborted
    ensures walk[i].WalkError? ==> PlanWalk(loc, walk[..i + 1]) == Outcome(PlanWalk(loc, walk[..i]).actions, true)
    ensures walk[i].Visit? ==>
              PlanWalk(loc, walk[..i + 1]) == Outcome(PlanWalk(loc, walk[..i]).actions + Dispatch(loc, walk[i].entry), false)
  {
    assert walk[..i + 1][..i] == walk[..i];
  }

  /** Once the walk has hit an error, nothing that follows has any effect. */
  lemma AbortIsFinal(loc: Location, a: seq<WalkStep>, b: seq<WalkStep>)
    requires PlanWalk(loc, a).aborted
    ensures PlanWalk(loc, a + b) == PlanWalk(loc, a)
  {
    PlanWalkAppend(loc, a, b);
  }

  // A reference description of a walk's effect, without the step-by-step
  // state: the qualifying entries that come before the first error, each
  // turned into the configured action.

  /** The index of the first walk error, or the walk's length if there is none. */
  function FirstError(walk: seq<WalkStep>): (k: nat)
    ensures k <= |walk|
    ensures forall i :: 0 <= i < k ==> walk[i].Visit?
    ensures k < |walk| ==> walk[k].WalkError?
    decreases |walk|
  {
    if walk == [] || walk[0].WalkError? then 0 else 1 + FirstError(walk[1..])
  }

  /** The qualifying entries among the visited ones, in walk order. */
  function Selected(loc: Location, walk: seq<WalkStep>): seq<Entry>
    decreases |walk|
  {
    if walk == [] then []
    else (if walk[0].Visit? && Qualifies(loc, walk[0].entry) then [walk[0].entry] else [])
         + Selected(loc, walk[1..])
  }

  /** The configured action applied to each of `entries`, in order. */
  function ActionsFor(loc: Location, entries: seq<Entry>): seq<Action>
    decreases |entries|
  {
    if entries == [] then [] else ActionFor(loc, entries[0].path) + ActionsFor(loc, entries[1..])
  }

  /** With action "delete" or "move", one action per entry, the k-th for the
      k-th entry; with any other action string, none. */
  lemma {:induction false} ActionsForAt(loc: Location, entries: seq<Entry>)
    ensures loc.action == "delete" || loc.action == "move" ==> |ActionsFor(loc, entries)| == |entries|
    ensures loc.action != "delete" && loc.action != "move" ==> ActionsFor(loc, entries) == []
    ensures forall k :: 0 <= k < |ActionsFor(loc, entries)| ==> [ActionsFor(loc, entries)[k]] == ActionFor(loc, entries[k].path)
    decreases |entries|
  {
    if entries != [] {
      ActionsForAt(loc, entries[1..]);
      var tail := ActionsFor(loc, entries[1..]);
      forall k | 0 <= k < |ActionsFor(loc, entries)|
        ensures [ActionsFor(loc, entries)[k]] == ActionFor(loc, entries[k].path)
      {
        if k > 0 {
          assert ActionsFor(loc, entries)[k] == tail[k - 1];
          assert entries[k] == entries[1..][k - 1];
        }
      }
    }
  }

  /** The reference outcome of a walk. */
  function Reference(loc: Location, walk: seq<WalkStep>): Outcome
  {
    Outcome(ActionsFor(loc, Selected(loc, walk[..FirstError(walk)])), FirstError(walk) < |walk|)
  }

  lemma FirstErrorIs(walk: seq<WalkStep>, k: nat)
    requires k <= |walk|
    requires forall i :: 0 <= i < k ==> walk[i].Visit?
    requires k < |walk| ==> walk[k].WalkError?
    ensures FirstError(walk) == k
  {
  }

  /** Selection keeps walk order: selecting from two walks one after the
      other is selecting from each in turn. */
  lemma {:induction false} SelectedAppend(loc: Location, a: seq<WalkStep>, b: seq<WalkStep>)
    ensures Selected(loc, a + b) == Selected(loc, a) + Selected(loc, b)
    decreases |a|
  {
    if a == [] {
      assert a + b == b;
    } else {
      assert (a + b)[1..] == a[1..] + b;
      SelectedAppend(loc, a[1..], b);
    }
  }

  /** An entry is selected exactly when the walk visits it and it qualifies;
      in particular a directory, or an entry whose metadata could not be
      read, is never selected. */
  lemma {:induction false} SelectedIff(loc: Location, walk: seq<WalkStep>, e: Entry)
    ensures e in Selected(loc, walk) <==> Visit(e) in walk && Qualifies(loc, e)
    decreases |walk|
  {
    if walk != [] {
      SelectedIff(loc, walk[1..], e);
      assert walk == [walk[0]] + walk[1..];
    }
  }

  lemma {:induction false} ActionsForAppend(loc: Location, a: seq<Entry>, b: seq<Entry>)
    ensures ActionsFor(loc, a + b) == ActionsFor(loc, a) + ActionsFor(loc, b)
    decreases |a|
  {
    if a == [] {
      assert a + b == b;
    } else {
      assert (a + b)[1..] == a[1..] + b;
      ActionsForAppend(loc, a[1..], b);
    }
  }

  /** The step-by-step walk agrees with the reference description: its
      actions are those of the qualifying entries before the first error, in
      walk order, and it aborts exactly when the walk reports an error. */
  lemma {:induction false} PlanWalkCharacterized(loc: Location, walk: seq<WalkStep>)
    ensures PlanWalk(loc, walk) == Reference(loc, walk)
    decreases |walk|
  {
    if walk == [] {
      assert walk[..FirstError(walk)] == [];
    } else {
      PlanWalkCharacterized(loc, walk[..|walk| - 1]);
      ReferenceStep(loc, walk);
    }
  }

  /** The reference description obeys the same step rule as the walk. */
  lemma ReferenceStep(loc: Location, walk: seq<WalkStep>)
    requires walk != []
    ensures var prior := Reference(loc, walk[..|walk| - 1]);
            var last := walk[|walk| - 1];
            Reference(loc, walk) ==
              if prior.aborted then prior
              else if last.WalkError? then Outcome(prior.actions, true)
              else Outcome(prior.actions + Dispatch(loc, last.entry), false)
  {
    var n := |walk| - 1;
    var init := walk[..n];
    var k := FirstError(init);
    if k < n {
      FirstErrorIs(walk, k);
      assert walk[..k] == init[..k];
    } else if walk[n].WalkError? {
      FirstErrorIs(walk, n);
      assert init[..k] == init;
    } else {
      FirstErrorIs(walk, n + 1);
      CharacterizedStep(loc, init, walk[n].entry);
      assert init[..k] == init;
      assert walk[..n + 1] == init + [walk[n]];
    }
  }

  /** The reference description extended by one visited entry. */
  lemma CharacterizedStep(loc: Location, init: seq<WalkStep>, e: Entry)
    ensures ActionsFor(loc, Selected(loc, init + [Visit(e)])) ==
              ActionsFor(loc, Selected(loc, init)) + Dispatch(loc, e)
  {
    SelectedAppend(loc, init, [Visit(e)]);
    var one := Selected(loc, [Visit(e)]);
    assert one == if Qualifies(loc, e) then [e] else [];
    ActionsForAppend(loc, Selected(loc, init), one);
  }

  // Consequences for a single walk.

  /** The walk ends the process exactly when it reports an error somewhere. */
  lemma WalkAbortsIffError(loc: Location, walk: seq<WalkStep>)
    ensures PlanWalk(loc, walk).aborted <==> exists i :: 0 <= i < |walk| && walk[i].WalkError?
  {
    PlanWalkCharacterized(loc, walk);
  }

  /** With action "delete": one delete per qualifying entry before the first
      error, in walk order, of that entry's path under the source root. */
  lemma DeletePlan(loc: Location, walk: seq<WalkStep>)
    requires loc.action == "delete"
    ensures var q := Selected(loc, walk[..FirstError(walk)]);
            var acts := PlanWalk(loc, walk).actions;
            |acts| == |q| &&
            forall k :: 0 <= k < |q| ==> acts[k] == Delete(Join(loc.sourceDir, q[k].path))
  {
    PlanWalkCharacterized(loc, walk);
    ActionsForAt(loc, Selected(loc, walk[..FirstError(walk)]));
  }

  /** With action "move": one move per qualifying entry before the first
      error, in walk order, from its path under the source root to the same
      relative path under the target root. */
  lemma MovePlan(loc: Location, walk: seq<WalkStep>)
    requires loc.action == "move"
    ensures var q := Selected(loc, walk[..FirstError(walk)]);
            var acts := PlanWalk(loc, walk).actions;
            |acts| == |q| &&
            forall k :: 0 <= k < |q| ==>
              acts[k] == Move(Join(loc.sourceDir, q[k].path), Join(loc.targetDir, q[k].path)) &&
              StripRoot(loc.sourceDir, acts[k].source) == Some(q[k].path) &&
              StripRoot(loc.targetDir, acts[k].dest) == Some(q[k].path)
  {
    PlanWalkCharacterized(loc, walk);
    var q := Selected(loc, walk[..FirstError(walk)]);
    ActionsForAt(loc, q);
    forall k | 0 <= k < |q|
      ensures StripRoot(loc.sourceDir, Join(loc.sourceDir, q[k].path)) == Some(q[k].path)
      ensures StripRoot(loc.targetDir, Join(loc.targetDir, q[k].path)) == Some(q[k].path)
    {
      StripJoin(loc.sourceDir, q[k].path);
      StripJoin(loc.targetDir, q[k].path);
    }
  }

  /** Any action string other than "delete" or "move" does nothing at all. */
  lemma OtherActionIsNoOp(loc: Location, walk: seq<WalkStep>)
    requires loc.action != "delete" && loc.action != "move"
    ensures PlanWalk(loc, walk).actions == []
  {
    PlanWalkCharacterized(loc, walk);
    ActionsForAt(loc, Selected(loc, walk[..FirstError(walk)]));
  }

  /** With action "delete", the file at relative path `p` is deleted exactly
      when the walk visits, before any error, a qualifying entry at `p`. */
  lemma DeletedIff(loc: Location, walk: seq<WalkStep>, p: string)
    requires loc.action == "delete"
    ensures Delete(Join(loc.sourceDir, p)) in PlanWalk(loc, walk).actions <==>
              exists e :: Visit(e) in walk[..FirstError(walk)] && e.path == p && Qualifies(loc, e)
  {
    var pre := walk[..FirstError(walk)];
    var q := Selected(loc, pre);
    DeletePlan(loc, walk);
    var acts := PlanWalk(loc, walk).actions;
    if Delete(Join(loc.sourceDir, p)) in acts {
      var k :| 0 <= k < |acts| && acts[k] == Delete(Join(loc.sourceDir, p));
      JoinInjective(loc.sourceDir, q[k].path, p);
      SelectedIff(loc, pre, q[k]);
    }
    if e :| Visit(e) in pre && e.path == p && Qualifies(loc, e) {
      SelectedIff(loc, pre, e);
      var k :| 0 <= k < |q| && q[k] == e;
      assert acts[k] == Delete(Join(loc.sourceDir, p));
    }
  }

  /** With action "move", the file at relative path `p` is moved to the same
      relative path under the target root exactly when the walk visits,
      before any error, a qualifying entry at `p`. */
  lemma MovedIff(loc: Location, walk: seq<WalkStep>, p: string)
    requires loc.action == "move"
    ensures Move(Join(loc.sourceDir, p), Join(loc.targetDir, p)) in PlanWalk(loc, walk).actions <==>
              exists e :: Visit(e) in walk[..FirstError(walk)] && e.path == p && Qualifies(loc, e)
  {
    var pre := walk[..FirstError(walk)];
    var q := Selected(loc, pre);
    MovePlan(loc, walk);
    var acts := PlanWalk(loc, walk).actions;
    if Move(Join(loc.sourceDir, p), Join(loc.targetDir, p)) in acts {
      var k :| 0 <= k < |acts| && acts[k] == Move(Join(loc.sourceDir, p), Join(loc.targetDir, p));
      JoinInjective(loc.sourceDir, q[k].path, p);
      SelectedIff(loc, pre, q[k]);
    }
    if e :| Visit(e) in pre && e.path == p && Qualifies(loc, e) {
      SelectedIff(loc, pre, e);
      var k :| 0 <= k < |q| && q[k] == e;
      assert acts[k] == Move(Join(loc.sourceDir, p), Join(loc.targetDir, p));
    }
  }

  /** A walk in which no entry qualifies, such as one over files all younger
      than the threshold or an empty tree, changes nothing. */
  lemma YoungTreeIsNoOp(loc: Location, walk: seq<WalkStep>)
    requires forall i :: 0 <= i < |walk| && walk[i].Visit? ==> !Qualifies(loc, walk[i].entry)
    ensures PlanWalk(loc, walk).actions == []
  {
    PlanWalkCharacterized(loc, walk);
    NothingSelected(loc, walk[..FirstError(walk)]);
  }

  lemma {:induction false} NothingSelected(loc: Location, walk: seq<WalkStep>)
    requires forall i :: 0 <= i < |walk| && walk[i].Visit? ==> !Qualifies(loc, walk[i].entry)
    ensures Selected(loc, walk) == []
    decreases |walk|
  {
    if walk != [] {
      NothingSelected(loc, walk[1..]);
    }
  }

  /** An entry that does not qualify (a directory, an unreadable one, a
      young one) can be dropped from the walk without changing anything:
      the walk simply continues with the next entry. */
  lemma SkippedEntryNoEffect(loc: Location, a: seq<WalkStep>, e: Entry, b: seq<WalkStep>)
    requires !Qualifies(loc, e)
    ensures PlanWalk(loc, a + [Visit(e)] + b) == PlanWalk(loc, a + b)
  {
    PlanWalkAppend(loc, a + [Visit(e)], b);
    PlanWalkAppend(loc, a, [Visit(e)]);
    PlanWalkAppend(loc, a, b);
    assert [Visit(e)][..0] == [];
  }

  /** A move whose location has no target directory goes to the file's
      relative path itself, which is resolved against the working directory. */
  lemma EmptyTargetMovesToRelativePath(loc: Location, walk: seq<WalkStep>)
    requires loc.action == "move" && loc.targetDir == ""
    ensures forall a <- PlanWalk(loc, walk).actions ::
              a.Move? && StripRoot(loc.sourceDir, a.source) == Some(a.dest)
  {
    MovePlan(loc, walk);
  }

  // The loop over the configured locations.

  /** The outcome of each location's walk, in configuration order. */
  function WalkOutcomes(jobs: seq<Job>): seq<Outcome>
  {
    seq(|jobs|, i requires 0 <= i < |jobs| => PlanWalk(jobs[i].location, jobs[i].walk))
  }

  /** Successive walks chained: each walk's actions follow those of the
      walks before it, and once a walk has ended the process the later ones
      contribute nothing. */
  function Chain(outs: seq<Outcome>): Outcome
    decreases |outs|
  {
    if outs == [] then Outcome([], false)
    else
      var prior := Chain(outs[..|outs| - 1]);
      var last := outs[|outs| - 1];
      if prior.aborted then prior else Outcome(prior.actions + last.actions, last.aborted)
  }

  /** The effect of the location loop of `main`. */
  function PlanSweep(jobs: seq<Job>): Outcome
  {
    Chain(WalkOutcomes(jobs))
  }

  /** The location loop of `main`: each location is processed in turn; a
      walk error ends the process there. */
  method SweepAll(jobs: seq<Job>, fs: Call -> bool) returns (actions: seq<Action>, calls: seq<Call>, aborted: bool)
    ensures Outcome(actions, aborted) == PlanSweep(jobs)
    ensures calls == CallsOfAll(actions)
  {
    ghost var outs := WalkOutcomes(jobs);
    actions, calls := [], [];
    for i := 0 to |jobs|
      invariant Chain(outs[..i]) == Outcome(actions, false)
      invariant calls == CallsOfAll(actions)
    {
      var acts, done, exited := ProcessFiles(jobs[i].location, jobs[i].walk, fs);
      assert outs[i] == Outcome(acts, exited);
      ChainStep(outs, i);
      CallsOfAllAppend(actions, acts);
      actions, calls := actions + acts, calls + done;
      if exited {
        SweepAbortIsFinal(outs[..i + 1], outs[i + 1..]);
        assert outs[..i + 1] + outs[i + 1..] == outs;
        return actions, calls, true;
      }
    }
    assert outs[..|jobs|] == outs;
    aborted := false;
  }

  lemma ChainStep(outs: seq<Outcome>, i: nat)
    requires i < |outs| && !Chain(outs[..i]).aborted
    ensures Chain(outs[..i + 1]) == Outcome(Chain(outs[..i]).actions + outs[i].actions, outs[i].aborted)
  {
    assert outs[..i + 1][..i] == outs[..i];
  }

  /** Composition of the location loop: the locations of the first part,
      then those of the second, unless the first part ended the process. */
  lemma {:induction false} ChainAppend(a: seq<Outcome>, b: seq<Outcome>)
    ensures Chain(a + b) ==
              if Chain(a).aborted then Chain(a)
              else Outcome(Chain(a).actions + Chain(b).actions, Chain(b).aborted)
    decreases |b|
  {
    if b == [] {
      assert a + b == a;
    } else {
      var b' := b[..|b| - 1];
      assert (a + b)[..|a + b| - 1] == a + b';
      assert (a + b)[|a + b| - 1] == b[|b| - 1];
      ChainAppend(a, b');
    }
  }

  /** After a walk error, no later location is processed. */
  lemma SweepAbortIsFinal(a: seq<Outcome>, b: seq<Outcome>)
    requires Chain(a).aborted
    ensures Chain(a + b) == Chain(a)
  {
    ChainAppend(a, b);
  }

  /** The actions of the walks, one after another. */
  function ConcatActions(outs: seq<Outcome>): seq<Action>
    decreases |outs|
  {
    if outs == [] then [] else outs[0].actions + ConcatActions(outs[1..])
  }

  /** Without walk errors, the sweep emits every location's actions, in
      configuration order. */
  lemma {:induction false} SweepWithoutAbort(outs: seq<Outcome>)
    requires forall j :: 0 <= j < |outs| ==> !outs[j].aborted
    ensures Chain(outs) == Outcome(ConcatActions(outs), false)
    decreases |outs|
  {
    if outs != [] {
      SweepWithoutAbort(outs[1..]);
      ChainAppend([outs[0]], outs[1..]);
      assert [outs[0]] + outs[1..] == outs;
      assert [outs[0]][..0] == [];
    }
  }

  /** When walk `i` is the first to hit an error, the sweep's actions are
      those of the walks before it and of its own walk up to the error: the
      actions already emitted stay, and later locations add nothing. */
  lemma SweepStopsAtAbort(outs: seq<Outcome>, i: nat)
    requires i < |outs|
    requires forall j :: 0 <= j < i ==> !outs[j].aborted
    requires outs[i].aborted
    ensures Chain(outs) == Outcome(ConcatActions(outs[..i]) + outs[i].actions, true)
  {
    var before := outs[..i];
    forall j | 0 <= j < |before| ensures !before[j].aborted {
      assert before[j] == outs[j];
    }
    SweepWithoutAbort(before);
    ChainStep(outs, i);
    var upto := outs[..i + 1];
    assert Chain(upto) == Outcome(ConcatActions(before) + outs[i].actions, true);
    SweepAbortIsFinal(upto, outs[i + 1..]);
    assert upto + outs[i + 1..] == outs;
  }

  /** The sweep ends the process exactly when some location's walk does. */
  lemma {:induction false} SweepAbortsIff(outs: seq<Outcome>)
    ensures Chain(outs).aborted <==> exists j :: 0 <= j < |outs| && outs[j].aborted
    decreases |outs|
  {
    if outs != [] {
      var n := |outs| - 1;
      SweepAbortsIff(outs[..n]);
      if exists j :: 0 <= j < n && outs[..n][j].aborted {
        var j :| 0 <= j < n && outs[..n][j].aborted;
        assert outs[j] == outs[..n][j];
      }
      if exists j :: 0 <= j < |outs| && outs[j].aborted {
        var j :| 0 <= j < |outs| && outs[j].aborted;
        if j < n {
          assert outs[..n][j] == outs[j];
        }
      }
    }
  }

}
