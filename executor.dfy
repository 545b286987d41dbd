/**
 The action executor: `deleteFiles` and `moveFiles`.  The filesystem is not
 modelled; each call the program makes into it (`os.Remove`, `os.MkdirAll`,
 `os.Rename`) is recorded as a Call, and whether the call succeeded is an
 input (the filesystem's answer), which only decides what is logged.
 */
module Executor {

  import opened Paths

  /** What the walk asks for one qualifying file. */
  datatype Action = Delete(path: string) | Move(source: string, dest: string)
  {
    /** The file under the source root that the action removes or relocates. */
    function SourcePath(): string
    {
      if Delete? then path else source
    }
  }

  /** A call the program makes into the filesystem. */
  datatype Call = Remove(path: string) | MkdirAll(dir: string) | Rename(source: string, dest: string)

  /** A line the executor logs (success at info level, failure at error level). */
  datatype Event =
    | Deleted(path: string)
    | DeleteFailed(path: string)
    | DirCreateFailed(dir: string)
    | Moved(source: string, dest: string)
    | MoveFailed(source: string)

  /** The calls one action makes, in order: a delete removes the file; a
      move first creates the destination's parent directory, then renames. */
  function CallsOf(a: Action): seq<Call>
  {
    match a
    case Delete(path) => [Remove(path)]
    case Move(source, dest) => [MkdirAll(Dir(dest)), Rename(source, dest)]
  }

  /** The calls of a sequence of actions, one action after another. */
  function CallsOfAll(actions: seq<Action>): seq<Call>
    decreases |actions|
  {
    if actions == [] then []
    else CallsOfAll(actions[..|actions| - 1]) + CallsOf(actions[|actions| - 1])
  }

  /** `deleteFiles`: one removal, logged as a success or as a failure. */
  method DeleteFiles(fullPath: string, removeOk: bool) returns (calls: seq<Call>, log: seq<Event>)
    ensures calls == CallsOf(Delete(fullPath))
    ensures |log| == 1
    ensures log[0] == Deleted(fullPath) <==> removeOk
    ensures log[0] == DeleteFailed(fullPath) <==> !removeOk
  {
    calls := [Remove(fullPath)];
    if !removeOk {
      log := [DeleteFailed(fullPath)];
    } else {
      log := [Deleted(fullPath)];
    }
  }

  /** `moveFiles`: create the target's parent directory, then rename.  A
      failure to create the directory is logged and the rename is attempted
      all the same. */
  method MoveFiles(sourceFile: string, targetFile: string, mkdirOk: bool, renameOk: bool)
    returns (calls: seq<Call>, log: seq<Event>)
    ensures calls == CallsOf(Move(sourceFile, targetFile))
    ensures log == (if mkdirOk then [] else [DirCreateFailed(Dir(targetFile))])
                   + [if renameOk then Moved(sourceFile, targetFile) else MoveFailed(sourceFile)]
    ensures DirCreateFailed(Dir(targetFile)) in log <==> !mkdirOk
    ensures Moved(sourceFile, targetFile) in log <==> renameOk
    ensures MoveFailed(sourceFile) in log <==> !renameOk
    ensures log[|log| - 1] != DirCreateFailed(Dir(targetFile))
  {
    var dir := Dir(targetFile);
    calls := [MkdirAll(dir)];
    log := [];
    if !mkdirOk {
      log := log + [DirCreateFailed(dir)];
    }
    calls := calls + [Rename(sourceFile, targetFile)];
    if !renameOk {
      log := log + [MoveFailed(sourceFile)];
    } else {
      log := log + [Moved(sourceFile, targetFile)];
    }
  }

  lemma CallsOfAllSnoc(actions: seq<Action>, a: Action)
    ensures CallsOfAll(actions + [a]) == CallsOfAll(actions) + CallsOf(a)
  {
    assert (actions + [a])[..|actions|] == actions;
  }

  lemma {:induction false} CallsOfAllAppend(a: seq<Action>, b: seq<Action>)
    ensures CallsOfAll(a + b) == CallsOfAll(a) + CallsOfAll(b)
    decreases |b|
  {
    if b == [] {
      assert a + b == a;
    } else {
      var b' := b[..|b| - 1];
      assert (a + b)[..|a + b| - 1] == a + b';
      CallsOfAllAppend(a, b');
    }
  }

  /** In the calls of any sequence of actions, every rename comes right
      after the creation of its destination's parent directory. */
  lemma {:induction false} RenameFollowsMkdir(actions: seq<Action>, j: nat)
    requires j < |CallsOfAll(actions)| && CallsOfAll(actions)[j].Rename?
    ensures j > 0 && CallsOfAll(actions)[j - 1] == MkdirAll(Dir(CallsOfAll(actions)[j].dest))
    decreases |actions|
  {
    var init := actions[..|actions| - 1];
    var prior := CallsOfAll(init);
    assert CallsOfAll(actions) == prior + CallsOf(actions[|actions| - 1]);
    if j < |prior| {
      RenameFollowsMkdir(init, j);
    }
  }

  /** Every call comes from exactly one action: the calls of a sequence of
      actions number one per delete and two per move. */
  lemma {:induction false} CallsOfAllLength(actions: seq<Action>)
    ensures |CallsOfAll(actions)| == |actions| + CountMoves(actions)
    decreases |actions|
  {
    if actions != [] {
      CallsOfAllLength(actions[..|actions| - 1]);
    }
  }

  function CountMoves(actions: seq<Action>): nat
    decreases |actions|
  {
    if actions == [] then 0
    else CountMoves(actions[..|actions| - 1]) + (if actions[|actions| - 1].Move? then 1 else 0)
  }

}
