/**
 Concrete sweeps: the behaviour described for a few small directory trees.
 Each walk starts, as `fs.WalkDir` does, with the root directory ".", or
 with an error on it when the root is missing.
 */
module Scenarios {

  import opened Wrappers
  import opened Retention
  import opened Paths
  import opened Executor
  import opened Sweeper

  function Days(n: int): int
  {
    n * NanosPerDay
  }

  /** Threshold 30 days, action "delete": of `old.log` (40 days) and
      `new.log` (5 days), only `old.log` is deleted. */
  lemma DeleteOldKeepNew()
    ensures PlanWalk(Location("/logs", 30, "delete", ""),
                     [Visit(Entry(".", true, Some(Days(90)))),
                      Visit(Entry("new.log", false, Some(Days(5)))),
                      Visit(Entry("old.log", false, Some(Days(40))))])
            == Outcome([Delete("/logs/old.log")], false)
  {
    var loc := Location("/logs", 30, "delete", "");
    var w := [Visit(Entry(".", true, Some(Days(90)))),
              Visit(Entry("new.log", false, Some(Days(5)))),
              Visit(Entry("old.log", false, Some(Days(40))))];
    QualifiesIff(Days(5), 30);
    QualifiesIff(Days(40), 30);
    assert Join("/logs", "old.log") == "/logs/old.log";
    assert PlanWalk(loc, w[..1]) == Outcome([], false) by { assert w[..1][..0] == []; }
    assert PlanWalk(loc, w[..2]) == Outcome([], false) by { assert w[..2][..1] == w[..1]; }
    assert w[..3] == w;
    assert w[..2] == w[..|w| - 1];
  }

  /** Threshold 7 days, action "move", target `/archive`: `reports/q1.csv`
      (10 days) is moved to `/archive/reports/q1.csv`; the directories are
      left alone. */
  lemma MoveMirrorsTree()
    ensures PlanWalk(Location("/data", 7, "move", "/archive"),
                     [Visit(Entry(".", true, Some(Days(10)))),
                      Visit(Entry("reports", true, Some(Days(10)))),
                      Visit(Entry("reports/q1.csv", false, Some(Days(10))))])
            == Outcome([Move("/data/reports/q1.csv", "/archive/reports/q1.csv")], false)
  {
    var loc := Location("/data", 7, "move", "/archive");
    var w := [Visit(Entry(".", true, Some(Days(10)))),
              Visit(Entry("reports", true, Some(Days(10)))),
              Visit(Entry("reports/q1.csv", false, Some(Days(10))))];
    QualifiesIff(Days(10), 7);
    assert Join("/data", "reports/q1.csv") == "/data/reports/q1.csv";
    assert Join("/archive", "reports/q1.csv") == "/archive/reports/q1.csv";
    assert PlanWalk(loc, w[..1]) == Outcome([], false) by { assert w[..1][..0] == []; }
    assert PlanWalk(loc, w[..2]) == Outcome([], false) by { assert w[..2][..1] == w[..1]; }
    assert w[..2] == w[..|w| - 1];
  }

  /** Moving `reports/q1.csv` under `/archive` first creates
      `/archive/reports`, then renames. */
  lemma MoveCreatesMirroredParent()
    ensures CallsOf(Move("/data/reports/q1.csv", "/archive/reports/q1.csv"))
            == [MkdirAll("/archive/reports"), Rename("/data/reports/q1.csv", "/archive/reports/q1.csv")]
  {
    LastSeparatorIs("reports/q1.csv", 7);
    DirOfJoin("/archive", "reports/q1.csv");
    assert Join("/archive", "reports/q1.csv") == "/archive/reports/q1.csv";
    assert "reports/q1.csv"[..7] == "reports";
    assert Join("/archive", "reports") == "/archive/reports";
  }

  /** A file aged exactly the threshold, or one nanosecond short of a
      further day, stays. */
  lemma BoundaryFileStays()
    ensures PlanWalk(Location("/tmp", 7, "delete", ""),
                     [Visit(Entry(".", true, Some(Days(7)))),
                      Visit(Entry("a", false, Some(Days(7)))),
                      Visit(Entry("b", false, Some(Days(8) - 1)))])
            == Outcome([], false)
  {
    var loc := Location("/tmp", 7, "delete", "");
    var w := [Visit(Entry(".", true, Some(Days(7)))),
              Visit(Entry("a", false, Some(Days(7)))),
              Visit(Entry("b", false, Some(Days(8) - 1)))];
    ThresholdIsStrict(7, 0);
    ThresholdIsStrict(7, NanosPerDay - 1);
    assert PlanWalk(loc, w[..1]) == Outcome([], false) by { assert w[..1][..0] == []; }
    assert PlanWalk(loc, w[..2]) == Outcome([], false) by { assert w[..2][..1] == w[..1]; }
    assert w[..2] == w[..|w| - 1];
  }

  /** A missing source directory, whose root the walk cannot stat, ends the
      process at once: the later location is never processed. */
  lemma MissingSourceStopsSweep()
    ensures PlanSweep([Job(Location("/missing", 1, "delete", ""), [WalkError(".")]),
                       Job(Location("/logs", 1, "delete", ""), [Visit(Entry(".", true, Some(Days(5)))),
                                                                Visit(Entry("x", false, Some(Days(5))))])])
            == Outcome([], true)
  {
    var jobs := [Job(Location("/missing", 1, "delete", ""), [WalkError(".")]),
                 Job(Location("/logs", 1, "delete", ""), [Visit(Entry(".", true, Some(Days(5)))),
                                                          Visit(Entry("x", false, Some(Days(5))))])];
    var outs := WalkOutcomes(jobs);
    assert outs[0] == Outcome([], true);
    SweepStopsAtAbort(outs, 0);
  }

}
