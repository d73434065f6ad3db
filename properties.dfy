/** What a whole run of `add_type_ignore_comments` guarantees, stated on the
    closed form `RunSpec.Run`, which the engine is proved to compute: the
    final text of every line, independence from the order and repetition of
    the diagnostics, the errors of the removal pass, idempotence of the
    additions, and the round trip of an addition run followed by a removal
    run over the written files. */
module Properties {
  import opened Text
  import opened Marker
  import opened RunSpec

  /** The file system after the `--inplace` write of a run: every loaded
      file is replaced by its final lines, every other file is kept. */
  function Written(disk: Disk, o: Outcome): Disk {
    disk + o.buffers
  }

  /** Line `i` of `orig` once the additions and then the removals that `ds`
      requests for it are applied. */
  function Expected(orig: seq<Line>, ds: seq<Diagnostic>, p: Path, i: int): Line
    requires 0 <= i < |orig|
  {
    var added := if AddRequested(ds, p, i) then AddMarker(orig[i]) else orig[i];
    if RemoveRequested(ds, p, i) then AfterRemoval(added) else added
  }

  /** The final text of every line of a loaded file: a line some addition
      targets gets the marker once, and then, if some removal targets it, it
      is cleaned; a line no diagnostic names is the line on disk. */
  lemma FinalLine(disk: Disk, ds: seq<Diagnostic>, p: Path, i: int)
    requires p in Loaded(disk, ds) && 0 <= i < |disk[p]|
    ensures Run(disk, ds).buffers[p][i] == Expected(disk[p], ds, p, i)
  {
    var orig := disk[p];
    assert Run(disk, ds).buffers[p] == FinalLines(orig, ds, p);
    ScheduledExactly(orig, ds, p);
    AfterRemovalsAt(AfterAdditions(orig, ds, p), Scheduled(orig, ds, p), i);
    AdditionsMark(orig, ds, p, i);
  }

  /** A line that no diagnostic names keeps its text. */
  lemma UntargetedLineKept(disk: Disk, ds: seq<Diagnostic>, p: Path, i: int)
    requires p in Loaded(disk, ds) && 0 <= i < |disk[p]|
    requires forall d :: d in ds ==> d.file != p || d.line != i
    ensures Run(disk, ds).buffers[p][i] == disk[p][i]
  {
    FinalLine(disk, ds, p, i);
  }

  /** A line that an addition targets and no removal does ends with the
      marker after the run. */
  lemma AddedLineMarked(disk: Disk, ds: seq<Diagnostic>, p: Path, i: int)
    requires p in Loaded(disk, ds) && 0 <= i < |disk[p]|
    requires AddRequested(ds, p, i) && !RemoveRequested(ds, p, i)
    ensures HasTypeIgnore(Run(disk, ds).buffers[p][i])
  {
    FinalLine(disk, ds, p, i);
  }

  /** A line that an addition and a removal both target, and whose text
      does not contain the marker, ends the run as its code without trailing
      whitespace: the removal pass runs after all additions and strips the
      marker just added. */
  lemma SameRunAddThenRemove(disk: Disk, ds: seq<Diagnostic>, p: Path, i: int)
    requires p in Loaded(disk, ds) && 0 <= i < |disk[p]|
    requires AddRequested(ds, p, i) && RemoveRequested(ds, p, i)
    requires !Contains(disk[p][i], TypeIgnore)
    ensures Run(disk, ds).buffers[p][i] == RStrip(disk[p][i]) + "\n"
  {
    var line := disk[p][i];
    FinalLine(disk, ds, p, i);
    NotMarked(line);
    RoundTrip(line);
  }

  /** A line without the marker text does not end with the marker. */
  lemma NotMarked(line: Line)
    requires !Contains(line, TypeIgnore)
    ensures AddMarker(line) == Annotate(line)
  {
    if HasTypeIgnore(line) {
      StripEndsWithContains(line, TypeIgnore);
    }
  }

  /** The sample line `x = 1`: an addition gives `x = 1  # type: ignore`, and
      removing that marker gives `x = 1` back. */
  lemma SampleRoundTrip(line: Line)
    requires line == "x = 1\n"
    ensures Annotate(line) == "x = 1  # type: ignore\n"
    ensures RemoveMarker(Annotate(line)) == Removed(line)
  {
    SampleCode(line);
    assert Annotate(line) == "x = 1" + Appended;
    assert "x = 1" + Appended == "x = 1  # type: ignore\n";
    ShortFree(line);
    RoundTrip(line);
  }

  /** The code of the sample line is `x = 1`. */
  lemma SampleCode(line: Line)
    requires line == "x = 1\n"
    ensures RStrip(line) == "x = 1" && RStrip(line) + "\n" == line
  {
    var code := "x = 1";
    assert line == code + "\n";
    RStripSpaceTail(code, "\n");
    RStripNonSpaceEnd(code);
  }

  /** A line shorter than the marker does not contain it. */
  lemma ShortFree(line: Line)
    requires |line| < |TypeIgnore|
    ensures !Contains(line, TypeIgnore)
  {
  }

  /** The buffers and the output order depend only on which diagnostics the
      report holds: reordering or repeating diagnostics changes neither. */
  lemma SameDiagnosticsSameFiles(disk: Disk, ds: seq<Diagnostic>, es: seq<Diagnostic>)
    requires forall d :: d in ds <==> d in es
    ensures Run(disk, ds).buffers == Run(disk, es).buffers
  {
    LoadedNamed(disk, ds);
    LoadedNamed(disk, es);
    var a, b := Run(disk, ds).buffers, Run(disk, es).buffers;
    assert a.Keys == b.Keys;
    forall p | p in a
      ensures a[p] == b[p]
    {
      SameDiagnosticsSameFile(disk, ds, es, p);
    }
    MapsAgree(a, b);
  }

  /** Maps with the same keys and the same value at every key are equal. */
  lemma MapsAgree(a: map<Path, seq<Line>>, b: map<Path, seq<Line>>)
    requires a.Keys == b.Keys && forall p :: p in a ==> a[p] == b[p]
    ensures a == b
  {
  }

  /** `SameDiagnosticsSameFiles` for one file. */
  lemma SameDiagnosticsSameFile(disk: Disk, ds: seq<Diagnostic>, es: seq<Diagnostic>, p: Path)
    requires forall d :: d in ds <==> d in es
    requires p in Loaded(disk, ds) && p in Loaded(disk, es)
    ensures Run(disk, ds).buffers[p] == Run(disk, es).buffers[p]
  {
    forall i | 0 <= i < |disk[p]|
      ensures AddRequested(ds, p, i) == AddRequested(es, p, i)
      ensures RemoveRequested(ds, p, i) == RemoveRequested(es, p, i)
    {
    }
    SameRequestsSameFile(disk, ds, es, p);
  }

  /** Two reports that request the same additions and removals for every
      line of a file leave it with the same lines. */
  lemma SameRequestsSameFile(disk: Disk, ds: seq<Diagnostic>, es: seq<Diagnostic>, p: Path)
    requires p in Loaded(disk, ds) && p in Loaded(disk, es)
    requires forall i :: 0 <= i < |disk[p]| ==> AddRequested(ds, p, i) == AddRequested(es, p, i)
    requires forall i :: 0 <= i < |disk[p]| ==> RemoveRequested(ds, p, i) == RemoveRequested(es, p, i)
    ensures Run(disk, ds).buffers[p] == Run(disk, es).buffers[p]
  {
    var a, b := Run(disk, ds).buffers[p], Run(disk, es).buffers[p];
    forall i | 0 <= i < |a|
      ensures a[i] == b[i]
    {
      FinalLine(disk, ds, p, i);
      FinalLine(disk, es, p, i);
    }
  }

  /** A diagnostic whose line lies outside its file, which the report has
      already loaded, changes no buffer: an addition past the end is only
      reported, a negative line or an out-of-range removal is dropped. */
  lemma OutOfRangeChangesNothing(disk: Disk, ds: seq<Diagnostic>, d: Diagnostic)
    requires d.file in Loaded(disk, ds)
    requires !(0 <= d.line < |disk[d.file]|)
    ensures Run(disk, ds + [d]).buffers == Run(disk, ds).buffers
  {
    var es := ds + [d];
    LoadedNamed(disk, ds);
    LoadedNamed(disk, es);
    assert forall e :: e in es <==> e in ds || e == d;
    assert Loaded(disk, es) == Loaded(disk, ds);
    var a, b := Run(disk, es).buffers, Run(disk, ds).buffers;
    assert a.Keys == b.Keys;
    forall p | p in a
      ensures a[p] == b[p]
    {
      OutOfRangeFile(disk, ds, d, p);
    }
    MapsAgree(a, b);
  }

  /** `OutOfRangeChangesNothing` for one file. */
  lemma OutOfRangeFile(disk: Disk, ds: seq<Diagnostic>, d: Diagnostic, p: Path)
    requires d.file in disk && !(0 <= d.line < |disk[d.file]|)
    requires p in Loaded(disk, ds) && p in Loaded(disk, ds + [d])
    ensures Run(disk, ds + [d]).buffers[p] == Run(disk, ds).buffers[p]
  {
    var es := ds + [d];
    forall i | 0 <= i < |disk[p]|
      ensures AddRequested(es, p, i) == AddRequested(ds, p, i)
      ensures RemoveRequested(es, p, i) == RemoveRequested(ds, p, i)
    {
      AddRequestedStep(ds, d, p, i);
      if RemoveRequested(es, p, i) {
        var e :| e in es && e.file == p && e.line == i && IsRemoval(e);
        assert e in ds || e == d;
      }
    }
    SameRequestsSameFile(disk, es, ds, p);
  }

  /** A diagnostic that repeats one already in the report changes neither
      the buffers nor the order of the files. */
  lemma RepeatedDiagnostic(disk: Disk, ds: seq<Diagnostic>, d: Diagnostic)
    requires d in ds
    ensures Run(disk, ds + [d]).buffers == Run(disk, ds).buffers
    ensures Run(disk, ds + [d]).order == Run(disk, ds).order
  {
    assert forall e :: e in ds + [d] <==> e in ds;
    SameDiagnosticsSameFiles(disk, ds + [d], ds);
    LoadedNamed(disk, ds);
    FirstSeenLoaded(disk, ds);
    assert (ds + [d])[..|ds|] == ds;
  }

  /** A diagnostic for a file that does not exist loads nothing and is
      reported. */
  lemma MissingFileWarned(disk: Disk, ds: seq<Diagnostic>, p: Path)
    requires p !in disk && exists d :: d in ds && d.file == p
    ensures p !in Run(disk, ds).buffers
    ensures FileNotFound(p) in Run(disk, ds).log
  {
    WarningsReport(disk, ds);
  }

  /** An addition past the end of an existing file is reported. */
  lemma OutOfRangeWarned(disk: Disk, ds: seq<Diagnostic>, p: Path, n: int)
    requires p in disk && n >= |disk[p]| && AddRequested(ds, p, n)
    ensures LineOutOfRange(p, n) in Run(disk, ds).log
  {
    WarningsReport(disk, ds);
  }

  /** The removal pass reports a missing marker at line `n` exactly when a
      loaded file has a removal request for its line `n`, no addition
      request for it, and that line carries neither marker on disk. */
  lemma MissingMarkerReported(disk: Disk, ds: seq<Diagnostic>, n: int)
    ensures IgnoreCommentNotFound(n) in Run(disk, ds).log <==>
            exists p :: p in Loaded(disk, ds) && MissingAt(disk, ds, p, n)
  {
    var order := FirstSeen(disk, ds);
    FirstSeenLoaded(disk, ds);
    WarningsReport(disk, ds);
    assert Run(disk, ds).log == Warnings(disk, ds) + RemovalLog(disk, ds, order);
    if IgnoreCommentNotFound(n) in Run(disk, ds).log {
      RemovalLogFrom(disk, ds, order, n);
      var q :| q in order && Reports(disk, ds, q, n);
      FileMissing(disk, ds, q, n);
    }
    if exists p :: p in Loaded(disk, ds) && MissingAt(disk, ds, p, n) {
      var p :| p in Loaded(disk, ds) && MissingAt(disk, ds, p, n);
      FileMissing(disk, ds, p, n);
      RemovalLogKeeps(disk, ds, order, p, n);
    }
  }

  /** Line `n` of the existing file `p` is due for removal, gets no marker
      from this run and has neither marker on disk. */
  predicate MissingAt(disk: Disk, ds: seq<Diagnostic>, p: Path, n: int)
    requires p in disk
  {
    && 0 <= n < |disk[p]|
    && RemoveRequested(ds, p, n)
    && !AddRequested(ds, p, n)
    && !HasMarker(disk[p][n])
  }

  /** The removal pass over the existing file `p` reports line `n`. */
  ghost predicate Reports(disk: Disk, ds: seq<Diagnostic>, p: Path, n: int)
    requires p in disk
  {
    IgnoreCommentNotFound(n) in FileErrors(AfterAdditions(disk[p], ds, p), Scheduled(disk[p], ds, p))
  }

  /** Every line the removal pass over one of the files `ps` reports is in
      the log of the pass over all of them. */
  lemma {:induction false} RemovalLogKeeps(disk: Disk, ds: seq<Diagnostic>, ps: seq<Path>, q: Path, n: int)
    requires forall p :: p in ps ==> p in disk
    requires q in ps && Reports(disk, ds, q, n)
    ensures IgnoreCommentNotFound(n) in RemovalLog(disk, ds, ps)
    decreases |ps|
  {
    var p := ps[|ps| - 1];
    var prev := ps[..|ps| - 1];
    var here := FileErrors(AfterAdditions(disk[p], ds, p), Scheduled(disk[p], ds, p));
    assert RemovalLog(disk, ds, ps) == RemovalLog(disk, ds, prev) + here;
    if q != p {
      assert q in prev;
      RemovalLogKeeps(disk, ds, prev, q, n);
    }
  }

  /** Every line in the log of the removal pass over the files `ps` was
      reported by the pass over one of them. */
  lemma {:induction false} RemovalLogFrom(disk: Disk, ds: seq<Diagnostic>, ps: seq<Path>, n: int)
    requires forall p :: p in ps ==> p in disk
    requires IgnoreCommentNotFound(n) in RemovalLog(disk, ds, ps)
    ensures exists q :: q in ps && Reports(disk, ds, q, n)
    decreases |ps|
  {
    var p := ps[|ps| - 1];
    var prev := ps[..|ps| - 1];
    var here := FileErrors(AfterAdditions(disk[p], ds, p), Scheduled(disk[p], ds, p));
    assert RemovalLog(disk, ds, ps) == RemovalLog(disk, ds, prev) + here;
    if IgnoreCommentNotFound(n) in here {
      assert Reports(disk, ds, p, n);
    } else {
      RemovalLogFrom(disk, ds, prev, n);
      var q :| q in prev && Reports(disk, ds, q, n);
      assert q in ps;
    }
  }

  /** The errors of one file name line `n` exactly when it misses its
      marker there. */
  lemma FileMissing(disk: Disk, ds: seq<Diagnostic>, p: Path, n: int)
    requires p in disk
    ensures Reports(disk, ds, p, n) <==> MissingAt(disk, ds, p, n)
  {
    var orig := disk[p];
    var lines := AfterAdditions(orig, ds, p);
    var todo := Scheduled(orig, ds, p);
    AscendingExactly(todo);
    ErrorsReport(lines, Ascending(todo), n);
    ScheduledExactly(orig, ds, p);
    if 0 <= n < |orig| {
      AdditionsMark(orig, ds, p, n);
    }
  }

  /** A run made of additions only reaches a fixed point: running the same
      report again over the written files gives the same outcome, warnings
      included. */
  lemma AdditionsIdempotent(disk: Disk, ds: seq<Diagnostic>)
    requires forall d :: d in ds ==> !IsRemoval(d)
    ensures Run(Written(disk, Run(disk, ds)), ds) == Run(disk, ds)
  {
    var o := Run(disk, ds);
    var disk' := Written(disk, o);
    var order := FirstSeen(disk, ds);
    SameShape(disk, disk', ds);
    RewrittenBuffers(disk, disk', ds);
    FirstSeenLoaded(disk, ds);
    NoRemovalErrors(disk, ds, order);
    NoRemovalErrors(disk', ds, order);
    assert o.log == Warnings(disk, ds) + RemovalLog(disk, ds, order);
    assert Run(disk', ds).log == Warnings(disk', ds) + RemovalLog(disk', ds, order);
  }

  /** The buffers of the second run of an addition-only report. */
  lemma RewrittenBuffers(disk: Disk, disk': Disk, ds: seq<Diagnostic>)
    requires forall d :: d in ds ==> !IsRemoval(d)
    requires disk' == Written(disk, Run(disk, ds))
    requires Loaded(disk', ds) == Loaded(disk, ds)
    ensures Run(disk', ds).buffers == Run(disk, ds).buffers
  {
    var a, b := Run(disk', ds).buffers, Run(disk, ds).buffers;
    assert a.Keys == b.Keys;
    forall p | p in a
      ensures a[p] == b[p]
    {
      RewrittenFile(disk, disk', ds, p);
    }
    MapsAgree(a, b);
  }

  /** `RewrittenBuffers` for one file: every targeted line already ends
      with the marker, so the second run keeps it. */
  lemma RewrittenFile(disk: Disk, disk': Disk, ds: seq<Diagnostic>, p: Path)
    requires forall d :: d in ds ==> !IsRemoval(d)
    requires disk' == Written(disk, Run(disk, ds))
    requires p in Loaded(disk, ds) && p in Loaded(disk', ds)
    ensures Run(disk', ds).buffers[p] == Run(disk, ds).buffers[p]
  {
    var a, b := Run(disk', ds).buffers[p], Run(disk, ds).buffers[p];
    assert disk'[p] == b;
    forall i | 0 <= i < |disk[p]|
      ensures a[i] == b[i]
    {
      FinalLine(disk, ds, p, i);
      FinalLine(disk', ds, p, i);
      assert !RemoveRequested(ds, p, i);
    }
  }

  /** Writing a run's buffers keeps the files and their line counts, so the
      next run over the same report loads the same files in the same order
      and warns the same way. */
  lemma SameShape(disk: Disk, disk': Disk, ds: seq<Diagnostic>)
    requires disk' == Written(disk, Run(disk, ds))
    ensures disk'.Keys == disk.Keys
    ensures forall p :: p in disk ==> |disk'[p]| == |disk[p]|
    ensures Loaded(disk', ds) == Loaded(disk, ds)
    ensures FirstSeen(disk', ds) == FirstSeen(disk, ds)
    ensures Warnings(disk', ds) == Warnings(disk, ds)
  {
    KeysAndLengths(disk, disk', ds, ds);
  }

  /** Two file systems with the same files and line counts load, order and
      warn alike. */
  lemma {:induction false} KeysAndLengths(disk: Disk, disk': Disk, ds: seq<Diagnostic>, es: seq<Diagnostic>)
    requires disk'.Keys == disk.Keys
    requires forall p :: p in disk ==> |disk'[p]| == |disk[p]|
    requires es == ds
    ensures Loaded(disk', es) == Loaded(disk, ds)
    ensures FirstSeen(disk', es) == FirstSeen(disk, ds)
    ensures Warnings(disk', es) == Warnings(disk, ds)
    decreases |ds|
  {
    if ds != [] {
      KeysAndLengths(disk, disk', ds[..|ds| - 1], es[..|es| - 1]);
    }
  }

  /** Without removal requests the removal pass reports nothing. */
  lemma {:induction false} NoRemovalErrors(disk: Disk, ds: seq<Diagnostic>, ps: seq<Path>)
    requires forall d :: d in ds ==> !IsRemoval(d)
    requires forall p :: p in ps ==> p in disk
    ensures RemovalLog(disk, ds, ps) == []
    decreases |ps|
  {
    if ps != [] {
      var p := ps[|ps| - 1];
      NoRemovalErrors(disk, ds, ps[..|ps| - 1]);
      ScheduledExactly(disk[p], ds, p);
      assert Scheduled(disk[p], ds, p) == {};
    }
  }

  /** An addition run written to disk, followed by a run that asks to remove
      exactly the markers the first run was asked to add, gives back every
      targeted line as its code without trailing whitespace, provided the
      line did not contain the marker text; every other line is as it was. */
  lemma RoundTripAcrossRuns(disk: Disk, adds: seq<Diagnostic>, removes: seq<Diagnostic>, p: Path, i: int)
    requires forall d :: d in adds ==> !IsRemoval(d)
    requires forall d :: d in removes ==> IsRemoval(d)
    requires forall q, n :: RemoveRequested(removes, q, n) <==> AddRequested(adds, q, n)
    requires p in Loaded(Written(disk, Run(disk, adds)), removes) && 0 <= i < |disk[p]|
    requires AddRequested(adds, p, i) ==> !Contains(disk[p][i], TypeIgnore)
    ensures Run(Written(disk, Run(disk, adds)), removes).buffers[p][i] ==
            if AddRequested(adds, p, i) then RStrip(disk[p][i]) + "\n" else disk[p][i]
  {
    var o := Run(disk, adds);
    var disk' := Written(disk, o);
    var line := disk[p][i];
    assert disk'.Keys == disk.Keys;
    if p in o.buffers {
      FinalLine(disk, adds, p, i);
      assert !RemoveRequested(adds, p, i);
    } else {
      LoadedNamed(disk, adds);
      assert !AddRequested(adds, p, i);
    }
    assert disk'[p][i] == if AddRequested(adds, p, i) then AddMarker(line) else line;
    FinalLine(disk', removes, p, i);
    assert !AddRequested(removes, p, i);
    if AddRequested(adds, p, i) {
      NotMarked(line);
      RoundTrip(line);
    }
  }
}
