/** What one run of `add_type_ignore_comments` consumes and produces, and a
    closed-form description of its result: for every line of every file,
    which diagnostics decide its final text, independently of the order in
    which the run visits them. */
module RunSpec {
  import opened Text
  import opened Marker

  /** A file path, compared as written. */
  type Path = string

  /** The files of the file system the run reads: a path exists exactly when
      it is a key, and maps to the lines `readlines` returns for it. */
  type Disk = map<Path, seq<Line>>

  /** The rule the checker attaches to a `# type: ignore` it finds unnecessary. */
  const UnnecessaryIgnoreRule: string := "reportUnnecessaryTypeIgnoreComment"

  /** One entry of `generalDiagnostics`: the file, the zero-based start line
      of the range (any integer the report holds) and the rule. */
  datatype Diagnostic = Diagnostic(file: Path, line: int, rule: string)

  /** A diagnostic asks for a removal; every other one asks for an addition. */
  predicate IsRemoval(d: Diagnostic) {
    d.rule == UnnecessaryIgnoreRule
  }

  /** What the run writes to standard error, without the wording. */
  datatype Message =
    | FileNotFound(file: Path)
    | LineOutOfRange(file: Path, line: int)
    | IgnoreCommentNotFound(line: int)

  /** The result of a run: each loaded file's final lines, the order in which
      the files were first loaded (the order of the output), and the messages. */
  datatype Outcome = Outcome(buffers: map<Path, seq<Line>>, order: seq<Path>, log: seq<Message>)

  /** Some diagnostic of `ds` asks for a marker on line `i` of `p`. */
  predicate AddRequested(ds: seq<Diagnostic>, p: Path, i: int) {
    exists d :: d in ds && d.file == p && d.line == i && !IsRemoval(d)
  }

  /** Some diagnostic of `ds` asks for the marker on line `i` of `p` to go. */
  predicate RemoveRequested(ds: seq<Diagnostic>, p: Path, i: int) {
    exists d :: d in ds && d.file == p && d.line == i && IsRemoval(d)
  }

  /** The files a run loads: those named by a diagnostic that exist. */
  function Loaded(disk: Disk, ds: seq<Diagnostic>): (r: set<Path>)
    ensures r <= disk.Keys
    decreases |ds|
  {
    if ds == [] then {}
    else
      var d := ds[|ds| - 1];
      Loaded(disk, ds[..|ds| - 1]) + if d.file in disk then {d.file} else {}
  }

  /** A file is loaded exactly when it exists and some diagnostic names it. */
  lemma {:induction false} LoadedNamed(disk: Disk, ds: seq<Diagnostic>)
    ensures forall p :: p in Loaded(disk, ds) <==> p in disk && exists d :: d in ds && d.file == p
    decreases |ds|
  {
    if ds != [] {
      var d := ds[|ds| - 1];
      var prev := ds[..|ds| - 1];
      LoadedNamed(disk, prev);
      assert ds == prev + [d];
      assert forall e :: e in ds <==> e in prev || e == d;
    }
  }

  /** The loaded files in the order of their first mention, each once. */
  function FirstSeen(disk: Disk, ds: seq<Diagnostic>): (r: seq<Path>)
    ensures forall i, j :: 0 <= i < j < |r| ==> r[i] != r[j]
    ensures forall i :: 0 <= i < |r| ==> r[i] in disk
    decreases |ds|
  {
    if ds == [] then []
    else
      var prev := FirstSeen(disk, ds[..|ds| - 1]);
      var d := ds[|ds| - 1];
      if d.file in disk && d.file !in prev then prev + [d.file] else prev
  }

  /** The order holds exactly the loaded files. */
  lemma {:induction false} FirstSeenLoaded(disk: Disk, ds: seq<Diagnostic>)
    ensures forall p :: p in FirstSeen(disk, ds) <==> p in Loaded(disk, ds)
    decreases |ds|
  {
    if ds != [] {
      FirstSeenLoaded(disk, ds[..|ds| - 1]);
    }
  }

  /** The warning one diagnostic causes in the first pass, if any. */
  function Warning(disk: Disk, d: Diagnostic): seq<Message> {
    if d.file !in disk then [FileNotFound(d.file)]
    else if !IsRemoval(d) && d.line >= |disk[d.file]| then [LineOutOfRange(d.file, d.line)]
    else []
  }

  /** The warnings of the first pass, in the order of the diagnostics, at
      most one each. */
  function Warnings(disk: Disk, ds: seq<Diagnostic>): (r: seq<Message>)
    ensures |r| <= |ds|
    decreases |ds|
  {
    if ds == [] then []
    else Warnings(disk, ds[..|ds| - 1]) + Warning(disk, ds[|ds| - 1])
  }

  /** Exactly the missing files and the additions past the end of their
      file are reported, and the first pass never reports a missing marker. */
  lemma {:induction false} WarningsReport(disk: Disk, ds: seq<Diagnostic>)
    ensures forall p :: FileNotFound(p) in Warnings(disk, ds) <==>
              p !in disk && exists d :: d in ds && d.file == p
    ensures forall p, n :: LineOutOfRange(p, n) in Warnings(disk, ds) <==>
              p in disk && n >= |disk[p]| && AddRequested(ds, p, n)
    ensures forall m :: m in Warnings(disk, ds) ==> !m.IgnoreCommentNotFound?
    decreases |ds|
  {
    if ds != [] {
      var d := ds[|ds| - 1];
      var prev := ds[..|ds| - 1];
      WarningsReport(disk, prev);
      assert ds == prev + [d];
      assert forall e :: e in ds <==> e in prev || e == d;
    }
  }

  /** The lines of a file after the additions of `ds`, in the order of the
      report: an addition to an existing line of `p` appends the marker
      unless the line already ends with it. */
  function AfterAdditions(orig: seq<Line>, ds: seq<Diagnostic>, p: Path): (r: seq<Line>)
    ensures |r| == |orig|
    decreases |ds|
  {
    if ds == [] then orig
    else
      var d := ds[|ds| - 1];
      var prev := AfterAdditions(orig, ds[..|ds| - 1], p);
      if d.file == p && !IsRemoval(d) && 0 <= d.line < |orig| then prev[d.line := AddMarker(prev[d.line])]
      else prev
  }

  /** The first pass in closed form, whatever the order of the report: a
      line that some addition targets is the original line with the marker
      added once (kept as it is if it already ended with the marker); no
      other line changes. */
  lemma {:induction false} AdditionsMark(orig: seq<Line>, ds: seq<Diagnostic>, p: Path, i: int)
    requires 0 <= i < |orig|
    ensures AfterAdditions(orig, ds, p)[i] == if AddRequested(ds, p, i) then AddMarker(orig[i]) else orig[i]
    decreases |ds|
  {
    if ds != [] {
      var d := ds[|ds| - 1];
      var prev := ds[..|ds| - 1];
      assert prev + [d] == ds;
      AdditionsMark(orig, prev, p, i);
      AdditionsLast(orig, ds, p, i);
      AddRequestedStep(prev, d, p, i);
      MarkOnce(orig[i], AfterAdditions(orig, prev, p)[i], AddRequested(prev, p, i),
               d.file == p && d.line == i && !IsRemoval(d));
    }
  }

  /** The last diagnostic of `ds` acts on line `i` only if it names it. */
  lemma AdditionsLast(orig: seq<Line>, ds: seq<Diagnostic>, p: Path, i: int)
    requires 0 <= i < |orig| && ds != []
    ensures var d := ds[|ds| - 1];
            var before := AfterAdditions(orig, ds[..|ds| - 1], p)[i];
            AfterAdditions(orig, ds, p)[i] ==
              if d.file == p && !IsRemoval(d) && d.line == i then AddMarker(before) else before
  {
  }

  /** Adding the marker to a line that is either the original or the
      original with the marker added gives the original with the marker. */
  lemma MarkOnce(line: Line, before: Line, marked: bool, hit: bool)
    requires before == if marked then AddMarker(line) else line
    ensures (if hit then AddMarker(before) else before) == if marked || hit then AddMarker(line) else line
  {
    if hit && marked {
      assert HasTypeIgnore(before);
    }
  }

  /** One more diagnostic requests an addition to line `i` of `p` exactly
      when it names that line, or an earlier one did. */
  lemma AddRequestedStep(ds: seq<Diagnostic>, d: Diagnostic, p: Path, i: int)
    ensures AddRequested(ds + [d], p, i) <==>
            AddRequested(ds, p, i) || (d.file == p && d.line == i && !IsRemoval(d))
  {
    assert forall e :: e in ds + [d] <==> e in ds || e == d;
  }

  /** The indices the first pass annotated (`ignored_lines` of the file), in
      the order of the report. */
  function Annotated(orig: seq<Line>, ds: seq<Diagnostic>, p: Path): set<int>
    decreases |ds|
  {
    if ds == [] then {}
    else
      var d := ds[|ds| - 1];
      var prev := Annotated(orig, ds[..|ds| - 1], p);
      if d.file == p && !IsRemoval(d) && 0 <= d.line < |orig| && !HasTypeIgnore(orig[d.line]) then prev + {d.line}
      else prev
  }

  /** A line was annotated exactly when an addition targets it and it did
      not end with the marker on disk. */
  lemma {:induction false} AnnotatedExactly(orig: seq<Line>, ds: seq<Diagnostic>, p: Path)
    ensures forall i :: i in Annotated(orig, ds, p) <==>
              AddRequested(ds, p, i) && 0 <= i < |orig| && !HasTypeIgnore(orig[i])
    decreases |ds|
  {
    if ds != [] {
      var d := ds[|ds| - 1];
      var prev := ds[..|ds| - 1];
      AnnotatedExactly(orig, prev, p);
      assert ds == prev + [d];
      assert forall e :: e in ds <==> e in prev || e == d;
    }
  }

  /** `AnnotatedExactly` for one line. */
  lemma AnnotatedAt(orig: seq<Line>, ds: seq<Diagnostic>, p: Path, i: int)
    requires 0 <= i < |orig|
    ensures i in Annotated(orig, ds, p) <==> AddRequested(ds, p, i) && !HasTypeIgnore(orig[i])
  {
    AnnotatedExactly(orig, ds, p);
  }

  /** The indices scheduled for removal (`remove_ignore_lines` of the file):
      out-of-range requests are dropped. */
  function Scheduled(orig: seq<Line>, ds: seq<Diagnostic>, p: Path): (r: set<int>)
    ensures forall i :: i in r ==> 0 <= i < |orig|
    decreases |ds|
  {
    if ds == [] then {}
    else
      var d := ds[|ds| - 1];
      var prev := Scheduled(orig, ds[..|ds| - 1], p);
      if d.file == p && IsRemoval(d) && 0 <= d.line < |orig| then prev + {d.line} else prev
  }

  /** A line is scheduled exactly when a removal request names it and it exists. */
  lemma {:induction false} ScheduledExactly(orig: seq<Line>, ds: seq<Diagnostic>, p: Path)
    ensures forall i :: i in Scheduled(orig, ds, p) <==> RemoveRequested(ds, p, i) && 0 <= i < |orig|
    decreases |ds|
  {
    if ds != [] {
      var d := ds[|ds| - 1];
      var prev := ds[..|ds| - 1];
      ScheduledExactly(orig, prev, p);
      assert ds == prev + [d];
      assert forall e :: e in ds <==> e in prev || e == d;
    }
  }

  /** A file no diagnostic names is neither changed, annotated nor scheduled. */
  lemma {:induction false} Unnamed(orig: seq<Line>, ds: seq<Diagnostic>, p: Path)
    requires forall d :: d in ds ==> d.file != p
    ensures AfterAdditions(orig, ds, p) == orig
    ensures Annotated(orig, ds, p) == {} && Scheduled(orig, ds, p) == {}
    decreases |ds|
  {
    if ds != [] {
      var prev := ds[..|ds| - 1];
      assert forall d :: d in prev ==> d in ds;
      Unnamed(orig, prev, p);
      assert ds[|ds| - 1] in ds;
    }
  }

  /** One line after a removal request: cleaned, or left alone. */
  function AfterRemoval(line: Line): Line {
    match RemoveMarker(line)
    case Removed(kept) => kept
    case MarkerNotFound => line
  }

  /** The lines after the removal pass visits the indices `ns` in turn,
      cleaning each visited line. */
  function Cleaned(lines: seq<Line>, ns: seq<int>): (r: seq<Line>)
    requires forall k :: 0 <= k < |ns| ==> 0 <= ns[k] < |lines|
    ensures |r| == |lines|
  {
    if ns == [] then lines
    else
      var n := ns[|ns| - 1];
      Cleaned(lines, ns[..|ns| - 1])[n := AfterRemoval(lines[n])]
  }

  /** Visiting distinct indices cleans exactly the visited lines. */
  lemma {:induction false} CleanedAt(lines: seq<Line>, ns: seq<int>, i: int)
    requires forall k :: 0 <= k < |ns| ==> 0 <= ns[k] < |lines|
    requires forall a, b :: 0 <= a < b < |ns| ==> ns[a] != ns[b]
    requires 0 <= i < |lines|
    ensures Cleaned(lines, ns)[i] == if i in ns then AfterRemoval(lines[i]) else lines[i]
  {
    if ns != [] {
      var prev := ns[..|ns| - 1];
      CleanedAt(lines, prev, i);
      assert ns == prev + [ns[|ns| - 1]];
    }
  }

  /** Lines after the removal requests for the indices in `todo`, visited in
      ascending order. */
  ghost function AfterRemovals(lines: seq<Line>, todo: set<int>): (r: seq<Line>)
    requires forall i :: i in todo ==> 0 <= i < |lines|
    ensures |r| == |lines|
  {
    AscendingExactly(todo);
    Cleaned(lines, Ascending(todo))
  }

  /** A scheduled line is cleaned, any other line is kept. */
  lemma AfterRemovalsAt(lines: seq<Line>, todo: set<int>, i: int)
    requires forall i :: i in todo ==> 0 <= i < |lines|
    requires 0 <= i < |lines|
    ensures AfterRemovals(lines, todo)[i] == if i in todo then AfterRemoval(lines[i]) else lines[i]
  {
    AscendingExactly(todo);
    AscendingSorted(todo);
    CleanedAt(lines, Ascending(todo), i);
  }

  /** A file's final lines: the removals act on the text the additions left.
      The line count is kept, and a line that no diagnostic targets is the
      line as loaded. */
  ghost function FinalLines(orig: seq<Line>, ds: seq<Diagnostic>, p: Path): (r: seq<Line>)
    ensures |r| == |orig|
  {
    AfterRemovals(AfterAdditions(orig, ds, p), Scheduled(orig, ds, p))
  }

  /** A non-empty set has an element. */
  lemma NonEmptyHasElement(s: set<int>)
    requires s != {}
    ensures exists x :: x in s
  {
    if forall x :: x !in s {
      assert false;
    }
  }

  /** A non-empty finite set of integers has a least element. */
  lemma {:induction false} LeastExists(s: set<int>)
    requires s != {}
    ensures exists m :: m in s && forall x :: x in s ==> m <= x
    decreases |s|
  {
    NonEmptyHasElement(s);
    var x :| x in s;
    var s' := s - {x};
    assert forall y :: y in s ==> y == x || y in s';
    if s' == {} {
      assert forall y :: y in s ==> x <= y;
    } else {
      LeastExists(s');
      var m :| m in s' && forall y :: y in s' ==> m <= y;
      var least := if x < m then x else m;
      assert forall y :: y in s ==> least <= y;
      assert least in s;
    }
  }

  /** The smallest element of a non-empty set of indices. */
  ghost function Least(s: set<int>): (m: int)
    requires s != {}
    ensures m in s && forall x :: x in s ==> m <= x
  {
    LeastExists(s);
    var m :| m in s && forall x :: x in s ==> m <= x;
    m
  }

  /** The indices of `s` in ascending order: the order in which the
      removal pass visits the scheduled lines of a file. */
  ghost function Ascending(s: set<int>): seq<int>
    decreases s
  {
    if s == {} then []
    else
      var m := Least(s);
      [m] + Ascending(s - {m})
  }

  /** The least element comes first, the rest follow in ascending order. */
  lemma AscendingStep(s: set<int>, n: int)
    requires n in s && forall x :: x in s ==> n <= x
    ensures Ascending(s) == [n] + Ascending(s - {n})
  {
    assert Least(s) == n;
  }

  /** The ascending sequence lists exactly the elements of the set. */
  lemma {:induction false} AscendingExactly(s: set<int>)
    ensures forall x :: x in Ascending(s) <==> x in s
    ensures forall k :: 0 <= k < |Ascending(s)| ==> Ascending(s)[k] in s
    decreases s
  {
    if s != {} {
      var m := Least(s);
      AscendingExactly(s - {m});
    }
  }

  /** The ascending sequence is strictly increasing, so no index is visited
      twice. */
  lemma {:induction false} AscendingSorted(s: set<int>)
    ensures forall a, b :: 0 <= a < b < |Ascending(s)| ==> Ascending(s)[a] < Ascending(s)[b]
    decreases s
  {
    if s != {} {
      var m := Least(s);
      var rest := Ascending(s - {m});
      AscendingSorted(s - {m});
      AscendingExactly(s - {m});
      var r := [m] + rest;
      assert Ascending(s) == r;
      forall a, b | 0 <= a < b < |r| ensures r[a] < r[b] {
        assert r[b] == rest[b - 1] && r[b] in rest;
        if a > 0 {
          assert r[a] == rest[a - 1];
        }
      }
    }
  }

  /** The errors the removal pass reports while visiting the indices `ns`
      of `lines` in turn: one for each visited line with neither marker. */
  function Errors(lines: seq<Line>, ns: seq<int>): (r: seq<Message>)
    requires forall k :: 0 <= k < |ns| ==> 0 <= ns[k] < |lines|
    ensures |r| <= |ns|
  {
    if ns == [] then []
    else
      var n := ns[|ns| - 1];
      Errors(lines, ns[..|ns| - 1]) + Missing(lines, n)
  }

  /** The error reported for a visited line: one when it has neither marker. */
  function Missing(lines: seq<Line>, n: int): seq<Message>
    requires 0 <= n < |lines|
  {
    if HasMarker(lines[n]) then [] else [IgnoreCommentNotFound(n)]
  }

  /** Every error reports a missing marker on a visited line. */
  lemma {:induction false} ErrorsShape(lines: seq<Line>, ns: seq<int>)
    requires forall k :: 0 <= k < |ns| ==> 0 <= ns[k] < |lines|
    ensures forall k :: 0 <= k < |Errors(lines, ns)| ==>
              Errors(lines, ns)[k].IgnoreCommentNotFound? && Errors(lines, ns)[k].line in ns
  {
    if ns != [] {
      var prev := ns[..|ns| - 1];
      ErrorsShape(lines, prev);
      var r := Errors(lines, ns);
      forall k | 0 <= k < |r|
        ensures r[k].IgnoreCommentNotFound? && r[k].line in ns
      {
        if k < |Errors(lines, prev)| {
          assert r[k] == Errors(lines, prev)[k];
          assert r[k].line in prev;
        }
      }
    }
  }

  /** An error names line `n` exactly when `n` was visited and its line has
      neither marker. */
  lemma {:induction false} ErrorsReport(lines: seq<Line>, ns: seq<int>, n: int)
    requires forall k :: 0 <= k < |ns| ==> 0 <= ns[k] < |lines|
    ensures IgnoreCommentNotFound(n) in Errors(lines, ns) <==> n in ns && !HasMarker(lines[n])
  {
    if ns != [] {
      var prev := ns[..|ns| - 1];
      ErrorsReport(lines, prev, n);
      assert ns == prev + [ns[|ns| - 1]];
    }
  }

  /** Visiting the indices in ascending order reports the errors in
      ascending line order. */
  lemma {:induction false} ErrorsAscending(lines: seq<Line>, ns: seq<int>)
    requires forall k :: 0 <= k < |ns| ==> 0 <= ns[k] < |lines|
    requires forall a, b :: 0 <= a < b < |ns| ==> ns[a] < ns[b]
    ensures forall a, b :: 0 <= a < b < |Errors(lines, ns)| ==>
              && Errors(lines, ns)[a].IgnoreCommentNotFound?
              && Errors(lines, ns)[b].IgnoreCommentNotFound?
              && Errors(lines, ns)[a].line < Errors(lines, ns)[b].line
  {
    if ns != [] {
      var n := ns[|ns| - 1];
      var prev := ns[..|ns| - 1];
      var before := Errors(lines, prev);
      ErrorsAscending(lines, prev);
      ErrorsShape(lines, prev);
      var tail := Missing(lines, n);
      var r := Errors(lines, ns);
      assert r == before + tail;
      forall a, b | 0 <= a < b < |r|
        ensures r[a].IgnoreCommentNotFound? && r[b].IgnoreCommentNotFound? && r[a].line < r[b].line
      {
        assert r[a] == before[a];
        assert r[a].line in prev;
        if b >= |before| {
          assert r[b] == IgnoreCommentNotFound(n);
        } else {
          assert r[b] == before[b];
        }
      }
    } else {
      assert Errors(lines, ns) == [];
    }
  }

  /** The errors of the removal pass over one file whose scheduled lines
      are `todo`. */
  ghost function FileErrors(lines: seq<Line>, todo: set<int>): seq<Message>
    requires forall i :: i in todo ==> 0 <= i < |lines|
  {
    AscendingExactly(todo);
    Errors(lines, Ascending(todo))
  }

  /** The errors of the removal pass over the files `ps`, file by file. */
  ghost function RemovalLog(disk: Disk, ds: seq<Diagnostic>, ps: seq<Path>): seq<Message>
    requires forall p :: p in ps ==> p in disk
    decreases |ps|
  {
    if ps == [] then []
    else
      var p := ps[|ps| - 1];
      var orig := disk[p];
      var todo := Scheduled(orig, ds, p);
      RemovalLog(disk, ds, ps[..|ps| - 1]) + FileErrors(AfterAdditions(orig, ds, p), todo)
  }

  /** The whole result of a run over `ds` against `disk`: every existing file
      a diagnostic names is loaded and keeps its line count; first-pass
      warnings come before removal errors. */
  ghost function Run(disk: Disk, ds: seq<Diagnostic>): (o: Outcome)
    ensures o.buffers.Keys == Loaded(disk, ds)
    ensures forall p :: p in o.buffers ==> |o.buffers[p]| == |disk[p]|
    ensures forall p :: p in o.order <==> p in o.buffers
  {
    FirstSeenLoaded(disk, ds);
    var order := FirstSeen(disk, ds);
    Outcome(
      map p | p in Loaded(disk, ds) :: FinalLines(disk[p], ds, p),
      order,
      Warnings(disk, ds) + RemovalLog(disk, ds, order))
  }
}
