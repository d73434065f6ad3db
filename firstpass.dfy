/** The first pass of `add_type_ignore_comments` as a fold over the
    diagnostics: the state it builds (the three dictionaries, the order in
    which files were loaded and the warnings), one step per diagnostic, and
    the proof that after any prefix of the report the state is the one
    `RunSpec` describes in closed form. */
module FirstPass {
  import opened Text
  import opened Marker
  import opened RunSpec

  /** The state of the first pass: `modified_files`, `ignored_lines` and
      `remove_ignore_lines` keyed by path, the paths in the order they were
      loaded, and the warnings written so far. */
  datatype Pass = Pass(
    buffers: map<Path, seq<Line>>,
    ignored: map<Path, set<int>>,
    removals: map<Path, set<int>>,
    order: seq<Path>,
    log: seq<Message>)

  /** The three dictionaries always gain their entries together. */
  predicate Keyed(s: Pass) {
    s.ignored.Keys == s.buffers.Keys && s.removals.Keys == s.buffers.Keys
  }

  /** The empty dictionaries the run starts with. */
  const Start: Pass := Pass(map[], map[], map[], [], [])

  /** Loading a file on its first mention, with empty sets of annotated and
      scheduled lines; a file already loaded is kept as it is. */
  function Load(disk: Disk, s: Pass, p: Path): (r: Pass)
    requires Keyed(s) && p in disk
    ensures Keyed(r) && p in r.buffers
    ensures r.log == s.log
  {
    if p in s.buffers then s
    else Pass(s.buffers[p := disk[p]], s.ignored[p := {}], s.removals[p := {}], s.order + [p], s.log)
  }

  /** What a diagnostic does to its loaded file: an in-range removal is
      scheduled; an in-range addition to a line not yet annotated appends the
      marker unless the line already ends with it; an addition past the end
      is reported; anything else changes nothing. */
  function Visit(s: Pass, d: Diagnostic): (r: Pass)
    requires Keyed(s) && d.file in s.buffers
    ensures Keyed(r)
  {
    var p := d.file;
    var lines := s.buffers[p];
    var n := d.line;
    if IsRemoval(d) then
      if 0 <= n < |lines| then s.(removals := s.removals[p := s.removals[p] + {n}]) else s
    else if 0 <= n < |lines| && n !in s.ignored[p] then
      if !HasTypeIgnore(lines[n]) then
        s.(buffers := s.buffers[p := lines[n := Annotate(lines[n])]], ignored := s.ignored[p := s.ignored[p] + {n}])
      else s
    else if n >= |lines| then s.(log := s.log + [LineOutOfRange(p, n)])
    else s
  }

  /** One iteration of the first pass: a missing file is reported and
      skipped, any other is loaded and visited. */
  function Step(disk: Disk, s: Pass, d: Diagnostic): (r: Pass)
    requires Keyed(s)
    ensures Keyed(r)
  {
    if d.file !in disk then s.(log := s.log + [FileNotFound(d.file)])
    else Visit(Load(disk, s, d.file), d)
  }

  /** The first pass over the diagnostics `ds`, in order. */
  function Collect(disk: Disk, ds: seq<Diagnostic>): (r: Pass)
    ensures Keyed(r)
    decreases |ds|
  {
    if ds == [] then Start
    else Step(disk, Collect(disk, ds[..|ds| - 1]), ds[|ds| - 1])
  }


  /** The buffers the first pass holds for `files` after the diagnostics `ds`. */
  ghost function LinesOf(disk: Disk, ds: seq<Diagnostic>, files: set<Path>): map<Path, seq<Line>>
    requires files <= disk.Keys
  {
    map p | p in files :: AfterAdditions(disk[p], ds, p)
  }

  /** The annotated lines the first pass holds for `files` after `ds`. */
  ghost function AnnotatedOf(disk: Disk, ds: seq<Diagnostic>, files: set<Path>): map<Path, set<int>>
    requires files <= disk.Keys
  {
    map p | p in files :: Annotated(disk[p], ds, p)
  }

  /** The scheduled lines the first pass holds for `files` after `ds`. */
  ghost function ScheduledOf(disk: Disk, ds: seq<Diagnostic>, files: set<Path>): map<Path, set<int>>
    requires files <= disk.Keys
  {
    map p | p in files :: Scheduled(disk[p], ds, p)
  }

  /** The state after the diagnostics `ds` is the one the specification
      derives from `ds`. */
  ghost predicate Describes(disk: Disk, ds: seq<Diagnostic>, s: Pass) {
    var files := Loaded(disk, ds);
    && s.buffers == LinesOf(disk, ds, files)
    && s.ignored == AnnotatedOf(disk, ds, files)
    && s.removals == ScheduledOf(disk, ds, files)
    && s.order == FirstSeen(disk, ds)
    && s.log == Warnings(disk, ds)
  }

  /** The state in the middle of the step for `d`, once the file of `d` is
      loaded: the files and their order already count `d`, the contents and
      the warnings do not yet. */
  ghost predicate Prepared(disk: Disk, ds: seq<Diagnostic>, d: Diagnostic, s: Pass) {
    var files := Loaded(disk, ds + [d]);
    && d.file in disk
    && s.buffers == LinesOf(disk, ds, files)
    && s.ignored == AnnotatedOf(disk, ds, files)
    && s.removals == ScheduledOf(disk, ds, files)
    && s.order == FirstSeen(disk, ds + [d])
    && s.log == Warnings(disk, ds)
  }

  /** The first pass computes what the specification describes, after every
      prefix of the report. */
  lemma {:induction false} CollectDescribes(disk: Disk, ds: seq<Diagnostic>)
    ensures Describes(disk, ds, Collect(disk, ds))
    decreases |ds|
  {
    if ds == [] {
      assert Loaded(disk, ds) == {};
    } else {
      var prev := ds[..|ds| - 1];
      var d := ds[|ds| - 1];
      CollectDescribes(disk, prev);
      StepDescribes(disk, prev, d, Collect(disk, prev));
      assert prev + [d] == ds;
    }
  }

  /** One step keeps the state equal to the specification's. */
  lemma StepDescribes(disk: Disk, ds: seq<Diagnostic>, d: Diagnostic, s: Pass)
    requires Describes(disk, ds, s)
    ensures Describes(disk, ds + [d], Step(disk, s, d))
  {
    if d.file !in disk {
      SkipDescribes(disk, ds, d, s);
    } else {
      LoadPrepares(disk, ds, d, s);
      VisitDescribes(disk, ds, d, Load(disk, s, d.file));
    }
  }

  /** A diagnostic for a missing file only adds a warning. */
  lemma SkipDescribes(disk: Disk, ds: seq<Diagnostic>, d: Diagnostic, s: Pass)
    requires Describes(disk, ds, s)
    requires d.file !in disk
    ensures Describes(disk, ds + [d], s.(log := s.log + [FileNotFound(d.file)]))
  {
    var files := Loaded(disk, ds);
    LoadedStep(disk, ds, d);
    FirstSeenStep(disk, ds, d);
    WarningsStep(disk, ds, d);
    LinesOneMore(disk, ds, d, files);
    AnnotatedOneMore(disk, ds, d, files);
    ScheduledOneMore(disk, ds, d, files);
  }

  /** Loading the file of `d` leads to the middle of the step. */
  lemma LoadPrepares(disk: Disk, ds: seq<Diagnostic>, d: Diagnostic, s: Pass)
    requires Describes(disk, ds, s)
    requires d.file in disk
    ensures Prepared(disk, ds, d, Load(disk, s, d.file))
  {
    LoadedStep(disk, ds, d);
    FirstSeenStep(disk, ds, d);
    FirstSeenLoaded(disk, ds);
    var files := Loaded(disk, ds);
    if d.file !in files {
      LoadOne(disk, ds, d.file, files);
    } else {
      assert files + {d.file} == files;
    }
  }

  /** Visiting the loaded file of `d` completes the step. */
  lemma VisitDescribes(disk: Disk, ds: seq<Diagnostic>, d: Diagnostic, s: Pass)
    requires Prepared(disk, ds, d, s) && d.file in s.buffers
    ensures Describes(disk, ds + [d], Visit(s, d))
  {
    var p, n := d.file, d.line;
    var lines := s.buffers[p];
    if IsRemoval(d) {
      if 0 <= n < |lines| {
        ScheduleDescribes(disk, ds, d, s);
      } else {
        UnchangedDescribes(disk, ds, d, s);
      }
    } else if 0 <= n < |lines| && n !in s.ignored[p] {
      if !HasTypeIgnore(lines[n]) {
        AnnotateDescribes(disk, ds, d, s);
      } else {
        MarkedDescribes(disk, ds, d, s);
      }
    } else if n >= |lines| {
      OutOfRangeDescribes(disk, ds, d, s);
    } else if n < 0 {
      UnchangedDescribes(disk, ds, d, s);
    } else {
      MarkedDescribes(disk, ds, d, s);
    }
  }

  /** An in-range removal request is scheduled. */
  lemma ScheduleDescribes(disk: Disk, ds: seq<Diagnostic>, d: Diagnostic, s: Pass)
    requires Prepared(disk, ds, d, s) && d.file in s.buffers
    requires IsRemoval(d) && 0 <= d.line < |s.buffers[d.file]|
    ensures Describes(disk, ds + [d], s.(removals := s.removals[d.file := s.removals[d.file] + {d.line}]))
  {
    PreparedAt(disk, ds, d, s);
    Advance(disk, ds, d, s, s.(removals := s.removals[d.file := s.removals[d.file] + {d.line}]));
  }

  /** A marker is appended to an in-range line that does not end with one. */
  lemma AnnotateDescribes(disk: Disk, ds: seq<Diagnostic>, d: Diagnostic, s: Pass)
    requires Prepared(disk, ds, d, s) && d.file in s.buffers
    requires !IsRemoval(d) && 0 <= d.line < |s.buffers[d.file]|
    requires !HasTypeIgnore(s.buffers[d.file][d.line])
    ensures Describes(disk, ds + [d],
              s.(buffers := s.buffers[d.file := s.buffers[d.file][d.line := Annotate(s.buffers[d.file][d.line])]],
                 ignored := s.ignored[d.file := s.ignored[d.file] + {d.line}]))
  {
    var p, n := d.file, d.line;
    PreparedAt(disk, ds, d, s);
    AnnotateFile(disk[p], ds, d, p);
    Advance(disk, ds, d, s,
            s.(buffers := s.buffers[p := s.buffers[p][n := Annotate(s.buffers[p][n])]],
               ignored := s.ignored[p := s.ignored[p] + {n}]));
  }

  /** An addition past the end of its file is reported. */
  lemma OutOfRangeDescribes(disk: Disk, ds: seq<Diagnostic>, d: Diagnostic, s: Pass)
    requires Prepared(disk, ds, d, s) && d.file in s.buffers
    requires !IsRemoval(d) && d.line >= |s.buffers[d.file]|
    ensures Describes(disk, ds + [d], s.(log := s.log + [LineOutOfRange(d.file, d.line)]))
  {
    PreparedAt(disk, ds, d, s);
    Advance(disk, ds, d, s, s.(log := s.log + [LineOutOfRange(d.file, d.line)]));
  }

  /** A removal out of range, or an addition at a negative line, changes nothing. */
  lemma UnchangedDescribes(disk: Disk, ds: seq<Diagnostic>, d: Diagnostic, s: Pass)
    requires Prepared(disk, ds, d, s) && d.file in s.buffers
    requires if IsRemoval(d) then !(0 <= d.line < |s.buffers[d.file]|) else d.line < 0
    ensures Describes(disk, ds + [d], s)
  {
    PreparedAt(disk, ds, d, s);
    assert s.log + Warning(disk, d) == s.log;
    Advance(disk, ds, d, s, s);
  }

  /** An addition to an in-range line that already ends with the marker, or
      that this run already annotated, changes nothing. */
  lemma MarkedDescribes(disk: Disk, ds: seq<Diagnostic>, d: Diagnostic, s: Pass)
    requires Prepared(disk, ds, d, s) && d.file in s.buffers
    requires !IsRemoval(d) && 0 <= d.line < |s.buffers[d.file]|
    requires d.line in s.ignored[d.file] || HasTypeIgnore(s.buffers[d.file][d.line])
    ensures Describes(disk, ds + [d], s)
  {
    PreparedAt(disk, ds, d, s);
    MarkedFile(disk[d.file], ds, d, d.file);
    assert s.log + Warning(disk, d) == s.log;
    Advance(disk, ds, d, s, s);
  }

  /** What `Prepared` says about the file of `d`. */
  lemma PreparedAt(disk: Disk, ds: seq<Diagnostic>, d: Diagnostic, s: Pass)
    requires Prepared(disk, ds, d, s) && d.file in s.buffers
    ensures s.buffers[d.file] == AfterAdditions(disk[d.file], ds, d.file)
    ensures s.ignored[d.file] == Annotated(disk[d.file], ds, d.file)
    ensures s.removals[d.file] == Scheduled(disk[d.file], ds, d.file)
  {
  }

  /** `m'` is `m` with the entry of `p` set to `v`. */
  ghost predicate Updates<V>(m: map<Path, V>, m': map<Path, V>, p: Path, v: V) {
    && p in m
    && m'.Keys == m.Keys
    && m'[p] == v
    && forall q :: q in m && q != p ==> m'[q] == m[q]
  }

  /** An entry-wise update is the map update. */
  lemma UpdatesIsUpdate<V>(m: map<Path, V>, m': map<Path, V>, p: Path, v: V)
    requires Updates(m, m', p, v)
    ensures m' == m[p := v]
  {
  }

  /** The step for `d` from the middle state `s` to `t`: the file of `d`
      gets the entries the specification gives it after `d`, the other files
      keep theirs, and the warning of `d`, if any, is written. */
  lemma Advance(disk: Disk, ds: seq<Diagnostic>, d: Diagnostic, s: Pass, t: Pass)
    requires Prepared(disk, ds, d, s)
    requires Updates(s.buffers, t.buffers, d.file, AddStep(disk[d.file], ds, d, d.file))
    requires Updates(s.ignored, t.ignored, d.file, AnnotatedStep(disk[d.file], ds, d, d.file))
    requires Updates(s.removals, t.removals, d.file, ScheduledStep(disk[d.file], ds, d, d.file))
    requires t.order == s.order && t.log == s.log + Warning(disk, d)
    ensures Describes(disk, ds + [d], t)
  {
    var files := Loaded(disk, ds + [d]);
    var p := d.file;
    LinesOneMore(disk, ds, d, files);
    AnnotatedOneMore(disk, ds, d, files);
    ScheduledOneMore(disk, ds, d, files);
    WarningsStep(disk, ds, d);
    UpdatesIsUpdate(s.buffers, t.buffers, p, AddStep(disk[p], ds, d, p));
    UpdatesIsUpdate(s.ignored, t.ignored, p, AnnotatedStep(disk[p], ds, d, p));
    UpdatesIsUpdate(s.removals, t.removals, p, ScheduledStep(disk[p], ds, d, p));
  }

  /** Annotating a line that does not end with the marker. */
  lemma AnnotateFile(orig: seq<Line>, ds: seq<Diagnostic>, d: Diagnostic, p: Path)
    requires AddsTo(orig, d, p)
    requires !HasTypeIgnore(AfterAdditions(orig, ds, p)[d.line])
    ensures AddStep(orig, ds, d, p) ==
            AfterAdditions(orig, ds, p)[d.line := Annotate(AfterAdditions(orig, ds, p)[d.line])]
    ensures AnnotatedStep(orig, ds, d, p) == Annotated(orig, ds, p) + {d.line}
    ensures ScheduledStep(orig, ds, d, p) == Scheduled(orig, ds, p)
  {
    AdditionsMark(orig, ds, p, d.line);
  }

  /** An addition to a line that ends with the marker, or was annotated, is
      idle. */
  lemma MarkedFile(orig: seq<Line>, ds: seq<Diagnostic>, d: Diagnostic, p: Path)
    requires AddsTo(orig, d, p)
    requires d.line in Annotated(orig, ds, p) || HasTypeIgnore(AfterAdditions(orig, ds, p)[d.line])
    ensures AddStep(orig, ds, d, p) == AfterAdditions(orig, ds, p)
    ensures AnnotatedStep(orig, ds, d, p) == Annotated(orig, ds, p)
    ensures ScheduledStep(orig, ds, d, p) == Scheduled(orig, ds, p)
  {
    MarkedLine(orig, ds, p, d.line);
    var lines := AfterAdditions(orig, ds, p);
    assert lines[d.line := AddMarker(lines[d.line])] == lines;
  }

  /** A line that was annotated, or ends with the marker now, ends with it,
      and was annotated unless it ended with the marker on disk. */
  lemma MarkedLine(orig: seq<Line>, ds: seq<Diagnostic>, p: Path, n: int)
    requires 0 <= n < |orig|
    requires n in Annotated(orig, ds, p) || HasTypeIgnore(AfterAdditions(orig, ds, p)[n])
    ensures HasTypeIgnore(AfterAdditions(orig, ds, p)[n])
    ensures n in Annotated(orig, ds, p) || HasTypeIgnore(orig[n])
  {
    AdditionsMark(orig, ds, p, n);
    AnnotatedAt(orig, ds, p, n);
  }

  /** The buffers after one more diagnostic: only the file of `d` changes. */
  lemma LinesOneMore(disk: Disk, ds: seq<Diagnostic>, d: Diagnostic, files: set<Path>)
    requires files <= disk.Keys
    ensures LinesOf(disk, ds + [d], files) ==
            if d.file in files then LinesOf(disk, ds, files)[d.file := AddStep(disk[d.file], ds, d, d.file)]
            else LinesOf(disk, ds, files)
  {
    forall q | q in files
      ensures AfterAdditions(disk[q], ds + [d], q) == AddStep(disk[q], ds, d, q)
    {
      LinesGrow(disk[q], ds, d, q);
    }
  }

  /** The annotated lines after one more diagnostic: only the file of `d` changes. */
  lemma AnnotatedOneMore(disk: Disk, ds: seq<Diagnostic>, d: Diagnostic, files: set<Path>)
    requires files <= disk.Keys
    ensures AnnotatedOf(disk, ds + [d], files) ==
            if d.file in files then AnnotatedOf(disk, ds, files)[d.file := AnnotatedStep(disk[d.file], ds, d, d.file)]
            else AnnotatedOf(disk, ds, files)
  {
    var m := AnnotatedOf(disk, ds + [d], files);
    var m' := AnnotatedOf(disk, ds, files);
    var target := if d.file in files then m'[d.file := AnnotatedStep(disk[d.file], ds, d, d.file)] else m';
    forall q | q in files
      ensures m[q] == target[q]
    {
      AnnotatedGrow(disk[q], ds, d, q);
    }
    assert m == target;
  }

  /** The scheduled lines after one more diagnostic: only the file of `d` changes. */
  lemma ScheduledOneMore(disk: Disk, ds: seq<Diagnostic>, d: Diagnostic, files: set<Path>)
    requires files <= disk.Keys
    ensures ScheduledOf(disk, ds + [d], files) ==
            if d.file in files then ScheduledOf(disk, ds, files)[d.file := ScheduledStep(disk[d.file], ds, d, d.file)]
            else ScheduledOf(disk, ds, files)
  {
    var m := ScheduledOf(disk, ds + [d], files);
    var m' := ScheduledOf(disk, ds, files);
    var target := if d.file in files then m'[d.file := ScheduledStep(disk[d.file], ds, d, d.file)] else m';
    forall q | q in files
      ensures m[q] == target[q]
    {
      ScheduledGrow(disk[q], ds, d, q);
    }
    assert m == target;
  }

  /** Loading a file no diagnostic has named yet adds it as it is on disk,
      with nothing annotated and nothing scheduled. */
  lemma LoadOne(disk: Disk, ds: seq<Diagnostic>, p: Path, files: set<Path>)
    requires files <= disk.Keys && p in disk && p !in Loaded(disk, ds)
    ensures LinesOf(disk, ds, files + {p}) == LinesOf(disk, ds, files)[p := disk[p]]
    ensures AnnotatedOf(disk, ds, files + {p}) == AnnotatedOf(disk, ds, files)[p := {}]
    ensures ScheduledOf(disk, ds, files + {p}) == ScheduledOf(disk, ds, files)[p := {}]
  {
    NotLoadedUntouched(disk, ds, p);
    LoadLines(disk, ds, p, files);
    LoadAnnotated(disk, ds, p, files);
    LoadScheduled(disk, ds, p, files);
  }

  /** Loading a new file adds its lines to the buffers. */
  lemma LoadLines(disk: Disk, ds: seq<Diagnostic>, p: Path, files: set<Path>)
    requires files <= disk.Keys && p in disk && AfterAdditions(disk[p], ds, p) == disk[p]
    ensures LinesOf(disk, ds, files + {p}) == LinesOf(disk, ds, files)[p := disk[p]]
  {
  }

  /** Loading a new file adds an empty set of annotated lines. */
  lemma LoadAnnotated(disk: Disk, ds: seq<Diagnostic>, p: Path, files: set<Path>)
    requires files <= disk.Keys && p in disk && Annotated(disk[p], ds, p) == {}
    ensures AnnotatedOf(disk, ds, files + {p}) == AnnotatedOf(disk, ds, files)[p := {}]
  {
  }

  /** Loading a new file adds an empty set of scheduled lines. */
  lemma LoadScheduled(disk: Disk, ds: seq<Diagnostic>, p: Path, files: set<Path>)
    requires files <= disk.Keys && p in disk && Scheduled(disk[p], ds, p) == {}
    ensures ScheduledOf(disk, ds, files + {p}) == ScheduledOf(disk, ds, files)[p := {}]
  {
  }

  /** A file no diagnostic has loaded yet is untouched by the first pass. */
  lemma NotLoadedUntouched(disk: Disk, ds: seq<Diagnostic>, p: Path)
    requires p in disk && p !in Loaded(disk, ds)
    ensures AfterAdditions(disk[p], ds, p) == disk[p]
    ensures Annotated(disk[p], ds, p) == {} && Scheduled(disk[p], ds, p) == {}
  {
    LoadedNamed(disk, ds);
    Unnamed(disk[p], ds, p);
  }

  /** One more diagnostic adds its file to the loaded ones if it exists. */
  lemma LoadedStep(disk: Disk, ds: seq<Diagnostic>, d: Diagnostic)
    ensures Loaded(disk, ds + [d]) == Loaded(disk, ds) + (if d.file in disk then {d.file} else {})
  {
    assert (ds + [d])[..|ds|] == ds;
  }

  /** One more diagnostic appends its file to the order on its first mention. */
  lemma FirstSeenStep(disk: Disk, ds: seq<Diagnostic>, d: Diagnostic)
    ensures FirstSeen(disk, ds + [d]) ==
            if d.file in disk && d.file !in FirstSeen(disk, ds) then FirstSeen(disk, ds) + [d.file]
            else FirstSeen(disk, ds)
  {
    assert (ds + [d])[..|ds|] == ds;
  }

  /** One more diagnostic appends its own warning, if any. */
  lemma WarningsStep(disk: Disk, ds: seq<Diagnostic>, d: Diagnostic)
    ensures Warnings(disk, ds + [d]) == Warnings(disk, ds) + Warning(disk, d)
  {
    assert (ds + [d])[..|ds|] == ds;
  }

  /** `d` asks for a marker on an existing line of `p`. */
  predicate AddsTo(orig: seq<Line>, d: Diagnostic, p: Path) {
    d.file == p && !IsRemoval(d) && 0 <= d.line < |orig|
  }

  /** The lines of `p` after one more diagnostic `d`. */
  function AddStep(orig: seq<Line>, ds: seq<Diagnostic>, d: Diagnostic, p: Path): seq<Line> {
    var lines := AfterAdditions(orig, ds, p);
    if AddsTo(orig, d, p) then lines[d.line := AddMarker(lines[d.line])] else lines
  }

  /** The annotated lines of `p` after one more diagnostic `d`. */
  function AnnotatedStep(orig: seq<Line>, ds: seq<Diagnostic>, d: Diagnostic, p: Path): set<int> {
    var annotated := Annotated(orig, ds, p);
    if AddsTo(orig, d, p) && !HasTypeIgnore(orig[d.line]) then annotated + {d.line} else annotated
  }

  /** The scheduled lines of `p` after one more diagnostic `d`. */
  function ScheduledStep(orig: seq<Line>, ds: seq<Diagnostic>, d: Diagnostic, p: Path): set<int> {
    var scheduled := Scheduled(orig, ds, p);
    if d.file == p && IsRemoval(d) && 0 <= d.line < |orig| then scheduled + {d.line} else scheduled
  }

  /** The lines of one file after one more diagnostic. */
  lemma LinesGrow(orig: seq<Line>, ds: seq<Diagnostic>, d: Diagnostic, p: Path)
    ensures AfterAdditions(orig, ds + [d], p) == AddStep(orig, ds, d, p)
  {
    assert (ds + [d])[..|ds|] == ds;
  }

  /** The annotated lines of one file after one more diagnostic. */
  lemma AnnotatedGrow(orig: seq<Line>, ds: seq<Diagnostic>, d: Diagnostic, p: Path)
    ensures Annotated(orig, ds + [d], p) == AnnotatedStep(orig, ds, d, p)
  {
    assert (ds + [d])[..|ds|] == ds;
  }

  /** The scheduled lines of one file after one more diagnostic. */
  lemma ScheduledGrow(orig: seq<Line>, ds: seq<Diagnostic>, d: Diagnostic, p: Path)
    ensures Scheduled(orig, ds + [d], p) == ScheduledStep(orig, ds, d, p)
  {
    assert (ds + [d])[..|ds|] == ds;
  }
}
