/** The engine of `add_type_ignore_comments` as the program runs it: a first
    pass over the diagnostics that loads files on demand and appends markers
    to the buffered lines, then a second pass that strips the markers the
    checker reported as unnecessary. The state of the run is one object whose
    maps are updated in place; each first-pass step is proved to be the step
    of `FirstPass`, each second-pass step to keep the buffers equal to the
    closed form of `RunSpec`. */
module Engine {
  import opened Text
  import opened Marker
  import opened RunSpec
  import opened FirstPass

  /** The mutable state of one run: the loaded files' buffers
      (`modified_files`), the lines the first pass annotated (`ignored_lines`),
      the lines scheduled for removal (`remove_ignore_lines`), the order in
      which the files were loaded (the insertion order of the dictionary) and
      what was written to standard error so far. */
  class RunPlan {
    const disk: Disk
    var buffers: map<Path, seq<Line>>
    var ignored: map<Path, set<int>>
    var removals: map<Path, set<int>>
    var order: seq<Path>
    var log: seq<Message>

    /** The fields as one value. */
    function State(): Pass
      reads this
    {
      Pass(buffers, ignored, removals, order, log)
    }

    /** The three empty dictionaries at the start of a run. */
    constructor (disk: Disk)
      ensures this.disk == disk && State() == Start
    {
      this.disk := disk;
      buffers := map[];
      ignored := map[];
      removals := map[];
      order := [];
      log := [];
    }

    /** One iteration of the first pass: skip a missing file with a warning,
        load a file on its first mention, schedule an in-range removal, append
        the marker to an in-range line that does not end with it yet, and warn
        about an addition past the end of the file. */
    method Record(d: Diagnostic)
      requires Keyed(State())
      modifies this
      ensures State() == Step(disk, old(State()), d)
    {
      var p := d.file;
      if p !in disk {
        log := log + [FileNotFound(p)];
      } else {
        if p !in buffers {
          buffers := buffers[p := disk[p]];
          ignored := ignored[p := {}];
          removals := removals[p := {}];
          order := order + [p];
        }
        assert State() == Load(disk, old(State()), p);
        var lines := buffers[p];
        var n := d.line;
        if d.rule == UnnecessaryIgnoreRule {
          if 0 <= n < |lines| {
            removals := removals[p := removals[p] + {n}];
          }
        } else if 0 <= n < |lines| && n !in ignored[p] {
          if !HasTypeIgnore(lines[n]) {
            buffers := buffers[p := lines[n := Annotate(lines[n])]];
            ignored := ignored[p := ignored[p] + {n}];
          }
        } else if n >= |lines| {
          log := log + [LineOutOfRange(p, n)];
        }
      }
    }

    /** The second pass over one file: the scheduled lines are visited in
        ascending order; a line that ends with a marker is cut before the
        marker's first occurrence, any other is reported. */
    method RemoveMarkers(p: Path)
      requires p in buffers && p in removals
      requires forall i :: i in removals[p] ==> 0 <= i < |buffers[p]|
      modifies this
      ensures ignored == old(ignored) && removals == old(removals) && order == old(order)
      ensures buffers == old(buffers)[p := AfterRemovals(old(buffers)[p], removals[p])]
      ensures log == old(log) + FileErrors(old(buffers)[p], removals[p])
    {
      var orig := buffers[p];
      var ns := SortedLines(removals[p]);
      VisitOrder(orig, removals[p]);
      var lines, errs := CleanFile(orig, ns);
      buffers := buffers[p := lines];
      log := log + errs;
    }

    /** The second pass: every loaded file, in the order it was loaded, has
        its scheduled markers removed. */
    method ApplyRemovals(ghost ds: seq<Diagnostic>)
      requires Describes(disk, ds, State())
      modifies this
      ensures order == old(order) && ignored == old(ignored) && removals == old(removals)
      ensures buffers == FinalOf(disk, ds, Loaded(disk, ds))
      ensures log == old(log) + RemovalLog(disk, ds, order)
    {
      ghost var files := Loaded(disk, ds);
      ghost var base := LinesOf(disk, ds, files);
      FinishStart(disk, ds);
      for k := 0 to |order|
        invariant order == old(order) && ignored == old(ignored) && removals == old(removals)
        invariant buffers == Finished(disk, ds, base, order[..k])
        invariant log == old(log) + RemovalLog(disk, ds, order[..k])
      {
        var p := order[k];
        FinishNext(disk, ds, order, k);
        LogNext(disk, ds, order, k);
        LogGrows(old(log), RemovalLog(disk, ds, order[..k]),
                 FileErrors(AfterAdditions(disk[p], ds, p), Scheduled(disk[p], ds, p)));
        RemoveMarkers(p);
      }
      FinishAll(disk, ds);
    }
  }

  /** The buffers the run ends with: every loaded file holds its final
      lines. */
  ghost function FinalOf(disk: Disk, ds: seq<Diagnostic>, files: set<Path>): map<Path, seq<Line>>
    requires files <= disk.Keys
  {
    map p | p in files :: FinalLines(disk[p], ds, p)
  }

  /** The buffers once the second pass has handled the files `ps` in turn,
      starting from the buffers `base` of the first pass. */
  ghost function Finished(disk: Disk, ds: seq<Diagnostic>, base: map<Path, seq<Line>>, ps: seq<Path>)
    : map<Path, seq<Line>>
    requires forall q :: q in ps ==> q in disk
  {
    if ps == [] then base
    else
      var p := ps[|ps| - 1];
      Finished(disk, ds, base, ps[..|ps| - 1])[p := FinalLines(disk[p], ds, p)]
  }

  /** A handled file holds its final lines, any other its lines from `base`. */
  lemma {:induction false} FinishedAt(disk: Disk, ds: seq<Diagnostic>, base: map<Path, seq<Line>>,
                                      ps: seq<Path>, q: Path)
    requires forall q :: q in ps ==> q in disk
    ensures q in Finished(disk, ds, base, ps) <==> q in base || q in ps
    ensures q in ps ==> Finished(disk, ds, base, ps)[q] == FinalLines(disk[q], ds, q)
    ensures q !in ps && q in base ==> Finished(disk, ds, base, ps)[q] == base[q]
  {
    if ps != [] {
      var prev := ps[..|ps| - 1];
      FinishedAt(disk, ds, base, prev, q);
      assert ps == prev + [ps[|ps| - 1]];
    }
  }

  /** At the start of the second pass the order lists the loaded files. */
  lemma FinishStart(disk: Disk, ds: seq<Diagnostic>)
    ensures forall q :: q in FirstSeen(disk, ds) <==> q in Loaded(disk, ds)
    ensures Finished(disk, ds, LinesOf(disk, ds, Loaded(disk, ds)), FirstSeen(disk, ds)[..0])
            == LinesOf(disk, ds, Loaded(disk, ds))
    ensures RemovalLog(disk, ds, FirstSeen(disk, ds)[..0]) == []
  {
    FirstSeenLoaded(disk, ds);
    assert FirstSeen(disk, ds)[..0] == [];
  }

  /** Handling the `k`-th file of the order: it still holds its lines from
      the first pass, with its scheduled lines in range, and it ends with its
      final lines. */
  lemma FinishNext(disk: Disk, ds: seq<Diagnostic>, order: seq<Path>, k: int)
    requires order == FirstSeen(disk, ds)
    requires 0 <= k < |order|
    ensures forall q :: q in order[..k] ==> q in disk
    ensures var p, base := order[k], LinesOf(disk, ds, Loaded(disk, ds));
            && p in Finished(disk, ds, base, order[..k])
            && p in ScheduledOf(disk, ds, Loaded(disk, ds))
            && Finished(disk, ds, base, order[..k])[p] == AfterAdditions(disk[p], ds, p)
            && ScheduledOf(disk, ds, Loaded(disk, ds))[p] == Scheduled(disk[p], ds, p)
            && Finished(disk, ds, base, order[..k + 1])
               == Finished(disk, ds, base, order[..k])[p := FinalLines(disk[p], ds, p)]
  {
    var p := order[k];
    var prev := order[..k];
    FirstSeenLoaded(disk, ds);
    assert order[..k + 1][..k] == prev;
    assert p !in prev by {
      forall j | 0 <= j < k ensures prev[j] != p {
        assert prev[j] == order[j];
      }
    }
    FinishedAt(disk, ds, LinesOf(disk, ds, Loaded(disk, ds)), prev, p);
  }

  /** Handling the `k`-th file of the order adds its errors to the log. */
  lemma LogNext(disk: Disk, ds: seq<Diagnostic>, order: seq<Path>, k: int)
    requires order == FirstSeen(disk, ds)
    requires 0 <= k < |order|
    ensures forall q :: q in order[..k + 1] ==> q in disk
    ensures var p := order[k];
            RemovalLog(disk, ds, order[..k + 1])
            == RemovalLog(disk, ds, order[..k]) + FileErrors(AfterAdditions(disk[p], ds, p), Scheduled(disk[p], ds, p))
  {
    assert order[..k + 1][..k] == order[..k];
  }

  /** Once every file of the order is handled, every loaded file holds its
      final lines. */
  lemma FinishAll(disk: Disk, ds: seq<Diagnostic>)
    ensures var order := FirstSeen(disk, ds);
            && order[..|order|] == order
            && Finished(disk, ds, LinesOf(disk, ds, Loaded(disk, ds)), order) == FinalOf(disk, ds, Loaded(disk, ds))
  {
    var order := FirstSeen(disk, ds);
    var files := Loaded(disk, ds);
    var base := LinesOf(disk, ds, files);
    FirstSeenLoaded(disk, ds);
    assert order[..|order|] == order;
    var m := Finished(disk, ds, base, order);
    forall q
      ensures q in m <==> q in files
      ensures q in m ==> m[q] == FinalLines(disk[q], ds, q)
    {
      FinishedAt(disk, ds, base, order, q);
    }
    assert m == FinalOf(disk, ds, files);
  }

  /** Appending to the log one part after another. */
  lemma LogGrows(log: seq<Message>, more: seq<Message>, last: seq<Message>)
    ensures (log + more) + last == log + (more + last)
  {
  }

  /** The scheduled lines in ascending order, the order the model fixes
      for the iteration over the set: the least remaining line first. */
  method SortedLines(todo: set<int>) returns (ns: seq<int>)
    ensures ns == Ascending(todo)
  {
    ns := [];
    var left := todo;
    while left != {}
      invariant Ascending(todo) == ns + Ascending(left)
      decreases left
    {
      LeastExists(left);
      var n :| n in left && forall x :: x in left ==> n <= x;
      AscendingVisit(todo, left, ns, n);
      ns := ns + [n];
      left := left - {n};
    }
  }

  /** The loop of the second pass over one file: the lines `ns`, in that
      order, are cut before their marker, or, with no marker, reported and
      kept. The file's lines are updated in place; the reports are returned
      in the order they are written. */
  method CleanFile(orig: seq<Line>, ns: seq<int>) returns (lines: seq<Line>, errs: seq<Message>)
    requires forall j :: 0 <= j < |ns| ==> 0 <= ns[j] < |orig|
    requires forall a, b :: 0 <= a < b < |ns| ==> ns[a] < ns[b]
    ensures lines == Cleaned(orig, ns)
    ensures errs == Errors(orig, ns)
  {
    lines := orig;
    errs := [];
    for k := 0 to |ns|
      invariant lines == Cleaned(orig, ns[..k])
      invariant errs == Errors(orig, ns[..k])
    {
      var n := ns[k];
      VisitNext(orig, ns, k);
      match RemoveMarker(lines[n]) {
        case Removed(kept) =>
          lines := lines[n := kept];
        case MarkerNotFound =>
          errs := errs + [IgnoreCommentNotFound(n)];
      }
    }
    assert ns[..|ns|] == ns;
  }

  /** The order of visits lists the scheduled lines, each once, in ascending
      order. */
  lemma VisitOrder(orig: seq<Line>, todo: set<int>)
    requires forall i :: i in todo ==> 0 <= i < |orig|
    ensures forall k :: 0 <= k < |Ascending(todo)| ==> 0 <= Ascending(todo)[k] < |orig|
    ensures forall a, b :: 0 <= a < b < |Ascending(todo)| ==> Ascending(todo)[a] < Ascending(todo)[b]
    ensures FileErrors(orig, todo) == Errors(orig, Ascending(todo))
    ensures AfterRemovals(orig, todo) == Cleaned(orig, Ascending(todo))
  {
    AscendingExactly(todo);
    AscendingSorted(todo);
  }

  /** The visit order so far, followed by the ascending order of what is
      left, stays the ascending order of the scheduled lines. */
  lemma AscendingVisit(todo: set<int>, left: set<int>, visited: seq<int>, n: int)
    requires Ascending(todo) == visited + Ascending(left)
    requires n in left && forall x :: x in left ==> n <= x
    ensures Ascending(todo) == (visited + [n]) + Ascending(left - {n})
  {
    AscendingStep(left, n);
    assert visited + ([n] + Ascending(left - {n})) == (visited + [n]) + Ascending(left - {n});
  }

  /** Visiting the `k`-th line of a strictly ascending order: it has not been
      visited yet, so the buffer still holds it as loaded; it is cleaned, and
      reported when it has no marker. */
  lemma VisitNext(orig: seq<Line>, ns: seq<int>, k: int)
    requires forall j :: 0 <= j < |ns| ==> 0 <= ns[j] < |orig|
    requires forall a, b :: 0 <= a < b < |ns| ==> ns[a] < ns[b]
    requires 0 <= k < |ns|
    ensures Cleaned(orig, ns[..k])[ns[k]] == orig[ns[k]]
    ensures Cleaned(orig, ns[..k + 1]) == Cleaned(orig, ns[..k])[ns[k] := AfterRemoval(orig[ns[k]])]
    ensures Errors(orig, ns[..k + 1]) == Errors(orig, ns[..k]) + Missing(orig, ns[k])
  {
    Unvisited(ns, k, |orig|);
    CleanedAt(orig, ns[..k], ns[k]);
    VisitUnfold(orig, ns, k);
  }

  /** One more visit is one more step of `Cleaned` and of `Errors`. */
  lemma VisitUnfold(orig: seq<Line>, ns: seq<int>, k: int)
    requires forall j :: 0 <= j < |ns| ==> 0 <= ns[j] < |orig|
    requires 0 <= k < |ns|
    ensures Cleaned(orig, ns[..k + 1]) == Cleaned(orig, ns[..k])[ns[k] := AfterRemoval(orig[ns[k]])]
    ensures Errors(orig, ns[..k + 1]) == Errors(orig, ns[..k]) + Missing(orig, ns[k])
  {
    assert ns[..k + 1][..k] == ns[..k];
  }

  /** In a strictly ascending order of indices below `bound`, the `k`-th
      index is not among those before it, and those before it are distinct
      indices below `bound`. */
  lemma Unvisited(ns: seq<int>, k: int, bound: int)
    requires forall j :: 0 <= j < |ns| ==> 0 <= ns[j] < bound
    requires forall a, b :: 0 <= a < b < |ns| ==> ns[a] < ns[b]
    requires 0 <= k < |ns|
    ensures ns[k] !in ns[..k]
    ensures forall j :: 0 <= j < |ns[..k]| ==> 0 <= ns[..k][j] < bound
    ensures forall a, b :: 0 <= a < b < |ns[..k]| ==> ns[..k][a] != ns[..k][b]
  {
    forall j | 0 <= j < k ensures ns[..k][j] != ns[k] {
      assert ns[..k][j] == ns[j];
    }
  }

  /** A run of the whole engine over the report `diags`: its outcome is the
      one the specification describes. */
  method AddTypeIgnoreComments(disk: Disk, diags: seq<Diagnostic>) returns (o: Outcome)
    ensures o == Run(disk, diags)
  {
    var plan := new RunPlan(disk);
    for k := 0 to |diags|
      invariant plan.disk == disk && plan.State() == Collect(disk, diags[..k])
    {
      assert diags[..k + 1][..k] == diags[..k];
      plan.Record(diags[k]);
    }
    assert diags[..|diags|] == diags;
    CollectDescribes(disk, diags);
    plan.ApplyRemovals(diags);
    o := Outcome(plan.buffers, plan.order, plan.log);
  }
}
