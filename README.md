# pyright-ignore: a verified model of `add_type_ignore_comments`

The tool reads a Pyright JSON report. For every
`reportUnnecessaryTypeIgnoreComment` diagnostic it schedules the marker on
that line for removal. For every other diagnostic it appends a
`# type: ignore` marker to the line, unless the line is out of range or
already ends with the marker. This project models the engine behind that,
the function `add_type_ignore_comments`, and proves what one run does to
every line of every file.

The model is layered the way the function works:

- `text.dfy` (module `Text`): the string operations the engine uses, on
  `seq<char>`. These are `strip`, `rstrip`, `lstrip`, `endswith` and
  `split(sep)[0]`. `rstrip`, `lstrip` and `split(sep)[0]` each have a lemma
  that characterises them; `strip` is the composition of `lstrip` and
  `rstrip`.
- `marker.dfy` (module `Marker`): the edits to a single line. An addition
  appends the marker (`Annotate`, `AddMarker`). A removal cuts a line before
  its first `# type: ignore`, or else before its first `# pyright: ignore`
  (`RemoveMarker`). The lemmas relate the two.
- `run.dfy` (module `RunSpec`): diagnostics, messages and the result of a
  run in closed form (`Run`). For every line it states which diagnostics
  decide its final text, whatever order the report lists them in.
- `firstpass.dfy` (module `FirstPass`): the first loop (the diagnostics
  loop) as a fold over the report. It builds the three dictionaries, the
  load order of the files and the warnings. A proof shows that after every
  prefix of the report this state equals the closed form.
- `engine.dfy` (module `Engine`): the engine as the program runs it. Class
  `RunPlan` holds the dictionaries as fields that its methods update in
  place:
  - `Record` is one iteration of the first loop.
  - `RemoveMarkers` and `ApplyRemovals` are the second loop.
  - `SortedLines` and `CleanFile` are the loops inside it.
  - `AddTypeIgnoreComments` runs both loops and is proved to return `Run`.
- `properties.dfy` (module `Properties`): what a run guarantees, stated on
  `Run`. This covers:
  - the final text of each line;
  - independence from the order and repetition of the diagnostics;
  - the errors of the removal pass;
  - idempotence of an addition run;
  - the round trip of an addition run followed by a removal run over the
    written files.

The file system is a parameter: `Disk` maps each existing path to the lines
`readlines` returns for it. Standard error is modelled as a log of
`Message`s: `FileNotFound`, `LineOutOfRange` and `IgnoreCommentNotFound`.

What one run does, as the code at pyright-ignore.py:8-59 is written:

- A line that one run both annotates and de-annotates loses the new
  marker, because the removal loop runs after all additions, on the current
  text (pyright-ignore.py:44-50; `Properties.SameRunAddThenRemove`).
- An out-of-range removal request is dropped without a message
  (pyright-ignore.py:29). Only an addition past the end of a file is
  reported (pyright-ignore.py:38-42; `RunSpec.WarningsReport`).
- `rule` is required: pyright-ignore.py:28 indexes `diagnostic["rule"]`. In
  the model, `rule` is a field of every `Diagnostic`.
- Additions happen in report order, and additions to distinct lines
  commute, so the final files depend only on which diagnostics the report
  holds (`Properties.SameDiagnosticsSameFiles`).
- Removal cuts a line at the first occurrence of the marker text
  (pyright-ignore.py:49). Code that itself quotes the marker therefore
  loses its tail: `s = "# type: ignore"`, annotated and then de-annotated,
  comes back as `s = "` (`Marker.RoundTripCutsQuotedMarker`). For code free
  of the marker text, the round trip gives the code back
  (`Marker.RoundTrip`).

## Model

| member | source | states |
|---|---|---|
| Text.RStripSpec | pyright-ignore.py:36 | `rstrip` keeps a prefix that is empty or ends in a non-space character, and everything it drops is whitespace |
| Text.LStripSpec | pyright-ignore.py:35 | `lstrip` keeps a suffix that is empty or starts with a non-space character, and everything it drops is whitespace |
| Text.StripTrimmed | pyright-ignore.py:35 | the stripped line is empty or neither starts nor ends with whitespace |
| Text.BeforeFirstSpec | pyright-ignore.py:49 | `split(sep)[0]` is the prefix of the line up to the first occurrence of `sep`, with no occurrence before it, and it is the whole line exactly when `sep` does not occur |
| Text.BeforeFirstFree | pyright-ignore.py:49 | the text before the first occurrence of `sep` contains no `sep` |
| Text.RStripIdempotent | pyright-ignore.py:36 | `rstrip` is idempotent |
| Text.LStripKeepsSuffix | pyright-ignore.py:35 | a suffix starting with a non-space character survives `lstrip`, in both directions |
| Text.StripEndsWith | pyright-ignore.py:35 | for a marker starting with a non-space character, `strip().endswith` is the same test as `rstrip().endswith` |
| Marker.Annotate | pyright-ignore.py:36 | the annotated line ends with the marker, keeps the right-stripped code followed by two spaces and the marker, and ends with a newline |
| Marker.AddMarker | pyright-ignore.py:35-37 | after an addition the line ends with the marker, and a line that already did is kept as it is, so an addition is idempotent |
| Marker.RemoveMarker | pyright-ignore.py:47-59 | no marker is found exactly when the line ends with neither marker; a cleaned line ends with a newline |
| Marker.RemovalCutsBeforeMarker | pyright-ignore.py:47-54 | a cleaned line is the original cut just before the first occurrence of the matched marker, without the whitespace in front of the cut, plus a newline |
| Marker.FirstMarkerIsAppended | pyright-ignore.py:36 | in an annotated line whose code is free of the marker text, the first occurrence of the marker is the appended one |
| Marker.RoundTrip | pyright-ignore.py:35-50 | removing the marker an addition appended gives back the code without trailing whitespace, plus a newline, when the line did not contain the marker text |
| Marker.RemovalClearsTypeIgnore | pyright-ignore.py:47-50 | after the long-form marker is removed, the line contains no occurrence of the marker text |
| Marker.RemoveCutsAt | pyright-ignore.py:47-50 | removal of the long-form marker cuts at its first occurrence |
| Marker.RoundTripCutsQuotedMarker | pyright-ignore.py:47-50 | code that quotes the marker text loses its tail on removal: the annotated line `s = "# type: ignore"` is cleaned to `s = "` |
| RunSpec.Loaded | pyright-ignore.py:14-23 | the loaded files are existing files |
| RunSpec.LoadedNamed | pyright-ignore.py:14-23 | a file is loaded exactly when it exists and some diagnostic names it |
| RunSpec.FirstSeen | pyright-ignore.py:19-23 | the output order lists no file twice, and only existing files |
| RunSpec.FirstSeenLoaded | pyright-ignore.py:19-23 | the output order holds exactly the loaded files |
| RunSpec.Warnings | pyright-ignore.py:13-42 | the first loop writes at most one warning per diagnostic |
| RunSpec.WarningsReport | pyright-ignore.py:15-42 | a missing file is reported exactly when a diagnostic names it; an addition past the end of an existing file is reported exactly when requested; the first loop never reports a missing marker |
| RunSpec.AfterAdditions | pyright-ignore.py:31-37 | the additions keep the number of lines |
| RunSpec.AdditionsMark | pyright-ignore.py:31-37 | after the first loop, a line some addition targets is the line on disk with the marker added once; every other line is unchanged |
| RunSpec.MarkOnce | pyright-ignore.py:33-37 | a second addition to a line that already has the marker leaves it as it is |
| RunSpec.AnnotatedExactly | pyright-ignore.py:31-37 | `ignored_lines` holds exactly the in-range lines some addition targets that did not end with the marker on disk |
| RunSpec.Scheduled | pyright-ignore.py:28-30 | `remove_ignore_lines` holds only in-range indices |
| RunSpec.ScheduledExactly | pyright-ignore.py:28-30 | `remove_ignore_lines` holds exactly the in-range lines some removal request targets |
| RunSpec.Unnamed | pyright-ignore.py:13-42 | a file no diagnostic names is neither changed, annotated nor scheduled |
| RunSpec.Cleaned | pyright-ignore.py:46-54 | visiting lines keeps the number of lines |
| RunSpec.CleanedAt | pyright-ignore.py:46-54 | visiting distinct indices cleans exactly the visited lines |
| RunSpec.AfterRemovals | pyright-ignore.py:45-54 | the removal loop keeps the number of lines |
| RunSpec.AfterRemovalsAt | pyright-ignore.py:45-54 | a scheduled line is cleaned; every other line is kept |
| RunSpec.FinalLines | pyright-ignore.py:13-54 | a file keeps its number of lines through the run |
| RunSpec.AscendingExactly | pyright-ignore.py:46 | the removal loop visits exactly the scheduled lines |
| RunSpec.AscendingSorted | pyright-ignore.py:46 | the removal loop visits the scheduled lines in strictly ascending order, so none is visited twice |
| RunSpec.Errors | pyright-ignore.py:55-59 | the removal loop reports at most one error per visited line |
| RunSpec.ErrorsShape | pyright-ignore.py:55-59 | every error of the removal loop reports a missing marker on a visited line |
| RunSpec.ErrorsReport | pyright-ignore.py:55-59 | an error names a line exactly when the line was visited and ends with neither marker |
| RunSpec.ErrorsAscending | pyright-ignore.py:55-59 | the errors of a file come in ascending line order |
| RunSpec.Run | pyright-ignore.py:8-59 | a run loads exactly the named existing files, keeps their number of lines, and outputs each loaded file once |
| FirstPass.Load | pyright-ignore.py:19-23 | loading keeps the three dictionaries keyed alike, makes the file present and writes nothing |
| FirstPass.Visit | pyright-ignore.py:25-42 | a visit keeps the three dictionaries keyed alike |
| FirstPass.Step | pyright-ignore.py:13-42 | an iteration keeps the three dictionaries keyed alike |
| FirstPass.Collect | pyright-ignore.py:9-42 | the dictionaries stay keyed alike through the first loop |
| FirstPass.CollectDescribes | pyright-ignore.py:9-42 | after any prefix of the report, the first loop's state is the closed form |
| Engine.RunPlan.constructor | pyright-ignore.py:9-11 | a run starts with empty dictionaries, no files and an empty log |
| Engine.RunPlan.Record | pyright-ignore.py:13-42 | one iteration of the first loop, updating the fields in place, performs exactly the step of the first pass |
| Engine.RunPlan.RemoveMarkers | pyright-ignore.py:46-59 | the removal loop over one file replaces its buffer with the cleaned lines, appends that file's errors, and changes nothing else |
| Engine.RunPlan.ApplyRemovals | pyright-ignore.py:45-59 | the removal loop over all files, in load order, ends with every loaded file holding its final lines, and appends the errors of every file in that order |
| Engine.FinishNext | pyright-ignore.py:45-54 | the next file in load order is loaded and not yet cleaned, and its removal loop leaves it with its final lines |
| Engine.SortedLines | pyright-ignore.py:46 | the scheduled indices of a file are visited in ascending order |
| Engine.CleanFile | pyright-ignore.py:46-59 | visiting distinct ascending indices in place cleans exactly the visited lines and reports exactly the visited lines with neither marker |
| Engine.VisitOrder | pyright-ignore.py:46 | the visit order lists in-range indices in strictly ascending order |
| Engine.AddTypeIgnoreComments | pyright-ignore.py:8-59 | a whole run returns exactly the outcome of the closed form: buffers, order and log |
| Properties.FinalLine | pyright-ignore.py:13-59 | the final text of every line of a loaded file: an addition request adds the marker once, and then a removal request cleans the line |
| Properties.UntargetedLineKept | pyright-ignore.py:13-59 | a line no diagnostic names keeps its text |
| Properties.AddedLineMarked | pyright-ignore.py:31-37 | a line an addition targets and no removal does ends with the marker |
| Properties.SameRunAddThenRemove | pyright-ignore.py:44-54 | a line targeted by both an addition and a removal in one run, and free of the marker text, ends as its code without trailing whitespace |
| Properties.SameDiagnosticsSameFiles | pyright-ignore.py:13-59 | reordering or repeating diagnostics does not change the final buffers |
| Properties.SameRequestsSameFile | pyright-ignore.py:13-59 | two reports requesting the same additions and removals for every line of a file leave it with the same lines |
| Properties.OutOfRangeChangesNothing | pyright-ignore.py:28-42 | a diagnostic whose line lies outside its already-loaded file changes no buffer |
| Properties.SampleRoundTrip | pyright-ignore.py:35-50 | `x = 1` is annotated to `x = 1  # type: ignore`, and removing that marker gives `x = 1` back |
| Properties.RepeatedDiagnostic | pyright-ignore.py:13-59 | a repeated diagnostic changes neither the buffers nor the output order |
| Properties.MissingFileWarned | pyright-ignore.py:14-17 | a diagnostic for a missing file loads nothing and is reported |
| Properties.OutOfRangeWarned | pyright-ignore.py:38-42 | an addition past the end of an existing file is reported |
| Properties.MissingMarkerReported | pyright-ignore.py:55-59 | a missing marker at line `n` is reported exactly when some loaded file has a removal request at `n`, no addition request there, and that line on disk carries neither marker |
| Properties.FileMissing | pyright-ignore.py:46-59 | the errors of one file name line `n` exactly when it misses its marker there |
| Properties.AdditionsIdempotent | pyright-ignore.py:13-64 | running an addition-only report again over the written files gives the same buffers, order and warnings |
| Properties.RewrittenBuffers | pyright-ignore.py:31-37 | the second addition run leaves every buffer as the first one wrote it |
| Properties.SameShape | pyright-ignore.py:61-64 | writing the buffers keeps the files and their line counts, so the next run loads, orders and warns alike |
| Properties.KeysAndLengths | pyright-ignore.py:14-42 | file systems with the same files and line counts load, order and warn alike |
| Properties.NoRemovalErrors | pyright-ignore.py:45-59 | without removal requests the removal loop reports nothing |
| Properties.RoundTripAcrossRuns | pyright-ignore.py:13-64 | an addition run written to disk, then a run removing exactly those markers, gives back each targeted line as its code without trailing whitespace, when the line was free of the marker text; other lines are unchanged |

## Left out

- Output (pyright-ignore.py lines 61-81): the in-place write, the unified diff and the printed listing are not modelled. `Properties.Written` states the in-place write as an update of the `Disk` map.
- `main`: argument parsing, reading the JSON report and its parse errors are not part of this model. The report arrives already decoded as a sequence of `Diagnostic`s.
- Access to `range.start.line`: a report lacking any of `generalDiagnostics`, `file`, `range`, `start`, `line` or `rule`, or with a non-integer line, raises an exception in the source. The model takes well-formed diagnostics.
- File I/O: `Path.exists` and `readlines` become the `Disk` map. A path that exists but cannot be read raises an exception in the source. The model has no such path.
- Path normalisation: `Path` objects are compared after `pathlib` normalisation. The model compares paths as written.
- Text.IsSpace: covers the ASCII whitespace characters only. `str.strip` and `str.rstrip` also remove non-ASCII Unicode whitespace.
- Messages: `Message` keeps which warning or error is written and its path and line, not the text. In the source, the out-of-range warning shows the one-based line and the missing-marker error the zero-based one.
- Aliasing: `lines` in the source aliases the dictionary's list. The model assigns the updated sequence back to the map.
- Engine.SortedLines: the source iterates a Python `set`, whose order is unspecified. The model visits the indices in ascending order. Only the order of the missing-marker errors depends on this choice.
- `inplace` and `show_diff`: only select the output, which is left out.
