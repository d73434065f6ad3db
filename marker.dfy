/** The two edits the engine makes to a single line: appending the
    `# type: ignore` marker, and stripping a `# type: ignore` or
    `# pyright: ignore` marker that the checker reported as unnecessary. */
module Marker {
  import opened Text

  /** One line as `readlines` returns it, with its line terminator. */
  type Line = string

  /** The long-form marker, the one the engine appends. */
  const TypeIgnore: string := "# type: ignore"
  /** The short-form marker, which the engine only ever removes. */
  const PyrightIgnore: string := "# pyright: ignore"
  /** What an addition puts after the line's code. */
  const Appended: string := "  " + TypeIgnore + "\n"

  /** `line.strip().endswith("# type: ignore")` */
  predicate HasTypeIgnore(line: Line) {
    EndsWith(Strip(line), TypeIgnore)
  }

  /** `line.strip().endswith("# pyright: ignore")` */
  predicate HasPyrightIgnore(line: Line) {
    EndsWith(Strip(line), PyrightIgnore)
  }

  /** The line with its trailing whitespace (and newline) dropped and the
      marker appended; the code text of the line is kept as it was. */
  function Annotate(line: Line): (r: Line)
    ensures HasTypeIgnore(r)
    ensures RStrip(r) == RStrip(line) + "  " + TypeIgnore
    ensures r[|r| - 1] == '\n'
  {
    var code := RStrip(line);
    var marked := code + "  " + TypeIgnore;
    assert code + Appended == marked + "\n";
    RStripSpaceTail(marked, "\n");
    RStripNonSpaceEnd(marked);
    StripEndsWith(marked + "\n", TypeIgnore);
    code + Appended
  }

  /** The addition of a marker to one line: a line that already ends with
      the marker is kept as it is, any other line is annotated. Either way
      the result ends with the marker, so the addition is idempotent. */
  function AddMarker(line: Line): (r: Line)
    ensures HasTypeIgnore(r)
    ensures HasTypeIgnore(line) ==> r == line
  {
    if HasTypeIgnore(line) then line else Annotate(line)
  }

  /** The line ends with one of the two markers. */
  predicate HasMarker(line: Line) {
    HasTypeIgnore(line) || HasPyrightIgnore(line)
  }

  /** What removal does to a line: either the line loses a marker, or no
      marker was found and the line is left alone. */
  datatype Removal = Removed(line: Line) | MarkerNotFound

  /** `kept` is `line` cut just before the first occurrence of `tok`, with
      the whitespace in front of the cut dropped. */
  predicate CutBefore(line: Line, tok: string, kept: Line) {
    && kept <= line
    && (kept == [] || !IsSpace(kept[|kept| - 1]))
    && exists j ::
         && |kept| <= j <= |line|
         && OccursAt(line, tok, j)
         && AllSpace(line[|kept|..j])
         && forall i :: 0 <= i < j ==> !OccursAt(line, tok, i)
  }

  /** Removal of an unnecessary marker from one line. The long-form marker
      is tried first, then the short-form one; a line with neither is
      reported and kept. */
  function RemoveMarker(line: Line): (r: Removal)
    ensures r.MarkerNotFound? <==> !HasMarker(line)
    ensures r.Removed? ==> |r.line| > 0 && r.line[|r.line| - 1] == '\n'
  {
    if HasTypeIgnore(line) then Removed(RStrip(BeforeFirst(line, TypeIgnore)) + "\n")
    else if HasPyrightIgnore(line) then Removed(RStrip(BeforeFirst(line, PyrightIgnore)) + "\n")
    else MarkerNotFound
  }

  /** What a removal keeps: the line cut before the FIRST occurrence of the
      marker that matched, without the whitespace in front of it, and a
      newline. */
  lemma RemovalCutsBeforeMarker(line: Line)
    requires RemoveMarker(line).Removed?
    ensures var kept := RemoveMarker(line).line;
            CutBefore(line, if HasTypeIgnore(line) then TypeIgnore else PyrightIgnore, kept[..|kept| - 1])
  {
    if HasTypeIgnore(line) {
      RemovalCuts(line, TypeIgnore);
    } else {
      RemovalCuts(line, PyrightIgnore);
    }
  }

  /** `RemovalCutsBeforeMarker` for the marker `tok` that matched. */
  lemma RemovalCuts(line: Line, tok: string)
    requires tok != [] && !IsSpace(tok[0]) && EndsWith(Strip(line), tok)
    requires RemoveMarker(line) == Removed(RStrip(BeforeFirst(line, tok)) + "\n")
    ensures var kept := RemoveMarker(line).line; CutBefore(line, tok, kept[..|kept| - 1])
  {
    var code := RStrip(BeforeFirst(line, tok));
    assert (code + "\n")[..|code|] == code;
    CutKeepsCode(line, tok);
  }

  /** A marker the stripped line ends with occurs in the line, and cutting
      before its first occurrence is a `CutBefore`. */
  lemma CutKeepsCode(line: Line, tok: string)
    requires tok != [] && !IsSpace(tok[0])
    requires EndsWith(Strip(line), tok)
    ensures CutBefore(line, tok, RStrip(BeforeFirst(line, tok)))
  {
    StripEndsWithContains(line, tok);
    BeforeFirstSpec(line, tok);
    var cut := BeforeFirst(line, tok);
    RStripSpec(cut);
    var kept := RStrip(cut);
    var j := |cut|;
    PrefixSlice(cut, line, |kept|);
    assert OccursAt(line, tok, j);
  }

  /** The marker text has no two spaces in a row and does not start with one. */
  lemma MarkerSpacing()
    ensures TypeIgnore[0] != ' '
    ensures forall j :: 0 <= j < |TypeIgnore| - 1 ==> TypeIgnore[j] != ' ' || TypeIgnore[j + 1] != ' '
    ensures TypeIgnore[|TypeIgnore| - 1] != ' '
  {
  }

  /** In an annotated line, the first occurrence of the marker is the one
      appended, provided the code before it has none. */
  lemma FirstMarkerIsAppended(code: string)
    requires !Contains(code, TypeIgnore)
    ensures BeforeFirst(code + Appended, TypeIgnore) == code + "  "
  {
    var s := code + Appended;
    var k := |code| + 2;
    assert s[k..k + |TypeIgnore|] == TypeIgnore;
    assert s[|code|] == ' ' && s[|code| + 1] == ' ';
    MarkerSpacing();
    forall i | 0 <= i < k
      ensures !OccursAt(s, TypeIgnore, i)
    {
      if i + |TypeIgnore| <= |code| {
        assert s[i..i + |TypeIgnore|] == code[i..i + |TypeIgnore|];
        assert !OccursAt(code, TypeIgnore, i);
      }
    }
    BeforeFirstAt(s, TypeIgnore, k);
    assert s[..k] == code + "  ";
  }

  /** Removing the marker that an addition appended to a line that did not
      contain the marker text gives back the line's code, without trailing
      whitespace, on a line of its own. */
  lemma RoundTrip(line: Line)
    requires !Contains(line, TypeIgnore)
    ensures RemoveMarker(Annotate(line)) == Removed(RStrip(line) + "\n")
  {
    var code := RStrip(line);
    RStripSpec(line);
    PrefixFree(code, line, TypeIgnore);
    FirstMarkerIsAppended(code);
    RStripSpaceTail(code, "  ");
    RStripIdempotent(line);
  }

  /** Once the long-form marker is removed, the line holds no occurrence of
      the marker text at all: everything from its first occurrence on went. */
  lemma RemovalClearsTypeIgnore(line: Line)
    requires HasTypeIgnore(line)
    ensures RemoveMarker(line).Removed?
    ensures !Contains(RemoveMarker(line).line, TypeIgnore)
  {
    var cut := BeforeFirst(line, TypeIgnore);
    var kept := RStrip(cut);
    RStripSpec(cut);
    assert RemoveMarker(line) == Removed(kept + "\n");
    BeforeFirstFree(line, TypeIgnore);
    PrefixFree(kept, cut, TypeIgnore);
    AppendFree(kept, '\n', TypeIgnore);
  }

  /** Removal of the long-form marker cuts at its first occurrence `k`. */
  lemma RemoveCutsAt(s: Line, k: int)
    requires HasTypeIgnore(s)
    requires OccursAt(s, TypeIgnore, k)
    requires forall i :: 0 <= i < k ==> !OccursAt(s, TypeIgnore, i)
    ensures RemoveMarker(s) == Removed(RStrip(s[..k]) + "\n")
  {
    BeforeFirstAt(s, TypeIgnore, k);
  }

  /** The line of `RoundTripCutsQuotedMarker` and its code. */
  lemma QuotedCode(line: Line, code: string)
    requires line == "s = \"# type: ignore\"\n"
    requires code == "s = \"# type: ignore\""
    ensures RStrip(line) == code && code + "\n" == line
  {
    assert line == code + "\n";
    RStripSpaceTail(code, "\n");
    RStripNonSpaceEnd(code);
  }

  /** In that line, annotated, the marker text first occurs inside the quotes. */
  lemma QuotedFirst(s: Line, line: Line)
    requires line == "s = \"# type: ignore\"\n"
    requires s == "s = \"# type: ignore\"" + Appended
    ensures OccursAt(s, TypeIgnore, 5)
    ensures forall i :: 0 <= i < 5 ==> !OccursAt(s, TypeIgnore, i)
    ensures s[..5] == line[..5] && !IsSpace(s[4])
  {
    var code := "s = \"# type: ignore\"";
    assert s[5..5 + |TypeIgnore|] == code[5..5 + |TypeIgnore|] == TypeIgnore;
    forall i | 0 <= i < 5
      ensures !OccursAt(s, TypeIgnore, i)
    {
      assert s[i] != '#';
    }
  }

  /** The round trip needs a line free of the marker text: the cut is made
      at the first occurrence, so code that quotes the marker loses its tail.
      The line `s = "# type: ignore"`, annotated and then cleaned, comes back
      as its first five characters `s = "`. */
  lemma RoundTripCutsQuotedMarker(line: Line)
    requires line == "s = \"# type: ignore\"\n"
    ensures RStrip(line) + "\n" == line
    ensures RemoveMarker(Annotate(line)) == Removed(line[..5] + "\n")
  {
    var code := "s = \"# type: ignore\"";
    QuotedCode(line, code);
    var s := Annotate(line);
    QuotedFirst(s, line);
    RemoveCutsAt(s, 5);
    RStripNonSpaceEnd(s[..5]);
  }
}
