/** String helpers the patching engine uses on single lines of a source file:
    Python's `str.rstrip()`, `str.lstrip()`, `str.strip()`, `str.endswith(x)`
    and `str.split(sep)[0]`, over `seq<char>`. */
module Text {

  /** The whitespace `strip` removes: the ASCII characters Python's
      `str.isspace` accepts (space, tab to carriage return, and the four
      separators 0x1C to 0x1F). */
  predicate IsSpace(c: char) {
    c == ' ' || ('\t' <= c <= '\r') || ('\U{1C}' <= c <= '\U{1F}')
  }

  /** Every character of `s` is whitespace. */
  predicate AllSpace(s: string) {
    forall i :: 0 <= i < |s| ==> IsSpace(s[i])
  }

  /** `s.rstrip()`: the longest prefix of `s` that does not end in whitespace. */
  function RStrip(s: string): (r: string)
    ensures |r| <= |s|
  {
    if s != [] && IsSpace(s[|s| - 1]) then RStrip(s[..|s| - 1]) else s
  }

  /** `rstrip` keeps a prefix that does not end in whitespace and drops only
      whitespace. */
  lemma {:induction false} RStripSpec(s: string)
    ensures RStrip(s) <= s
    ensures RStrip(s) == [] || !IsSpace(RStrip(s)[|RStrip(s)| - 1])
    ensures AllSpace(s[|RStrip(s)|..])
  {
    if s != [] && IsSpace(s[|s| - 1]) {
      var t := s[..|s| - 1];
      RStripSpec(t);
      var r := RStrip(t);
      assert s[|r|..] == t[|r|..] + [s[|s| - 1]];
    }
  }

  /** `s.lstrip()`: the longest suffix of `s` that does not start with whitespace. */
  function LStrip(s: string): (r: string)
    ensures |r| <= |s|
  {
    if s != [] && IsSpace(s[0]) then LStrip(s[1..]) else s
  }

  /** `lstrip` keeps a suffix that does not start with whitespace and drops
      only whitespace. */
  lemma {:induction false} LStripSpec(s: string)
    ensures LStrip(s) == s[|s| - |LStrip(s)|..]
    ensures LStrip(s) == [] || !IsSpace(LStrip(s)[0])
    ensures AllSpace(s[..|s| - |LStrip(s)|])
  {
    if s != [] && IsSpace(s[0]) {
      var t := s[1..];
      LStripSpec(t);
      var r := LStrip(t);
      assert s[|s| - |r|..] == t[|t| - |r|..];
      assert s[..|s| - |r|] == [s[0]] + t[..|t| - |r|];
    }
  }

  /** `s.strip()`: whitespace removed at both ends. */
  function Strip(s: string): string {
    LStrip(RStrip(s))
  }

  /** The stripped text neither starts nor ends with whitespace. */
  lemma StripTrimmed(s: string)
    ensures Strip(s) == [] || (!IsSpace(Strip(s)[0]) && !IsSpace(Strip(s)[|Strip(s)| - 1]))
  {
    RStripSpec(s);
    LStripSpec(RStrip(s));
  }

  /** `s.endswith(suffix)`. */
  predicate EndsWith(s: string, suffix: string) {
    |suffix| <= |s| && s[|s| - |suffix|..] == suffix
  }

  /** `sep` occurs in `s` starting at index `i`. */
  predicate OccursAt(s: string, sep: string, i: int) {
    0 <= i && i + |sep| <= |s| && s[i..i + |sep|] == sep
  }

  /** `sep in s`. */
  predicate Contains(s: string, sep: string) {
    exists i :: 0 <= i <= |s| && OccursAt(s, sep, i)
  }

  lemma OccursAtShift(s: string, sep: string, i: int)
    requires s != [] && 0 <= i
    ensures OccursAt(s[1..], sep, i) <==> OccursAt(s, sep, i + 1)
  {
    if 0 <= i && i + 1 + |sep| <= |s| {
      assert s[1..][i..i + |sep|] == s[i + 1..i + 1 + |sep|];
    }
  }

  /** `s.split(sep)[0]`: the text before the first occurrence of `sep`,
      or all of `s` when `sep` does not occur. */
  function BeforeFirst(s: string, sep: string): (r: string)
    requires sep != []
    ensures |r| <= |s|
    decreases |s|
  {
    if |s| < |sep| then s
    else if s[..|sep|] == sep then []
    else [s[0]] + BeforeFirst(s[1..], sep)
  }

  /** `BeforeFirst` is the prefix of `s` up to the first occurrence of
      `sep`, and all of `s` exactly when `sep` does not occur. */
  lemma {:induction false} BeforeFirstSpec(s: string, sep: string)
    requires sep != []
    ensures BeforeFirst(s, sep) <= s
    ensures forall i :: 0 <= i < |BeforeFirst(s, sep)| ==> !OccursAt(s, sep, i)
    ensures BeforeFirst(s, sep) == s || OccursAt(s, sep, |BeforeFirst(s, sep)|)
    ensures BeforeFirst(s, sep) == s <==> !Contains(s, sep)
    decreases |s|
  {
    var r := BeforeFirst(s, sep);
    if |s| < |sep| {
      assert forall i :: 0 <= i <= |s| ==> !OccursAt(s, sep, i);
    } else if s[..|sep|] == sep {
      assert OccursAt(s, sep, 0);
    } else {
      var rest := BeforeFirst(s[1..], sep);
      BeforeFirstSpec(s[1..], sep);
      assert r == [s[0]] + rest;
      forall i | 0 <= i ensures OccursAt(s[1..], sep, i) <==> OccursAt(s, sep, i + 1) {
        OccursAtShift(s, sep, i);
      }
      assert !OccursAt(s, sep, 0);
      forall i | 0 <= i < |r| ensures !OccursAt(s, sep, i) {
        if i > 0 { assert !OccursAt(s[1..], sep, i - 1); }
      }
      if r == s {
        forall i | 0 <= i <= |s| ensures !OccursAt(s, sep, i) {
          if i == |s| { assert i + |sep| > |s|; }
        }
      } else {
        assert rest != s[1..];
        assert OccursAt(s, sep, |r|);
      }
    }
  }

  /** The first occurrence of `sep` determines `BeforeFirst`. */
  lemma BeforeFirstAt(s: string, sep: string, k: int)
    requires sep != []
    requires OccursAt(s, sep, k)
    requires forall i :: 0 <= i < k ==> !OccursAt(s, sep, i)
    ensures BeforeFirst(s, sep) == s[..k]
  {
    BeforeFirstSpec(s, sep);
  }

  /** A slice of a prefix that ends where the prefix ends is the same
      slice of the whole text. */
  lemma PrefixSlice(p: string, s: string, i: int)
    requires p <= s && 0 <= i <= |p|
    ensures s[i..|p|] == p[i..]
  {
  }

  /** A prefix of a text free of `sep` is free of it too. */
  lemma PrefixFree(p: string, s: string, sep: string)
    requires p <= s && !Contains(s, sep)
    ensures !Contains(p, sep)
  {
    forall i | 0 <= i <= |p| && OccursAt(p, sep, i)
      ensures OccursAt(s, sep, i)
    {
      assert s[i..i + |sep|] == p[i..i + |sep|];
    }
  }

  /** The text before the first occurrence of `sep` holds none. */
  lemma BeforeFirstFree(s: string, sep: string)
    requires sep != []
    ensures !Contains(BeforeFirst(s, sep), sep)
  {
    BeforeFirstSpec(s, sep);
    var b := BeforeFirst(s, sep);
    forall i | 0 <= i <= |b| && OccursAt(b, sep, i)
      ensures OccursAt(s, sep, i)
    {
      assert s[i..i + |sep|] == b[i..i + |sep|];
    }
  }

  /** Appending a character that `sep` does not end with creates no occurrence. */
  lemma AppendFree(s: string, c: char, sep: string)
    requires sep != [] && sep[|sep| - 1] != c && !Contains(s, sep)
    ensures !Contains(s + [c], sep)
  {
    var t := s + [c];
    forall i | 0 <= i <= |t| && OccursAt(t, sep, i)
      ensures OccursAt(s, sep, i)
    {
      assert s[i..i + |sep|] == t[i..i + |sep|];
    }
  }

  /** Whitespace appended after `s` is exactly what `rstrip` takes off again. */
  lemma {:induction false} RStripSpaceTail(s: string, w: string)
    requires AllSpace(w)
    ensures RStrip(s + w) == RStrip(s)
    decreases |w|
  {
    if w == [] {
      assert s + w == s;
    } else {
      var w' := w[..|w| - 1];
      assert IsSpace((s + w)[|s + w| - 1]);
      assert (s + w)[..|s + w| - 1] == s + w';
      assert RStrip(s + w) == RStrip(s + w');
      RStripSpaceTail(s, w');
    }
  }

  /** `rstrip` leaves a string alone when its last character is not whitespace. */
  lemma RStripNonSpaceEnd(s: string)
    requires s != [] && !IsSpace(s[|s| - 1])
    ensures RStrip(s) == s
  {
  }

  /** `rstrip` is idempotent. */
  lemma RStripIdempotent(s: string)
    ensures RStrip(RStrip(s)) == RStrip(s)
  {
    RStripSpec(s);
  }

  /** A suffix that starts with a non-space character survives `lstrip`. */
  lemma LStripKeepsSuffix(t: string, x: string)
    requires x != [] && !IsSpace(x[0])
    ensures EndsWith(LStrip(t), x) <==> EndsWith(t, x)
  {
    LStripSpec(t);
    var l := LStrip(t);
    if EndsWith(l, x) {
      assert t[|t| - |x|..] == l[|l| - |x|..];
    }
  }

  /** For a marker that starts and ends with non-space characters,
      `s.strip().endswith(x)` is the same test as `s.rstrip().endswith(x)`. */
  lemma StripEndsWith(s: string, x: string)
    requires x != [] && !IsSpace(x[0])
    ensures EndsWith(Strip(s), x) <==> EndsWith(RStrip(s), x)
  {
    LStripKeepsSuffix(RStrip(s), x);
  }

  /** A suffix of the stripped text occurs in the text itself. */
  lemma StripEndsWithContains(s: string, x: string)
    requires x != [] && !IsSpace(x[0])
    requires EndsWith(Strip(s), x)
    ensures Contains(s, x)
  {
    StripEndsWith(s, x);
    RStripEndsWithContains(s, x);
  }

  /** A suffix of the right-stripped text occurs in the text itself. */
  lemma RStripEndsWithContains(s: string, x: string)
    requires EndsWith(RStrip(s), x)
    ensures Contains(s, x)
  {
    RStripSpec(s);
    var r := RStrip(s);
    var k := |r| - |x|;
    PrefixSlice(r, s, k);
    assert OccursAt(s, x, k);
  }
}
