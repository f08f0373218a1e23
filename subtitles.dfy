/** The sign-subtitle filter of ki.py (`extract_sign_subtitles`): one pass
    over the lines of an ASS subtitle file that keeps every line outside
    the [Events] section, replaces the section's own Format line by a
    fixed one, and keeps only the Dialogue lines that look like on-screen
    signs. The extraction by ffmpeg is an input (its exit code and the
    lines it wrote). */
module SignSubtitles {
  import opened Common
  import opened Text

  /** The Format line written right after every [Events] line. */
  const FormatLine: string := "Format: " + FormatFields
  const FormatFields: string := "Layer, Start, End, Style, Name, MarginL, MarginR, MarginV, Effect, Text"

  /** The keep test on the stripped fields of a Dialogue line: a sign style,
      a positioning or fade override tag in the effect or the text, or an
      actor name mentioning "Sign". All tests are substring tests. */
  predicate KeepCue(style: string, name: string, effect: string, text: string) {
    Contains(style, "BW Phone Bubble") || Contains(style, "Text Date")
    || Contains(effect, "\\an") || Contains(text, "\\an")
    || Contains(effect, "\\fad") || Contains(text, "\\fad")
    || Contains(effect, "\\pos") || Contains(text, "\\pos")
    || Contains(effect, "\\fs") || Contains(text, "\\fs")
    || Contains(name, "Sign")
  }

  /** A stripped Dialogue line with at least ten comma-separated fields
      (the text field keeps its own commas) whose fields pass KeepCue. */
  predicate IsSignCue(line: string) {
    var parts := SplitMax(line, ',', 9);
    |parts| >= 10 && KeepCue(Strip(parts[3]), Strip(parts[4]), Strip(parts[8]), Strip(parts[9]))
  }

  /** The filter's state: inside [Events] or not, the header lines and the
      kept sign lines so far. */
  datatype ScanState = ScanState(inEvents: bool, header: seq<string>, signs: seq<string>)

  /** One line of the loop. */
  function Step(st: ScanState, raw: string): ScanState {
    StepLine(st, Strip(raw))
  }

  /** One line of the loop, once stripped. */
  function StepLine(st: ScanState, line: string): ScanState {
    if StartsWith(line, "[Events]") then ScanState(true, st.header + [line, FormatLine], st.signs)
    else if st.inEvents && StartsWith(line, "Dialogue:") then
      if IsSignCue(line) then st.(signs := st.signs + [line]) else st
    else if StartsWith(line, "[") then ScanState(false, st.header + [line], st.signs)
    else if !st.inEvents then st.(header := st.header + [line])
    else st
  }

  /** The loop over a whole file. */
  function Scan(lines: seq<string>): ScanState
    decreases |lines|
  {
    if lines == [] then ScanState(false, [], [])
    else Step(Scan(lines[..|lines| - 1]), lines[|lines| - 1])
  }

  /** The loop of extract_sign_subtitles, as written: a flag and two lists. */
  method FilterSignLines(lines: seq<string>) returns (header: seq<string>, signs: seq<string>)
    ensures ScanState(Scan(lines).inEvents, header, signs) == Scan(lines)
  {
    var inEvents := false;
    header, signs := [], [];
    var i := 0;
    while i < |lines|
      invariant 0 <= i <= |lines|
      invariant ScanState(inEvents, header, signs) == Scan(lines[..i])
    {
      assert lines[..i + 1][..i] == lines[..i];
      var line := Strip(lines[i]);
      if StartsWith(line, "[Events]") {
        inEvents := true;
        header := header + [line, FormatLine];
      } else if inEvents && StartsWith(line, "Dialogue:") {
        if IsSignCue(line) {
          signs := signs + [line];
        }
      } else if StartsWith(line, "[") {
        inEvents := false;
        header := header + [line];
      } else if !inEvents {
        header := header + [line];
      }
      i := i + 1;
    }
    assert lines[..i] == lines;
  }

  /* ------------- a declarative description of the same output ------------- */

  /** The lines as the loop sees them: each one stripped. */
  function StripAll(lines: seq<string>): (ls: seq<string>)
    ensures |ls| == |lines|
    ensures forall i :: 0 <= i < |lines| ==> ls[i] == Strip(lines[i])
  {
    seq(|lines|, i requires 0 <= i < |lines| => Strip(lines[i]))
  }

  /** The index of the last of the first n stripped lines that opens a
      section (starts with '['), or -1. */
  function LastSection(ls: seq<string>, n: nat): (j: int)
    requires n <= |ls|
    ensures -1 <= j < n
  {
    if n == 0 then -1
    else if StartsWith(ls[n - 1], "[") then n - 1
    else LastSection(ls, n - 1)
  }

  /** LastSection finds a section line, and no later line before n opens
      a section. */
  lemma {:induction false} LastSectionSpec(ls: seq<string>, n: nat)
    requires n <= |ls|
    ensures var j := LastSection(ls, n);
            (j >= 0 ==> StartsWith(ls[j], "["))
            && forall m :: j < m < n ==> !StartsWith(ls[m], "[")
  {
    if n > 0 && !StartsWith(ls[n - 1], "[") {
      LastSectionSpec(ls, n - 1);
      assert LastSection(ls, n) == LastSection(ls, n - 1);
    }
  }

  /** Line n lies inside [Events]: the last section opened before it is
      an [Events] section. */
  predicate InEvents(ls: seq<string>, n: nat)
    requires n <= |ls|
  {
    LastSection(ls, n) >= 0 && StartsWith(ls[LastSection(ls, n)], "[Events]")
  }

  /** What one stripped line adds to the kept lines, given whether it lies
      inside [Events]: itself when it is a Dialogue sign cue there. */
  function SignPart(line: string, inEvents: bool): seq<string> {
    if inEvents && StartsWith(line, "Dialogue:") && IsSignCue(line) then [line] else []
  }

  /** What one stripped line adds to the header, given whether it lies
      inside [Events]: an [Events] line and the fixed Format line, any other
      section line, or a line outside [Events]; nothing else. */
  function HeaderPart(line: string, inEvents: bool): seq<string> {
    if StartsWith(line, "[Events]") then [line, FormatLine]
    else if StartsWith(line, "[") || !inEvents then [line]
    else []
  }

  /** The kept lines: the Dialogue lines inside [Events] that are sign
      cues, in input order. */
  function SignsOf(ls: seq<string>, n: nat): seq<string>
    requires n <= |ls|
  {
    if n == 0 then [] else SignsOf(ls, n - 1) + SignPart(ls[n - 1], InEvents(ls, n - 1))
  }

  /** The header: every section line (an [Events] line followed by the
      fixed Format line) and every line outside [Events]; the lines inside
      [Events] that open no section, the original Format line among them,
      are dropped. */
  function HeaderOf(ls: seq<string>, n: nat): seq<string>
    requires n <= |ls|
  {
    if n == 0 then [] else HeaderOf(ls, n - 1) + HeaderPart(ls[n - 1], InEvents(ls, n - 1))
  }

  /** A line opening a section is no Dialogue line. */
  lemma SectionIsNoDialogue(line: string)
    requires StartsWith(line, "[")
    ensures !StartsWith(line, "Dialogue:") && SignPart(line, true) == []
  {
    assert line[0] == '[';
  }

  /** One step of the filter, split into what it does to each part. */
  lemma StepParts(st: ScanState, line: string)
    ensures StepLine(st, line) == ScanState(
              if StartsWith(line, "[Events]") then true else if StartsWith(line, "[") then false else st.inEvents,
              st.header + HeaderPart(line, st.inEvents),
              st.signs + SignPart(line, st.inEvents))
  {
    if StartsWith(line, "[Events]") {
      EventsOpensSection(line);
      SectionIsNoDialogue(line);
      assert st.signs + [] == st.signs;
    } else if st.inEvents && StartsWith(line, "Dialogue:") {
      assert line[0] == 'D';
      assert !StartsWith(line, "[");
      assert st.header + [] == st.header;
      assert st.signs + [] == st.signs;
    } else if StartsWith(line, "[") {
      SectionIsNoDialogue(line);
      assert st.signs + [] == st.signs;
    } else if !st.inEvents {
      assert st.signs + [] == st.signs;
    } else {
      assert st.header + [] == st.header;
      assert st.signs + [] == st.signs;
    }
  }

  /** The flag after line n-1 is InEvents at n. */
  lemma NextInEvents(ls: seq<string>, n: nat)
    requires 0 < n <= |ls|
    ensures InEvents(ls, n) ==
              if StartsWith(ls[n - 1], "[Events]") then true
              else if StartsWith(ls[n - 1], "[") then false
              else InEvents(ls, n - 1)
  {
    if StartsWith(ls[n - 1], "[Events]") {
      EventsOpensSection(ls[n - 1]);
    }
  }

  lemma EventsOpensSection(line: string)
    requires StartsWith(line, "[Events]")
    ensures StartsWith(line, "[")
  {
    assert line[0] == "[Events]"[0];
  }

  /** The one-pass filter computes the declarative description: its flag
      says whether the next line is inside [Events], its header and kept
      lines are HeaderOf and SignsOf of the stripped lines. */
  lemma {:induction false} ScanMeetsDescription(lines: seq<string>, n: nat)
    requires n <= |lines|
    ensures var ls := StripAll(lines);
            Scan(lines[..n]) == ScanState(InEvents(ls, n), HeaderOf(ls, n), SignsOf(ls, n))
  {
    if n > 0 {
      ScanMeetsDescription(lines, n - 1);
      var ls := StripAll(lines);
      assert lines[..n][..n - 1] == lines[..n - 1];
      assert Scan(lines[..n]) == Step(Scan(lines[..n - 1]), lines[n - 1]);
      assert ls[n - 1] == Strip(lines[n - 1]);
      StepParts(Scan(lines[..n - 1]), ls[n - 1]);
      NextInEvents(ls, n);
    }
  }

  /** Every line is a Dialogue sign cue. */
  predicate AllCues(signs: seq<string>) {
    forall k :: 0 <= k < |signs| ==> StartsWith(signs[k], "Dialogue:") && IsSignCue(signs[k])
  }

  lemma AllCuesAppend(a: seq<string>, b: seq<string>)
    requires AllCues(a) && AllCues(b)
    ensures AllCues(a + b)
  {
    forall k | 0 <= k < |a + b| ensures StartsWith((a + b)[k], "Dialogue:") && IsSignCue((a + b)[k]) {
      if k < |a| {
        assert (a + b)[k] == a[k];
      } else {
        assert (a + b)[k] == b[k - |a|];
      }
    }
  }

  lemma SignPartCues(line: string, inEvents: bool)
    ensures AllCues(SignPart(line, inEvents))
  {
    if inEvents && StartsWith(line, "Dialogue:") && IsSignCue(line) {
      SingleCue(line);
    } else {
      NoCue(line, inEvents);
    }
  }

  lemma SingleCue(line: string)
    requires StartsWith(line, "Dialogue:") && IsSignCue(line)
    ensures AllCues([line])
  {
    forall k | 0 <= k < 1 ensures StartsWith([line][k], "Dialogue:") && IsSignCue([line][k]) {
      assert [line][k] == line;
    }
  }

  lemma NoCue(line: string, inEvents: bool)
    requires !(inEvents && StartsWith(line, "Dialogue:") && IsSignCue(line))
    ensures SignPart(line, inEvents) == []
  {
  }

  /** Every kept line is a Dialogue sign cue. */
  lemma {:induction false} SignsAreCues(ls: seq<string>, n: nat)
    requires n <= |ls|
    ensures AllCues(SignsOf(ls, n))
  {
    if n > 0 {
      SignsAreCues(ls, n - 1);
      SignPartCues(ls[n - 1], InEvents(ls, n - 1));
      AllCuesAppend(SignsOf(ls, n - 1), SignPart(ls[n - 1], InEvents(ls, n - 1)));
    }
  }

  /** Every [Events] line is immediately followed by the fixed Format line. */
  predicate FormatFollows(header: seq<string>) {
    forall k :: 0 <= k < |header| && StartsWith(header[k], "[Events]") ==>
      k + 1 < |header| && header[k + 1] == FormatLine
  }

  lemma FormatFollowsAppend(a: seq<string>, b: seq<string>)
    requires FormatFollows(a) && FormatFollows(b)
    ensures FormatFollows(a + b)
  {
    forall k | 0 <= k < |a + b| && StartsWith((a + b)[k], "[Events]")
      ensures k + 1 < |a + b| && (a + b)[k + 1] == FormatLine
    {
      if k < |a| {
        assert (a + b)[k] == a[k];
        assert (a + b)[k + 1] == a[k + 1];
      } else {
        assert (a + b)[k] == b[k - |a|];
        assert (a + b)[k + 1] == b[k + 1 - |a|];
      }
    }
  }

  lemma HeaderPartFollows(line: string, inEvents: bool)
    ensures FormatFollows(HeaderPart(line, inEvents))
  {
    var part := HeaderPart(line, inEvents);
    if StartsWith(line, "[Events]") {
      assert part == [line, FormatLine];
      assert !StartsWith(FormatLine, "[Events]") by {
        assert FormatLine[0] == 'F';
      }
      forall k | 0 <= k < |part| && StartsWith(part[k], "[Events]") ensures k + 1 < |part| && part[k + 1] == FormatLine {
        assert k == 0;
      }
    } else if StartsWith(line, "[") || !inEvents {
      assert part == [line];
    } else {
      assert part == [];
    }
  }

  /** Every [Events] line of the header is immediately followed by the
      fixed Format line. */
  lemma {:induction false} EventsThenFormat(ls: seq<string>, n: nat)
    requires n <= |ls|
    ensures FormatFollows(HeaderOf(ls, n))
  {
    if n > 0 {
      EventsThenFormat(ls, n - 1);
      HeaderPartFollows(ls[n - 1], InEvents(ls, n - 1));
      FormatFollowsAppend(HeaderOf(ls, n - 1), HeaderPart(ls[n - 1], InEvents(ls, n - 1)));
    }
  }

  /** Each line opening an [Events] section puts itself into the header. */
  lemma {:induction false} EventsInHeader(ls: seq<string>, n: nat, j: nat)
    requires j < n <= |ls| && StartsWith(ls[j], "[Events]")
    ensures ls[j] in HeaderOf(ls, n)
  {
    var h := HeaderOf(ls, n - 1);
    var part := HeaderPart(ls[n - 1], InEvents(ls, n - 1));
    assert HeaderOf(ls, n) == h + part;
    if j < n - 1 {
      EventsInHeader(ls, n - 1, j);
    } else {
      assert part == [ls[j], FormatLine];
    }
  }

  /* ---------------- rebuilding the file ---------------- */

  /** The text written back: the header lines joined by newlines, then,
      only when there are kept lines, a newline and the kept lines. */
  function Rebuilt(header: seq<string>, signs: seq<string>): string {
    Join(header, "\n") + (if signs == [] then "" else "\n" + Join(signs, "\n"))
  }

  lemma {:induction false} JoinConcat(a: seq<string>, b: seq<string>, sep: string)
    requires a != [] && b != []
    ensures Join(a + b, sep) == Join(a, sep) + sep + Join(b, sep)
    decreases |a|
  {
    if |a| == 1 {
      assert (a + b)[1..] == b;
    } else {
      assert (a + b)[1..] == a[1..] + b;
      JoinConcat(a[1..], b, sep);
    }
  }

  /** With a non-empty header the file is all header lines followed by all
      kept lines, one per line. */
  lemma RebuiltIsHeaderThenSigns(header: seq<string>, signs: seq<string>)
    requires header != []
    ensures Rebuilt(header, signs) == Join(header + signs, "\n")
  {
    if signs != [] {
      JoinConcat(header, signs, "\n");
    } else {
      assert header + signs == header;
    }
  }

  /** The rebuilt file is not empty as soon as some line opened [Events],
      however few lines were kept. */
  lemma RebuiltNotEmpty(ls: seq<string>, j: nat)
    requires j < |ls| && StartsWith(ls[j], "[Events]")
    ensures Rebuilt(HeaderOf(ls, |ls|), SignsOf(ls, |ls|)) != []
  {
    EventsInHeader(ls, |ls|, j);
    JoinHasItem(HeaderOf(ls, |ls|), ls[j], "\n");
  }

  lemma {:induction false} JoinHasItem(parts: seq<string>, x: string, sep: string)
    requires x in parts && x != []
    ensures Join(parts, sep) != []
    decreases |parts|
  {
    if |parts| > 1 && parts[0] == [] {
      assert x in parts[1..];
      JoinHasItem(parts[1..], x, sep);
    }
  }

  /** extract_sign_subtitles: None when ffmpeg fails (the function returns
      False), else the text it writes to the sign file. */
  function SignFile(ffmpegExit: int, lines: seq<string>): Option<string> {
    if ffmpegExit != 0 then None
    else
      var st := Scan(lines);
      Some(Rebuilt(st.header, st.signs))
  }

  /* ---------------- the caller's merge decision ---------------- */

  /** The test at ki.py:414 as written: merge when the sign file is not
      empty (a non-empty text is a non-empty UTF-8 file). */
  predicate MergeAsWritten(content: string) {
    |content| > 0
  }

  /** The evident intent of that test, whose other branch reports "no sign
      subtitles found": merge when some sign line was kept. */
  predicate MergeIntended(lines: seq<string>) {
    Scan(lines).signs != []
  }

  /** Stripped line i is a Dialogue sign cue inside [Events]. */
  predicate CueAt(ls: seq<string>, i: nat)
    requires i < |ls|
  {
    InEvents(ls, i) && StartsWith(ls[i], "Dialogue:") && IsSignCue(ls[i])
  }

  lemma SignPartAt(ls: seq<string>, i: nat)
    requires i < |ls|
    ensures SignPart(ls[i], InEvents(ls, i)) != [] <==> CueAt(ls, i)
  {
    if !CueAt(ls, i) {
      NoCue(ls[i], InEvents(ls, i));
    }
  }

  /** The lines kept by each of the first n stripped lines. */
  function Parts(ls: seq<string>, n: nat): (ps: seq<seq<string>>)
    requires n <= |ls|
    ensures |ps| == n
  {
    seq(n, k requires 0 <= k < n => SignPart(ls[k], InEvents(ls, k)))
  }

  function Flatten(ps: seq<seq<string>>): seq<string> {
    if ps == [] then [] else Flatten(ps[..|ps| - 1]) + ps[|ps| - 1]
  }

  lemma {:induction false} ConcatEmpty(ps: seq<seq<string>>)
    ensures Flatten(ps) == [] <==> forall k :: 0 <= k < |ps| ==> ps[k] == []
  {
    if ps != [] {
      var init := ps[..|ps| - 1];
      ConcatEmpty(init);
      assert |Flatten(ps)| == |Flatten(init)| + |ps[|ps| - 1]|;
      if Flatten(ps) == [] {
        forall k | 0 <= k < |ps| ensures ps[k] == [] {
          if k < |init| {
            assert ps[k] == init[k];
          }
        }
      }
    }
  }

  lemma {:induction false} SignsOfIsFlatten(ls: seq<string>, n: nat)
    requires n <= |ls|
    ensures SignsOf(ls, n) == Flatten(Parts(ls, n))
  {
    if n > 0 {
      SignsOfIsFlatten(ls, n - 1);
      assert Parts(ls, n)[..n - 1] == Parts(ls, n - 1);
    }
  }

  /** Some line is kept exactly when some line is a sign cue inside [Events]. */
  lemma SignsNonEmpty(ls: seq<string>, n: nat)
    requires n <= |ls|
    ensures SignsOf(ls, n) != [] <==> exists i :: 0 <= i < n && CueAt(ls, i)
  {
    SignsOfIsFlatten(ls, n);
    var ps := Parts(ls, n);
    ConcatEmpty(ps);
    forall i | 0 <= i < n
      ensures ps[i] != [] <==> CueAt(ls, i)
    {
      SignPartAt(ls, i);
    }
  }

  /** The intended test merges exactly when some line of the file, once
      stripped, is a Dialogue sign cue inside [Events]. */
  lemma MergeIntendedSpec(lines: seq<string>)
    ensures MergeIntended(lines) <==> exists i :: 0 <= i < |lines| && CueAt(StripAll(lines), i)
  {
    ScanMeetsDescription(lines, |lines|);
    assert lines[..|lines|] == lines;
    SignsNonEmpty(StripAll(lines), |lines|);
  }

  /** Every file the intended test merges, the size test merges too: a
      kept sign line makes the written file non-empty. */
  lemma MergeIntendedIsMerged(lines: seq<string>)
    requires MergeIntended(lines)
    ensures MergeAsWritten(SignFile(0, lines).value)
  {
    var st := Scan(lines);
    assert |Rebuilt(st.header, st.signs)| >= 1;
  }

  /** As written, any file with an [Events] section is merged, even one
      with no sign line at all: the intended test would skip it. */
  lemma MergeAsWrittenDiffers(lines: seq<string>, j: nat)
    requires j < |lines| && StartsWith(Strip(lines[j]), "[Events]")
    requires Scan(lines).signs == []
    ensures MergeAsWritten(SignFile(0, lines).value) && !MergeIntended(lines)
  {
    ScanMeetsDescription(lines, |lines|);
    assert lines[..|lines|] == lines;
    var ls := StripAll(lines);
    assert ls[j] == Strip(lines[j]);
    RebuiltNotEmpty(ls, j);
  }

  /** The smallest such file: one "[Events]" line and nothing else. */
  lemma MergeAsWrittenExample()
    ensures MergeAsWritten(SignFile(0, ["[Events]"]).value) && !MergeIntended(["[Events]"])
  {
    var line := "[Events]";
    var lines := [line];
    StripNoop(line);
    assert StartsWith(line, "[Events]");
    assert lines[..0] == [];
    assert Scan(lines) == StepLine(ScanState(false, [], []), line);
    MergeAsWrittenDiffers(lines, 0);
  }

  /** `\fs` is a substring test, so an `\fscx` scaling tag also marks a
      sign line. */
  lemma FsMatchesFscx(effect: string, text: string, style: string, name: string)
    requires Contains(text, "\\fscx")
    ensures KeepCue(style, name, effect, text)
  {
    ContainsAt(text, "\\fscx");
    var i: nat :| OccursAt(text, "\\fscx", i);
    assert text[i..i + 3] == "\\fscx"[..3];
    assert OccursAt(text, "\\fs", i);
    ContainsAt(text, "\\fs");
  }
}
