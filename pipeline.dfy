/** The /download task of ki.py, kot.py, rot.py, rc.py and bot.py: the
    aniDL command line, the "Progress:" relay, and the order of the stages
    after the download (rename, sign track, chapters, the pause, the size
    gate, the Telegram send, the rclone mirror, the clean-up), as a pure
    function from what every outside call answers to the steps the task
    takes. Also the small checks of the handlers: the admin test of bot.py
    and the URL test of mkv.py. */
module Pipeline {
  import opened Common
  import opened Text
  import opened Paths
  import Naming
  import SignSubtitles

  /* ---------------- the command line ---------------- */

  /** "hidive" in other_options.lower(). */
  predicate IsHidive(options: string) {
    Contains(Lower(options), "hidive")
  }

  /** The service handed to auto_rename_with_anitopy. */
  function Service(options: string): string {
    if IsHidive(options) then "hidive" else "crunchy"
  }

  /** The aniDL argv built from the anime id and the joined options. */
  function Argv(animeId: string, options: string): seq<string> {
    if IsHidive(options) then ["./aniDL", "--service", "hidive", "-s", animeId] + SplitWhitespace(options)
    else ["./aniDL", "--service", "crunchy", "--srz", animeId] + SplitWhitespace(options)
  }

  /** The service is HIDIVE exactly when "hidive" occurs in the lower-cased
      options, in any case; then the id follows "-s", otherwise
      "--srz" for Crunchyroll; the options follow as their whitespace
      separated words. */
  lemma ArgvSpec(animeId: string, options: string)
    ensures var argv := Argv(animeId, options);
            |argv| == 5 + |SplitWhitespace(options)|
            && argv[..3] == ["./aniDL", "--service", Service(options)]
            && argv[4] == animeId
            && argv[5..] == SplitWhitespace(options)
            && (argv[2] == "hidive" <==> IsHidive(options))
            && (argv[3] == "-s" <==> IsHidive(options))
            && (argv[3] == "--srz" <==> !IsHidive(options))
  {
    ArgvShape(animeId, options);
    ArgvFacts(IsHidive(options), animeId, SplitWhitespace(options));
  }

  lemma ArgvShape(animeId: string, options: string)
    ensures Argv(animeId, options)
            == ["./aniDL", "--service", if IsHidive(options) then "hidive" else "crunchy",
                if IsHidive(options) then "-s" else "--srz", animeId]
               + SplitWhitespace(options)
  {
  }

  lemma ArgvFacts(hidive: bool, animeId: string, words: seq<string>)
    ensures var service := if hidive then "hidive" else "crunchy";
            var argv := ["./aniDL", "--service", service, if hidive then "-s" else "--srz", animeId] + words;
            |argv| == 5 + |words|
            && argv[..3] == ["./aniDL", "--service", service]
            && argv[4] == animeId
            && argv[5..] == words
            && (argv[2] == "hidive" <==> hidive)
            && (argv[3] == "-s" <==> hidive)
            && (argv[3] == "--srz" <==> !hidive)
  {
    var service := if hidive then "hidive" else "crunchy";
    var head := ["./aniDL", "--service", service, if hidive then "-s" else "--srz", animeId];
    assert head[..3] == ["./aniDL", "--service", service];
    assert (head + words)[..3] == head[..3];
    assert (head + words)[5..] == words;
    assert |"crunchy"| != |"hidive"| && |"-s"| != |"--srz"|;
  }

  /** The case of the options does not matter for the service. */
  lemma HidiveAnyCase(options: string, other: string)
    requires Lower(options) == Lower(other)
    ensures Service(options) == Service(other)
  {
  }

  /* ---------------- the "Progress:" relay ---------------- */

  /** A decoded, stripped stdout line that is relayed. */
  predicate IsProgressLine(raw: string) {
    Contains(Strip(raw), "Progress:")
  }

  /** The status text for a relayed line. */
  function ProgressText(raw: string): string {
    Gear + " " + Strip(raw)
  }

  /** The texts relayed for aniDL's stdout lines, in order. */
  function ProgressTexts(lines: seq<string>): seq<string> {
    if lines == [] then []
    else (if IsProgressLine(lines[0]) then [ProgressText(lines[0])] else []) + ProgressTexts(lines[1..])
  }

  /** The readline loop: every stdout line is decoded and stripped, and the
      status is edited with the lines that carry "Progress:". */
  method RelayProgress(lines: seq<string>) returns (edits: seq<string>)
    ensures edits == ProgressTexts(lines)
  {
    edits := [];
    var k := 0;
    while k < |lines|
      invariant 0 <= k <= |lines|
      invariant edits + ProgressTexts(lines[k..]) == ProgressTexts(lines)
    {
      RelayStep(lines, k, edits);
      var line := Strip(lines[k]);
      if Contains(line, "Progress:") {
        edits := edits + [Gear + " " + line];
      }
      k := k + 1;
    }
  }

  /** One turn of the readline loop. */
  lemma RelayStep(lines: seq<string>, k: nat, edits: seq<string>)
    requires k < |lines|
    ensures var line := Strip(lines[k]);
            edits + ProgressTexts(lines[k..]) ==
              (if Contains(line, "Progress:") then edits + [Gear + " " + line] else edits) + ProgressTexts(lines[k + 1..])
  {
    assert lines[k..][0] == lines[k];
    assert lines[k..][1..] == lines[k + 1..];
  }

  /** Never more edits than lines. */
  lemma {:induction false} ProgressTextsLength(lines: seq<string>)
    ensures |ProgressTexts(lines)| <= |lines|
  {
    if lines != [] {
      var head := if IsProgressLine(lines[0]) then [ProgressText(lines[0])] else [];
      assert ProgressTexts(lines) == head + ProgressTexts(lines[1..]);
      ProgressTextsLength(lines[1..]);
    }
  }

  /** Every edit is the gear sign, a space and a stripped "Progress:" line. */
  lemma {:induction false} ProgressTextsSound(lines: seq<string>, t: string)
    requires t in ProgressTexts(lines)
    ensures exists i :: 0 <= i < |lines| && IsProgressLine(lines[i]) && t == ProgressText(lines[i])
  {
    if lines != [] {
      var head := if IsProgressLine(lines[0]) then [ProgressText(lines[0])] else [];
      assert ProgressTexts(lines) == head + ProgressTexts(lines[1..]);
      if IsProgressLine(lines[0]) && t == ProgressText(lines[0]) {
      } else {
        assert t !in head;
        assert t in ProgressTexts(lines[1..]);
        ProgressTextsSound(lines[1..], t);
        var i :| 0 <= i < |lines[1..]| && IsProgressLine(lines[1..][i]) && t == ProgressText(lines[1..][i]);
        assert lines[1..][i] == lines[i + 1];
      }
    }
  }

  /** Every "Progress:" line is relayed. */
  lemma {:induction false} ProgressTextsComplete(lines: seq<string>, i: int)
    requires 0 <= i < |lines| && IsProgressLine(lines[i])
    ensures ProgressText(lines[i]) in ProgressTexts(lines)
  {
    var rest := ProgressTexts(lines[1..]);
    if i > 0 {
      assert lines[1..][i - 1] == lines[i];
      ProgressTextsComplete(lines[1..], i - 1);
      assert ProgressTexts(lines) == (if IsProgressLine(lines[0]) then [ProgressText(lines[0])] else []) + rest;
      InTail(ProgressText(lines[i]), if IsProgressLine(lines[0]) then [ProgressText(lines[0])] else [], rest);
    } else {
      assert ProgressTexts(lines) == [ProgressText(lines[0])] + rest;
      assert ProgressTexts(lines)[0] == ProgressText(lines[0]);
    }
  }

  lemma InTail(x: string, a: seq<string>, b: seq<string>)
    requires x in b
    ensures x in a + b
  {
    var k :| 0 <= k < |b| && b[k] == x;
    assert (a + b)[|a| + k] == x;
  }

  /* ---------------- paths and outside results ---------------- */

  /** mux_with_chapters in ki.py, kot.py and rc.py. */
  function MuxedPath(input: string): string {
    Splitext(input).0 + "_muxed.mkv"
  }

  /** For a ".mkv" file whose name does not end in a dot before the
      extension, the muxed file sits beside it, "_muxed" added to its stem. */
  lemma MuxedPathOfMkv(input: string)
    requires EndsWith(input, ".mkv") && |input| >= 5
    requires input[|input| - 5] != '.' && input[|input| - 5] != '/'
    ensures MuxedPath(input) == input[..|input| - 4] + "_muxed.mkv"
  {
    SplitextMkv(input);
  }

  /** mux_with_chapters in bot.py: every ".mkv" in the path replaced. */
  function ChaptersPath(input: string): string {
    ReplaceAll(input, ".mkv", "_with_chapters.mkv")
  }

  /** Replacing in a string whose only occurrence of the pattern is at its
      end replaces just that occurrence. */
  lemma {:induction false} ReplaceAtEnd(stem: string, pat: string, rep: string)
    requires pat != []
    requires forall i :: 0 <= i < |stem| ==> !OccursAt(stem + pat, pat, i)
    ensures ReplaceAll(stem + pat, pat, rep) == stem + rep
    decreases |stem|
  {
    var s := stem + pat;
    if stem == [] {
      assert s == pat && StartsWith(s, pat) && s[|pat|..] == [];
      assert ReplaceAll(s, pat, rep) == rep + ReplaceAll([], pat, rep);
    } else {
      assert !StartsWith(s, pat) by {
        assert !OccursAt(s, pat, 0);
      }
      assert s[1..] == stem[1..] + pat;
      NoOccurrenceShift(stem, pat);
      ReplaceAtEnd(stem[1..], pat, rep);
      assert ReplaceAll(s, pat, rep) == [s[0]] + ReplaceAll(s[1..], pat, rep);
      assert stem + rep == [stem[0]] + (stem[1..] + rep);
    }
  }

  lemma NoOccurrenceShift(stem: string, pat: string)
    requires stem != []
    requires forall i :: 0 <= i < |stem| ==> !OccursAt(stem + pat, pat, i)
    ensures forall i :: 0 <= i < |stem[1..]| ==> !OccursAt(stem[1..] + pat, pat, i)
  {
    var s := stem + pat;
    forall i | 0 <= i < |stem[1..]|
      ensures !OccursAt(stem[1..] + pat, pat, i)
    {
      assert !OccursAt(s, pat, i + 1);
      assert (stem[1..] + pat)[i..i + |pat|] == s[i + 1..i + 1 + |pat|];
    }
  }

  /** For a path whose only ".mkv" is its extension the chapters file is the
      stem plus "_with_chapters.mkv"; an earlier ".mkv" inside the path is
      replaced as well. */
  lemma ChaptersPathSpec(stem: string)
    requires forall i :: 0 <= i < |stem| ==> !OccursAt(stem + ".mkv", ".mkv", i)
    ensures ChaptersPath(stem + ".mkv") == stem + "_with_chapters.mkv"
    ensures !Contains(stem, ".mkv") ==> ReplaceAll(stem, ".mkv", "_with_chapters.mkv") == stem
  {
    ReplaceAtEnd(stem, ".mkv", "_with_chapters.mkv");
    if !Contains(stem, ".mkv") {
      ReplaceAbsent(stem, ".mkv", "_with_chapters.mkv");
    }
  }

  /** The sign track file of ki.py. */
  function SignPath(file: string): string {
    Splitext(file).0 + "_sign.ass"
  }

  /** Telegram's limit: 2 * 1024 ** 3 bytes. */
  const TelegramLimit := 2 * 1024 * 1024 * 1024

  /** The scripts that mirror to OneDrive through rclone. */
  datatype Variant = Ki | Kot | Rot | Rc | Bot

  /** upload_to_rclone: True exactly when rclone exits with 0. */
  function UploadToRclone(exitCode: int): bool {
    exitCode == 0
  }

  /** generate_onedrive_share_link: rclone's stdout, stripped, with
      "?download=1" appended in kot.py and not in rc.py; None when rclone
      fails. */
  function ShareLink(v: Variant, exitCode: int, stdout: string): Option<string> {
    if exitCode != 0 then None
    else if v == Kot then Some(Strip(stdout) + "?download=1")
    else Some(Strip(stdout))
  }

  /** A link exists exactly when rclone succeeded; in kot.py it is the
      stripped output with the download parameter, so it is never empty;
      in rc.py it is the stripped output alone, empty when rclone printed
      only blanks. */
  lemma ShareLinkSpec(v: Variant, exitCode: int, stdout: string)
    requires v == Kot || v == Rc
    ensures ShareLink(v, exitCode, stdout).Some? <==> exitCode == 0
    ensures exitCode == 0 && v == Kot ==>
              var link := ShareLink(v, exitCode, stdout).value;
              EndsWith(link, "?download=1") && link[..|link| - 11] == Strip(stdout) && link != []
    ensures exitCode == 0 && v == Rc ==>
              var link := ShareLink(v, exitCode, stdout).value;
              NoSpaceAtEnds(link) && (link == [] <==> Strip(stdout) == [])
  {
  }

  /** is_owner_or_admin of bot.py, and the `[OWNER_ID] + ADMIN_IDS` test of
      the other scripts. */
  predicate IsOwnerOrAdmin(user: int, owner: int, admins: seq<int>) {
    user in [owner] + admins
  }

  lemma IsOwnerOrAdminSpec(user: int, owner: int, admins: seq<int>)
    ensures IsOwnerOrAdmin(user, owner, admins) <==> user == owner || exists i :: 0 <= i < |admins| && admins[i] == user
  {
    if user in admins {
      var i :| 0 <= i < |admins| && admins[i] == user;
    }
  }

  /** The link check of mkv.py. */
  predicate IsUrl(text: string) {
    StartsWith(Strip(text), "http://") || StartsWith(Strip(text), "https://")
  }

  /** Leading and trailing blanks around a link do not matter, a link is at
      least seven characters long, and a text whose stripped form starts
      with a scheme word other than http or https is refused. */
  lemma IsUrlSpec(text: string, pad: string, scheme: string)
    requires AllSpace(pad)
    ensures IsUrl(pad + text) <==> IsUrl(text)
    ensures IsUrl(text + pad) <==> IsUrl(text)
    ensures IsUrl(text) ==> |Strip(text)| >= 7
    ensures ':' !in scheme && scheme != "http" && scheme != "https" && StartsWith(Strip(text), scheme + "://") ==>
              !IsUrl(text)
  {
    StripPadded(pad, text, pad);
    if IsUrl(text) {
      UrlIsLong(Strip(text));
      if ':' !in scheme && StartsWith(Strip(text), scheme + "://") {
        UrlScheme(Strip(text), scheme);
      }
    }
  }

  /** The scheme word of an accepted link is http or https. */
  lemma UrlScheme(t: string, scheme: string)
    requires StartsWith(t, "http://") || StartsWith(t, "https://")
    requires ':' !in scheme && StartsWith(t, scheme + "://")
    ensures scheme == "http" || scheme == "https"
  {
    if StartsWith(t, "http://") {
      SchemeOf(t, scheme, "http");
    } else {
      SchemeOf(t, scheme, "https");
    }
  }

  /** A text starts with at most one scheme word followed by "://": the
      first ':' of the text ends it. */
  lemma SchemeOf(t: string, w: string, scheme: string)
    requires ':' !in w && ':' !in scheme
    requires StartsWith(t, w + "://") && StartsWith(t, scheme + "://")
    ensures w == scheme
  {
    FirstColon(t, w);
    FirstColon(t, scheme);
    assert w == t[..|w|] == scheme;
  }

  lemma FirstColon(t: string, w: string)
    requires ':' !in w && StartsWith(t, w + "://")
    ensures |w| < |t| && t[|w|] == ':' && t[..|w|] == w
    ensures forall k :: 0 <= k < |w| ==> t[k] != ':'
  {
    assert t[..|w| + 3] == w + "://";
    assert t[|w|] == (w + "://")[|w|];
    assert t[..|w|] == (w + "://")[..|w|];
    forall k | 0 <= k < |w| ensures t[k] != ':' {
      assert t[k] == w[k];
    }
  }

  lemma UrlIsLong(t: string)
    requires StartsWith(t, "http://") || StartsWith(t, "https://")
    ensures |t| >= 7
  {
    assert |"http://"| == 7 && |"https://"| == 8;
  }

  /* ---------------- the task ---------------- */

  /** What the task does, in order. `Say` is an edit of the status message. */
  datatype Step =
    | Say(text: string)
    | Rename(from: string, to: string)
    | ExtractSigns(sign: string)
    | MergeSigns(file: string, sign: string)
    | Mux(input: string, output: string)
    | Pause(seconds: nat)
    | Send(path: string, thumb: Option<string>)
    | Mirror(path: string)
    | Link(name: string)
    | Remove(path: string)

  /** What every outside call answers during one task. */
  datatype World = World(
    toolPresent: bool,          // os.path.isfile("./aniDL")
    stdout: seq<string>,        // aniDL's stdout lines
    downloadExit: int,
    stderr: string,
    latest: Option<string>,     // get_latest_file
    video: Naming.Parse,        // anitopy's parse of the file name
    renameOk: bool,             // os.rename succeeds
    search: CoverSearch,        // the AniList lookups
    coverSaved: bool,           // the cover download succeeds
    ffmpegExit: int,            // the subtitle extraction
    assLines: seq<string>,      // the extracted subtitle lines
    chaptersPresent: bool,      // os.path.isfile(CHAPTERS_FILE)
    muxExit: int,
    muxStderr: string,
    size: nat,                  // os.path.getsize of the file to send
    thumbExists: bool,          // os.path.exists(thumbnail_path)
    sendOk: bool,               // send_document returns
    fileRemains: bool,          // the sent file still exists at clean-up
    error: string,              // str(e) of an exception in the upload block
    rcloneExit: int,
    linkExit: int,
    linkStdout: string
  )

  const NoTool := "\U{274C} Error: aniDL tool not found."
  const DownloadFailed := "\U{274C} Error occurred during download:\n"
  const NoMkv := "\U{274C} No .mkv files found in the videos directory."
  const MuxFailed := "\U{26A0}\U{FE0F} Error during muxing:\n"
  const Uploading := "\U{1F4E4} Uploading to Telegram..."
  const TooLarge := "\U{274C} File size exceeds Telegram's 2GB limit."
  const UploadFailed := "\U{274C} Error during upload: "
  const Mirrored := "\U{2705} **Uploaded to rclone!**\n"
  const LinkFailed := "\U{274C} Failed to generate rclone share link for "

  function Completed(v: Variant): string {
    if v == Rot || v == Bot then "\U{2705} **Upload complete!**" else "\U{2705} **Upload complete on Telegram!**"
  }

  predicate Renames(v: Variant) { v == Ki || v == Kot || v == Rot }
  predicate MuxesChapters(v: Variant) { v != Rot }
  predicate Mirrors(v: Variant) { v == Kot || v == Rc }

  /** The chapter file the variant writes. */
  function MuxOutput(v: Variant, file: string): string {
    if v == Bot then ChaptersPath(file) else MuxedPath(file)
  }

  /** The steps of a stage, the file and thumbnail after it, and whether
      that file is missing from the disk. */
  datatype Stage = Stage(steps: seq<Step>, file: string, thumb: Option<string>, missing: bool)

  /** auto_rename_with_anitopy in the scripts that rename, with the step
      recorded whenever os.rename ran. When a lookup raised after it, the
      old path comes back and names a file that is gone. */
  function RenameStage(v: Variant, w: World, latest: string, options: string): Stage {
    if !Renames(v) then Stage([], latest, None, false)
    else
      var r := Naming.AutoRename(latest, Service(options), w.video, w.renameOk, w.search, w.coverSaved);
      Stage(RenameSteps(latest, r.moved), r.path, r.thumbnail, Naming.Stale(r))
  }

  /** The sign-track stage of ki.py: extract, then merge when the sign file
      written is not empty (the size test as written), and remove the sign
      file either way. */
  function SignStage(v: Variant, w: World, file: string): seq<Step> {
    if v != Ki then []
    else
      var sign := SignPath(file);
      [ExtractSigns(sign)]
      + (if w.ffmpegExit != 0 then []
         else if SignSubtitles.MergeAsWritten(SignSubtitles.SignFile(w.ffmpegExit, w.assLines).value)
         then [MergeSigns(file, sign), Remove(sign)]
         else [Remove(sign)])
  }

  /** The chapter stage: the muxed file replaces the file only when the
      muxer exits with 0. */
  function ChapterStage(v: Variant, w: World, file: string, missing: bool): Stage {
    if !MuxesChapters(v) || !w.chaptersPresent then Stage([], file, None, missing)
    else
      var out := MuxOutput(v, file);
      if w.muxExit == 0 then Stage([Mux(file, out)], out, None, false)
      else Stage([Mux(file, out), Say(MuxFailed + w.muxStderr)], file, None, missing)
  }

  /** Everything between finding the file and the upload block: rename,
      sign track, chapters and the five-second pause. */
  function Prepared(v: Variant, w: World, latest: string, options: string): Stage {
    var r := RenameStage(v, w, latest, options);
    var c := ChapterStage(v, w, r.file, r.missing);
    Stage(r.steps + SignStage(v, w, r.file) + c.steps + [Pause(5)], c.file, r.thumb, c.missing)
  }

  /** The rclone stage of kot.py and rc.py. */
  function MirrorStage(v: Variant, w: World, file: string): seq<Step> {
    if !Mirrors(v) then []
    else if !UploadToRclone(w.rcloneExit) then [Mirror(file)]
    else
      var link := ShareLink(v, w.linkExit, w.linkStdout);
      [Mirror(file), Link(Basename(file))]
      + (if link.Some? && link.value != [] then [Say(Mirrored + link.value)] else [Say(LinkFailed + file)])
  }

  /** `thumbnail_path and os.path.exists(thumbnail_path)`. */
  function UsableThumb(w: World, thumb: Option<string>): Option<string> {
    if thumb.Some? && thumb.value != [] && w.thumbExists then thumb else None
  }

  /** The clean-up after a successful send: unguarded removal of the file
      (whose failure lands in the upload error message) in ki.py, kot.py,
      rc.py and bot.py, guarded removal in rot.py; the thumbnail too where
      there is one and it exists. */
  function CleanupStage(v: Variant, w: World, file: string, thumb: Option<string>): seq<Step> {
    var thumbs := if UsableThumb(w, thumb).Some? then [Remove(thumb.value)] else [];
    if v == Rot then (if file != [] && w.fileRemains then [Remove(file)] else []) + thumbs
    else if !w.fileRemains then [Say(UploadFailed + w.error)]
    else if v == Rc || v == Bot then [Remove(file)]
    else [Remove(file)] + thumbs
  }

  /** The upload block: announce, check the size, send, report, mirror and
      clean up. os.path.getsize raises on a missing file, and the block's
      handler reports the error. */
  function UploadStage(v: Variant, w: World, file: string, thumb: Option<string>, missing: bool): seq<Step> {
    [Say(Uploading)]
    + if missing then [Say(UploadFailed + w.error)]
      else if w.size > TelegramLimit then [Say(TooLarge)]
      else
        [Send(file, UsableThumb(w, thumb))]
        + if !w.sendOk then [Say(UploadFailed + w.error)]
          else [Say(Completed(v))] + MirrorStage(v, w, file) + CleanupStage(v, w, file, thumb)
  }

  /** The progress edits of the download. */
  function ProgressSteps(stdout: seq<string>): seq<Step> {
    seq(|ProgressTexts(stdout)|, i requires 0 <= i < |ProgressTexts(stdout)| => Say(ProgressTexts(stdout)[i]))
  }

  /** The whole task of a /download command with the given options. */
  function Task(v: Variant, w: World, options: string): seq<Step> {
    if !w.toolPresent then [Say(NoTool)]
    else
      ProgressSteps(w.stdout)
      + if w.downloadExit != 0 then [Say(DownloadFailed + w.stderr)]
        else if w.latest.None? then [Say(NoMkv)]
        else
          var p := Prepared(v, w, w.latest.value, options);
          p.steps + UploadStage(v, w, p.file, p.thumb, p.missing)
  }

  predicate OnlySays(steps: seq<Step>) {
    forall k :: 0 <= k < |steps| ==> steps[k].Say?
  }

  /** A failed download ends the task with stderr in the status message,
      after the progress edits, with no scan, rename, mux, send or removal. */
  lemma DownloadFailureStops(v: Variant, w: World, options: string)
    requires w.toolPresent && w.downloadExit != 0
    ensures OnlySays(Task(v, w, options))
    ensures |Task(v, w, options)| == |ProgressTexts(w.stdout)| + 1
    ensures Task(v, w, options)[|ProgressTexts(w.stdout)|] == Say(DownloadFailed + w.stderr)
  {
  }

  /** The files a run of steps removes. */
  function Removed(steps: seq<Step>): set<string> {
    if steps == [] then {}
    else (if steps[0].Remove? then {steps[0].path} else {}) + Removed(steps[1..])
  }

  /** The files a run of steps sends. */
  function Sent(steps: seq<Step>): set<string> {
    if steps == [] then {}
    else (if steps[0].Send? then {steps[0].path} else {}) + Sent(steps[1..])
  }

  lemma {:induction false} RemovedAppend(a: seq<Step>, b: seq<Step>)
    ensures Removed(a + b) == Removed(a) + Removed(b)
    ensures Sent(a + b) == Sent(a) + Sent(b)
    decreases |a|
  {
    if a == [] {
      assert a + b == b;
    } else {
      assert (a + b)[0] == a[0];
      assert (a + b)[1..] == a[1..] + b;
      RemovedAppend(a[1..], b);
      var h := if a[0].Remove? then {a[0].path} else {};
      assert Removed(a + b) == h + Removed(a[1..] + b);
      assert Removed(a) == h + Removed(a[1..]);
      var g := if a[0].Send? then {a[0].path} else {};
      assert Sent(a + b) == g + Sent(a[1..] + b);
      assert Sent(a) == g + Sent(a[1..]);
    }
  }

  lemma Cons(x: Step, rest: seq<Step>)
    ensures Removed([x] + rest) == (if x.Remove? then {x.path} else {}) + Removed(rest)
    ensures Sent([x] + rest) == (if x.Send? then {x.path} else {}) + Sent(rest)
  {
    assert ([x] + rest)[0] == x;
    assert ([x] + rest)[1..] == rest;
  }

  lemma {:induction false} NoneSent(steps: seq<Step>)
    requires forall k :: 0 <= k < |steps| ==> !steps[k].Send?
    ensures Sent(steps) == {}
    decreases |steps|
  {
    if steps != [] {
      NoneSent(steps[1..]);
    }
  }

  lemma {:induction false} NoneRemoved(steps: seq<Step>)
    requires forall k :: 0 <= k < |steps| ==> !steps[k].Remove?
    ensures Removed(steps) == {}
    decreases |steps|
  {
    if steps != [] {
      NoneRemoved(steps[1..]);
    }
  }

  /** A step that neither sends nor removes adds nothing to either set. */
  lemma QuietStep(x: Step, rest: seq<Step>)
    requires !x.Send? && !x.Remove? && Removed(rest) == {} && Sent(rest) == {}
    ensures Removed([x] + rest) == {} && Sent([x] + rest) == {}
  {
    Cons(x, rest);
  }

  /** The rclone stage neither sends nor removes anything. */
  lemma MirrorStageQuiet(v: Variant, w: World, file: string)
    ensures Removed(MirrorStage(v, w, file)) == {} && Sent(MirrorStage(v, w, file)) == {}
  {
    var m := MirrorStage(v, w, file);
    if !Mirrors(v) {
      assert m == [];
    } else if !UploadToRclone(w.rcloneExit) {
      assert m == [Mirror(file)];
      MirrorStepsQuiet(file, Say([]));
    } else {
      var link := ShareLink(v, w.linkExit, w.linkStdout);
      var say := if link.Some? && link.value != [] then Say(Mirrored + link.value) else Say(LinkFailed + file);
      assert m == [Mirror(file), Link(Basename(file))] + [say];
      assert m == [Mirror(file), Link(Basename(file)), say];
      MirrorStepsQuiet(file, say);
    }
  }

  lemma MirrorStepsQuiet(file: string, say: Step)
    requires say.Say?
    ensures Removed([Mirror(file)]) == {} && Sent([Mirror(file)]) == {}
    ensures var steps := [Mirror(file), Link(Basename(file)), say];
            Removed(steps) == {} && Sent(steps) == {}
  {
    NoneSent([Mirror(file)]);
    NoneRemoved([Mirror(file)]);
    var steps := [Mirror(file), Link(Basename(file)), say];
    NoneSent(steps);
    NoneRemoved(steps);
  }

  /** What the clean-up removes: see UploadStageSpec. */
  lemma CleanupRemoves(v: Variant, w: World, file: string, thumb: Option<string>)
    ensures Sent(CleanupStage(v, w, file, thumb)) == {}
    ensures var thumbs := if UsableThumb(w, thumb).Some? then {thumb.value} else {};
            Removed(CleanupStage(v, w, file, thumb)) ==
              if v == Rot then (if file != [] && w.fileRemains then {file} else {}) + thumbs
              else if !w.fileRemains then {}
              else if v == Rc || v == Bot then {file}
              else {file} + thumbs
  {
    var c := CleanupStage(v, w, file, thumb);
    assert forall k :: 0 <= k < |c| ==> c[k].Remove? || c[k].Say?;
    NoneSent(c);
    var thumbs := if UsableThumb(w, thumb).Some? then [Remove(thumb.value)] else [];
    assert Removed(thumbs) == if UsableThumb(w, thumb).Some? then {thumb.value} else {} by {
      if thumbs != [] {
        Cons(Remove(thumb.value), []);
      }
    }
    if v == Rot {
      var own := if file != [] && w.fileRemains then [Remove(file)] else [];
      RemovedAppend(own, thumbs);
      if own != [] {
        Cons(Remove(file), []);
      }
    } else if !w.fileRemains {
      NoneRemoved(c);
    } else if v == Rc || v == Bot {
      Cons(Remove(file), []);
    } else {
      Cons(Remove(file), thumbs);
    }
  }

  /** What the upload block sends and removes. A missing file ends it at
      the size query with the error reported; nothing is sent above 2 GiB,
      and exactly 2 GiB is still sent; nothing is removed unless the send
      returned; then kot.py and ki.py remove the file and the existing
      thumbnail whatever rclone answered, rc.py and bot.py remove only the
      file, and rot.py removes each of them only when it exists. */
  lemma UploadStageSpec(v: Variant, w: World, file: string, thumb: Option<string>, missing: bool)
    ensures Sent(UploadStage(v, w, file, thumb, missing)) ==
              if missing || w.size > TelegramLimit then {} else {file}
    ensures var thumbs := if UsableThumb(w, thumb).Some? then {thumb.value} else {};
            Removed(UploadStage(v, w, file, thumb, missing)) ==
              if missing || w.size > TelegramLimit || !w.sendOk then {}
              else if v == Rot then (if file != [] && w.fileRemains then {file} else {}) + thumbs
              else if !w.fileRemains then {}
              else if v == Rc || v == Bot then {file}
              else {file} + thumbs
    ensures missing ==> UploadStage(v, w, file, thumb, missing) == [Say(Uploading), Say(UploadFailed + w.error)]
  {
    if missing || w.size > TelegramLimit {
      UploadStops(v, w, file, thumb, missing);
    } else if !w.sendOk {
      UploadSendFailed(v, w, file, thumb);
    } else {
      UploadSent(v, w, file, thumb);
      CleanupRemoves(v, w, file, thumb);
    }
  }

  /** A missing or too large file: two edits, nothing sent or removed. */
  lemma UploadStops(v: Variant, w: World, file: string, thumb: Option<string>, missing: bool)
    requires missing || w.size > TelegramLimit
    ensures Sent(UploadStage(v, w, file, thumb, missing)) == {}
    ensures Removed(UploadStage(v, w, file, thumb, missing)) == {}
    ensures missing ==> UploadStage(v, w, file, thumb, missing) == [Say(Uploading), Say(UploadFailed + w.error)]
  {
    var say := if missing then Say(UploadFailed + w.error) else Say(TooLarge);
    assert UploadStage(v, w, file, thumb, missing) == [Say(Uploading)] + ([say] + []);
    QuietStep(say, []);
    QuietStep(Say(Uploading), [say] + []);
  }

  lemma UploadSendFailed(v: Variant, w: World, file: string, thumb: Option<string>)
    requires w.size <= TelegramLimit && !w.sendOk
    ensures Sent(UploadStage(v, w, file, thumb, false)) == {file}
    ensures Removed(UploadStage(v, w, file, thumb, false)) == {}
  {
    var send := Send(file, UsableThumb(w, thumb));
    var tail := [Say(UploadFailed + w.error)] + [];
    assert UploadStage(v, w, file, thumb, false) == [Say(Uploading)] + ([send] + tail);
    QuietStep(Say(UploadFailed + w.error), []);
    Cons(send, tail);
    Cons(Say(Uploading), [send] + tail);
  }

  lemma UploadSent(v: Variant, w: World, file: string, thumb: Option<string>)
    requires w.size <= TelegramLimit && w.sendOk
    ensures Sent(UploadStage(v, w, file, thumb, false)) == {file}
    ensures Removed(UploadStage(v, w, file, thumb, false)) == Removed(CleanupStage(v, w, file, thumb))
  {
    var send := Send(file, UsableThumb(w, thumb));
    var m := MirrorStage(v, w, file);
    var c := CleanupStage(v, w, file, thumb);
    assert UploadStage(v, w, file, thumb, false) == [Say(Uploading)] + ([send] + (([Say(Completed(v))] + m) + c));
    MirrorStageQuiet(v, w, file);
    CleanupRemoves(v, w, file, thumb);
    SendThenQuiet(Say(Uploading), send, Say(Completed(v)), m, c);
  }

  /** An announcement, a send, a report, steps that neither send nor
      remove, and a tail that sends nothing: only the one file is sent, and
      only the tail removes. */
  lemma SendThenQuiet(pre: Step, send: Step, say: Step, m: seq<Step>, c: seq<Step>)
    requires pre.Say? && send.Send? && say.Say?
    requires Removed(m) == {} && Sent(m) == {} && Sent(c) == {}
    ensures Sent([pre] + ([send] + (([say] + m) + c))) == {send.path}
    ensures Removed([pre] + ([send] + (([say] + m) + c))) == Removed(c)
  {
    var tail := ([say] + m) + c;
    QuietStep(say, m);
    RemovedAppend([say] + m, c);
    Cons(send, tail);
    Cons(pre, [send] + tail);
  }

  /** Both runs of the sign stage remove the sign file and nothing else. */
  lemma SignRunsRemove(file: string, sign: string)
    ensures Removed([ExtractSigns(sign), MergeSigns(file, sign), Remove(sign)]) == {sign}
    ensures Removed([ExtractSigns(sign), Remove(sign)]) == {sign}
  {
    assert [Remove(sign)] == [Remove(sign)] + [];
    Cons(Remove(sign), []);
    assert [MergeSigns(file, sign), Remove(sign)] == [MergeSigns(file, sign)] + [Remove(sign)];
    Cons(MergeSigns(file, sign), [Remove(sign)]);
    assert [ExtractSigns(sign), MergeSigns(file, sign), Remove(sign)]
        == [ExtractSigns(sign)] + [MergeSigns(file, sign), Remove(sign)];
    Cons(ExtractSigns(sign), [MergeSigns(file, sign), Remove(sign)]);
    assert [ExtractSigns(sign), Remove(sign)] == [ExtractSigns(sign)] + [Remove(sign)];
    Cons(ExtractSigns(sign), [Remove(sign)]);
  }

  /** The sign track is merged exactly in ki.py, when the extraction
      succeeded and the sign file written is not empty; the merge works on
      the file as the rename left it, and the sign file is removed after
      it. */
  lemma SignStageSpec(v: Variant, w: World, file: string)
    ensures (exists k :: 0 <= k < |SignStage(v, w, file)| && SignStage(v, w, file)[k].MergeSigns?) <==>
              v == Ki && w.ffmpegExit == 0
              && SignSubtitles.MergeAsWritten(SignSubtitles.SignFile(w.ffmpegExit, w.assLines).value)
    ensures v == Ki && w.ffmpegExit == 0 ==> Removed(SignStage(v, w, file)) == {SignPath(file)}
    ensures v == Ki && w.ffmpegExit == 0
            && SignSubtitles.MergeAsWritten(SignSubtitles.SignFile(w.ffmpegExit, w.assLines).value) ==>
              SignStage(v, w, file)[1] == MergeSigns(file, SignPath(file))
  {
    var st := SignStage(v, w, file);
    var sign := SignPath(file);
    if v == Ki && w.ffmpegExit == 0 {
      if SignSubtitles.MergeAsWritten(SignSubtitles.SignFile(w.ffmpegExit, w.assLines).value) {
        assert st == [ExtractSigns(sign), MergeSigns(file, sign), Remove(sign)];
        assert st[1].MergeSigns?;
        SignRunsRemove(file, sign);
      } else {
        assert st == [ExtractSigns(sign), Remove(sign)];
        SignRunsRemove(file, sign);
      }
    } else if v == Ki {
      assert st == [ExtractSigns(sign)];
    } else {
      assert st == [];
    }
  }

  /** As written, ki.py merges the sign file whenever the subtitle track
      had an [Events] section, even when no sign line was kept. */
  lemma SignStageMergesWithoutSigns(w: World, file: string, j: nat)
    requires w.ffmpegExit == 0 && j < |w.assLines| && StartsWith(Strip(w.assLines[j]), "[Events]")
    ensures SignStage(Ki, w, file)[1] == MergeSigns(file, SignPath(file))
  {
    if SignSubtitles.MergeIntended(w.assLines) {
      SignSubtitles.MergeIntendedIsMerged(w.assLines);
    } else {
      SignSubtitles.MergeAsWrittenDiffers(w.assLines, j);
    }
    SignStageSpec(Ki, w, file);
  }

  /** The file the upload block gets: the renamed file (ki.py, kot.py,
      rot.py) or the found one, replaced by the chapter file exactly when
      the variant muxes, the chapters file exists and the muxer exits
      with 0; and the preparation ends with the five-second pause. */
  lemma PreparedSpec(v: Variant, w: World, latest: string, options: string)
    ensures var r := RenameStage(v, w, latest, options);
            Prepared(v, w, latest, options).file ==
              if MuxesChapters(v) && w.chaptersPresent && w.muxExit == 0 then MuxOutput(v, r.file) else r.file
    ensures var steps := Prepared(v, w, latest, options).steps;
            steps != [] && steps[|steps| - 1] == Pause(5)
    ensures !Renames(v) ==> RenameStage(v, w, latest, options) == Stage([], latest, None, false)
    ensures var r := RenameStage(v, w, latest, options);
            Prepared(v, w, latest, options).missing <==>
              r.missing && !(MuxesChapters(v) && w.chaptersPresent && w.muxExit == 0)
    ensures var a := Naming.AutoRename(latest, Service(options), w.video, w.renameOk, w.search, w.coverSaved);
            Renames(v) ==> (RenameStage(v, w, latest, options).missing <==> Naming.Stale(a))
    ensures var a := Naming.AutoRename(latest, Service(options), w.video, w.renameOk, w.search, w.coverSaved);
            Renames(v) ==> RenameStage(v, w, latest, options).steps ==
                             if a.moved.Some? then [Rename(latest, a.moved.value)] else []
  {
  }

  /** The preparation sends nothing. */
  lemma PreparedSendsNothing(v: Variant, w: World, latest: string, options: string)
    ensures Sent(Prepared(v, w, latest, options).steps) == {}
  {
    var r := RenameStage(v, w, latest, options);
    var c := ChapterStage(v, w, r.file, r.missing);
    var sg := SignStage(v, w, r.file);
    RenameSendsNothing(v, w, latest, options);
    SignSendsNothing(v, w, r.file);
    ChapterSendsNothing(v, w, r.file, r.missing);
    NoneSent([Pause(5)]);
    RemovedAppend(r.steps, sg);
    RemovedAppend(r.steps + sg, c.steps);
    RemovedAppend(r.steps + sg + c.steps, [Pause(5)]);
  }

  lemma RenameSendsNothing(v: Variant, w: World, latest: string, options: string)
    ensures Sent(RenameStage(v, w, latest, options).steps) == {}
  {
    var r := RenameStage(v, w, latest, options);
    if Renames(v) {
      var a := Naming.AutoRename(latest, Service(options), w.video, w.renameOk, w.search, w.coverSaved);
      assert r.steps == RenameSteps(latest, a.moved);
      RenameStepsQuiet(latest, a.moved);
    }
  }

  function RenameSteps(latest: string, moved: Option<string>): seq<Step> {
    if moved.Some? then [Rename(latest, moved.value)] else []
  }

  lemma RenameStepsQuiet(latest: string, moved: Option<string>)
    ensures Sent(RenameSteps(latest, moved)) == {}
  {
    if moved.Some? {
      Cons(Rename(latest, moved.value), []);
    }
  }

  lemma SignSendsNothing(v: Variant, w: World, file: string)
    ensures Sent(SignStage(v, w, file)) == {}
  {
    var sg := SignStage(v, w, file);
    assert forall k :: 0 <= k < |sg| ==> !sg[k].Send?;
    NoneSent(sg);
  }

  lemma ChapterSendsNothing(v: Variant, w: World, file: string, missing: bool)
    ensures Sent(ChapterStage(v, w, file, missing).steps) == {}
  {
    var c := ChapterStage(v, w, file, missing);
    assert forall k :: 0 <= k < |c.steps| ==> c.steps[k].Mux? || c.steps[k].Say?;
    NoneSent(c.steps);
  }

  /** A task that gets to the upload sends the prepared file, unless it
      is missing or larger than 2 GiB. */
  lemma TaskSends(v: Variant, w: World, options: string)
    requires w.toolPresent && w.downloadExit == 0 && w.latest.Some?
    ensures var p := Prepared(v, w, w.latest.value, options);
            Sent(Task(v, w, options)) == if p.missing || w.size > TelegramLimit then {} else {p.file}
  {
    var p := Prepared(v, w, w.latest.value, options);
    var up := UploadStage(v, w, p.file, p.thumb, p.missing);
    var pre := ProgressSteps(w.stdout);
    assert Task(v, w, options) == pre + (p.steps + up);
    NoneSent(pre);
    PreparedSendsNothing(v, w, w.latest.value, options);
    UploadStageSpec(v, w, p.file, p.thumb, p.missing);
    RemovedAppend(p.steps, up);
    RemovedAppend(pre, p.steps + up);
  }

  /** When a cover lookup raises after ki.py, kot.py or rot.py moved the
      file to a new name, and no chapter file replaces it, the task sends
      nothing: the size query on the old path fails. */
  lemma LookupRaisedSendsNothing(v: Variant, w: World, options: string)
    requires w.toolPresent && w.downloadExit == 0 && w.latest.Some? && Renames(v)
    requires Naming.Stale(Naming.AutoRename(w.latest.value, Service(options), w.video, w.renameOk, w.search, w.coverSaved))
    requires !(MuxesChapters(v) && w.chaptersPresent && w.muxExit == 0)
    ensures Sent(Task(v, w, options)) == {}
  {
    StaleIsMissing(v, w, w.latest.value, options);
    TaskSends(v, w, options);
  }

  /** In that case the task's last two edits are `Uploading` and the
      error of the size query. */
  lemma LookupRaisedReportsError(v: Variant, w: World, options: string)
    requires w.toolPresent && w.downloadExit == 0 && w.latest.Some? && Renames(v)
    requires Naming.Stale(Naming.AutoRename(w.latest.value, Service(options), w.video, w.renameOk, w.search, w.coverSaved))
    requires !(MuxesChapters(v) && w.chaptersPresent && w.muxExit == 0)
    ensures exists pre :: Task(v, w, options) == pre + [Say(Uploading), Say(UploadFailed + w.error)]
  {
    var p := Prepared(v, w, w.latest.value, options);
    StaleIsMissing(v, w, w.latest.value, options);
    TaskEndsWithUpload(v, w, options);
    UploadStops(v, w, p.file, p.thumb, p.missing);
    var pre := ProgressSteps(w.stdout) + p.steps;
    assert Task(v, w, options) == pre + [Say(Uploading), Say(UploadFailed + w.error)];
  }

  lemma StaleIsMissing(v: Variant, w: World, latest: string, options: string)
    requires Renames(v)
    requires Naming.Stale(Naming.AutoRename(latest, Service(options), w.video, w.renameOk, w.search, w.coverSaved))
    requires !(MuxesChapters(v) && w.chaptersPresent && w.muxExit == 0)
    ensures Prepared(v, w, latest, options).missing
  {
    assert RenameStage(v, w, latest, options).missing;
  }

  lemma TaskEndsWithUpload(v: Variant, w: World, options: string)
    requires w.toolPresent && w.downloadExit == 0 && w.latest.Some?
    ensures var p := Prepared(v, w, w.latest.value, options);
            Task(v, w, options) == (ProgressSteps(w.stdout) + p.steps) + UploadStage(v, w, p.file, p.thumb, p.missing)
  {
  }
}
