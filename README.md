# Anime download bots: a verified model of the bots' logic

The repository holds six near-duplicate Telegram bots:

- `ki.py`, `kot.py`, `rot.py`, `rc.py` and `bot.py` download an episode with the `aniDL` tool. They rename it from its release name, optionally add a sign-subtitle track or chapters, and send it to Telegram. `kot.py` and `rc.py` also mirror it to OneDrive with rclone.
- `mkv.py` downloads a file from a link, re-encodes it, renames it and sends it.

This Dafny project models the logic that sits between the bots' outside calls, one module per concern:

| module | file | what it models |
|---|---|---|
| `Text` | `text.dfy` | The Python string primitives the scripts use: `strip`, `split`, `split(sep, n)`, whitespace `split()`, `join`, `replace`, `zfill`, `lower`, `in`. They work character by character, with `str.isspace` for whitespace. |
| `Paths` | `paths.dfy` | `os.path.basename`, `dirname`, `join` and `splitext`. |
| `Naming` | `naming.dfy` | `shorten_anime_name`, the title clean-up and defaults of `extract_anime_info`, the output name and thumbnail of `auto_rename_with_anitopy` (ki.py, kot.py, rot.py), the mkv.py variant (`sanitize_filename`, the 30-character title, the `Sub`/`Dual`/`Tri` audio tag), and the scan of wget's log for the saved file name. |
| `Cover` | `cover.dfy` | `fetch_anilist_cover`: the three-attempt retry loop against an oracle of HTTP answers, and the single attempt of mkv.py. |
| `SignSubtitles` | `subtitles.dfy` | `extract_sign_subtitles` of ki.py: the one-pass filter over the lines of an ASS file, the rebuilt file, and the caller's decision to merge it. |
| `Files` | `files.dfy` | `get_latest_file`, the temporary-file swap of `add_sign_subtitles`, and `cleanup_files`, over a map from path to content. |
| `TaskQueue` | `scheduler.dfy` | The single-flight FIFO queue (`process_queue` and the submit blocks) as a class, and the `/queue` status text. |
| `Progress` | `progress.dfy` | The upload `progress` callback, with its global `last_update_time`, the bar of twenty cells and the speed/ETA guards. Also the ten-second throttle of `encode_video`. |
| `Notify` | `notify.dfy` | `safe_edit_message`: the dedupe in four scripts, none in bot.py, and the one retry after a flood wait. |
| `Pipeline` | `pipeline.dfy` | The `/download` task as a pure function from what every outside call answers to the steps the task takes. This covers the aniDL argv, the `Progress:` relay, the stop on a failed download, rename, the sign track, chapters, the 2 GiB gate, send, the rclone mirror and share link, and clean-up. It also holds the admin and URL checks. |

The regular expressions of the source are written out as character-level functions. Three inputs are given rather than computed:

- The release-name parser (anitopy) is replaced by its result dictionary.
- Every subprocess is replaced by its exit code and output.
- Every HTTP call is replaced by an oracle.

Four conventions run through the model:

- Where the scripts differ, the model takes a `Variant` or a flag and the contracts say which script does what.
- Clock readings are `real` seconds.
- The status message keeps the text it was created with as explicit state. An edit changes what the chat shows, not the object's `text`.
- Where an error escapes a function into a catch-all, the model returns what that catch-all returns.

One consequence is proved without being a defect of the code, `Naming.FallbackOfCleanTitle`. The cleaned title contains no `-` or `:`, so the cover lookup's fallback query in ki.py, kot.py and rot.py is always the same string as the first query.

## Model

| member | source | states |
|---|---|---|
| Text.Strip | ki.py:201 | `str.strip()`: the result has no whitespace at either end and is no longer than the input |
| Text.StripSpec | ki.py:201 | the input is the result with a run of whitespace in front and a run of whitespace behind it |
| Text.StripPadded | mkv.py:206 | whitespace added in front of or behind a string does not change what `strip()` gives |
| Text.LStrip | mkv.py:206 | the leading run removed consists of whitespace, and the result starts with a non-space |
| Text.RStrip | mkv.py:206 | the trailing run removed consists of whitespace, and the result ends with a non-space |
| Text.StripNoop | ki.py:201 | a string with no whitespace at its ends is left unchanged by `strip()` |
| Text.StripIdempotent | ki.py:125-127 | stripping twice is stripping once |
| Text.StripKeepsChars | mkv.py:96 | every character of the stripped string occurs in the input |
| Text.ContainsAt | ki.py:401 | Python's substring test `sub in s` holds iff `sub` occurs at some index of `s` |
| Text.Split | mkv.py:128 | `str.split(sep)`: at least one piece, two or more iff `sep` occurs, and no piece contains `sep` |
| Text.JoinSplit | mkv.py:128 | joining the pieces of `split(sep)` with `sep` gives back the string |
| Text.SplitMax | ki.py:209 | `str.split(sep, n)`: at most n+1 pieces, all pieces but the last are free of `sep`, and so is the last when fewer than n+1 pieces came out |
| Text.JoinSplitMax | ki.py:209 | joining the pieces of `split(sep, n)` with `sep` gives back the line, so the tenth field keeps its commas |
| Text.SplitWhitespace | ki.py:386 | `str.split()` yields only non-empty words without whitespace |
| Text.SplitWhitespaceSpaced | ki.py:386 | the input is the words of `split()`, in order, each preceded by a whitespace run and followed by whitespace or the end, with only whitespace after the last |
| Text.SpacedIsSplit | ki.py:386 | conversely, any string laid out that way from non-empty whitespace-free words splits into exactly those words |
| Text.SplitJoinedWords | ki.py:372-386 | splitting `' '.join(words)` gives back the words when each is a whitespace-free non-empty word, so aniDL receives the user's option words |
| Text.JoinAppend | ki.py:241 | joining with one more item appends the separator and the item |
| Text.ZFill | ki.py:130-131 | `zfill(width)`: length at least `width`, unchanged when long enough, otherwise zeros are put in front of an unsigned string, and after the sign of a string starting with `+` or `-` |
| Text.Repeat | ki.py:335 | `c * n`: n copies of c, and the empty string for n ≤ 0 |
| Text.Lower | ki.py:70 | `lower()` on ASCII letters: same length, each upper-case letter mapped to its lower case |
| Text.Find | mkv.py:130 | the first index of a character, or -1 exactly when it is absent |
| Text.NatToString | mkv.py:202 | the decimal form of a number is a non-empty string of digits, one digit iff the number is below 10, with no leading zero except for 0 itself |
| Text.ParseNatToString | mkv.py:202 | reading back the decimal form gives the number (the queue positions are unambiguous) |
| Text.ReplaceAbsent | bot.py:51 | `replace` leaves a string without the pattern unchanged |
| Paths.RFind | ki.py:64 | `rfind`: the last index of a character, or -1 exactly when it is absent |
| Paths.Basename | ki.py:64 | `os.path.basename` has no `/`, is a suffix of the path, and is the whole path or is preceded in it by `/` |
| Paths.RStripSlashes | ki.py:84 | the trailing-slash trim of `os.path.dirname` is a prefix of its input, the part removed is all `/`, and the result does not end in `/` |
| Paths.Splitext | ki.py:98 | `os.path.splitext`: stem plus extension is the path, and the extension is empty or a dot followed by no `/` or dot; it is non-empty exactly when the last path component has a dot with a non-dot character before it in that component, and then it starts at the last such dot |
| Paths.SplitextMkv | ki.py:98 | for a `.mkv` path, the stem is the path without its last four characters |
| Paths.BasenameOfJoin | ki.py:84 | the base name of `join(dir, name)` is `name` for a slash-free name |
| Naming.FirstSegment | ki.py:50 | `re.split(r'[:\|]', name)[0]`: the longest prefix without `:` or `\|` |
| Naming.SliceTo | ki.py:57 | Python slicing `s[:k]` is a prefix of `s`: `min(k, len)` characters for k ≥ 0, and `-k` fewer than `s` otherwise |
| Naming.ShortenFits | ki.py:41-59 | for `max_length ≥ 3` the result has at most `max_length` characters; a first segment still too long is cut to `max_length-3` characters plus `...` |
| Naming.ShortenCases | ki.py:46-57 | a name that fits is returned unchanged; otherwise the stripped first `:`/`\|` segment is returned when it fits |
| Naming.ShortenIdempotent | rot.py:35-45 | shortening a shortened name changes nothing |
| Naming.ShortenKeepsMainTitle | ki.py:49-53 | a long `Main: Subtitle` name is shortened to its stripped main title when that fits |
| Naming.FirstSegmentOf | ki.py:50 | the first segment of `a + rest` is `a` when `a` has no separator and `rest` starts with one |
| Naming.GroupEnd | ki.py:125 | the non-greedy `.*?\]` stops at the first closing bracket, and never crosses a newline |
| Naming.RemoveGroups | ki.py:125-126 | removing bracket groups never lengthens the title or adds a character |
| Naming.RemoveGroupsAbsent | ki.py:125-126 | a title without an opening bracket is unchanged |
| Naming.RemoveGroupsOne | ki.py:125 | a one-line group `[...]` is cut out and the text before it kept |
| Naming.RemoveGroupsUnclosed | ki.py:125-126 | an opening bracket with no closing one before the end of its line is kept, and the removal goes on after it |
| Naming.RemoveGroupsNoClose | ki.py:125-126 | a title with no closing bracket is unchanged |
| Naming.KeepTitleChars | ki.py:127 | `re.sub(r'[^a-zA-Z0-9\s]', ' ', s)`: same length, each other character becomes a space |
| Naming.CleanTitleIsClean | ki.py:124-127 | the cleaned title holds only ASCII letters, digits and whitespace, with no whitespace at its ends |
| Naming.CleanTitleOfClean | ki.py:124-127 | cleaning is idempotent |
| Naming.CleanHasNoBrackets | ki.py:125-127 | a cleaned title contains no `[` or `(` |
| Naming.DashColonToSpace | ki.py:91 | `re.sub(r'[-:]', ' ', s)`: same length, each `-` and `:` becomes a space |
| Naming.FallbackOfClean | ki.py:91 | the fallback string of an already clean title is the title itself |
| Naming.FallbackOfCleanTitle | ki.py:88-92 | the fallback query made after the clean-up is the same string as the first query |
| Naming.CleanUnknown | ki.py:120 | the default title `Unknown` passes the clean-up unchanged |
| Naming.ZFillOne | ki.py:130 | the default season `1` is padded to `01` |
| Naming.ExtractAnimeInfoNone | ki.py:116-136 | no result exactly when the parser found nothing, one of the title, season and episode fields is a list (string methods on it raise into the catch-all), or the title is empty |
| Naming.ExtractAnimeInfoTitle | ki.py:124-127 | the title returned is clean |
| Naming.ExtractAnimeInfoDefaults | rot.py:88-97 | a missing title gives `Unknown`; season and episode have at least two characters and default to `01` |
| Naming.DigitRun | ki.py:76 | `\d+` at the head of a string: the longest run of digits |
| Naming.ResolutionAtSpec | ki.py:76 | `\[(\d+p)\]` matches at the head exactly for a token of digits followed by `p` between brackets |
| Naming.FirstResolutionSpec | ki.py:76 | `re.search` finds the match at the first position where one starts, or none at all |
| Naming.ResolutionSpec | ki.py:76-77 | the resolution is a digits-plus-`p` token found between brackets in the name, else `1080p` |
| Naming.FoundResolution | ki.py:76 | a found resolution is a token and occurs between brackets in the name |
| Naming.ServicePrefixSpec | ki.py:69-73 | the prefix is `[HD]` iff the lower-cased service is `hidive`, else `[CR]` |
| Naming.CoverLookupSpec | ki.py:87-92 | a URL from the first lookup is kept; the fallback is asked exactly when the first lookup returned without a URL; a found URL comes from one of the two |
| Naming.AutoRenameFailure | ki.py:63-106 | no title is returned exactly when nothing was parsed (an empty dictionary, a list-valued title, season or episode, or an empty title), the rename failed or a lookup raised; then the original path comes back with no thumbnail; a list-valued field leaves the file unmoved |
| Naming.AutoRenameMoved | ki.py:84-106 | the file was moved iff the name parsed (no empty dictionary and no list-valued title, season or episode), the title is non-empty and `os.rename` succeeded; with a title the returned path is the new one; the returned path is stale (not where the file is) exactly when a lookup raised after a move to a different name |
| Naming.AutoRenameName | ki.py:76-84 | the new path is `"<prefix> <short title> - S<s>E<e> [<res>].mkv"` in the same directory, with a title of at most 25 characters |
| Naming.AutoRenameThumbnail | rot.py:64-75 | a thumbnail exists iff a rename happened, a cover URL was found and its download succeeded; it is the new path's stem plus `_cover.jpg` |
| Naming.NameHasNoSlash | ki.py:83-84 | the output name ends in `].mkv` and, for a clean title and a slash-free season and episode, holds no `/` |
| Naming.ShortenedStaysClean | ki.py:53-57 | every character of the shortened title comes from the title or is a dot of the ellipsis |
| Naming.Sanitize | mkv.py:37-39 | same length; each of `< > : " / \ \| ? *` becomes `_`, all else unchanged |
| Naming.SanitizeSpec | mkv.py:37-39 | no unsafe character remains, sanitizing is idempotent, and a safe name is unchanged |
| Naming.AudioTagSpec | mkv.py:101 | `Sub` for no audio stream or a failed ffprobe, `Dual` for one stream, `Tri` for two or more |
| Naming.MkvTitleSpec | mkv.py:94-96 | the sanitized title is kept when at most 30 characters long; a longer one is cut to 30 characters and stripped; no unsafe character remains |
| Naming.MkvRenamePath | mkv.py:99-104 | after a rename (string fields, rename succeeded) the file is in the same directory under a name ending in ` [<audio>].mkv` |
| Naming.MkvNameEnds | mkv.py:102 | the mkv.py output name ends in ` [<audio>].mkv` |
| Naming.MkvRenameThumbnail | mkv.py:86-116 | the original path with no thumbnail comes back when nothing was parsed, a title, season or episode field is a list, or the rename failed; a thumbnail exists iff the file was renamed and a URL was found and downloaded, and it is the new stem plus `_cover.jpg` |
| Naming.MkvCoverPath | mkv.py:111 | the stem of the new `.mkv` path is the path without its extension |
| Naming.DownloadedFilename | mkv.py:127-134 | the scan of wget's stderr returns the saved name when wget exits with 0, and nothing otherwise |
| Naming.SavedNameSpec | mkv.py:128-130 | no name iff no line holds `‘` and `’ saved`; otherwise the sanitized name quoted on the first such line |
| Naming.ReportedNameSafe | mkv.py:130 | the reported name holds no unsafe character and neither of the quotes wget puts around it |
| Cover.FetchAnilistCover | ki.py:138-158 | the retry loop returns what the attempt-by-attempt definition gives: result, attempts and sleeps |
| Cover.FetchBounds | ki.py:149-157 | at most `retries` attempts; one sleep per transport error; every attempt before the last lacks a 200 |
| Cover.FetchResult | ki.py:149-158 | the result comes from the body of a final 200 answer; otherwise all attempts were used and there is no cover |
| Cover.FetchAllErrors | ki.py:149-158 | when every attempt meets a transport error, all `retries` attempts are made, each followed by a sleep, and there is no cover |
| Cover.FetchFails | ki.py:149-158 | the loop lets an error escape exactly when the first status-200 reply among its attempts has a broken body |
| Cover.CatalogRaises | ki.py:87-92 | a catalog lookup of auto_rename_with_anitopy raises exactly when that lookup's first status-200 reply has a broken body, and gives no URL when no reply has status 200 |
| Cover.FetchOnce | mkv.py:54-72 | the single attempt of mkv.py never lets an error escape |
| Cover.FetchOnceAgrees | mkv.py:65-72 | it gives what one attempt of the retry loop gives, with an escaping error read as no cover |
| SignSubtitles.FilterSignLines | ki.py:190-237 | the loop with its flag and two lists computes the header and kept lines of the line-by-line definition |
| SignSubtitles.StripAll | ki.py:201 | every line is stripped before it is tested |
| SignSubtitles.LastSectionSpec | ki.py:233-234 | the last section line before a position starts with `[`, and none starts with `[` after it |
| SignSubtitles.StepParts | ki.py:200-237 | one line sets the flag and appends its header part and its kept part |
| SignSubtitles.NextInEvents | ki.py:202-234 | the flag after a line is true after `[Events]`, false after another section line, else unchanged |
| SignSubtitles.ScanMeetsDescription | ki.py:200-237 | after n lines the state is: inside `[Events]` iff the last section opened was `[Events]`; header and kept lines are the position-by-position description |
| SignSubtitles.SignsAreCues | ki.py:208-231 | every kept line is a Dialogue line with at least ten fields passing the style, tag or actor test |
| SignSubtitles.SignsNonEmpty | ki.py:208-231 | lines are kept iff some stripped line inside `[Events]` is a sign cue |
| SignSubtitles.EventsThenFormat | ki.py:202-206 | every `[Events]` line of the header is immediately followed by the fixed Format line |
| SignSubtitles.EventsInHeader | ki.py:202-204 | every `[Events]` line is kept in the header |
| SignSubtitles.RebuiltIsHeaderThenSigns | ki.py:240-243 | the written file is all header lines followed by all kept lines, one per line |
| SignSubtitles.RebuiltNotEmpty | ki.py:240-243 | the written file is not empty once `[Events]` was seen, even when no line was kept |
| SignSubtitles.FsMatchesFscx | ki.py:197 | the substring test on `\fs` also keeps lines carrying `\fscx` |
| SignSubtitles.MergeIntendedSpec | ki.py:414-420 | the corrected test merges iff some line inside `[Events]` is a sign cue |
| SignSubtitles.MergeAsWrittenDiffers | ki.py:414 | with `[Events]` present and no sign line kept, the size test still merges while the intended test does not |
| SignSubtitles.MergeAsWrittenExample | ki.py:414 | the one-line file `[Events]` is merged as written and not as intended |
| SignSubtitles.MergeIntendedIsMerged | ki.py:414 | every file the corrected test merges, the size test merges too |
| Files.FirstNewestUnique | bot.py:43-44 | the entry taken (the first with the greatest timestamp) is unique |
| Files.LatestFile | ki.py:304-314 | none when the listing failed or has no `.mkv` entry; otherwise the directory joined with the first `.mkv` entry of greatest timestamp |
| Files.SignMergedSpec | ki.py:255-277 | a missing sign file changes nothing; the temporary file never remains; a failed merge leaves the input; a successful one replaces it; no other path changes |
| Files.Disk.AddSignSubtitles | ki.py:252-283 | returns true iff the sign file exists and mkvmerge exits with 0, and leaves the disk as `SignMerged` says |
| Files.Disk.CleanupFiles | mkv.py:186-191 | the disk afterwards is the clean-up of the given paths |
| Files.CleanedSpec | mkv.py:186-191 | every truthy path whose removal does not fail is gone; every other file is untouched; nothing is created |
| TaskQueue.RunsAreFifo | ki.py:289-294 | the tasks run are the queued ones in order, then those submitted meanwhile, in order |
| TaskQueue.RunLogShape | ki.py:296-301 | each task run is logged as started and then finished, with its failure, in run order |
| TaskQueue.Scheduler.Submit | ki.py:470-474 | the task is appended at the tail, and a drain is started iff no task is current |
| TaskQueue.Scheduler.RunTask | ki.py:296-301 | one task runs and is logged, its failure swallowed, and `current_task` is cleared |
| TaskQueue.Scheduler.Drain | mkv.py:169-184 | the queue is emptied, `current_task` ends as none, and every task runs once in FIFO order |
| TaskQueue.Numbered | mkv.py:201-202 | line k is `k+1`, `. `, and the k-th name |
| TaskQueue.QueueStatusSpec | mkv.py:199-204 | `Queue is empty` iff the queue is empty; otherwise `Current Queue:` and the numbered names, one per line |
| TaskQueue.QueueStatusOfTasks | mkv.py:199-204 | with n queued tasks, all named `task`, the reply is `Queue is empty` iff n is 0, and line k reads `k+1. task` |
| Progress.BarSpec | ki.py:332-335 | the filled cells are `int(20*current/total)`; within the size the bar has 20 cells, full exactly at completion and empty below a twentieth |
| Progress.BlocksMonotone | ki.py:333 | the filled part never shrinks as more is sent |
| Progress.EtaSpec | rc.py:69-72 | speed is zero without elapsed time and ETA zero without speed; otherwise ETA times sent equals remaining times elapsed |
| Progress.TickSpec | bot.py:66-83 | an edit is shown iff 2 s have passed, the file is not empty and the edit succeeds; only then does `last_update_time` move |
| Progress.UploadProgress.Progress | ki.py:322-348 | the callback's outcome and the new `last_update_time` are those of the per-call definition |
| Progress.ShownTimesSpaced | rc.py:64-91 | over any run of calls, each shown edit is at least 2 s after the previous one |
| Progress.EncodingMessages | mkv.py:158 | one encoding edit per shown line, in order |
| Progress.ReadProgress | mkv.py:155-159 | the stderr loop makes one edit per throttled `frame=` line and reports whether the last edit raised |
| Progress.EncodeVideo | mkv.py:155-164 | the edits are the throttled `frame=` lines, then the completion edit iff no progress edit raised and ffmpeg exits with 0; success iff all those edits returned and ffmpeg exits with 0 |
| Progress.ThrottledSpec | mkv.py:156-159 | every shown line carries `frame=` and comes from the input; the first is more than 10 s after the start, and each later one is more than 10 s after the clock reading taken when the previous edit returned; every edit but the last returned |
| Progress.ThrottledShowsDueLine | mkv.py:157-159 | a `frame=` line more than 10 s after the last edit is shown; if its edit returns, the clock restarts at the reading taken after it, and if it raises, nothing more is shown |
| Progress.ThrottledSkipsNearEdit | mkv.py:157-159 | a line at most 10 s after the reading taken when the previous edit returned is not shown |
| Notify.StatusMessage.SafeEdit | ki.py:350-359 | the requests, pauses and shown text change as the per-call definition says; the object's own text does not change |
| Notify.SafeEditBounds | kot.py:232-242 | at most two requests; one pause, of exactly the flood wait, iff the edit was attempted and hit a flood wait, and then exactly two requests |
| Notify.SafeEditSucceeds | rc.py:93-103 | no error escapes iff the text was already held, the edit succeeded, or the single retry succeeded; the chat shows the text iff a request went through |
| Notify.SafeEditDedupe | bot.py:85-92 | with dedupe an equal text sends nothing; without it a request is always sent; for a new text both behave alike |
| Pipeline.ArgvSpec | kot.py:258-263 | argv is `./aniDL --service hidive -s <id>` iff `hidive` occurs in the lower-cased options, else `crunchy --srz`; the option words follow |
| Pipeline.HidiveAnyCase | ki.py:384 | the service choice ignores letter case |
| Pipeline.RelayProgress | kot.py:277-284 | the readline loop edits the status with exactly the relayed texts, in order |
| Pipeline.ProgressTextsLength | kot.py:277-284 | at most one edit per stdout line |
| Pipeline.ProgressTextsSound | kot.py:282-284 | every edit is `⚙️ ` plus a stripped line containing `Progress:` |
| Pipeline.ProgressTextsComplete | kot.py:282-284 | every line containing `Progress:` is relayed |
| Pipeline.DownloadFailureStops | kot.py:343-346 | a failed download ends with the stderr message after the progress edits; nothing is renamed, muxed, sent or removed |
| Pipeline.MuxedPathOfMkv | kot.py:360-364 | the muxed file is the input's stem plus `_muxed.mkv` |
| Pipeline.ChaptersPathSpec | bot.py:49-51 | bot.py replaces every `.mkv`: a path with a single trailing `.mkv` gets `_with_chapters.mkv` |
| Pipeline.ShareLinkSpec | kot.py:185-201 | a link exists iff rclone exits with 0; kot.py appends `?download=1` to the stripped output, rc.py returns it stripped |
| Pipeline.IsOwnerOrAdminSpec | bot.py:57-59 | allowed iff the user is the owner or listed as an admin |
| Pipeline.IsUrlSpec | mkv.py:206-208 | whitespace added in front or behind does not change the answer; an accepted link is at least seven characters long after stripping; a link of any other scheme is refused |
| Pipeline.CleanupRemoves | rot.py:244-248 | the clean-up removes the file and existing thumbnail (ki, kot), only the file (rc, bot), or each only when it exists (rot) |
| Pipeline.UploadStageSpec | kot.py:303-337 | a missing file ends the block with the error after `Uploading`, sending and removing nothing; above 2 GiB nothing is sent, and exactly 2 GiB is sent; nothing is removed unless the send returned, and then whatever rclone answered |
| Pipeline.MirrorStageQuiet | kot.py:323-331 | the rclone mirror and share-link step neither sends nor removes a file |
| Pipeline.SignStageSpec | ki.py:411-420 | ki.py merges the sign track iff extraction succeeded and the written sign file is non-empty, and removes the sign file whenever extraction succeeded |
| Pipeline.SignStageMergesWithoutSigns | ki.py:411-418 | a subtitle track with an `[Events]` line is merged even when no sign line was kept |
| Pipeline.PreparedSpec | ki.py:406-430 | the uploaded file is the path the rename returned, replaced by the chapter file iff the variant muxes, chapters exist and the muxer exits with 0; a rename step is taken iff `os.rename` ran; that path is missing iff it is stale and no chapter file replaces it; the 5 s pause comes last |
| Pipeline.PreparedSendsNothing | ki.py:406-430 | nothing is sent before the upload block |
| Pipeline.TaskSends | ki.py:432-449 | a task that reaches the upload sends exactly the prepared file, unless it is missing or exceeds 2 GiB |
| Pipeline.LookupRaisedSendsNothing | ki.py:432-459 | when a cover lookup raises after the file was moved, and no chapter file replaces it, nothing is sent |
| Pipeline.LookupRaisedReportsError | ki.py:432-459 | in that case the task ends with `Uploading` and the upload error |

## Left out

- pyrogram (the client, handlers, `reply_text` and `edit_text`) is not modelled. Telegram's answers are inputs, and an edit does not update the message object's `text`, because that library code is not part of this model.
- anitopy is not modelled: its result dictionary is an input, each field a string or a list of strings.
- The subprocesses (aniDL, ffmpeg, ffprobe, mkvmerge, rclone, wget) are replaced by their exit codes and outputs. The ffprobe exception path of `get_audio_streams_count` is the same as a failing exit.
- SignSubtitles.SignFile: a failure reading or rewriting the extracted `.ass` file (a decode error, say) also makes `extract_sign_subtitles` return False; the model reads the file as the given lines whenever ffmpeg exits with 0.
- HTTP calls (the AniList query and `download_cover_image`) are replaced by oracles and a success flag.
- The file system is a path-to-content map, and listings and timestamps are data. `os.path.abspath` on the wget file name is left out; the model returns the name.
- `time.time` and the sleeps are left out: clock readings are inputs, and sleeps are recorded as counts or pause steps.
- Floating-point formatting (`:.2f`, the MB conversion, the percentage text) is left out. `Progress.Trunc` models `int()`, and the bar is computed on integers.
- `Naming.DigitRun`: `\d` is taken as the ASCII digits only. Python also accepts other Unicode decimal digits.
- `Text.Lower`: only ASCII letters are lower-cased. Python's `lower()` also maps other scripts.
- Concurrency is not modelled: the queue lock, `asyncio.create_task`, the mkv.py worker thread and the CPU-monitor thread. In mkv.py `current_task` is cleared before the next lock acquisition, which can start a second drain; the model runs the queue sequentially.
- `Files.LatestFile`: bot.py's in-place descending sort is modelled by its result, the first entry with the greatest modification time.
- The mkv.py task bodies (`handle_message`, `handle_file_upload`) are not modelled as a whole. This covers download, encode, rename, send and the clean-up in `finally`. Their parts are modelled: `DownloadedFilename`, `EncodeVideo`, `MkvRename`, `CleanupFiles`. The encoder command line is not modelled.
- A missing file after a lookup raised behind a rename makes the size query raise inside the upload block's own `try`; the model ends that block with its `Error during upload` edit, as the source does. The exit codes of ffmpeg and mkvmerge on a missing file are inputs.
- Pipeline.Task: every status edit (`safe_edit_message` and `edit_text`) is assumed to return, and the outer `except Exception` of each `/download` task, with its `An unexpected error occurred` edit, is not modelled. In the source, an edit that raises in the `Progress:` relay (a flood wait whose retry fails, or a repeated line that the dedupe does not catch because it compares with the held text) ends the task in that handler while aniDL keeps running, and a raising `Upload complete` edit lands in the upload handler and skips the clean-up. The edit outcomes are modelled one call at a time in `Notify` and `Progress`, not threaded through the task.
- The `/start` handler, logging, environment loading and the `__main__` bootstrap are left out.

## Findings

| source | as written | input that shows it | evidently intended | confidence | as-written member | corrected member |
|---|---|---|---|---|---|---|
| ki.py:414 | The sign track is merged when the rebuilt sign file has a non-zero size. The rebuilt file always holds the header, so the `No sign subtitles found` branch is never taken once `[Events]` was seen. | the subtitle file `["[Events]"]`: the written file is `[Events]` plus the Format line, which has a non-zero size, and no sign line | merge only when some sign line was kept | medium, not executed | SignSubtitles.MergeAsWrittenExample, SignSubtitles.MergeAsWrittenDiffers | SignSubtitles.MergeIntended with SignSubtitles.MergeIntendedSpec and SignSubtitles.MergeIntendedIsMerged |
