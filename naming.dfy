/** Title and file-name derivation: `shorten_anime_name`, the title clean-up
    of `extract_anime_info`, the output name of `auto_rename_with_anitopy`
    (ki.py, kot.py, rot.py) and the encoder bot's variant in mkv.py
    (`sanitize_filename`, the 30-character title, the audio tag). The
    release-name parser is not modelled: its result, a dictionary of
    string fields, is an input. Regular expressions are written out as
    character-level functions. */
module Naming {
  import opened Common
  import opened Text
  import opened Paths

  /* ---------------- shorten_anime_name ---------------- */

  /** re.split(r'[:|]', s)[0]: the text before the first ':' or '|'. */
  function FirstSegment(s: string): (r: string)
    ensures |r| <= |s| && r == s[..|r|]
    ensures ':' !in r && '|' !in r
    ensures |r| < |s| ==> s[|r|] == ':' || s[|r|] == '|'
  {
    if s == [] || s[0] == ':' || s[0] == '|' then [] else [s[0]] + FirstSegment(s[1..])
  }

  /** Python's s[:k] for any integer k (a negative k counts from the end). */
  function SliceTo(s: string, k: int): (r: string)
    ensures |r| == if k >= 0 then Min(k, |s|) else Max(0, |s| + k)
    ensures r == s[..|r|]
  {
    if k >= 0 then s[..Min(k, |s|)] else s[..Max(0, |s| + k)]
  }

  /** shorten_anime_name(name, max_length). */
  function ShortenAnimeName(name: string, maxLength: int): string {
    if |name| <= maxLength then name
    else
      var head := Strip(FirstSegment(name));
      if |head| > maxLength then SliceTo(head, maxLength - 3) + "..." else head
  }

  /** For any bound of at least 3 the shortened name fits the bound; when it
      had to be cut, it is exactly the bound long and ends in "...". */
  lemma ShortenFits(name: string, maxLength: int)
    requires maxLength >= 3
    ensures |ShortenAnimeName(name, maxLength)| <= maxLength
    ensures |name| > maxLength && |Strip(FirstSegment(name))| > maxLength ==>
              |ShortenAnimeName(name, maxLength)| == maxLength
              && EndsWith(ShortenAnimeName(name, maxLength), "...")
              && ShortenAnimeName(name, maxLength)[..maxLength - 3] == Strip(FirstSegment(name))[..maxLength - 3]
  {
    if |name| > maxLength {
      var head := Strip(FirstSegment(name));
      if |head| > maxLength {
        var r := SliceTo(head, maxLength - 3) + "...";
        assert r[..maxLength - 3] == head[..maxLength - 3];
        assert r[|r| - 3..] == "...";
      }
    }
  }

  /** A name within the bound is returned unchanged; a longer one becomes
      its stripped main title when that fits. */
  lemma ShortenCases(name: string, maxLength: int)
    ensures |name| <= maxLength ==> ShortenAnimeName(name, maxLength) == name
    ensures |name| > maxLength && |Strip(FirstSegment(name))| <= maxLength ==>
              ShortenAnimeName(name, maxLength) == Strip(FirstSegment(name))
  {
  }

  /** Shortening twice is shortening once. */
  lemma ShortenIdempotent(name: string, maxLength: int)
    requires maxLength >= 3
    ensures ShortenAnimeName(ShortenAnimeName(name, maxLength), maxLength) == ShortenAnimeName(name, maxLength)
  {
    ShortenFits(name, maxLength);
  }

  /** The text before a ':' or '|' that has none of them is the first segment. */
  lemma {:induction false} FirstSegmentOf(a: string, rest: string)
    requires ':' !in a && '|' !in a
    requires rest == [] || rest[0] == ':' || rest[0] == '|'
    ensures FirstSegment(a + rest) == a
  {
    if a != [] {
      assert (a + rest)[1..] == a[1..] + rest;
      FirstSegmentOf(a[1..], rest);
    }
  }

  /** A long name "Main: Subtitle" (or "Main | Subtitle") whose main title
      fits the bound becomes the main title, stripped. */
  lemma ShortenKeepsMainTitle(main: string, rest: string, maxLength: int)
    requires ':' !in main && '|' !in main
    requires rest != [] && (rest[0] == ':' || rest[0] == '|')
    requires |main + rest| > maxLength && |Strip(main)| <= maxLength
    ensures ShortenAnimeName(main + rest, maxLength) == Strip(main)
  {
    FirstSegmentOf(main, rest);
  }

  /* ---------------- title clean-up in extract_anime_info ---------------- */

  /** The index in s of the first `close` or line break, or -1: how far the
      non-greedy `.*?` of `\[.*?\]` can reach (`.` stops at '\n'). */
  function GroupEnd(s: string, close: char): (j: int)
    ensures -1 <= j < |s|
    ensures j >= 0 ==> (s[j] == close || s[j] == '\n')
    ensures j >= 0 ==> forall i :: 0 <= i < j ==> s[i] != close && s[i] != '\n'
    ensures j == -1 ==> forall i :: 0 <= i < |s| ==> s[i] != close && s[i] != '\n'
  {
    if s == [] then -1
    else if s[0] == close || s[0] == '\n' then 0
    else var j := GroupEnd(s[1..], close); if j == -1 then -1 else j + 1
  }

  /** re.sub(r'\[.*?\]', '', s) with open = '[' and close = ']' (and the
      same with parentheses): each opening character that has its closing
      character later on the same line starts a group, and the group, up to
      the first closing character, is removed. */
  function RemoveGroups(s: string, open: char, close: char): (r: string)
    ensures |r| <= |s|
    ensures forall c :: c in r ==> c in s
    decreases |s|
  {
    if s == [] then []
    else if s[0] == open && GroupEnd(s[1..], close) >= 0 && s[1 + GroupEnd(s[1..], close)] == close then
      RemoveGroups(s[GroupEnd(s[1..], close) + 2..], open, close)
    else [s[0]] + RemoveGroups(s[1..], open, close)
  }

  /** A string with no opening character is left alone. */
  lemma {:induction false} RemoveGroupsAbsent(s: string, open: char, close: char)
    requires open !in s
    ensures RemoveGroups(s, open, close) == s
    decreases |s|
  {
    if s != [] {
      RemoveGroupsAbsent(s[1..], open, close);
    }
  }

  lemma {:induction false} GroupEndOf(inner: string, close: char, rest: string)
    requires close !in inner && '\n' !in inner
    ensures GroupEnd(inner + [close] + rest, close) == |inner|
  {
    if inner != [] {
      assert (inner + [close] + rest)[1..] == inner[1..] + [close] + rest;
      GroupEndOf(inner[1..], close, rest);
    }
  }

  /** A group "[...]" on one line, preceded by text with no opening
      bracket, is cut out and the text before it kept. */
  lemma {:induction false} RemoveGroupsOne(pre: string, inner: string, post: string, open: char, close: char)
    requires open !in pre && close !in inner && '\n' !in inner
    ensures RemoveGroups(pre + [open] + inner + [close] + post, open, close) == pre + RemoveGroups(post, open, close)
    decreases |pre|
  {
    if pre == [] {
      assert pre + [open] + inner + [close] + post == [open] + inner + [close] + post;
      RemoveGroupsHere(inner, post, open, close);
    } else {
      var s := pre + [open] + inner + [close] + post;
      var t := pre[1..] + [open] + inner + [close] + post;
      assert s == [pre[0]] + t;
      RemoveGroupsOne(pre[1..], inner, post, open, close);
      RemoveGroupsKeep([pre[0]] + t, open, close);
      ConsThenRest(pre, RemoveGroups(post, open, close));
    }
  }

  /** The group opening the string goes, and what follows is processed. */
  lemma RemoveGroupsHere(inner: string, post: string, open: char, close: char)
    requires close !in inner && '\n' !in inner
    ensures RemoveGroups([open] + inner + [close] + post, open, close) == RemoveGroups(post, open, close)
  {
    var s := [open] + inner + [close] + post;
    assert s[1..] == inner + [close] + post;
    GroupEndOf(inner, close, post);
    assert s[1 + |inner|] == close;
    assert s[|inner| + 2..] == post;
    RemoveGroupsSkip(s, open, close, |inner|);
  }

  lemma ConsThenRest(pre: string, r: string)
    requires pre != []
    ensures [pre[0]] + (pre[1..] + r) == pre + r
  {
    assert pre == [pre[0]] + pre[1..];
  }

  /** One group at the head is dropped as a whole. */
  lemma RemoveGroupsSkip(s: string, open: char, close: char, e: int)
    requires s != [] && s[0] == open && GroupEnd(s[1..], close) == e >= 0
    requires 1 + e < |s| && s[1 + e] == close
    ensures RemoveGroups(s, open, close) == RemoveGroups(s[e + 2..], open, close)
  {
  }

  /** A head that opens no group is kept. */
  lemma RemoveGroupsKeep(s: string, open: char, close: char)
    requires s != [] && s[0] != open
    ensures RemoveGroups(s, open, close) == [s[0]] + RemoveGroups(s[1..], open, close)
  {
  }

  /** Where the group search stops in text that has no closing character
      and no line break before `b`, when `b` is empty or starts a new line. */
  lemma {:induction false} GroupEndOpen(a: string, b: string, close: char)
    requires close !in a && '\n' !in a && (b == [] || b[0] == '\n')
    ensures GroupEnd(a + b, close) == if b == [] then -1 else |a|
  {
    if a != [] {
      assert (a + b)[1..] == a[1..] + b;
      GroupEndOpen(a[1..], b, close);
    } else {
      assert a + b == b;
    }
  }

  /** An opening character with no closing one after it on its line stays,
      as re.sub leaves an unmatched `[`: whether the line ends the text
      (b empty) or a line break cuts it (b starts with one). */
  lemma RemoveGroupsUnclosed(a: string, b: string, open: char, close: char)
    requires close != '\n' && close !in a && '\n' !in a && (b == [] || b[0] == '\n')
    ensures RemoveGroups([open] + a + b, open, close) == [open] + RemoveGroups(a + b, open, close)
  {
    var s := [open] + a + b;
    assert s[1..] == a + b;
    GroupEndOpen(a, b, close);
    if b != [] {
      assert s[1 + |a|] == b[0];
    }
  }

  /** Text without a closing character comes out unchanged. */
  lemma {:induction false} RemoveGroupsNoClose(s: string, open: char, close: char)
    requires close != '\n' && close !in s
    ensures RemoveGroups(s, open, close) == s
    decreases |s|
  {
    if s != [] {
      assert close !in s[1..];
      RemoveGroupsNoClose(s[1..], open, close);
      if s[0] == open {
        var j := GroupEnd(s[1..], close);
        if j >= 0 {
          assert s[1 + j] == s[1..][j];
          assert s[1..][j] == '\n';
        }
      }
      assert s == [s[0]] + s[1..];
    }
  }

  /** The characters [a-zA-Z0-9\s] that the clean-up keeps. */
  predicate IsTitleChar(c: char) {
    IsAsciiLetter(c) || IsAsciiDigit(c) || IsSpace(c)
  }

  /** re.sub(r'[^a-zA-Z0-9\s]', ' ', s). */
  function KeepTitleChars(s: string): (r: string)
    ensures |r| == |s|
    ensures forall i :: 0 <= i < |s| ==> r[i] == if IsTitleChar(s[i]) then s[i] else ' '
  {
    if s == [] then [] else [if IsTitleChar(s[0]) then s[0] else ' '] + KeepTitleChars(s[1..])
  }

  /** The three substitutions of extract_anime_info, each followed by strip(). */
  function CleanTitle(raw: string): string {
    var t1 := Strip(RemoveGroups(raw, '[', ']'));
    var t2 := Strip(RemoveGroups(t1, '(', ')'));
    Strip(KeepTitleChars(t2))
  }

  predicate IsCleanTitle(t: string) {
    NoSpaceAtEnds(t) && forall i :: 0 <= i < |t| ==> IsTitleChar(t[i])
  }

  /** The cleaned title holds only ASCII letters, digits and whitespace and
      has no whitespace at either end. */
  lemma CleanTitleIsClean(raw: string)
    ensures IsCleanTitle(CleanTitle(raw))
  {
    var t1 := Strip(RemoveGroups(raw, '[', ']'));
    var t2 := Strip(RemoveGroups(t1, '(', ')'));
    var k := KeepTitleChars(t2);
    StripKeepsChars(k);
    var r := Strip(k);
    forall i | 0 <= i < |r| ensures IsTitleChar(r[i]) {
      assert r[i] in k;
      var j :| 0 <= j < |k| && k[j] == r[i];
      assert IsTitleChar(k[j]);
    }
  }

  /** re.sub(r'[-:]', ' ', title).strip(): the fallback search string. */
  function FallbackTitle(title: string): string {
    Strip(DashColonToSpace(title))
  }

  function DashColonToSpace(s: string): (r: string)
    ensures |r| == |s|
    ensures forall i :: 0 <= i < |s| ==> r[i] == if s[i] == '-' || s[i] == ':' then ' ' else s[i]
  {
    if s == [] then [] else [if s[0] == '-' || s[0] == ':' then ' ' else s[0]] + DashColonToSpace(s[1..])
  }

  /** The fallback query searches the very string the first query searched:
      a cleaned title has no '-' or ':' and no surrounding whitespace left. */
  lemma FallbackOfCleanTitle(raw: string)
    ensures FallbackTitle(CleanTitle(raw)) == CleanTitle(raw)
  {
    CleanTitleIsClean(raw);
    FallbackOfClean(CleanTitle(raw));
  }

  lemma FallbackOfClean(t: string)
    requires IsCleanTitle(t)
    ensures FallbackTitle(t) == t
  {
    forall i | 0 <= i < |t| ensures t[i] != '-' && t[i] != ':' {
      TitleCharNotDash(t[i]);
    }
    assert DashColonToSpace(t) == t;
    StripNoop(t);
  }

  lemma TitleCharNotDash(c: char)
    requires IsTitleChar(c)
    ensures c != '-' && c != ':'
  {
  }

  /** The clean-up leaves a title that is already clean unchanged. */
  lemma CleanTitleOfClean(t: string)
    requires IsCleanTitle(t)
    ensures CleanTitle(t) == t
  {
    CleanHasNoBrackets(t);
    RemoveGroupsAbsent(t, '[', ']');
    StripNoop(t);
    RemoveGroupsAbsent(t, '(', ')');
    KeepTitleCharsOfClean(t);
  }

  lemma CleanHasNoBrackets(t: string)
    requires IsCleanTitle(t)
    ensures '[' !in t && '(' !in t
  {
    forall i | 0 <= i < |t| ensures t[i] != '[' && t[i] != '(' {
      assert IsTitleChar(t[i]);
    }
  }

  lemma KeepTitleCharsOfClean(t: string)
    requires IsCleanTitle(t)
    ensures KeepTitleChars(t) == t
  {
    assert forall i :: 0 <= i < |t| ==> KeepTitleChars(t)[i] == t[i];
  }

  lemma UnknownIsClean()
    ensures IsCleanTitle("Unknown")
  {
    var u := "Unknown";
    assert u[0] == 'U' && u[6] == 'n';
    forall i | 0 <= i < |u| ensures IsTitleChar(u[i]) {
      assert IsAsciiLetter(u[i]);
    }
  }

  /** Cleaning the default title leaves it as it is. */
  lemma CleanUnknown()
    ensures CleanTitle("Unknown") == "Unknown"
  {
    UnknownIsClean();
    CleanTitleOfClean("Unknown");
  }

  lemma ZFillOne()
    ensures ZFill("1", 2) == "01"
  {
    assert Repeat('0', 1) == "0";
  }

  /* ---------------- extract_anime_info ---------------- */

  datatype AnimeInfo = AnimeInfo(title: string, season: string, episode: string)

  /** A value of anitopy's result dictionary: a string, or a list of
      strings for a field it found more than once (an episode range such
      as "01-02" gives a list of episode numbers). */
  datatype Field = One(text: string) | Many(items: seq<string>)

  /** anitopy's result dictionary. */
  type Parse = map<string, Field>

  /** The field is present and holds a list. */
  predicate IsList(video: Parse, key: string) {
    key in video && video[key].Many?
  }

  /** One of the three fields the renames read holds a list. String
      methods (`re.sub`, `zfill`) on a list raise, and every such error
      lands in the caller's catch-all: extract_anime_info returns
      (None, None, None), the mkv.py rename returns the original path. */
  predicate ListValued(video: Parse) {
    IsList(video, "anime_title") || IsList(video, "anime_season") || IsList(video, "episode_number")
  }

  /** dict.get(key, default) on a string-valued field. */
  function Get(m: Parse, key: string, default: string): string {
    if key in m && m[key].One? then m[key].text else default
  }

  /** extract_anime_info, given the parser's dictionary for the file name
      (with '_' already replaced by ' '). An empty dictionary or an empty
      title gives nothing; the title may still come out empty after the
      clean-up, which the caller checks. A list in one of the fields read
      raises on the way (an empty title list is caught first by the
      truthiness test, with the same result). The default title "Unknown"
      comes through the clean-up as it is (CleanUnknown), so it is used
      directly. */
  function ExtractAnimeInfo(video: Parse): Option<AnimeInfo> {
    if video == map[] || ListValued(video) || Get(video, "anime_title", "Unknown") == [] then None
    else
      var title := if "anime_title" in video then CleanTitle(video["anime_title"].text) else "Unknown";
      Some(AnimeInfo(title,
                     ZFill(Get(video, "anime_season", "1"), 2),
                     ZFill(Get(video, "episode_number", "01"), 2)))
  }

  /** extract_anime_info gives nothing exactly for an empty dictionary, a
      list in a field it reads, or an empty title. */
  lemma ExtractAnimeInfoNone(video: Parse)
    ensures ExtractAnimeInfo(video).None? <==>
              video == map[] || ListValued(video) || Get(video, "anime_title", "Unknown") == []
    ensures IsList(video, "episode_number") ==> ExtractAnimeInfo(video).None?
  {
  }

  /** The title it gives is clean. */
  lemma ExtractAnimeInfoTitle(video: Parse)
    requires ExtractAnimeInfo(video).Some?
    ensures IsCleanTitle(ExtractAnimeInfo(video).value.title)
  {
    if "anime_title" in video {
      CleanTitleIsClean(video["anime_title"].text);
    } else {
      UnknownIsClean();
    }
  }

  /** Season and episode are at least two characters long, "01" when the
      parser found none; a missing title is "Unknown" and a present one
      is cleaned. */
  lemma ExtractAnimeInfoDefaults(video: Parse)
    requires video != map[]
    ensures ExtractAnimeInfo(video).Some? <==> !ListValued(video) && Get(video, "anime_title", "Unknown") != []
    ensures ExtractAnimeInfo(video).Some? ==>
              |ExtractAnimeInfo(video).value.season| >= 2 && |ExtractAnimeInfo(video).value.episode| >= 2
    ensures "anime_title" !in video && !ListValued(video) ==> ExtractAnimeInfo(video).value.title == "Unknown"
    ensures "anime_title" in video && !ListValued(video) && video["anime_title"].text != [] ==>
              ExtractAnimeInfo(video).value.title == CleanTitle(video["anime_title"].text)
    ensures ExtractAnimeInfo(video).Some? && "anime_season" !in video ==> ExtractAnimeInfo(video).value.season == "01"
    ensures ExtractAnimeInfo(video).Some? && "episode_number" !in video ==> ExtractAnimeInfo(video).value.episode == "01"
  {
    ZFillOne();
  }

  /* ---------------- resolution, prefix, output name ---------------- */

  /** The length of the run of ASCII digits at the start of s. */
  function DigitRun(s: string): (n: nat)
    ensures n <= |s|
    ensures forall i :: 0 <= i < n ==> IsAsciiDigit(s[i])
    ensures n < |s| ==> !IsAsciiDigit(s[n])
  {
    if s == [] || !IsAsciiDigit(s[0]) then 0 else 1 + DigitRun(s[1..])
  }

  /** A resolution token: one or more digits followed by 'p'. */
  predicate IsResolutionToken(r: string) {
    |r| >= 2 && r[|r| - 1] == 'p' && forall i :: 0 <= i < |r| - 1 ==> IsAsciiDigit(r[i])
  }

  /** A match of `\[(\d+p)\]` at the start of s, as its group 1. */
  function ResolutionAt(s: string): Option<string> {
    if s != [] && s[0] == '[' then
      var n := DigitRun(s[1..]);
      if n >= 1 && n + 2 < |s| && s[n + 1] == 'p' && s[n + 2] == ']' then Some(s[1..n + 2]) else None
    else None
  }

  /** ResolutionAt finds exactly the bracketed resolution tokens. */
  lemma ResolutionAtSpec(s: string, r: string)
    ensures ResolutionAt(s) == Some(r) <==> IsResolutionToken(r) && StartsWith(s, "[" + r + "]")
  {
    if IsResolutionToken(r) && StartsWith(s, "[" + r + "]") {
      TokenIsFound(s, r);
    }
    if ResolutionAt(s) == Some(r) {
      FoundIsToken(s, r);
    }
  }

  lemma TokenIsFound(s: string, r: string)
    requires IsResolutionToken(r) && StartsWith(s, "[" + r + "]")
    ensures ResolutionAt(s) == Some(r)
  {
    var n := |r| - 1;
    var tok := "[" + r + "]";
    assert s[..|tok|] == tok;
    forall i | 0 <= i <= n + 1 ensures s[1 + i] == tok[1 + i] && tok[1 + i] == (if i <= n then r[i] else ']') {
      assert s[..|tok|][1 + i] == s[1 + i];
    }
    assert s[0] == tok[0] by {
      assert s[..|tok|][0] == s[0];
    }
    assert s[1..][n] == 'p';
    DigitRunPrefix(s[1..], n);
    assert s[1..n + 2] == r;
  }

  lemma FoundIsToken(s: string, r: string)
    requires ResolutionAt(s) == Some(r)
    ensures IsResolutionToken(r) && StartsWith(s, "[" + r + "]")
  {
    var n := DigitRun(s[1..]);
    assert r == s[1..n + 2];
    assert forall i :: 0 <= i < n ==> r[i] == s[1..][i];
    assert s[..n + 3] == "[" + r + "]";
  }

  lemma {:induction false} DigitRunPrefix(s: string, n: nat)
    requires n < |s| && !IsAsciiDigit(s[n])
    requires forall i :: 0 <= i < n ==> IsAsciiDigit(s[i])
    ensures DigitRun(s) == n
  {
    if n > 0 {
      DigitRunPrefix(s[1..], n - 1);
    }
  }

  /** re.search(r"\[(\d+p)\]", s): the leftmost match. */
  function FirstResolution(s: string): Option<string>
    decreases |s|
  {
    if s == [] then None
    else if ResolutionAt(s).Some? then ResolutionAt(s)
    else FirstResolution(s[1..])
  }

  /** The leftmost-match search finds the first position where a token
      starts, and finds nothing only when no position has one. */
  lemma {:induction false} FirstResolutionSpec(s: string)
    ensures FirstResolution(s).None? <==> forall i :: 0 <= i < |s| ==> ResolutionAt(s[i..]).None?
    ensures FirstResolution(s).Some? ==>
              exists i :: 0 <= i < |s| && ResolutionAt(s[i..]) == FirstResolution(s)
                          && forall k :: 0 <= k < i ==> ResolutionAt(s[k..]).None?
    decreases |s|
  {
    if s != [] {
      assert s[0..] == s;
      if ResolutionAt(s).None? {
        FirstResolutionSpec(s[1..]);
        forall i | 1 <= i < |s| ensures s[i..] == s[1..][i - 1..] {}
        if FirstResolution(s).Some? {
          var i :| 0 <= i < |s[1..]| && ResolutionAt(s[1..][i..]) == FirstResolution(s[1..])
                   && forall k :: 0 <= k < i ==> ResolutionAt(s[1..][k..]).None?;
          assert ResolutionAt(s[i + 1..]) == FirstResolution(s);
          forall k | 0 <= k < i + 1 ensures ResolutionAt(s[k..]).None? {
            if k > 0 {
              assert s[k..] == s[1..][k - 1..];
            }
          }
        }
      }
    }
  }

  /** The resolution used in the new name: the first token, else "1080p". */
  function Resolution(filename: string): string {
    match FirstResolution(filename)
    case Some(r) => r
    case None => "1080p"
  }

  /** The resolution is always a token, and it is the default exactly when
      the file name holds no bracketed token of its own. */
  lemma ResolutionSpec(filename: string)
    ensures IsResolutionToken(Resolution(filename))
    ensures FirstResolution(filename).None? ==> Resolution(filename) == "1080p"
    ensures FirstResolution(filename).Some? ==> Contains(filename, "[" + Resolution(filename) + "]")
  {
    match FirstResolution(filename)
    case Some(r) => FoundResolution(filename);
    case None => DefaultResolutionIsToken();
  }

  lemma DefaultResolutionIsToken()
    ensures IsResolutionToken("1080p")
  {
    var d := "1080p";
    assert d[0] == '1' && d[1] == '0' && d[2] == '8' && d[3] == '0' && d[4] == 'p';
  }

  lemma {:induction false} FoundResolution(filename: string)
    requires FirstResolution(filename).Some?
    ensures IsResolutionToken(FirstResolution(filename).value)
    ensures Contains(filename, "[" + FirstResolution(filename).value + "]")
    decreases |filename|
  {
    var r := FirstResolution(filename).value;
    if ResolutionAt(filename).Some? {
      ResolutionAtSpec(filename, r);
    } else {
      FoundResolution(filename[1..]);
    }
  }

  /** The service prefix: "[HD]" when the service, lower-cased, is "hidive". */
  function ServicePrefix(service: string): string {
    if Lower(service) == "hidive" then "[HD]" else "[CR]"
  }

  lemma ServicePrefixSpec(service: string)
    ensures ServicePrefix(service) == "[HD]" <==> Lower(service) == "hidive"
    ensures ServicePrefix(service) == "[CR]" <==> Lower(service) != "hidive"
  {
  }

  /** f"{prefix} {title} - S{season}E{episode} [{resolution}].mkv" */
  function OutputName(prefix: string, title: string, season: string, episode: string, resolution: string): string {
    prefix + " " + title + " - S" + season + "E" + episode + " [" + resolution + "].mkv"
  }

  /** The result of auto_rename_with_anitopy: the path it returns, the
      thumbnail saved next to it and the shortened title, together with
      the path os.rename moved the file to, when the rename ran. */
  datatype Renamed = Renamed(path: string, thumbnail: Option<string>, title: Option<string>, moved: Option<string>)

  /** The returned path is not where the file is: it was moved, and the
      old path came back. */
  predicate Stale(r: Renamed) {
    r.moved.Some? && r.path != r.moved.value
  }

  /** The cover lookup of auto_rename_with_anitopy: the title first, and
      the fallback string only when the first lookup gave no URL. */
  function CoverLookup(title: string, search: CoverSearch): CoverResult {
    var first := search(title, 0);
    if first.Found() || first.CoverFailed? then first else search(FallbackTitle(title), 1)
  }

  /** The fallback is consulted exactly when the first lookup returned
      normally without a URL, and a URL found first is kept. */
  lemma CoverLookupSpec(title: string, search: CoverSearch)
    ensures search(title, 0).Found() ==> CoverLookup(title, search) == search(title, 0)
    ensures search(title, 0).CoverFailed? ==> CoverLookup(title, search).CoverFailed?
    ensures !search(title, 0).Found() && !search(title, 0).CoverFailed? ==>
              CoverLookup(title, search) == search(FallbackTitle(title), 1)
    ensures CoverLookup(title, search).Found() ==>
              search(title, 0).Found() || search(FallbackTitle(title), 1).Found()
  {
  }

  /** `auto_rename_with_anitopy` in ki.py, kot.py and rot.py. The parser's
      dictionary, whether os.rename succeeds, the catalog and whether the
      cover download succeeds are inputs. An error escaping a lookup lands
      in the function's catch-all and returns the original path, as the
      source does, although the file has already been moved by then. */
  function AutoRename(filePath: string, service: string, video: Parse,
                      renameOk: bool, search: CoverSearch, downloadOk: bool): Renamed
  {
    var info := ExtractAnimeInfo(video);
    if info.None? || info.value.title == [] || !renameOk then Renamed(filePath, None, None, None)
    else
      var short := ShortenAnimeName(info.value.title, 25);
      var name := OutputName(ServicePrefix(service), short, info.value.season, info.value.episode,
                             Resolution(Basename(filePath)));
      var newPath := PathJoin(Dirname(filePath), name);
      var lookup := CoverLookup(info.value.title, search);
      if lookup.CoverFailed? then Renamed(filePath, None, None, Some(newPath))
      else if lookup.Found() && downloadOk then
        Renamed(newPath, Some(Splitext(newPath).0 + "_cover.jpg"), Some(short), Some(newPath))
      else Renamed(newPath, None, Some(short), Some(newPath))
  }

  /** The original path comes back, with no thumbnail and no title,
      exactly when the name could not be parsed (which covers a list in a
      field read), the rename failed or a lookup raised; a list-valued
      field means nothing is moved at all. */
  lemma AutoRenameFailure(filePath: string, service: string, video: Parse,
                          renameOk: bool, search: CoverSearch, downloadOk: bool)
    ensures var r := AutoRename(filePath, service, video, renameOk, search, downloadOk);
            var info := ExtractAnimeInfo(video);
            r.title.None? <==>
              info.None? || info.value.title == [] || !renameOk || CoverLookup(info.value.title, search).CoverFailed?
    ensures var r := AutoRename(filePath, service, video, renameOk, search, downloadOk);
            r.title.None? ==> r.path == filePath && r.thumbnail.None?
    ensures ListValued(video) ==> AutoRename(filePath, service, video, renameOk, search, downloadOk) == Renamed(filePath, None, None, None)
  {
  }

  /** os.rename runs exactly when the name was parsed and the rename
      succeeds; the path returned is then the new one, unless a lookup
      raised afterwards: then the old path comes back although the file is
      no longer there (unless the new name equals the old). */
  lemma AutoRenameMoved(filePath: string, service: string, video: Parse,
                        renameOk: bool, search: CoverSearch, downloadOk: bool)
    ensures var r := AutoRename(filePath, service, video, renameOk, search, downloadOk);
            var info := ExtractAnimeInfo(video);
            r.moved.Some? <==> info.Some? && info.value.title != [] && renameOk
    ensures var r := AutoRename(filePath, service, video, renameOk, search, downloadOk);
            r.moved.Some? && r.title.Some? ==> r.path == r.moved.value
    ensures var r := AutoRename(filePath, service, video, renameOk, search, downloadOk);
            var info := ExtractAnimeInfo(video);
            Stale(r) <==> r.moved.Some? && CoverLookup(info.value.title, search).CoverFailed? && r.moved.value != filePath
  {
  }

  /** A renamed file sits in the same directory under the output name built
      from the service prefix, the shortened title (at most 25 characters),
      season, episode and the resolution found in the old name; when season
      and episode hold no '/', that name is the new basename. */
  lemma AutoRenameName(filePath: string, service: string, video: Parse,
                       renameOk: bool, search: CoverSearch, downloadOk: bool)
    requires AutoRename(filePath, service, video, renameOk, search, downloadOk).title.Some?
    ensures var r := AutoRename(filePath, service, video, renameOk, search, downloadOk);
            var info := ExtractAnimeInfo(video).value;
            var name := OutputName(ServicePrefix(service), r.title.value, info.season, info.episode,
                                   Resolution(Basename(filePath)));
            r.title.value == ShortenAnimeName(info.title, 25)
            && |r.title.value| <= 25
            && r.path == PathJoin(Dirname(filePath), name)
            && ('/' !in info.season && '/' !in info.episode ==> Basename(r.path) == name)
  {
    var info := ExtractAnimeInfo(video).value;
    ShortenFits(info.title, 25);
    ExtractAnimeInfoTitle(video);
    ResolutionSpec(Basename(filePath));
    var short := ShortenAnimeName(info.title, 25);
    var res := Resolution(Basename(filePath));
    var name := OutputName(ServicePrefix(service), short, info.season, info.episode, res);
    NameHasNoSlash(service, info.title, short, info.season, info.episode, res);
    if '/' !in info.season && '/' !in info.episode {
      BasenameOfJoin(Dirname(filePath), name);
    }
  }

  /** A thumbnail is returned exactly when the file was renamed, a lookup
      found a URL and the download succeeded, and it is the new path with
      ".mkv" replaced by "_cover.jpg". */
  lemma AutoRenameThumbnail(filePath: string, service: string, video: Parse,
                            renameOk: bool, search: CoverSearch, downloadOk: bool)
    ensures var r := AutoRename(filePath, service, video, renameOk, search, downloadOk);
            var info := ExtractAnimeInfo(video);
            r.thumbnail.Some? <==>
              r.title.Some? && CoverLookup(info.value.title, search).Found() && downloadOk
    ensures var r := AutoRename(filePath, service, video, renameOk, search, downloadOk);
            r.thumbnail.Some? ==> EndsWith(r.path, ".mkv") && r.thumbnail.value == r.path[..|r.path| - 4] + "_cover.jpg"
  {
    var r := AutoRename(filePath, service, video, renameOk, search, downloadOk);
    if r.thumbnail.Some? {
      var info := ExtractAnimeInfo(video).value;
      var short := ShortenAnimeName(info.title, 25);
      var name := OutputName(ServicePrefix(service), short, info.season, info.episode,
                             Resolution(Basename(filePath)));
      NameHasNoSlash(service, info.title, short, info.season, info.episode, Resolution(Basename(filePath)));
      JoinEndsWith(Dirname(filePath), name);
      MkvSuffix(r.path, name);
      SplitextMkv(r.path);
    }
  }

  /** os.path.join(dir, name) ends with name. */
  lemma JoinEndsWith(dir: string, name: string)
    ensures EndsWith(PathJoin(dir, name), name)
  {
    var p := PathJoin(dir, name);
    if !StartsWith(name, "/") {
      var pre := if dir == [] || EndsWith(dir, "/") then dir else dir + "/";
      assert p == pre + name;
      assert p[|p| - |name|..] == name;
    }
  }

  /** A path that ends with one of the output names ends in "].mkv". */
  lemma MkvSuffix(p: string, name: string)
    requires |name| >= 5 && EndsWith(name, "].mkv") && EndsWith(p, name)
    ensures |p| >= 5 && EndsWith(p, ".mkv") && p[|p| - 5] == ']'
  {
    assert p[|p| - 5..] == name[|name| - 5..];
    assert p[|p| - 5..] == "].mkv";
  }

  /** The output name ends in "].mkv" and, for a cleaned title, has no '/'
      when neither season nor episode has one. */
  lemma NameHasNoSlash(service: string, title: string, short: string, season: string, episode: string, res: string)
    ensures var name := OutputName(ServicePrefix(service), short, season, episode, res);
            |name| >= 5 && EndsWith(name, "].mkv") && name != []
    ensures IsCleanTitle(title) && short == ShortenAnimeName(title, 25) && '/' !in season && '/' !in episode
            && IsResolutionToken(res) ==>
              '/' !in OutputName(ServicePrefix(service), short, season, episode, res)
  {
    var prefix := ServicePrefix(service);
    var head := prefix + " " + short + " - S" + season + "E" + episode + " [" + res;
    assert OutputName(prefix, short, season, episode, res) == head + "].mkv";
    EndsWithAppend(head, "].mkv");
    if IsCleanTitle(title) && short == ShortenAnimeName(title, 25) && '/' !in season && '/' !in episode
       && IsResolutionToken(res) {
      ShortHasNoSlash(title);
      ResolutionHasNoSlash(res);
      assert '/' !in prefix;
      OutputNameNoSlash(prefix, short, season, episode, res);
    }
  }

  /** The output name holds a '/' only when one of its parts does. */
  lemma OutputNameNoSlash(prefix: string, short: string, season: string, episode: string, res: string)
    requires '/' !in prefix && '/' !in short && '/' !in season && '/' !in episode && '/' !in res
    ensures '/' !in OutputName(prefix, short, season, episode, res)
  {
  }

  lemma ShortHasNoSlash(title: string)
    requires IsCleanTitle(title)
    ensures '/' !in ShortenAnimeName(title, 25)
  {
    var short := ShortenAnimeName(title, 25);
    ShortenedStaysClean(title);
    forall i | 0 <= i < |short| ensures short[i] != '/' {
      if short[i] in title {
        var j :| 0 <= j < |title| && title[j] == short[i];
        assert IsTitleChar(title[j]);
      }
    }
  }

  lemma ResolutionHasNoSlash(res: string)
    requires IsResolutionToken(res)
    ensures '/' !in res
  {
    forall i | 0 <= i < |res| ensures res[i] != '/' {
      if i < |res| - 1 {
        assert IsAsciiDigit(res[i]);
      }
    }
  }

  /** Every character of a shortened title is a character of the title or
      a dot of the ellipsis. */
  lemma ShortenedStaysClean(title: string)
    ensures forall i :: 0 <= i < |ShortenAnimeName(title, 25)| ==>
              ShortenAnimeName(title, 25)[i] in title || ShortenAnimeName(title, 25)[i] == '.'
  {
    var r := ShortenAnimeName(title, 25);
    if |title| > 25 {
      var seg := FirstSegment(title);
      var head := Strip(seg);
      StripKeepsChars(seg);
      forall i | 0 <= i < |head| ensures head[i] in title {
        assert head[i] in seg;
        var j :| 0 <= j < |seg| && seg[j] == head[i];
        assert title[j] == seg[j];
      }
      if |head| > 25 {
        forall i | 0 <= i < |r| ensures r[i] in title || r[i] == '.' {
          if i < 22 {
            assert r[i] == head[i];
          }
        }
      }
    }
  }

  /* ---------------- mkv.py: sanitize_filename and naming ---------------- */

  /** The characters sanitize_filename replaces: < > : " / \ | ? * */
  predicate IsUnsafe(c: char) {
    c == '<' || c == '>' || c == ':' || c == '"' || c == '/' || c == '\\' || c == '|' || c == '?' || c == '*'
  }

  /** sanitize_filename: re.sub(r'[<>:"/\\|?*]', '_', s). */
  function Sanitize(s: string): (r: string)
    ensures |r| == |s|
    ensures forall i :: 0 <= i < |s| ==> r[i] == if IsUnsafe(s[i]) then '_' else s[i]
  {
    if s == [] then [] else [if IsUnsafe(s[0]) then '_' else s[0]] + Sanitize(s[1..])
  }

  /** The sanitized name holds none of the unsafe characters, and
      sanitizing twice is sanitizing once. */
  lemma SanitizeSpec(s: string)
    ensures forall i :: 0 <= i < |Sanitize(s)| ==> !IsUnsafe(Sanitize(s)[i])
    ensures Sanitize(Sanitize(s)) == Sanitize(s)
    ensures (forall i :: 0 <= i < |s| ==> !IsUnsafe(s[i])) ==> Sanitize(s) == s
  {
  }

  /** ["Sub", "Dual", "Tri"][min(count, 2)] */
  function AudioTag(count: nat): string {
    ["Sub", "Dual", "Tri"][Min(count, 2)]
  }

  /** get_audio_streams_count: one line of ffprobe output per audio stream
      when ffprobe exits with 0, else 0. */
  function AudioStreamCount(exitCode: int, stdoutLines: seq<string>): nat {
    if exitCode == 0 then |stdoutLines| else 0
  }

  lemma AudioTagSpec(exitCode: int, stdoutLines: seq<string>)
    ensures var tag := AudioTag(AudioStreamCount(exitCode, stdoutLines));
            (tag == "Sub" <==> exitCode != 0 || |stdoutLines| == 0)
            && (tag == "Dual" <==> exitCode == 0 && |stdoutLines| == 1)
            && (tag == "Tri" <==> exitCode == 0 && |stdoutLines| >= 2)
  {
  }

  /** The series title of the mkv.py rename: sanitized, and only when longer
      than 30 characters cut to 30 and stripped. */
  function MkvTitle(video: Parse): string {
    var t := Sanitize(Get(video, "anime_title", "Unknown"));
    if |t| > 30 then Strip(t[..30]) else t
  }

  lemma MkvTitleSpec(video: Parse)
    ensures var t := Sanitize(Get(video, "anime_title", "Unknown"));
            |t| <= 30 ==> MkvTitle(video) == t
    ensures var t := Sanitize(Get(video, "anime_title", "Unknown"));
            |t| > 30 ==> MkvTitle(video) == Strip(t[..30]) && |MkvTitle(video)| <= 30
    ensures forall i :: 0 <= i < |MkvTitle(video)| ==> !IsUnsafe(MkvTitle(video)[i])
  {
    var t := Sanitize(Get(video, "anime_title", "Unknown"));
    SanitizeSpec(Get(video, "anime_title", "Unknown"));
    if |t| > 30 {
      var r := Strip(t[..30]);
      StripKeepsChars(t[..30]);
      forall i | 0 <= i < |r| ensures !IsUnsafe(r[i]) {
        assert r[i] in t[..30];
        var j :| 0 <= j < 30 && t[..30][j] == r[i];
        assert t[j] == r[i];
      }
    }
  }

  /** f"{series_title} S{season}E{episode} [{audio_type}].mkv" */
  function MkvOutputName(title: string, season: string, episode: string, audio: string): string {
    title + " S" + season + "E" + episode + " [" + audio + "].mkv"
  }

  /** `auto_rename_with_anitopy` in mkv.py: the new path and the thumbnail.
      The catalog is asked once, with the sanitized title; that lookup
      absorbs every error of its own, so an error there means no URL. Any
      other error in the function returns the original path: a list in
      the title, season or episode raises before the rename. */
  function MkvRename(filePath: string, video: Parse, audioCount: nat,
                     renameOk: bool, search: CoverSearch, downloadOk: bool): (string, Option<string>)
  {
    if video == map[] || ListValued(video) || !renameOk then (filePath, None)
    else
      var newPath := PathJoin(Dirname(filePath), MkvName(video, audioCount));
      if search(MkvTitle(video), 0).Found() && downloadOk then (newPath, Some(Splitext(newPath).0 + "_cover.jpg"))
      else (newPath, None)
  }

  /** The output name of the mkv.py rename. */
  function MkvName(video: Parse, audioCount: nat): string {
    MkvOutputName(MkvTitle(video), ZFill(Get(video, "anime_season", "1"), 2),
                  ZFill(Get(video, "episode_number", "01"), 2), AudioTag(audioCount))
  }

  /** When the parser found string fields and the rename succeeded, the
      file is in the same directory under a name ending in the audio tag. */
  lemma MkvRenamePath(filePath: string, video: Parse, audioCount: nat,
                      renameOk: bool, search: CoverSearch, downloadOk: bool)
    ensures var r := MkvRename(filePath, video, audioCount, renameOk, search, downloadOk);
            video != map[] && !ListValued(video) && renameOk ==>
              r.0 == PathJoin(Dirname(filePath), MkvName(video, audioCount))
              && EndsWith(r.0, " [" + AudioTag(audioCount) + "].mkv")
  {
    if video != map[] && !ListValued(video) && renameOk {
      var name := MkvName(video, audioCount);
      var tail := " [" + AudioTag(audioCount) + "].mkv";
      MkvNameEnds(video, audioCount);
      JoinEndsWith(Dirname(filePath), name);
      EndsWithTrans(PathJoin(Dirname(filePath), name), name, tail);
    }
  }

  lemma MkvNameEnds(video: Parse, audioCount: nat)
    ensures EndsWith(MkvName(video, audioCount), " [" + AudioTag(audioCount) + "].mkv")
  {
    var head := MkvTitle(video) + " S" + ZFill(Get(video, "anime_season", "1"), 2)
                + "E" + ZFill(Get(video, "episode_number", "01"), 2);
    EndsWithLastThree(head, " [", AudioTag(audioCount), "].mkv");
  }

  lemma EndsWithTrans(p: string, name: string, tail: string)
    requires EndsWith(p, name) && EndsWith(name, tail)
    ensures EndsWith(p, tail)
  {
    assert p[|p| - |tail|..] == name[|name| - |tail|..];
  }

  /** The original path comes back, with no thumbnail, when the parser
      found nothing, a field read holds a list or the rename failed. A
      thumbnail exists exactly for a renamed file whose cover was found
      and downloaded, stored as "<new path minus .mkv>_cover.jpg". */
  lemma MkvRenameThumbnail(filePath: string, video: Parse, audioCount: nat,
                           renameOk: bool, search: CoverSearch, downloadOk: bool)
    ensures var r := MkvRename(filePath, video, audioCount, renameOk, search, downloadOk);
            video == map[] || ListValued(video) || !renameOk ==> r == (filePath, None)
    ensures var r := MkvRename(filePath, video, audioCount, renameOk, search, downloadOk);
            r.1.Some? <==>
              video != map[] && !ListValued(video) && renameOk && search(MkvTitle(video), 0).Found() && downloadOk
    ensures var r := MkvRename(filePath, video, audioCount, renameOk, search, downloadOk);
            r.1.Some? ==> r.1.value == r.0[..|r.0| - 4] + "_cover.jpg"
  {
    if video != map[] && !ListValued(video) && renameOk && search(MkvTitle(video), 0).Found() && downloadOk {
      MkvCoverPath(filePath, video, audioCount);
    }
  }

  /** The renamed path ends in "].mkv", so splitext cuts exactly ".mkv". */
  lemma MkvCoverPath(filePath: string, video: Parse, audioCount: nat)
    ensures var newPath := PathJoin(Dirname(filePath), MkvName(video, audioCount));
            |newPath| >= 4 && Splitext(newPath).0 == newPath[..|newPath| - 4]
  {
    var name := MkvName(video, audioCount);
    var newPath := PathJoin(Dirname(filePath), name);
    var head := MkvTitle(video) + " S" + ZFill(Get(video, "anime_season", "1"), 2)
                + "E" + ZFill(Get(video, "episode_number", "01"), 2) + " [" + AudioTag(audioCount);
    assert name == head + "].mkv";
    EndsWithAppend(head, "].mkv");
    JoinEndsWith(Dirname(filePath), name);
    MkvSuffix(newPath, name);
    SplitextMkv(newPath);
  }

  /* ---------------- mkv.py: the name wget saved a download under ---------------- */

  /** A line of wget's log that reports the saved file: it holds an opening
      quote '‘' and the text "’ saved". */
  predicate IsSavedLine(line: string) {
    '\U{2018}' in line && Contains(line, "\U{2019} saved")
  }

  /** line.split("‘")[1].split("’")[0], sanitized: the quoted file name. */
  function ReportedName(line: string): string
    requires '\U{2018}' in line
  {
    Sanitize(Split(Split(line, '\U{2018}')[1], '\U{2019}')[0])
  }

  /** The name reported by the first saved-file line, if any. */
  function SavedName(lines: seq<string>): Option<string> {
    if lines == [] then None
    else if IsSavedLine(lines[0]) then Some(ReportedName(lines[0]))
    else SavedName(lines[1..])
  }

  /** The scan of download_video_with_actual_name over wget's error output,
      line by line; a failed wget reports nothing. The absolute path the
      source returns is the current directory joined with this name. */
  method DownloadedFilename(exitCode: int, stderr: string) returns (name: Option<string>)
    ensures name == if exitCode == 0 then SavedName(Split(stderr, '\n')) else None
  {
    name := None;
    if exitCode == 0 {
      var lines := Split(stderr, '\n');
      var i := 0;
      while i < |lines|
        invariant 0 <= i <= |lines|
        invariant SavedName(lines[i..]) == SavedName(lines)
      {
        if IsSavedLine(lines[i]) {
          name := Some(ReportedName(lines[i]));
          return;
        }
        assert lines[i..][1..] == lines[i + 1..];
        i := i + 1;
      }
    }
  }

  /** A name is found exactly when some line reports a saved file, it comes
      from the first such line, and it holds no unsafe character and no
      quote. */
  lemma SavedNameSpec(lines: seq<string>)
    ensures SavedName(lines).None? <==> forall k :: 0 <= k < |lines| ==> !IsSavedLine(lines[k])
    ensures SavedName(lines).Some? ==>
              exists k :: 0 <= k < |lines| && IsSavedLine(lines[k]) && SavedName(lines).value == ReportedName(lines[k])
                          && forall j :: 0 <= j < k ==> !IsSavedLine(lines[j])
    ensures SavedName(lines).Some? ==> SafeReportedName(SavedName(lines).value)
  {
    if SavedName(lines).Some? {
      var k := SavedFirst(lines);
      ReportedNameSafe(lines[k]);
    } else {
      SavedNone(lines);
    }
  }

  /** Nothing is found only when no line reports a saved file. */
  lemma {:induction false} SavedNone(lines: seq<string>)
    requires SavedName(lines).None?
    ensures forall k :: 0 <= k < |lines| ==> !IsSavedLine(lines[k])
    decreases |lines|
  {
    if lines != [] {
      SavedNone(lines[1..]);
      forall k | 0 < k < |lines| ensures !IsSavedLine(lines[k]) {
        assert lines[k] == lines[1..][k - 1];
      }
    }
  }

  /** A name found comes from the first line reporting a saved file. */
  lemma {:induction false} SavedFirst(lines: seq<string>) returns (k: nat)
    requires SavedName(lines).Some?
    ensures k < |lines| && IsSavedLine(lines[k]) && SavedName(lines).value == ReportedName(lines[k])
    ensures forall j :: 0 <= j < k ==> !IsSavedLine(lines[j])
    decreases |lines|
  {
    if IsSavedLine(lines[0]) {
      k := 0;
    } else {
      var k1 := SavedFirst(lines[1..]);
      k := k1 + 1;
      assert lines[k] == lines[1..][k1];
      forall j | 0 < j < k ensures !IsSavedLine(lines[j]) {
        assert lines[j] == lines[1..][j - 1];
      }
    }
  }

  /** A name fit to be a file name in the working directory: no character
      of < > : " / \ | ? * and neither quote wget puts around it. */
  predicate SafeReportedName(n: string) {
    forall i :: 0 <= i < |n| ==> !IsUnsafe(n[i]) && n[i] != '\U{2018}' && n[i] != '\U{2019}'
  }

  lemma ReportedNameSafe(line: string)
    requires '\U{2018}' in line
    ensures SafeReportedName(ReportedName(line))
  {
    var inner := Split(line, '\U{2018}')[1];
    var n := Split(inner, '\U{2019}')[0];
    assert '\U{2018}' !in inner;
    assert '\U{2019}' !in n;
    var r := Sanitize(n);
    forall i | 0 <= i < |r| ensures !IsUnsafe(r[i]) && r[i] != '\U{2018}' && r[i] != '\U{2019}' {
      assert n[i] == inner[i];
      assert n[i] != '\U{2018}' && n[i] != '\U{2019}';
    }
  }
}
