/** File handling around the download: picking the newest ".mkv" of the
    download directory (`get_latest_file` in every script), the sign-track
    merge through a temporary file (`add_sign_subtitles`, ki.py) and the
    clean-up of the encoder bot (`cleanup_files`, mkv.py). The file system
    is a map from path to content; directory listings and timestamps are
    data. */
module Files {
  import opened Common
  import opened Text
  import opened Paths

  /* ---------------- get_latest_file ---------------- */

  /** A directory entry as listed, with the timestamp the script compares:
      the creation time in ki.py, kot.py, rot.py and rc.py, the
      modification time in bot.py. */
  datatype Entry = Entry(name: string, time: int)

  predicate IsMkv(e: Entry) {
    EndsWith(e.name, ".mkv")
  }

  /** Entry i is the newest ".mkv" entry and no earlier ".mkv" entry is as
      new: the one max() picks, and the one a stable descending sort puts
      first. */
  predicate IsFirstNewest(entries: seq<Entry>, i: int) {
    0 <= i < |entries| && IsMkv(entries[i])
    && (forall j :: 0 <= j < |entries| && IsMkv(entries[j]) ==> entries[j].time <= entries[i].time)
    && (forall j :: 0 <= j < i && IsMkv(entries[j]) ==> entries[j].time < entries[i].time)
  }

  /** There is at most one first newest entry. */
  lemma FirstNewestUnique(entries: seq<Entry>, i: int, k: int)
    requires IsFirstNewest(entries, i) && IsFirstNewest(entries, k)
    ensures i == k
  {
  }

  /** get_latest_file: None when the listing fails or holds no ".mkv"
      entry, else the directory joined with the first newest one. */
  method LatestFile(dir: string, listing: Option<seq<Entry>>) returns (latest: Option<string>)
    ensures listing.None? ==> latest.None?
    ensures listing.Some? ==>
              (latest.None? <==> forall j :: 0 <= j < |listing.value| ==> !IsMkv(listing.value[j]))
    ensures latest.Some? ==>
              listing.Some? && exists i :: IsFirstNewest(listing.value, i) && latest.value == PathJoin(dir, listing.value[i].name)
  {
    if listing.None? {
      return None;
    }
    var entries := listing.value;
    var best := -1;
    var k := 0;
    while k < |entries|
      invariant 0 <= k <= |entries|
      invariant -1 <= best < k
      invariant best == -1 <==> forall j :: 0 <= j < k ==> !IsMkv(entries[j])
      invariant best >= 0 ==> IsMkv(entries[best])
      invariant best >= 0 ==> forall j :: 0 <= j < k && IsMkv(entries[j]) ==> entries[j].time <= entries[best].time
      invariant best >= 0 ==> forall j :: 0 <= j < best && IsMkv(entries[j]) ==> entries[j].time < entries[best].time
    {
      if IsMkv(entries[k]) && (best == -1 || entries[k].time > entries[best].time) {
        best := k;
      }
      k := k + 1;
    }
    if best == -1 {
      latest := None;
    } else {
      assert IsFirstNewest(entries, best);
      latest := Some(PathJoin(dir, entries[best].name));
    }
  }

  /* ---------------- the file system ---------------- */

  /** The temporary output of the sign-track merge. */
  function TempPath(input: string): string {
    input + ".temp.mkv"
  }

  /** The files after add_sign_subtitles: unchanged when the sign file is
      missing; without the temporary file when mkvmerge failed; with the
      merged file in place of the input and no temporary file otherwise. */
  function SignMerged(files: map<string, string>, input: string, sign: string, mergeExit: int, merged: string): map<string, string> {
    if sign !in files then files
    else if mergeExit != 0 then files - {TempPath(input)}
    else (files - {TempPath(input)})[input := merged]
  }

  /** What add_sign_subtitles promises: it reports success exactly when the
      sign file exists and mkvmerge succeeded; on failure the input is
      untouched, on success it holds the merged file; no temporary file is
      left behind once the merge ran, and no other file changes. */
  lemma SignMergedSpec(files: map<string, string>, input: string, sign: string, mergeExit: int, merged: string)
    ensures var after := SignMerged(files, input, sign, mergeExit, merged);
            (sign !in files ==> after == files)
            && (sign in files ==> TempPath(input) !in after)
            && (sign in files && mergeExit != 0 ==>
                  (input in after <==> input in files) && (input in files ==> after[input] == files[input]))
            && (sign in files && mergeExit == 0 ==> input in after && after[input] == merged)
            && (forall p :: p != input && p != TempPath(input) ==>
                  (p in after <==> p in files) && (p in files ==> after[p] == files[p]))
  {
    assert input != TempPath(input) by {
      assert |TempPath(input)| == |input| + 9;
    }
  }

  /** The paths cleanup_files removes: the truthy ones that exist and
      whose removal does not raise. */
  function Cleaned(files: map<string, string>, paths: seq<Option<string>>, locked: set<string>): map<string, string> {
    map p | p in files && !(Some(p) in paths && p != [] && p !in locked) :: files[p]
  }

  /** The disk as the scripts change it. */
  class Disk {
    var files: map<string, string>

    constructor (initial: map<string, string>)
      ensures files == initial
    {
      files := initial;
    }

    /** add_sign_subtitles(input, sign) of ki.py: mkvmerge writes the
        merged file to the temporary path; on failure the temporary file is
        removed, on success it replaces the input. */
    method AddSignSubtitles(input: string, sign: string, mergeExit: int, merged: string) returns (ok: bool)
      modifies this
      ensures ok <==> sign in old(files) && mergeExit == 0
      ensures files == SignMerged(old(files), input, sign, mergeExit, merged)
    {
      var temp := TempPath(input);
      if sign !in files {
        return false;
      }
      if mergeExit != 0 {
        files := files - {temp};
        return false;
      }
      files := files[temp := merged];
      var content := files[temp];
      files := (files - {temp})[input := content];
      return true;
    }

    /** cleanup_files(*paths) of mkv.py: every given path that is truthy
        and exists is removed; a removal that raises (a path in `locked`)
        is passed over and the loop goes on. */
    method CleanupFiles(paths: seq<Option<string>>, locked: set<string>)
      modifies this
      ensures files == Cleaned(old(files), paths, locked)
    {
      var k := 0;
      while k < |paths|
        invariant 0 <= k <= |paths|
        invariant files == Cleaned(old(files), paths[..k], locked)
      {
        assert paths[..k + 1] == paths[..k] + [paths[k]];
        var path := paths[k];
        if path.Some? && path.value != [] && path.value in files {
          if path.value !in locked {
            files := files - {path.value};
          }
        }
        k := k + 1;
      }
      assert paths[..k] == paths;
    }
  }

  /** After the clean-up no truthy, unlocked path is left, and every other
      file is still there, unchanged. */
  lemma CleanedSpec(files: map<string, string>, paths: seq<Option<string>>, locked: set<string>)
    ensures var after := Cleaned(files, paths, locked);
            (forall k :: 0 <= k < |paths| && paths[k].Some? && paths[k].value != [] && paths[k].value !in locked ==>
               paths[k].value !in after)
            && (forall p :: p in files && (Some(p) !in paths || p == [] || p in locked) ==> p in after && after[p] == files[p])
            && (forall p :: p in after ==> p in files)
  {
  }
}
