/** Progress reporting: the upload callback `progress` (ki.py, kot.py,
    rot.py, rc.py with a bar of twenty cells, bot.py without one), which
    edits the status message at most once every two seconds, and the
    encoder feedback of mkv.py, which shows an ffmpeg "frame=" line at most
    once every ten seconds. Clock readings are given as `real` seconds;
    number formatting (`:.2f`, the MB conversion) is not modelled. */
module Progress {
  import opened Common
  import opened Text

  /** The cells of the bar. */
  const BarLength := 20

  /** int(bar_length * current / total): the number of filled cells. */
  function Blocks(current: nat, total: nat): nat
    requires total > 0
  {
    (BarLength * current) / total
  }

  /** "█" * progress_blocks + "░" * empty_blocks, an empty run when the
      count is negative. */
  function Bar(current: nat, total: nat): string
    requires total > 0
  {
    Repeat('\U{2588}', Blocks(current, total)) + Repeat('\U{2591}', BarLength - Blocks(current, total))
  }

  /** The filled cells are the share current/total of the bar, rounded
      down; a transfer within its size always draws twenty cells, full
      exactly when complete and without a filled cell while less than a
      twentieth is sent; past its size the bar only grows. */
  lemma BarSpec(current: nat, total: nat)
    requires total > 0
    ensures var b := Blocks(current, total);
            b * total <= BarLength * current < (b + 1) * total
    ensures current <= total ==> |Bar(current, total)| == BarLength
    ensures current <= total ==> (Blocks(current, total) == BarLength <==> current == total)
    ensures Blocks(current, total) == 0 <==> BarLength * current < total
    ensures current > total ==> |Bar(current, total)| == Blocks(current, total) >= BarLength
    ensures forall i :: 0 <= i < |Bar(current, total)| ==>
              (Bar(current, total)[i] == '\U{2588}' <==> i < Blocks(current, total))
  {
    var b := Blocks(current, total);
    DivBounds(BarLength * current, total);
    FloorFacts(b, current, total);
  }

  /** What rounding down pins of the quotient b of BarLength * c by t. */
  lemma FloorFacts(b: nat, c: nat, t: nat)
    requires t > 0 && b * t <= BarLength * c < (b + 1) * t
    ensures c <= t ==> b <= BarLength
    ensures c <= t ==> (b == BarLength <==> c == t)
    ensures b == 0 <==> BarLength * c < t
    ensures c > t ==> b >= BarLength
  {
    if c <= t {
      MulMonotone(c, t, BarLength);
      if b > BarLength {
        MulMonotone(BarLength + 1, b, t);
      }
      if c == t {
        if b < BarLength {
          MulMonotone(b + 1, BarLength, t);
        }
      }
    } else {
      if b < BarLength {
        MulMonotone(b + 1, BarLength, t);
      }
    }
    if b >= 1 {
      MulMonotone(1, b, t);
    }
  }

  lemma MulMonotone(x: nat, y: nat, z: nat)
    requires x <= y
    ensures x * z <= y * z
  {
  }

  lemma DivBounds(a: nat, d: nat)
    requires d > 0
    ensures (a / d) * d <= a < (a / d + 1) * d
  {
  }

  /** The filled part never shrinks while more is sent. */
  lemma BlocksMonotone(current: nat, more: nat, total: nat)
    requires total > 0 && current <= more
    ensures Blocks(current, total) <= Blocks(more, total)
  {
    DivBounds(BarLength * current, total);
    DivBounds(BarLength * more, total);
    var b, c := Blocks(current, total), Blocks(more, total);
    if b > c {
      MulMonotone(c + 1, b, total);
    }
  }

  /** current / elapsed, or zero before any time has passed. */
  function Speed(current: nat, elapsed: real): real {
    if elapsed > 0.0 then current as real / elapsed else 0.0
  }

  /** (total - current) / speed, or zero while nothing moves. */
  function Eta(current: nat, total: nat, elapsed: real): real {
    var speed := Speed(current, elapsed);
    if speed > 0.0 then (total - current) as real / speed else 0.0
  }

  /** The estimate is the time the rest takes at the average speed so far,
      and zero when nothing has been sent or no time has passed. */
  lemma EtaSpec(current: nat, total: nat, elapsed: real)
    ensures current > 0 && elapsed > 0.0 ==>
              Eta(current, total, elapsed) * current as real == (total - current) as real * elapsed
    ensures current == 0 || elapsed <= 0.0 ==> Eta(current, total, elapsed) == 0.0
    ensures current > 0 && elapsed > 0.0 && current <= total ==> Eta(current, total, elapsed) >= 0.0
  {
    if current > 0 && elapsed > 0.0 {
      var speed := current as real / elapsed;
      assert speed * elapsed == current as real;
      var eta := (total - current) as real / speed;
      assert eta * speed == (total - current) as real;
      assert eta * current as real == eta * speed * elapsed;
    }
  }

  /** Python's int() on a float: truncation toward zero. */
  function Trunc(x: real): int {
    if x >= 0.0 then x.Floor else -((-x).Floor)
  }

  /** The figures one edit shows: file name, counts, speed in bytes per
      second, whole seconds of ETA and elapsed time, and the bar (none in
      bot.py). */
  datatype Report = Report(filename: string, current: nat, total: nat, percent: real, speed: real,
                           eta: int, elapsed: int, bar: Option<string>)

  /** What message.edit_text answers. */
  datatype Reply = EditOk | NotModified | EditError

  /** One call of the callback, as pyrogram makes it. */
  datatype Call = Call(current: nat, total: nat, now: real, reply: Reply)

  /** What a call does: nothing within two seconds of the last edit; else
      a division by zero for an empty file and a raised edit error escape
      the callback, a "not modified" answer is swallowed, and a successful
      edit shows the report. */
  datatype Outcome = Skipped | Shown(report: Report) | Unchanged | Raised

  function ReportOf(filename: string, start: real, c: Call, withBar: bool): Report
    requires c.total > 0
  {
    var elapsed := c.now - start;
    Report(filename, c.current, c.total, (c.current as real / c.total as real) * 100.0,
           Speed(c.current, elapsed), Trunc(Eta(c.current, c.total, elapsed)), Trunc(elapsed),
           if withBar then Some(Bar(c.current, c.total)) else None)
  }

  /** The callback as a function of the time of the last edit. */
  function Tick(last: real, filename: string, start: real, c: Call, withBar: bool): Outcome {
    if c.now - last < 2.0 then Skipped
    else if c.total == 0 then Raised
    else match c.reply
      case EditOk => Shown(ReportOf(filename, start, c, withBar))
      case NotModified => Unchanged
      case EditError => Raised
  }

  /** The time of the last edit after a call: moved only by a shown edit. */
  function After(last: real, filename: string, start: real, c: Call, withBar: bool): real {
    if Tick(last, filename, start, c, withBar).Shown? then c.now else last
  }

  /** An edit is shown exactly when two seconds have passed, the file is
      not empty and Telegram accepts the edit; only then does the time of
      the last edit move, and a shown report draws the bar only where the
      variant has one. */
  lemma TickSpec(last: real, filename: string, start: real, c: Call, withBar: bool)
    ensures Tick(last, filename, start, c, withBar).Shown? <==> c.now - last >= 2.0 && c.total > 0 && c.reply == EditOk
    ensures After(last, filename, start, c, withBar) != last ==> c.now - last >= 2.0 && c.reply == EditOk
    ensures c.reply != EditOk ==> After(last, filename, start, c, withBar) == last
    ensures Tick(last, filename, start, c, withBar).Shown? ==>
              var r := Tick(last, filename, start, c, withBar).report;
              r.filename == filename && r.current == c.current && r.total == c.total
              && (r.bar.Some? <==> withBar)
              && (withBar && c.current <= c.total ==> |r.bar.value| == BarLength)
  {
    if c.total > 0 && withBar {
      BarSpec(c.current, c.total);
    }
  }

  /** The global `last_update_time` and the callback that reads and sets it. */
  class UploadProgress {
    var lastUpdate: real

    /** The clock reading when the script is loaded. */
    constructor (loaded: real)
      ensures lastUpdate == loaded
    {
      lastUpdate := loaded;
    }

    method Progress(filename: string, start: real, c: Call, withBar: bool) returns (outcome: Outcome)
      modifies this
      ensures outcome == Tick(old(lastUpdate), filename, start, c, withBar)
      ensures lastUpdate == After(old(lastUpdate), filename, start, c, withBar)
    {
      if c.now - lastUpdate >= 2.0 {
        if c.total == 0 {
          return Raised;
        }
        var report := ReportOf(filename, start, c, withBar);
        match c.reply {
          case EditOk =>
            outcome := Shown(report);
            lastUpdate := c.now;
          case NotModified =>
            outcome := Unchanged;
          case EditError =>
            outcome := Raised;
        }
      } else {
        outcome := Skipped;
      }
    }
  }

  /** The times of the edits a run of calls shows. */
  function ShownTimes(last: real, filename: string, start: real, calls: seq<Call>, withBar: bool): seq<real>
    decreases calls
  {
    if calls == [] then []
    else
      var rest := ShownTimes(After(last, filename, start, calls[0], withBar), filename, start, calls[1..], withBar);
      if Tick(last, filename, start, calls[0], withBar).Shown? then [calls[0].now] + rest else rest
  }

  /** However often pyrogram calls, the shown edits are at least two
      seconds after the previous one and after each other. */
  lemma {:induction false} ShownTimesSpaced(last: real, filename: string, start: real, calls: seq<Call>, withBar: bool)
    decreases calls
    ensures forall i :: 0 <= i < |ShownTimes(last, filename, start, calls, withBar)| ==>
              ShownTimes(last, filename, start, calls, withBar)[i] >= last + 2.0
    ensures forall i :: 0 <= i < |ShownTimes(last, filename, start, calls, withBar)| - 1 ==>
              ShownTimes(last, filename, start, calls, withBar)[i + 1] >= ShownTimes(last, filename, start, calls, withBar)[i] + 2.0
  {
    if calls != [] {
      var next := After(last, filename, start, calls[0], withBar);
      ShownTimesSpaced(next, filename, start, calls[1..], withBar);
      var ts := ShownTimes(last, filename, start, calls, withBar);
      var rest := ShownTimes(next, filename, start, calls[1..], withBar);
      if Tick(last, filename, start, calls[0], withBar).Shown? {
        assert ts == [calls[0].now] + rest;
        assert next == calls[0].now >= last + 2.0;
        forall i | 0 <= i < |ts| - 1
          ensures ts[i + 1] >= ts[i] + 2.0
        {
          assert ts[i + 1] == rest[i];
          if i > 0 {
            assert ts[i] == rest[i - 1];
          }
        }
      } else {
        assert next == last && ts == rest;
      }
    }
  }

  /* ---------------- encode_video of mkv.py ---------------- */

  /** A line of ffmpeg's stderr as encode_video meets it: its text and the
      clock reading of the throttle test; for a line that gets an edit,
      whether the edit returns (rather than raising) and the clock reading
      taken after it returns, from which the throttle restarts. */
  datatype StderrLine = StderrLine(text: string, time: real, editOk: bool, after: real)

  /** The edit shown for a progress line. */
  function EncodingMessage(line: string): string {
    Gear + " Encoding...\n" + Strip(line)
  }

  const EncodingDone := "\U{2705} Encoding completed!"

  /** A line is shown when more than ten seconds passed since the last
      edit (or the start) and it carries "frame=". */
  predicate ShowsLine(last: real, line: StderrLine) {
    line.time - last > 10.0 && Contains(line.text, "frame=")
  }

  /** The lines the loop makes an edit for, in order, from the reading of
      the last edit: after an edit that returns the throttle restarts from
      the reading taken after it; an edit that raises ends the loop. */
  function Throttled(last: real, lines: seq<StderrLine>): seq<StderrLine>
    decreases lines
  {
    if lines == [] then []
    else if ShowsLine(last, lines[0]) then
      (if lines[0].editOk then [lines[0]] + Throttled(lines[0].after, lines[1..]) else [lines[0]])
    else Throttled(last, lines[1..])
  }

  /** One of the edits raised: it is the last one made. */
  predicate EditRaised(shown: seq<StderrLine>) {
    shown != [] && !shown[|shown| - 1].editOk
  }

  function EncodingMessages(shown: seq<StderrLine>): (msgs: seq<string>)
    ensures |msgs| == |shown|
    ensures forall i :: 0 <= i < |shown| ==> msgs[i] == EncodingMessage(shown[i].text)
  {
    if shown == [] then [] else [EncodingMessage(shown[0].text)] + EncodingMessages(shown[1..])
  }

  /** One turn of the reading loop: how the lines shown so far and the
      lines still to come make up the whole run, after line k. */
  lemma ThrottleStep(whole: seq<StderrLine>, shown: seq<StderrLine>, last: real, lines: seq<StderrLine>, k: nat)
    requires k < |lines| && whole == shown + Throttled(last, lines[k..])
    ensures !ShowsLine(last, lines[k]) ==> whole == shown + Throttled(last, lines[k + 1..])
    ensures ShowsLine(last, lines[k]) && lines[k].editOk ==>
              whole == (shown + [lines[k]]) + Throttled(lines[k].after, lines[k + 1..])
    ensures ShowsLine(last, lines[k]) && !lines[k].editOk ==> whole == shown + [lines[k]]
  {
    var s := lines[k..];
    assert s[0] == lines[k] && s[1..] == lines[k + 1..];
    if ShowsLine(last, lines[k]) && lines[k].editOk {
      ShownSnoc(shown, lines[k], Throttled(lines[k].after, lines[k + 1..]));
    }
  }

  lemma {:induction false} MessagesSnoc(shown: seq<StderrLine>, x: StderrLine)
    ensures EncodingMessages(shown + [x]) == EncodingMessages(shown) + [EncodingMessage(x.text)]
    decreases |shown|
  {
    if shown == [] {
      assert shown + [x] == [x];
    } else {
      assert (shown + [x])[1..] == shown[1..] + [x];
      MessagesSnoc(shown[1..], x);
    }
  }

  lemma ShownSnoc(shown: seq<StderrLine>, x: StderrLine, rest: seq<StderrLine>)
    ensures shown + ([x] + rest) == (shown + [x]) + rest
  {
  }

  predicate AllReturnedOk(shown: seq<StderrLine>) {
    forall i :: 0 <= i < |shown| ==> shown[i].editOk
  }

  /** Edits that all returned leave no raised edit behind. */
  lemma AllReturned(shown: seq<StderrLine>)
    requires AllReturnedOk(shown)
    ensures !EditRaised(shown)
  {
  }

  lemma AllReturnedSnoc(shown: seq<StderrLine>, x: StderrLine)
    requires AllReturnedOk(shown) && x.editOk
    ensures AllReturnedOk(shown + [x])
  {
    assert forall i :: 0 <= i < |shown| ==> (shown + [x])[i] == shown[i];
  }

  /** encode_video's reading loop: the edits it makes for ffmpeg's lines,
      and whether one of them raised, which ends the loop. */
  method ReadProgress(start: real, lines: seq<StderrLine>) returns (edits: seq<string>, raised: bool)
    ensures edits == EncodingMessages(Throttled(start, lines))
    ensures raised <==> EditRaised(Throttled(start, lines))
  {
    ghost var whole := Throttled(start, lines);
    var last := start;
    edits := [];
    var k := 0;
    raised := false;
    ghost var shown: seq<StderrLine> := [];
    assert lines[0..] == lines;
    while k < |lines| && !raised
      invariant 0 <= k <= |lines|
      invariant edits == EncodingMessages(shown)
      invariant !raised ==> whole == shown + Throttled(last, lines[k..])
      invariant !raised ==> AllReturnedOk(shown)
      invariant raised ==> whole == shown && EditRaised(shown)
    {
      var line := lines[k];
      ThrottleStep(whole, shown, last, lines, k);
      if ShowsLine(last, line) {
        MessagesSnoc(shown, line);
        edits := edits + [EncodingMessage(line.text)];
        if line.editOk {
          AllReturnedSnoc(shown, line);
        }
        shown := shown + [line];
        if line.editOk {
          last := line.after;
        } else {
          raised := true;
        }
      }
      k := k + 1;
    }
    if !raised {
      assert lines[k..] == [];
      assert shown + [] == shown;
      AllReturned(shown);
    }
  }

  /** encode_video: the reading loop, then, unless an edit raised, the
      completion edit when ffmpeg exits with 0 (any other exit raises).
      Returns the edits made and whether the function returns rather than
      raising; the completion edit can raise too. */
  method EncodeVideo(start: real, lines: seq<StderrLine>, exitCode: int, doneOk: bool)
    returns (edits: seq<string>, ok: bool)
    ensures var shown := Throttled(start, lines);
            edits == EncodingMessages(shown) + (if !EditRaised(shown) && exitCode == 0 then [EncodingDone] else [])
    ensures ok <==> !EditRaised(Throttled(start, lines)) && exitCode == 0 && doneOk
  {
    var raised;
    edits, raised := ReadProgress(start, lines);
    ok := false;
    if !raised && exitCode == 0 {
      edits := edits + [EncodingDone];
      ok := doneOk;
    }
  }

  /** Every line given an edit is one of ffmpeg's lines carrying "frame=",
      in the order read: the first more than ten seconds after the start,
      each later one more than ten seconds after the reading that followed
      the previous edit, and only the last edit may have raised. */
  lemma {:induction false} ThrottledSpec(last: real, lines: seq<StderrLine>)
    decreases lines
    ensures var shown := Throttled(last, lines);
            |shown| <= |lines|
            && (forall i :: 0 <= i < |shown| ==> shown[i] in lines && Contains(shown[i].text, "frame="))
            && (shown != [] ==> shown[0].time > last + 10.0)
            && (forall i :: 0 <= i < |shown| - 1 ==> shown[i].editOk && shown[i + 1].time > shown[i].after + 10.0)
  {
    if lines != [] {
      var shown := Throttled(last, lines);
      if ShowsLine(last, lines[0]) && lines[0].editOk {
        var rest := Throttled(lines[0].after, lines[1..]);
        ThrottledSpec(lines[0].after, lines[1..]);
        assert shown == [lines[0]] + rest;
        forall i | 0 <= i < |shown|
          ensures shown[i] in lines && Contains(shown[i].text, "frame=")
        {
          if i > 0 {
            assert shown[i] == rest[i - 1] && rest[i - 1] in lines[1..];
          }
        }
        forall i | 0 <= i < |shown| - 1
          ensures shown[i].editOk && shown[i + 1].time > shown[i].after + 10.0
        {
          if i > 0 {
            assert shown[i] == rest[i - 1] && shown[i + 1] == rest[i];
          }
        }
      } else if !ShowsLine(last, lines[0]) {
        ThrottledSpec(last, lines[1..]);
        forall i | 0 <= i < |shown|
          ensures shown[i] in lines
        {
          assert shown[i] in lines[1..];
        }
      }
    }
  }

  /** A "frame=" line read more than ten seconds after the last edit's
      reading is never passed over; when its edit returns, the throttle
      restarts from the reading after it, and when it raises, no later line
      is read. */
  lemma ThrottledShowsDueLine(last: real, line: StderrLine, rest: seq<StderrLine>)
    requires line.time - last > 10.0 && Contains(line.text, "frame=")
    ensures Throttled(last, [line] + rest) ==
              if line.editOk then [line] + Throttled(line.after, rest) else [line]
  {
    assert ([line] + rest)[1..] == rest;
  }

  /** A line read within ten seconds of the reading taken after the
      previous edit is skipped, however long after that edit's own line
      it comes. */
  lemma ThrottledSkipsNearEdit(last: real, shown: StderrLine, next: StderrLine, rest: seq<StderrLine>)
    requires ShowsLine(last, shown) && shown.editOk
    requires next.time - shown.after <= 10.0
    ensures Throttled(last, [shown, next] + rest) == [shown] + Throttled(shown.after, rest)
  {
    assert ([shown, next] + rest)[1..] == [next] + rest;
    assert ([next] + rest)[1..] == rest;
  }
}
