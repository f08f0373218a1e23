/** `safe_edit_message`: editing the status message with one retry after
    Telegram's flood-wait answer. ki.py, kot.py, rot.py and rc.py first
    skip the edit when the text the message object holds already equals the
    new text; bot.py edits unconditionally. The message object keeps the
    text it was sent or read with: an edit changes what the chat shows, not
    the object's `text`. */
module Notify {

  /** What Telegram answers to one edit_text request: done, a flood wait of
      so many seconds, or any other error (a "not modified" answer
      included). */
  datatype Answer = Done | FloodWait(seconds: nat) | Refused

  /** How one safe_edit_message call went: the requests it made, the pauses
      it slept, whether the chat now shows the new text, and whether an
      exception escaped. */
  datatype Attempt = Attempt(requests: nat, pauses: seq<nat>, edited: bool, raised: bool)

  /** The call as a function of what the message object holds and the two
      answers Telegram would give. */
  function SafeEditRun(held: string, text: string, dedupe: bool, first: Answer, second: Answer): Attempt {
    if dedupe && held == text then Attempt(0, [], false, false)
    else match first
      case Done => Attempt(1, [], true, false)
      case Refused => Attempt(1, [], false, true)
      case FloodWait(x) => Attempt(2, [x], second.Done?, !second.Done?)
  }

  /** The status message as the scripts see it. */
  class StatusMessage {
    /** message.text: the text the object was created with. */
    var held: string
    /** What the chat shows. */
    var shown: string
    /** Every edit request sent, in order. */
    var requests: seq<string>
    /** Every flood-wait pause slept, in seconds. */
    var pauses: seq<nat>

    /** reply_text(initial): a new message showing and holding the text. */
    constructor (initial: string)
      ensures held == initial && shown == initial && requests == [] && pauses == []
    {
      held, shown, requests, pauses := initial, initial, [], [];
    }

    /** safe_edit_message(message, text); `dedupe` is false for bot.py. */
    method SafeEdit(text: string, dedupe: bool, first: Answer, second: Answer) returns (raised: bool)
      modifies this
      ensures var run := SafeEditRun(old(held), text, dedupe, first, second);
              raised == run.raised
              && requests == old(requests) + seq(run.requests, _ => text)
              && pauses == old(pauses) + run.pauses
              && shown == (if run.edited then text else old(shown))
              && held == old(held)
    {
      if dedupe && held == text {
        return false;
      }
      requests := requests + [text];
      match first {
        case Done =>
          shown := text;
          raised := false;
        case Refused =>
          raised := true;
        case FloodWait(x) =>
          pauses := pauses + [x];
          requests := requests + [text];
          if second.Done? {
            shown := text;
            raised := false;
          } else {
            raised := true;
          }
      }
    }
  }

  /** At most two requests and one pause; a pause exactly when the first
      answer was a flood wait, and then it lasts as long as Telegram asked. */
  lemma SafeEditBounds(held: string, text: string, dedupe: bool, first: Answer, second: Answer)
    ensures var run := SafeEditRun(held, text, dedupe, first, second);
            run.requests <= 2 && |run.pauses| <= 1
            && (|run.pauses| == 1 <==> !(dedupe && held == text) && first.FloodWait?)
            && (|run.pauses| == 1 ==> run.pauses[0] == first.seconds && run.requests == 2)
  {
  }

  /** The call returns normally exactly when it skipped an unchanged text,
      or the first request, or the retry after a flood wait, succeeded; the
      chat shows the new text exactly when it returned after a request. */
  lemma SafeEditSucceeds(held: string, text: string, dedupe: bool, first: Answer, second: Answer)
    ensures var run := SafeEditRun(held, text, dedupe, first, second);
            (!run.raised <==> (dedupe && held == text) || first.Done? || (first.FloodWait? && second.Done?))
            && (run.edited <==> !run.raised && run.requests > 0)
  {
  }

  /** With deduplication, a text equal to the held one is never sent, and
      the result does not depend on Telegram's answers; without it (bot.py)
      every call sends at least one request. */
  lemma SafeEditDedupe(held: string, text: string, first: Answer, second: Answer)
    ensures SafeEditRun(held, held, true, first, second) == Attempt(0, [], false, false)
    ensures SafeEditRun(held, text, false, first, second).requests >= 1
    ensures held != text ==> SafeEditRun(held, text, true, first, second) == SafeEditRun(held, text, false, first, second)
  {
  }
}
