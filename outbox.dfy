/**
 * The outbox of the ClearedDCT page: the list of generated messages, which
 * message generation appends to, "Clear Outbox" empties, and "Export Outbox"
 * turns into a text of three header lines, a blank line and one message per
 * line.
 */
module OutboxStore {
  import opened Wrappers
  import opened FlightPlans
  import opened Messages

  /** Every message followed by a newline, in order. */
  function Lines(ms: seq<string>): string {
    if ms == [] then "" else ms[0] + "\n" + Lines(ms[1..])
  }

  /** The export text: sender, originator and lesson number, a blank line, then the messages. */
  function ExportText(sender: string, originator: string, lesson: string, ms: seq<string>): string {
    sender + "\n" + originator + "\n" + lesson + "\n\n" + Lines(ms)
  }

  /** Splitting a text at every newline, as Python's `text.split("\n")` does. */
  function SplitLines(s: string): (r: seq<string>)
    ensures |r| >= 1
    ensures forall i :: 0 <= i < |r| ==> '\n' !in r[i]
  {
    if s == [] then [""]
    else if s[0] == '\n' then [""] + SplitLines(s[1..])
    else
      var t := SplitLines(s[1..]);
      [[s[0]] + t[0]] + t[1..]
  }

  /** Appending one more message appends one more line. */
  lemma {:induction false} LinesSnoc(ms: seq<string>, m: string)
    ensures Lines(ms + [m]) == Lines(ms) + m + "\n"
    decreases |ms|
  {
    if ms == [] {
      assert [] + [m] == [m];
      assert [m][1..] == [];
    } else {
      assert (ms + [m])[0] == ms[0] && (ms + [m])[1..] == ms[1..] + [m];
      LinesSnoc(ms[1..], m);
    }
  }

  /** A line without a newline, its newline and the rest: the split yields the line first. */
  lemma {:induction false} SplitAfterLine(a: string, b: string)
    requires '\n' !in a
    ensures SplitLines(a + "\n" + b) == [a] + SplitLines(b)
    decreases |a|
  {
    var s := a + "\n" + b;
    if a == [] {
      assert s == "\n" + b && s[1..] == b;
    } else {
      assert s[0] == a[0] && s[1..] == a[1..] + "\n" + b;
      SplitAfterLine(a[1..], b);
      assert [a[0]] + a[1..] == a;
    }
  }

  /** Split at newlines, the message lines give back the messages and one empty tail. */
  lemma {:induction false} SplitLinesOfMessages(ms: seq<string>)
    requires forall i :: 0 <= i < |ms| ==> '\n' !in ms[i]
    ensures SplitLines(Lines(ms)) == ms + [""]
    decreases |ms|
  {
    if ms != [] {
      SplitAfterLine(ms[0], Lines(ms[1..]));
      SplitLinesOfMessages(ms[1..]);
      assert ms == [ms[0]] + ms[1..];
    }
  }

  /**
   * When no header field and no message holds a newline, the export text
   * splits back into the three header lines, the blank line, the messages in
   * outbox order and the empty text after the last newline.
   */
  lemma {:induction false} ExportRoundTrip(sender: string, originator: string, lesson: string, ms: seq<string>)
    requires '\n' !in sender && '\n' !in originator && '\n' !in lesson
    requires forall i :: 0 <= i < |ms| ==> '\n' !in ms[i]
    ensures SplitLines(ExportText(sender, originator, lesson, ms))
      == [sender, originator, lesson, ""] + ms + [""]
  {
    var rest := Lines(ms);
    assert ExportText(sender, originator, lesson, ms)
      == sender + "\n" + (originator + "\n" + (lesson + "\n" + ("" + "\n" + rest)));
    SplitLinesOfMessages(ms);
    SplitAfterLine("", rest);
    SplitAfterLine(lesson, "" + "\n" + rest);
    SplitAfterLine(originator, lesson + "\n" + ("" + "\n" + rest));
    SplitAfterLine(sender, originator + "\n" + (lesson + "\n" + ("" + "\n" + rest)));
  }

  /** A sample export of two messages. */
  lemma ExportSample()
    ensures ExportText("Alice", "Bob", "L5", ["m1", "m2"]) == "Alice\nBob\nL5\n\nm1\nm2\n"
  {
    assert Lines(["m1", "m2"]) == "m1\nm2\n" by {
      assert ["m1", "m2"][1..] == ["m2"] && ["m2"][1..] == [];
    }
  }

  /** The in-memory `outbox` list of the page. */
  class Outbox {
    var messages: seq<string>

    /** No backing file yet: the outbox starts empty. */
    constructor ()
      ensures messages == []
    {
      messages := [];
    }

    method Append(msg: string)
      modifies this
      ensures messages == old(messages) + [msg]
      ensures messages[..|old(messages)|] == old(messages)
    {
      messages := messages + [msg];
    }

    /** "Generate Message": format the selected flight plan and append the message when it formats. */
    method Generate(fp: Record, t: MessageType, entered: string) returns (r: Result<string, Error>)
      modifies this
      ensures r == Format(fp, t, entered)
      ensures r.Success? ==> messages == old(messages) + [r.value]
      ensures r.Failure? ==> messages == old(messages)
    {
      r := Format(fp, t, entered);
      if r.Success? {
        Append(r.value);
      }
    }

    method Clear()
      modifies this
      ensures messages == []
    {
      messages := [];
    }

    /** "Export Outbox": the export text, built line by line; the outbox is not changed. */
    method Export(sender: string, originator: string, lesson: string) returns (text: string)
      ensures text == ExportText(sender, originator, lesson, messages)
    {
      text := sender + "\n" + originator + "\n" + lesson + "\n\n";
      ghost var header := text;
      var i := 0;
      while i < |messages|
        invariant 0 <= i <= |messages|
        invariant text == header + Lines(messages[..i])
      {
        LinesSnoc(messages[..i], messages[i]);
        assert messages[..i + 1] == messages[..i] + [messages[i]];
        text := text + messages[i] + "\n";
        i := i + 1;
      }
      assert messages[..i] == messages;
    }
  }
}
