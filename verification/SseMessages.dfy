/** What arrives for the bytes that a server sends: messages one by one, and their lines one by one. */
module SseMessages {
  import opened Text
  import opened SseFraming

  /** No line feed (0x0a) is followed by another one or ends the text. */
  predicate NoBlankLine(s: string) {
    forall i | 0 <= i < |s| && s[i] as int == 0x0a :: i + 1 < |s| && s[i + 1] as int != 0x0a
  }

  lemma EndsAtSeparator(frame: string)
    requires NoBlankLine(frame)
    ensures Index(frame + SEPARATOR, SEPARATOR) == |frame|
  {
    var text := frame + SEPARATOR;
    assert text[|frame|..|frame| + 2] == SEPARATOR;
    assert OccursAt(text, SEPARATOR, |frame|);
    forall j | 0 <= j < |frame| ensures !OccursAt(text, SEPARATOR, j) {
      assert text[j] == frame[j];
      assert j + 1 < |frame| ==> text[j + 1] == frame[j + 1];
      assert text[j] != '\n' || text[j + 1] != '\n';
      assert text[j..j + 2][0] == text[j] && text[j..j + 2][1] == text[j + 1];
    }
  }

  /** Two line feeds end a message, and what follows is read on by itself. */
  lemma MessageEnds(frame: string, t: string)
    requires NoBlankLine(frame)
    ensures Cut(frame + "\U{0A}\U{0A}" + t) == Cutting([frame] + Cut(t).frames, Cut(t).rest)
  {
    var s := frame + "\U{0A}\U{0A}" + t;
    assert s == frame + SEPARATOR + t;
    assert s[..|frame|] == frame && s[|frame| + 2..] == t;
    EndsAtSeparator(frame);
    IndexOfPrefix(frame + SEPARATOR, t, SEPARATOR);
    hide Index;
  }

  lemma {:induction false} EventsOfLinesAppend<E>(a: seq<string>, b: seq<string>, decode: string -> Option<E>)
    ensures EventsOfLines(a + b, decode) == EventsOfLines(a, decode) + EventsOfLines(b, decode)
  {
    hide EventOfLine;
    if b == [] {
      assert a + b == a;
    } else {
      assert (a + b)[..|a + b| - 1] == a + b[..|b| - 1];
      EventsOfLinesAppend(a, b[..|b| - 1], decode);
    }
  }

  lemma EventsOfOne<E>(frame: string, decode: string -> Option<E>)
    ensures EventsOf([frame], decode) == EventsOfLines(Split(frame, '\n'), decode)
  {
    hide Split;
    hide EventsOfLines;
    assert [frame][..0] == [];
    assert EventsOf([], decode) == [];
  }

  /** The events of a message are those of its lines, in order. */
  lemma LineByLine<E>(a: string, b: string, decode: string -> Option<E>)
    ensures EventsOf([a + "\U{0A}" + b], decode) == EventsOf([a], decode) + EventsOf([b], decode)
  {
    hide *;
    assert a + "\U{0A}" + b == a + ['\n'] + b;
    EventsOfOne(a, decode);
    EventsOfOne(b, decode);
    EventsOfOne(a + ['\n'] + b, decode);
    SplitAppend(a, '\n', b);
    EventsOfLinesAppend(Split(a, '\n'), Split(b, '\n'), decode);
  }

  /** A line is an event when it starts with "data: " and the rest decodes, and nothing otherwise. */
  lemma OneLine<E>(line: string, decode: string -> Option<E>)
    requires forall i | 0 <= i < |line| :: line[i] as int != 0x0a
    ensures EventsOf([line], decode) ==
            if |line| >= 6 && line[..6] == "data: " && decode(line[6..]).Some? then [decode(line[6..]).value] else []
  {
    EventsOfOne(line, decode);
    SplitFree(line, '\n');
    assert [line][..0] == [];
    assert EventsOfLines([], decode) == [];
    hide Split;
    hide EventsOf;
  }

  /** A payload that a server sends in a message of one line is the next event. */
  lemma PayloadArrives<E>(payload: string, t: string, decode: string -> Option<E>)
    requires (forall i | 0 <= i < |payload| :: payload[i] as int != 0x0a) && decode(payload).Some?
    ensures EventsOf(Cut("data: " + payload + "\U{0A}\U{0A}" + t).frames, decode) ==
            [decode(payload).value] + EventsOf(Cut(t).frames, decode)
  {
    var line := "data: " + payload;
    assert line[..6] == "data: " && line[6..] == payload;
    assert forall i | 0 <= i < |line| :: line[i] as int != 0x0a;
    hide *;
    assert NoBlankLine(line) by { NoneAtAll(line); }
    MessageEnds(line, t);
    OneLine(line, decode);
    EventsOfAppend([line], Cut(t).frames, decode);
  }

  lemma NoneAtAll(s: string)
    requires forall i | 0 <= i < |s| :: s[i] as int != 0x0a
    ensures NoBlankLine(s)
  {
  }
}
