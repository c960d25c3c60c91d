/**
 The frame loop of the event-stream client: bytes arrive in arbitrary chunks, a blank line ends a message,
 and each "data: " line of a message carries one event. This is the subset of section 9.2.6 of the WHATWG
 HTML standard that the client reads.

 Decoding a payload is a parameter; None is a payload that does not decode, which is skipped.
 */
module SseFraming {
  import opened Text

  const SEPARATOR: string := "\n\n"
  const DATA: string := "data: "

  datatype Cutting = Cutting(frames: seq<string>, rest: string)

  /** The stream cut at its successive leftmost blank lines. */
  function Cut(s: string): Cutting
    decreases |s|
  {
    var i := Index(s, SEPARATOR);
    if i < 0 then Cutting([], s)
    else
      var more := Cut(s[i + 2..]);
      Cutting([s[..i]] + more.frames, more.rest)
  }

  // ----- the cutting is the right one -----

  function Rejoin(frames: seq<string>): string {
    if frames == [] then "" else frames[0] + SEPARATOR + Rejoin(frames[1..])
  }

  /** Nothing is lost, and every separator is the first one after the frame before it. */
  predicate IsCutting(c: Cutting, s: string) {
    && s == Rejoin(c.frames) + c.rest
    && (forall k | 0 <= k < |c.frames| :: Index(c.frames[k] + SEPARATOR, SEPARATOR) == |c.frames[k]|)
    && Index(c.rest, SEPARATOR) == -1
  }

  /** A first occurrence stays the first one when text is added, or what follows it is cut off. */
  lemma IndexOfPrefix(a: string, b: string, v: string)
    requires v != ""
    ensures Index(a, v) >= 0 ==> Index(a + b, v) == Index(a, v)
    ensures Index(a + b, v) >= 0 && Index(a + b, v) + |v| <= |a| ==> Index(a, v) == Index(a + b, v)
  {
    var i, j := Index(a, v), Index(a + b, v);
    if j >= 0 && j + |v| <= |a| {
      assert (a + b)[j..j + |v|] == a[j..j + |v|];
      assert OccursAt(a, v, j);
    }
    if i >= 0 {
      assert (a + b)[i..i + |v|] == a[i..i + |v|];
      assert OccursAt(a + b, v, i);
    }
  }

  lemma {:induction false} CutIsCutting(s: string)
    ensures IsCutting(Cut(s), s)
    decreases |s|
  {
    hide Index;
    var i := Index(s, SEPARATOR);
    if i < 0 {
      assert "" + s == s;
    } else {
      var c, more := Cut(s), Cut(s[i + 2..]);
      CutIsCutting(s[i + 2..]);
      assert c.frames[1..] == more.frames;
      var head := s[..i] + SEPARATOR;
      assert head == s[..i + 2] && s == head + s[i + 2..];
      IndexOfPrefix(head, s[i + 2..], SEPARATOR);
      assert head + (Rejoin(more.frames) + more.rest) == head + Rejoin(more.frames) + more.rest;
    }
  }

  /** A stream has one cutting, so the frames do not depend on how it was found. */
  lemma {:induction false} CuttingUnique(c: Cutting, s: string)
    requires IsCutting(c, s)
    ensures c == Cut(s)
    decreases |c.frames|
  {
    hide Index;
    if c.frames == [] {
      assert s == c.rest;
    } else {
      var head, more := c.frames[0] + SEPARATOR, Rejoin(c.frames[1..]) + c.rest;
      assert s == head + more;
      IndexOfPrefix(head, more, SEPARATOR);
      assert s[|c.frames[0]| + 2..] == more && s[..|c.frames[0]|] == c.frames[0];
      CuttingUnique(Cutting(c.frames[1..], c.rest), more);
      assert c.frames == [c.frames[0]] + c.frames[1..];
    }
  }

  // ----- chunks -----

  /** Reading on: what was left of `a` is cut together with `b`. */
  lemma {:induction false} CutAppend(a: string, b: string)
    ensures var first := Cut(a); var then' := Cut(first.rest + b);
            Cut(a + b) == Cutting(first.frames + then'.frames, then'.rest)
    decreases |a|
  {
    hide Index;
    var i := Index(a, SEPARATOR);
    if i >= 0 {
      var more := a[i + 2..];
      IndexOfPrefix(a, b, SEPARATOR);
      assert (a + b)[..i] == a[..i] && (a + b)[i + 2..] == more + b;
      CutAppend(more, b);
      var rest := Cut(Cut(more).rest + b);
      assert [a[..i]] + (Cut(more).frames + rest.frames) == [a[..i]] + Cut(more).frames + rest.frames;
    } else {
      assert [] + Cut(a + b).frames == Cut(a + b).frames;
    }
  }

  /** The frames found chunk by chunk, starting with `buf` unread. */
  function CutChunks(buf: string, chunks: seq<string>): Cutting
    decreases chunks
  {
    if chunks == [] then Cutting([], buf)
    else
      var first := Cut(buf + chunks[0]);
      var more := CutChunks(first.rest, chunks[1..]);
      Cutting(first.frames + more.frames, more.rest)
  }

  lemma {:induction false} BufferedChunks(buf: string, chunks: seq<string>)
    requires Cut(buf).frames == []
    ensures CutChunks(buf, chunks) == Cut(buf + Concat(chunks))
    decreases chunks
  {
    hide Cut;
    if chunks == [] {
      assert buf + Concat(chunks) == buf;
      CutIsCutting(buf);
      assert Rejoin([]) + Cut(buf).rest == Cut(buf).rest;
    } else {
      var text, more := buf + chunks[0], Concat(chunks[1..]);
      RestHasNoFrame(text);
      BufferedChunks(Cut(text).rest, chunks[1..]);
      CutAppend(text, more);
      assert text + more == buf + (chunks[0] + more);
    }
  }

  lemma RestHasNoFrame(s: string)
    ensures Cut(Cut(s).rest) == Cutting([], Cut(s).rest)
  {
    hide Index;
    CutIsCutting(s);
  }

  /** For every chunking, the frames are those of the whole stream, and so is the unread rest. */
  lemma ChunkInvariance(chunks: seq<string>)
    ensures CutChunks("", chunks) == Cut(Concat(chunks))
    ensures Concat(chunks) == Rejoin(Cut(Concat(chunks)).frames) + Cut(Concat(chunks)).rest
  {
    hide Index;
    assert Index("", SEPARATOR) == -1;
    BufferedChunks("", chunks);
    assert "" + Concat(chunks) == Concat(chunks);
    CutIsCutting(Concat(chunks));
  }

  // ----- events -----

  function EventsOfLines<E>(lines: seq<string>, decode: string -> Option<E>): seq<E> {
    if lines == [] then []
    else EventsOfLines(lines[..|lines| - 1], decode) + EventOfLine(lines[|lines| - 1], decode)
  }

  /** A line that starts with "data: " and whose rest decodes is one event; any other line is none. */
  function EventOfLine<E>(line: string, decode: string -> Option<E>): seq<E> {
    if DATA <= line && decode(line[6..]).Some? then [decode(line[6..]).value] else []
  }

  function EventsOf<E>(frames: seq<string>, decode: string -> Option<E>): seq<E> {
    if frames == [] then []
    else EventsOf(frames[..|frames| - 1], decode) + EventsOfLines(Split(frames[|frames| - 1], '\n'), decode)
  }

  lemma {:induction false} EventsOfAppend<E>(a: seq<string>, b: seq<string>, decode: string -> Option<E>)
    ensures EventsOf(a + b, decode) == EventsOf(a, decode) + EventsOf(b, decode)
  {
    hide Split;
    hide EventsOfLines;
    if b == [] {
      assert a + b == a;
    } else {
      assert (a + b)[..|a + b| - 1] == a + b[..|b| - 1];
      EventsOfAppend(a, b[..|b| - 1], decode);
    }
  }

  lemma {:induction false} LinesPrefix<E>(lines: seq<string>, k: nat, decode: string -> Option<E>)
    requires k <= |lines|
    ensures EventsOfLines(lines[..k], decode) <= EventsOfLines(lines, decode)
    decreases |lines|
  {
    hide EventOfLine;
    if k == |lines| {
      assert lines[..k] == lines;
    } else {
      LinesPrefix(lines[..|lines| - 1], k, decode);
      assert lines[..|lines| - 1][..k] == lines[..k];
    }
  }

  class EventStream<E(!new)> {
    const decode: string -> Option<E>
    var buf: string
    var delivered: seq<E>     // what has been sent on the channel
    ghost var received: string  // every byte read from the body

    /** Everything complete has been delivered, once and in order, and the rest is buffered. */
    ghost predicate Valid()
      reads this
    {
      && buf == Cut(received).rest
      && delivered == EventsOf(Cut(received).frames, decode)
    }

    constructor (decode: string -> Option<E>)
      ensures Valid() && received == "" && this.decode == decode
    {
      this.decode := decode;
      buf, delivered, received := "", [], "";
      new;
      assert Index("", SEPARATOR) == -1;
    }

    /**
     One read of the body. `room` is how many sends the channel takes before the context is cancelled; a
     cancelled reader has delivered a prefix of the events.
     */
    method Receive(chunk: string, room: nat) returns (cancelled: bool)
      requires Valid()
      modifies this
      ensures received == old(received) + chunk
      ensures !cancelled ==> Valid() && |delivered| - |old(delivered)| <= room
      ensures cancelled ==>
                && |delivered| == |old(delivered)| + room
                && delivered < EventsOf(Cut(received).frames, decode)
    {
      hide Cut;
      hide EventsOf;
      hide Split;
      hide EventsOfLines;
      hide Index;
      CutAppend(received, chunk);
      ghost var base, before := delivered, Cut(received).frames;
      received := received + chunk;
      buf := buf + chunk;
      ghost var text := buf;
      ghost var done := [];
      var sends := 0;
      assert [] + Cut(text).frames == Cut(text).frames;
      NoEvents(decode);
      while true
        invariant received == old(received) + chunk
        invariant Cut(text) == Cutting(done + Cut(buf).frames, Cut(buf).rest)
        invariant delivered == base + EventsOf(done, decode)
        invariant |delivered| == |base| + sends && sends <= room
        decreases |buf|
      {
        var idx := Index(buf, SEPARATOR);
        if idx < 0 {
          CutStops(buf);
          break;
        }
        var msg := buf[..idx];
        CutSteps(buf);
        buf := buf[idx + 2..];
        ghost var unread := buf;
        var lines := Split(msg, '\n');
        for k := 0 to |lines|
          invariant received == old(received) + chunk && buf == unread
          invariant delivered == base + EventsOf(done, decode) + EventsOfLines(lines[..k], decode)
          invariant |delivered| == |base| + sends && sends <= room
        {
          NextLine(lines, k, decode);
          if DATA <= lines[k] {
            var event := decode(lines[k][6..]);
            if event.Some? {
              if sends == room {
                Interrupted(before, done, msg, Cut(buf).frames, k, decode);
                return true;
              }
              delivered := delivered + [event.value];
              sends := sends + 1;
            }
          }
        }
        assert lines[..|lines|] == lines;
        OneMoreFrame(done, msg, decode);
        done := done + [msg];
      }
      assert done + [] == done;
      EventsOfAppend(before, done, decode);
      return false;
    }
  }

  lemma NoEvents<E>(decode: string -> Option<E>)
    ensures EventsOf([], decode) == [] && EventsOfLines([], decode) == []
  {
  }

  lemma CutStops(s: string)
    requires Index(s, SEPARATOR) < 0
    ensures Cut(s) == Cutting([], s)
  {
  }

  lemma CutSteps(s: string)
    requires Index(s, SEPARATOR) >= 0
    ensures var i := Index(s, SEPARATOR);
            Cut(s) == Cutting([s[..i]] + Cut(s[i + 2..]).frames, Cut(s[i + 2..]).rest)
    ensures forall done: seq<string> ::
              done + Cut(s).frames == (done + [s[..Index(s, SEPARATOR)]]) + Cut(s[Index(s, SEPARATOR) + 2..]).frames
  {
    hide Index;
  }

  lemma NextLine<E>(lines: seq<string>, k: nat, decode: string -> Option<E>)
    requires k < |lines|
    ensures EventsOfLines(lines[..k + 1], decode) ==
            EventsOfLines(lines[..k], decode) +
            if DATA <= lines[k] && decode(lines[k][6..]).Some? then [decode(lines[k][6..]).value] else []
  {
    assert lines[..k + 1][..k] == lines[..k];
  }

  lemma OneMoreFrame<E>(done: seq<string>, msg: string, decode: string -> Option<E>)
    ensures EventsOf(done + [msg], decode) == EventsOf(done, decode) + EventsOfLines(Split(msg, '\n'), decode)
  {
    hide Split;
    hide EventsOfLines;
    assert (done + [msg])[..|done|] == done;
  }

  /** Stopping before line `k` of a message leaves a proper prefix of the events when that line has one. */
  lemma Interrupted<E>(before: seq<string>, done: seq<string>, msg: string, after: seq<string>, k: nat,
                       decode: string -> Option<E>)
    requires k < |Split(msg, '\n')| && EventOfLine(Split(msg, '\n')[k], decode) != []
    ensures EventsOf(before, decode) + EventsOf(done, decode) + EventsOfLines(Split(msg, '\n')[..k], decode)
            < EventsOf(before + (done + [msg] + after), decode)
  {
    hide Split;
    hide EventsOf;
    hide EventsOfLines;
    var lines := Split(msg, '\n');
    NextLine(lines, k, decode);
    LinesPrefix(lines, k + 1, decode);
    EventsOfAppend(before, done + [msg] + after, decode);
    EventsOfAppend(done + [msg], after, decode);
    OneMoreFrame(done, msg, decode);
  }
}
