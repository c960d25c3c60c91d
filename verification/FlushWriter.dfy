/**
 The writer around the stripper, at the level of byte slices: the carry is a slice of the buffer that the
 caller passed in, and prepending it to the next chunk may write into that buffer.
 */
module FlushWriter {
  import opened Text
  import opened AnsiText

  /** A Go byte slice: a window of a backing array, with room to grow up to `cap`. */
  datatype Slice = Nil | Slice(arr: array<char>, off: nat, len: nat, cap: nat) {
    predicate InBounds() {
      Slice? ==> len <= cap && off + cap <= arr.Length
    }

    function Backing(): set<array<char>> {
      if Slice? then {arr} else {}
    }

    function Length(): nat {
      if Slice? then len else 0
    }

    function Contents(): string
      requires InBounds()
      reads Backing()
    {
      if Slice? then arr[off..off + len] else ""
    }

    /** Nil, or the window of `b` that starts later and ends with it. */
    predicate IsTailOf(b: Slice) {
      Slice? ==>
        b.Slice? && arr == b.arr && b.off <= off && off + len == b.off + b.len && off + cap == b.off + b.cap
    }

    /** `s[i:]` */
    function From(i: nat): (r: Slice)
      requires InBounds() && i <= Length()
      reads Backing()
      ensures r.InBounds() && r.Contents() == Contents()[i..] && r.IsTailOf(this)
    {
      if Slice? then Slice(arr, off + i, len - i, cap - i) else Nil
    }
  }

  /** `copy(arr[at:], text)` */
  method CopyInto(arr: array<char>, at: nat, text: string)
    requires at + |text| <= arr.Length
    modifies arr
    ensures arr[at..at + |text|] == text
    ensures forall k | 0 <= k < arr.Length && !(at <= k < at + |text|) :: arr[k] == old(arr[k])
  {
    forall k | 0 <= k < |text| {
      arr[at + k] := text[k];
    }
    assert forall k | 0 <= k < |text| :: arr[at + k] == text[k];
  }

  /**
   `append(s, b...)`: in place when `s` has room, which overwrites what followed `s` in its array; otherwise
   in a new array, with some room to spare.
   */
  method Append(s: Slice, b: Slice) returns (r: Slice)
    requires s.Slice? && s.InBounds() && b.InBounds()
    modifies s.arr
    ensures r.Slice? && r.InBounds()
    ensures r.Contents() == old(s.Contents()) + old(b.Contents())
    ensures s.len + b.Length() <= s.cap ==> r == s.(len := s.len + b.Length())
    ensures s.len + b.Length() > s.cap ==> fresh(r.arr) && s.arr[..] == old(s.arr[..])
    ensures forall k | 0 <= k < s.arr.Length && !(s.off + s.len <= k < s.off + s.len + b.Length()) ::
              s.arr[k] == old(s.arr[k])
  {
    var head, tail := s.Contents(), b.Contents();
    var n := s.len + |tail|;
    if n <= s.cap {
      CopyInto(s.arr, s.off + s.len, tail);
      r := s.(len := n);
      assert s.arr[s.off..s.off + s.len] == head;
    } else {
      var spare: nat :| spare >= 0;
      var grown := new char[n + spare](i => if 0 <= i < n then (head + tail)[i] else ' ');
      r := Slice(grown, 0, n, n + spare);
    }
  }

  /** Where a slice may live after a call: in the array of one of its arguments, or in a new one. */
  twostate predicate LivesIn(new s: Slice, a: Slice, b: Slice) {
    s.Slice? ==> s.Backing() <= a.Backing() + b.Backing() || fresh(s.arr)
  }

  /** `stripAnsiBytes` on slices: the leftover shares the array of the chunk, or of the grown carry. */
  method StripSlice(b: Slice, carry: Slice) returns (cleaned: string, leftover: Slice)
    requires b.Slice? && b.InBounds() && carry.InBounds()
    modifies carry.Backing()
    ensures leftover.InBounds() && LivesIn(leftover, b, carry)
    ensures Strip(old(carry.Contents()) + old(b.Contents())) == Scan(cleaned, leftover.Contents())
    ensures carry.Length() == 0 ==>
              && unchanged(carry.Backing())
              && leftover.IsTailOf(b)
  {
    hide Strip;
    var whole := b;
    if carry.Length() > 0 {
      whole := Append(carry, b);
    }
    assert whole.Contents() == old(carry.Contents()) + old(b.Contents());
    var from;
    cleaned, from := StripBytes(whole.Contents());
    leftover := if from == whole.Length() then Nil else whole.From(from);
  }

  class FlushWriter {
    var pendingEsc: Slice
    var sent: string          // what the response writer has been given
    ghost var stream: string  // every byte passed to Write so far
    ghost var kept: string    // what pendingEsc held when the last Write returned

    ghost predicate Valid()
      reads this
    {
      && pendingEsc.InBounds() && pendingEsc.Length() == |kept|
      && Strip(stream) == Scan(sent, kept)
    }

    /** Nobody has written to the carried bytes since the last Write returned. */
    ghost predicate Intact()
      requires pendingEsc.InBounds()
      reads this, pendingEsc.Backing()
    {
      pendingEsc.Contents() == kept
    }

    constructor ()
      ensures Valid() && Intact() && stream == "" && sent == "" && pendingEsc == Nil
    {
      pendingEsc, sent, stream, kept := Nil, "", "", "";
    }

    /**
     One Write. It strips the carried bytes, as they are now, followed by the chunk; a client that left the
     carried bytes alone has then been sent the stripped stream. `accepts` is whether the response writer
     takes the cleaned bytes.
     */
    method Write(p: Slice, accepts: bool) returns (n: int, ok: bool)
      requires Valid() && p.Slice? && p.InBounds()
      modifies this, pendingEsc.Backing()
      ensures var scan := Strip(old(pendingEsc.Contents()) + old(p.Contents()));
              && pendingEsc.InBounds() && pendingEsc.Contents() == scan.rest
              && ok == (accepts || scan.out == "")
              && n == (if ok then p.len else 0)
              && sent == old(sent) + if accepts then scan.out else ""
      ensures stream == old(stream) + old(p.Contents())
      ensures ok && old(Intact()) ==> Valid() && Intact()
      ensures LivesIn(pendingEsc, p, old(pendingEsc))
      ensures old(pendingEsc.Length()) == 0 ==>
                && unchanged(old(pendingEsc.Backing()))
                && pendingEsc.IsTailOf(p)
    {
      hide Strip;
      StripAppend(stream, p.Contents());
      stream := stream + p.Contents();
      var cleaned, leftover := StripSlice(p, pendingEsc);
      pendingEsc := leftover;
      kept := pendingEsc.Contents();
      if |cleaned| > 0 {
        if !accepts {
          return 0, false;
        }
        sent := sent + cleaned;
      }
      return p.len, true;
    }
  }

  /**
   A caller that hands over each chunk in an array of its own, with whatever room to spare behind it, sends
   exactly the stripped stream, up to the first chunk that the response writer refuses.
   */
  method WriteOwned(w: FlushWriter, chunks: seq<string>, spare: seq<nat>, accepts: seq<bool>) returns (written: nat)
    requires w.Valid() && w.Intact() && w.stream == "" && w.sent == "" && w.pendingEsc == Nil
    requires |spare| == |chunks| == |accepts|
    modifies w
    ensures written <= |chunks| && w.sent == Strip(Concat(chunks[..written])).out
    ensures written < |chunks| ==> !accepts[written] && Strip(Concat(chunks[..written + 1])).out != w.sent
    ensures written == |chunks| ==>
              w.pendingEsc.InBounds() && w.pendingEsc.Contents() == Strip(Concat(chunks)).rest
  {
    hide Strip;
    for k := 0 to |chunks|
      invariant w.Valid() && w.Intact() && w.stream == Concat(chunks[..k])
      invariant w.pendingEsc.Slice? ==> fresh(w.pendingEsc.arr)
    {
      assert chunks[..k + 1] == chunks[..k] + [chunks[k]];
      ConcatLast(chunks[..k], chunks[k]);
      var chunk := chunks[k];
      var buffer := new char[|chunk| + spare[k]](i => if 0 <= i < |chunk| then chunk[i] else ' ');
      assert buffer[0..|chunk|] == chunk;
      SentSoFar(Concat(chunks[..k]), chunk);
      var _, ok := w.Write(Slice(buffer, 0, |chunk|, |chunk| + spare[k]), accepts[k]);
      if !ok {
        return k;
      }
    }
    assert chunks[..|chunks|] == chunks;
    return |chunks|;
  }

  /** What the next chunk adds to the output is what it shows after the carried bytes. */
  lemma SentSoFar(stream: string, chunk: string)
    ensures Strip(stream + chunk).out == Strip(stream).out + Strip(Strip(stream).rest + chunk).out
  {
    StripAppend(stream, chunk);
  }

  lemma ConcatLast(chunks: seq<string>, last: string)
    ensures Concat(chunks + [last]) == Concat(chunks) + last
  {
    ConcatAppend(chunks, [last]);
    assert Concat([last]) == last + Concat([last][1..]) == last;
  }

  /**
   A caller that reads the next frame into the same buffer, as a copy loop does, destroys the carry: the
   colour code of the first frame is lost, and the second frame comes out twice.
   */
  method ReusedBuffer() returns (shown: string, expected: string)
    ensures shown == "1mX1mX" && expected == "X"
    ensures expected == Strip([ESC, '[', '3'] + "1mX").out
  {
    hide Strip;
    var first, second := [ESC, '[', '3'], "1mX";
    var w := new FlushWriter();
    var buffer := new char[8](i => ' ');
    UnfinishedWaits(first);
    CleanIsKept(second + second);
    WriteFrame(w, buffer, first);
    assert w.pendingEsc == Slice(buffer, 0, 3, 8);
    WriteFrame(w, buffer, second);
    shown := w.sent;
    expected := "X";
    WhatWasMeant(first, second);
  }

  /** Puts a frame at the start of the buffer and writes it, with the carry where the last frame left it. */
  method WriteFrame(w: FlushWriter, buffer: array<char>, frame: string)
    requires w.Valid() && |frame| == 3 && buffer.Length == 8
    requires w.pendingEsc == Nil || w.pendingEsc == Slice(buffer, 0, 3, 8)
    modifies w, buffer
    ensures var seen := if old(w.pendingEsc) == Nil then frame else frame + frame;
            w.pendingEsc.InBounds() && Scan(w.sent, w.pendingEsc.Contents()) == Strip(seen).Prepend(old(w.sent))
    ensures old(w.pendingEsc) == Nil ==> w.Valid()
    ensures old(w.pendingEsc) == Nil && w.pendingEsc.Length() == 3 ==> w.pendingEsc == Slice(buffer, 0, 3, 8)
  {
    hide Strip;
    buffer[0], buffer[1], buffer[2] := frame[0], frame[1], frame[2];
    var window := Slice(buffer, 0, 3, 8);
    assert window.Contents() == frame;
    assert "" + frame == frame;
    var _, _ := w.Write(window, true);
  }

  predicate ShowsSame(carry: string, kept: string, chunk: string) {
    Strip(carry + chunk).out == Strip(kept + chunk).out
  }

  /**
   Leaving the carry alone is not only enough, it is necessary: if a caller changed the carried bytes, there
   is a next chunk for which something else is shown.
   */
  lemma CarryMustBeIntact(kept: string, carry: string)
    requires IsUnfinished(kept) && |carry| == |kept|
    ensures (forall chunk :: ShowsSame(carry, kept, chunk)) <==> carry == kept
  {
    hide Strip;
    hide IsUnfinished;
    if forall chunk :: ShowsSame(carry, kept, chunk) {
      assert ShowsSame(carry, kept, "") && ShowsSame(carry, kept, "m") && ShowsSame(carry, kept, "\n");
      ThreeChunksTell(kept, carry);
    }
  }

  lemma ThreeChunksTell(kept: string, carry: string)
    requires IsUnfinished(kept) && |carry| == |kept|
    requires ShowsSame(carry, kept, "") && ShowsSame(carry, kept, "m") && ShowsSame(carry, kept, "\n")
    ensures carry == kept
  {
    hide Strip;
    var r := Strip(carry).rest;
    StripRest(carry);
    UnfinishedWaits(kept);
    assert carry + "" == carry && kept + "" == kept;
    if |kept| > 1 {
      StripAppend(carry, "m");
      UnfinishedFinal(kept);
      UnfinishedFinal(r);
      assert |r| > 1;
      StripAppend(carry, "\n");
      UnfinishedBroken(kept);
      UnfinishedBroken(r);
      SameLine(r[1..], kept[1..]);
      assert r == [r[0]] + r[1..] && kept == [kept[0]] + kept[1..];
    } else if |kept| == 1 && carry != kept {
      assert carry == [carry[0]];
      ShowsPlain(carry[0]);
    }
  }

  lemma SameLine(a: string, b: string)
    requires a + "\n" == b + "\n"
    ensures a == b
  {
    assert a == (a + "\n")[..|a|] && b == (b + "\n")[..|b|];
    assert |a + "\n"| == |b + "\n"|;
  }

  lemma ShowsPlain(c: char)
    requires c != ESC
    ensures Strip([c]).out != ""
  {
    assert [c][1..] == "";
  }

  /** A final byte completes an unfinished sequence, and is shown otherwise. */
  lemma UnfinishedFinal(s: string)
    requires IsUnfinished(s)
    ensures Strip(s + "m").out == if |s| > 1 then "" else "m"
  {
    hide Strip;
    hide FirstStep;
    var code := s + "m";
    if |s| > 1 {
      assert code[2..|s|] == s[2..];
      LoopStep(code, |s|);
      StripStep(code);
      assert code[|s| + 1..] == "";
      CleanIsKept("");
    } else {
      CleanIsKept("m");
      if s == "" {
        assert code == "m";
      } else {
        LoopStep(code, 0);
        StripStep(code);
        assert code[1..] == "m";
      }
    }
  }

  /** A line feed breaks an unfinished sequence, and all of it but the ESC is shown. */
  lemma UnfinishedBroken(s: string)
    requires IsUnfinished(s) && |s| > 1
    ensures Strip(s + "\n").out == s[1..] + "\n"
  {
    hide Strip;
    hide FirstStep;
    var broken, tail := s + "\n", s[1..] + "\n";
    assert broken[2..|s|] == s[2..] && broken[1..] == tail;
    LoopStep(broken, |s|);
    StripStep(broken);
    assert forall i | 1 <= i < |s| - 1 :: tail[i] == s[2..][i - 1];
    assert Free(tail, ESC) && Free(tail, '\t');
    CleanIsKept(tail);
  }

  lemma WhatWasMeant(first: string, second: string)
    requires first == [ESC, '[', '3'] && second == "1mX"
    ensures Strip(first + second) == Scan("X", "")
  {
    assert second == ['1', 'm', 'X'] && first + second == [ESC, '[', '3', '1', 'm'] + ['X'];
    var code := [ESC, '[', '3', '1', 'm'];
    OneSequence(code);
    StripAppend(code, ['X']);
    PlainShows('X');
    assert "" + ['X'] == ['X'];
    hide Strip;
  }

  lemma OneSequence(code: string)
    requires code == [ESC, '[', '3', '1', 'm']
    ensures Strip(code) == Scan("", "")
  {
    assert code[2..4] == ['3', '1'];
    MiddleEndIs(code, 4);
    assert FirstStep(code) == Cut(5, "");
    StripStep(code);
    assert code[5..] == "";
    assert Strip("") == Scan("", "");
  }

  lemma PlainShows(c: char)
    requires c != ESC && c != '\t'
    ensures Strip([c]) == Scan([c], "")
  {
    StripStep([c]);
    assert [c][1..] == "" && Strip("") == Scan("", "");
  }

  lemma UnfinishedWaits(s: string)
    requires IsUnfinished(s)
    ensures Strip(s) == Scan("", s)
  {
    StripIsReading([], s, s);
  }
}
