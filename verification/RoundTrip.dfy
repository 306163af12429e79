/** Writing then reading a log, appending to one, and the shape of every readable log. */
module RoundTrip {
  import opened Bytes
  import opened Terms
  import opened Frames
  import opened FrameLog
  import opened TornTail

  /** Where each frame ends when `frames` are written from offset `start`. */
  function FrameEnds(h: Host, frames: seq<Frame>, start: nat, deflate: bool): (ends: seq<nat>)
    requires AllWritable(h, frames, deflate)
    ensures |ends| == |frames|
    decreases |frames|
  {
    if frames == [] then [] else
    var end := start + FrameLength(h, frames[0], deflate);
    [end] + FrameEnds(h, frames[1..], end, deflate)
  }

  function FrameLength(h: Host, f: Frame, deflate: bool): (n: nat)
    requires Writable(h, f, deflate)
    ensures n == |EncodeFrame(h, f, deflate)|
  {
    |Stored(h, f, deflate)| + 8
  }

  lemma StoredReadsBack(h: Host, f: Frame, deflate: bool)
    requires h.Valid() && FrameEncodable(h, f)
    ensures Inflated(h, Stored(h, f, deflate), deflate) == Some(EncodePayload(h, f))
    ensures DecodePayload(h, EncodePayload(h, f)) == Ok(f)
  {
    PayloadRoundTrip(h, f);
  }

  lemma FrameReadsBack(h: Host, before: Octets, f: Frame, after: Octets, deflate: bool)
    requires h.Valid() && Writable(h, f, deflate)
    ensures var b := before + (EncodeFrame(h, f, deflate) + after);
      ReadFrame(h, b, |before|, deflate) == Ok(Got(f, |before| + |EncodeFrame(h, f, deflate)|))
  {
    hide DecodePayload, EncodePayload, Inflated, Stored, FrameEncodable;
    var payload := Stored(h, f, deflate);
    var b := before + (EncodeFrame(h, f, deflate) + after);
    var p, n := |before|, |payload|;
    assert b[p..p + 4] == U32(n);
    assert b[p + 4..p + 4 + n] == payload;
    assert b[p + 4 + n..p + 8 + n] == U32(h.crc(payload));
    StoredReadsBack(h, f, deflate);
  }

  lemma NoFrameAtEnd(h: Host, b: Octets, deflate: bool)
    ensures ScanFrom(h, b, |b|, deflate) == Ok(Scan([], [], None))
  {
  }

  lemma ScanStep(h: Host, b: Octets, p: nat, deflate: bool, f: Frame, end: nat)
    requires p <= |b| && ReadFrame(h, b, p, deflate) == Ok(Got(f, end))
    ensures ScanFrom(h, b, p, deflate) == Prepend([f], [end], ScanFrom(h, b, end, deflate))
  {
  }

  ghost predicate FramesRead(h: Host, before: Octets, frames: seq<Frame>, deflate: bool)
    requires AllWritable(h, frames, deflate)
  {
    ScanFrom(h, before + EncodeFrames(h, frames, deflate), |before|, deflate)
      == Ok(Scan(frames, FrameEnds(h, frames, |before|, deflate), None))
  }

  lemma EncodeFirst(h: Host, before: Octets, frames: seq<Frame>, deflate: bool)
    requires frames != [] && AllWritable(h, frames, deflate)
    ensures var first, more := EncodeFrame(h, frames[0], deflate), EncodeFrames(h, frames[1..], deflate);
      && before + EncodeFrames(h, frames, deflate) == before + (first + more)
      && before + EncodeFrames(h, frames, deflate) == (before + first) + more
  {
    hide EncodeFrame, Writable;
    var first, more := EncodeFrame(h, frames[0], deflate), EncodeFrames(h, frames[1..], deflate);
    assert before + (first + more) == (before + first) + more;
  }

  lemma EndsFirst(h: Host, frames: seq<Frame>, start: nat, deflate: bool)
    requires frames != [] && AllWritable(h, frames, deflate)
    ensures var end := start + |EncodeFrame(h, frames[0], deflate)|;
      FrameEnds(h, frames, start, deflate) == [end] + FrameEnds(h, frames[1..], end, deflate)
  {
    hide EncodeFrame, FrameLength, Writable;
  }

  lemma OneMoreFrameReads(h: Host, before: Octets, frames: seq<Frame>, deflate: bool)
    requires h.Valid() && frames != [] && AllWritable(h, frames, deflate)
    requires FramesRead(h, before + EncodeFrame(h, frames[0], deflate), frames[1..], deflate)
    ensures FramesRead(h, before, frames, deflate)
  {
    hide ReadFrame, EncodeFrame, EncodeFrames, FrameEnds, FrameLength, Writable, ScanFrom;
    var first := EncodeFrame(h, frames[0], deflate);
    EncodeFirst(h, before, frames, deflate);
    EndsFirst(h, frames, |before|, deflate);
    FrameReadsBack(h, before, frames[0], EncodeFrames(h, frames[1..], deflate), deflate);
    var b, end := before + EncodeFrames(h, frames, deflate), |before + first|;
    ScanStep(h, b, |before|, deflate, frames[0], end);
    hide AllWritable, Prepend;
    FirstThenRest(h, b, |before|, end, deflate, frames[0], frames[1..], FrameEnds(h, frames[1..], end, deflate));
    assert frames == [frames[0]] + frames[1..];
  }

  lemma FirstThenRest(h: Host, b: Octets, p: nat, end: nat, deflate: bool, f: Frame, more: seq<Frame>, ends: seq<nat>)
    requires p <= |b| && end <= |b| && ScanFrom(h, b, p, deflate) == Prepend([f], [end], ScanFrom(h, b, end, deflate))
    requires ScanFrom(h, b, end, deflate) == Ok(Scan(more, ends, None))
    ensures ScanFrom(h, b, p, deflate) == Ok(Scan([f] + more, [end] + ends, None))
  {
    hide ScanFrom;
  }

  lemma {:induction false} FramesReadBack(h: Host, before: Octets, frames: seq<Frame>, deflate: bool)
    requires h.Valid() && AllWritable(h, frames, deflate)
    ensures FramesRead(h, before, frames, deflate)
    decreases |frames|
  {
    if frames != [] {
      hide ReadFrame, EncodeFrame, Writable, ScanFrom, FramesRead;
      FramesReadBack(h, before + EncodeFrame(h, frames[0], deflate), frames[1..], deflate);
      OneMoreFrameReads(h, before, frames, deflate);
    } else {
      assert before + [] == before;
      NoFrameAtEnd(h, before, deflate);
    }
  }

  // ----- the header -----

  lemma HeaderReadsBack(h: Host, header: Header, after: Octets, allow: bool)
    requires ValidHeader(h, header) && (allow || !header.continuation)
    ensures ParseHeader(h, EncodeHeader(h, header) + after, allow)
         == Ok((header, 16 + |header.space|))
  {
    var b := EncodeHeader(h, header) + after;
    var n := |header.space|;
    assert b[..8] == MAGIC;
    assert b[8..10] == U16(LOG_VERSION);
    assert b[10..12] == U16(Flags(header));
    assert b[12..16] == U32(n);
    assert b[16..16 + n] == header.space;
  }

  lemma FlagsReadBack(header: Header, flags: nat)
    requires flags <= 3 && header.deflate == (flags % 2 == 1) && header.continuation == (flags >= CONTINUATION_FLAG)
    ensures Flags(header) == flags
  {
  }

  lemma HeaderCanonical(h: Host, b: Octets, allow: bool)
    requires ParseHeader(h, b, allow).Ok?
    ensures var (header, end) := ParseHeader(h, b, allow).value;
      && ValidHeader(h, header) && (allow || !header.continuation)
      && end == 16 + |header.space| && b[..end] == EncodeHeader(h, header)
  {
    var (header, end) := ParseHeader(h, b, allow).value;
    FlagsReadBack(header, Value(b[10..12]));
    hide LittleEndian, Value, Pow256, Flags;
    LittleEndianCanonical(b[8..10]);
    LittleEndianCanonical(b[10..12]);
    LittleEndianCanonical(b[12..16]);
    assert b[..end] == b[..8] + (b[8..10] + (b[10..12] + (b[12..16] + b[16..end])));
  }

  lemma HeaderUnderSuffix(h: Host, b: Octets, x: Octets, allow: bool)
    requires ParseHeader(h, b, allow).Ok?
    ensures ParseHeader(h, b + x, allow) == ParseHeader(h, b, allow)
  {
    hide ParseHeader, EncodeHeader;
    HeaderCanonical(h, b, allow);
    var (header, end) := ParseHeader(h, b, allow).value;
    assert b + x == b[..end] + (b[end..] + x);
    HeaderReadsBack(h, header, b[end..] + x, allow);
  }

  // ----- whole logs -----

  /** A written log reads back as exactly what was written, with a clean tail. */
  lemma LogRoundTrip(h: Host, header: Header, frames: seq<Frame>, allow: bool)
    requires h.Valid() && ValidHeader(h, header) && AllWritable(h, frames, header.deflate)
    requires allow || !header.continuation
    ensures var start := 16 + |header.space|;
      ParseLog(h, EncodeLog(h, header, frames), allow)
        == Ok(Parsed(header, header.deflate, start, frames,
                     FrameEnds(h, frames, start, header.deflate), None))
  {
    hide ParseHeader, ScanFrom, EncodeHeader, EncodeFrames;
    HeaderReadsBack(h, header, EncodeFrames(h, frames, header.deflate), allow);
    FramesReadBack(h, EncodeHeader(h, header), frames, header.deflate);
  }

  lemma ReadFrameUnderSuffix(h: Host, b: Octets, x: Octets, p: nat, deflate: bool)
    requires p <= |b| && ReadFrame(h, b, p, deflate).Ok? && ReadFrame(h, b, p, deflate).value.Got?
    ensures ReadFrame(h, b + x, p, deflate) == ReadFrame(h, b, p, deflate)
  {
    hide DecodePayload;
    var n := Value(b[p..p + 4]);
    assert (b + x)[p..p + 4] == b[p..p + 4];
    assert (b + x)[p + 4..p + 4 + n] == b[p + 4..p + 4 + n];
    assert (b + x)[p + 4 + n..p + 8 + n] == b[p + 4 + n..p + 8 + n];
  }

  /** A clean scan is a prefix of the scan of any extension. */
  lemma {:induction false} ScanUnderSuffix(h: Host, b: Octets, x: Octets, p: nat, deflate: bool)
    requires p <= |b| && ScanFrom(h, b, p, deflate).Ok? && ScanFrom(h, b, p, deflate).value.torn == None
    ensures var s := ScanFrom(h, b, p, deflate).value;
      ScanFrom(h, b + x, p, deflate) == Prepend(s.frames, s.ends, ScanFrom(h, b + x, |b|, deflate))
    ensures LastEnd(ScanFrom(h, b, p, deflate).value.ends, p) == |b|
    decreases |b| - p
  {
    hide ReadFrame;
    var step := ReadFrame(h, b, p, deflate).value;
    if step.Got? {
      ReadFrameUnderSuffix(h, b, x, p, deflate);
      ScanUnderSuffix(h, b, x, step.end, deflate);
      PrependTwice(step.frame, step.end, ScanFrom(h, b, step.end, deflate).value, ScanFrom(h, b + x, |b|, deflate));
    } else {
      StepIsEnd(h, b, p, deflate);
      var r := ScanFrom(h, b + x, |b|, deflate);
      assert r.Ok? ==> [] + r.value.frames == r.value.frames && [] + r.value.ends == r.value.ends;
    }
  }

  lemma StepIsEnd(h: Host, b: Octets, p: nat, deflate: bool)
    requires p <= |b| && ReadFrame(h, b, p, deflate) == Ok(End)
    ensures p == |b|
  {
  }

  lemma PrependTwice(f: Frame, end: nat, s: Scan, r: Result<Scan>)
    ensures Prepend([f], [end], Prepend(s.frames, s.ends, r)) == Prepend([f] + s.frames, [end] + s.ends, r)
  {
    if r.Ok? {
      assert [f] + (s.frames + r.value.frames) == ([f] + s.frames) + r.value.frames;
      assert [end] + (s.ends + r.value.ends) == ([end] + s.ends) + r.value.ends;
    }
  }

  /** Appending written frames to a clean log reads as the old frames followed by the new. */
  lemma AppendReadsBack(h: Host, b: Octets, fs: seq<Frame>, allow: bool)
    requires h.Valid() && ParseLog(h, b, allow).Ok? && ParseLog(h, b, allow).value.torn == None
    requires AllWritable(h, fs, ParseLog(h, b, allow).value.header.deflate)
    ensures var old_ := ParseLog(h, b, allow).value;
      var deflate := old_.header.deflate;
      && old_.ValidBytes() == |b|
      && ParseLog(h, b + EncodeFrames(h, fs, deflate), allow)
        == Ok(Parsed(old_.header, deflate, old_.headerBytes, old_.frames + fs,
                     old_.ends + FrameEnds(h, fs, |b|, deflate), None))
  {
    hide ParseHeader, ScanFrom, EncodeFrames;
    var (header, start) := ParseHeader(h, b, allow).value;
    var x := EncodeFrames(h, fs, header.deflate);
    HeaderUnderSuffix(h, b, x, allow);
    ScanUnderSuffix(h, b, x, start, header.deflate);
    FramesReadBack(h, b, fs, header.deflate);
  }

  // ----- what a clean log looks like -----

  lemma FrameCanonical(h: Host, b: Octets, p: nat)
    requires p <= |b| && ReadFrame(h, b, p, false).Ok? && ReadFrame(h, b, p, false).value.Got?
    ensures var step := ReadFrame(h, b, p, false).value;
      Writable(h, step.frame, false) && b[p..step.end] == EncodeFrame(h, step.frame, false)
  {
    hide DecodePayload, EncodePayload, FrameEncodable;
    var n := Value(b[p..p + 4]);
    var payload := b[p + 4..p + 4 + n];
    PayloadCanonical(h, payload);
    U32Canonical(b[p..p + 4]);
    U32Canonical(b[p + 4 + n..p + 8 + n]);
    assert b[p..p + 8 + n] == b[p..p + 4] + (payload + b[p + 4 + n..p + 8 + n]);
  }

  ghost predicate Spells(h: Host, x: Octets, frames: seq<Frame>) {
    AllWritable(h, frames, false) && x == EncodeFrames(h, frames, false)
  }

  lemma {:induction false} FramesCanonical(h: Host, b: Octets, p: nat)
    requires p <= |b| && ScanFrom(h, b, p, false).Ok? && ScanFrom(h, b, p, false).value.torn == None
    ensures Spells(h, b[p..], ScanFrom(h, b, p, false).value.frames)
    decreases |b| - p
  {
    hide *;
    ScanCases(h, b, p);
    var step := ReadFrame(h, b, p, false).value;
    if step.Got? {
      FrameCanonical(h, b, p);
      FramesCanonical(h, b, step.end);
      SpellsFirst(h, b, p, step.end, step.frame, ScanFrom(h, b, step.end, false).value.frames);
    } else {
      SpellsNothing(h, b[p..]);
    }
  }

  lemma SpellsFirst(h: Host, b: Octets, p: nat, end: nat, f: Frame, more: seq<Frame>)
    requires p <= end <= |b| && Writable(h, f, false) && b[p..end] == EncodeFrame(h, f, false)
    requires Spells(h, b[end..], more)
    ensures Spells(h, b[p..], [f] + more)
  {
    hide Writable, EncodeFrame;
    assert ([f] + more)[1..] == more;
    assert b[p..] == b[p..end] + b[end..];
  }

  lemma SpellsNothing(h: Host, x: Octets)
    requires x == []
    ensures Spells(h, x, [])
  {
  }

  /** How a clean scan starts: with a frame, or at the end. */
  lemma ScanCases(h: Host, b: Octets, p: nat)
    requires p <= |b| && ScanFrom(h, b, p, false).Ok? && ScanFrom(h, b, p, false).value.torn == None
    ensures var r, s := ReadFrame(h, b, p, false), ScanFrom(h, b, p, false).value;
      && r.Ok? && (!r.value.Got? ==> p == |b| && s.frames == [])
      && (r.value.Got? ==>
        var rest := ScanFrom(h, b, r.value.end, false);
        p < r.value.end && rest.Ok? && rest.value.torn == None && s.frames == [r.value.frame] + rest.value.frames)
  {
    hide ReadFrame;
    var step := ReadFrame(h, b, p, false).value;
    if !step.Got? {
      StepIsEnd(h, b, p, false);
    }
  }

  /** An uncompressed log that reads clean is the written form of what it reads as. */
  lemma CleanLogIsCanonical(h: Host, b: Octets, allow: bool)
    requires ParseLog(h, b, allow).Ok?
    requires ParseLog(h, b, allow).value.torn == None && !ParseLog(h, b, allow).value.header.deflate
    ensures var p := ParseLog(h, b, allow).value;
      && ValidHeader(h, p.header) && AllWritable(h, p.frames, false)
      && b == EncodeLog(h, p.header, p.frames)
  {
    hide ParseHeader, ScanFrom, EncodeHeader, EncodeFrames, Writable;
    var (header, start) := ParseHeader(h, b, allow).value;
    HeaderCanonical(h, b, allow);
    FramesCanonical(h, b, start);
    assert b == b[..start] + b[start..];
  }
}
