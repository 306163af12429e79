/** The writer and the reader as they run: an output stream and a buffer cursor. */
module LogIO {
  import opened Bytes
  import opened Terms
  import opened Frames
  import opened FrameLog
  import opened TornTail
  import opened RoundTrip

  class OutputStream {
    var bytes: Octets

    constructor ()
      ensures bytes == []
    {
      bytes := [];
    }

    method Write(b: Octets)
      modifies this
      ensures bytes == old(bytes) + b
    {
      bytes := bytes + b;
    }
  }

  /** Writes one operation of a payload; a term outside the codec leaves a partial one. */
  method WriteOperation(h: Host, out: OutputStream, op: Operation, ordinal: nat) returns (ok: bool)
    requires ordinal < I32_MAX
    modifies out
    ensures ok <==> op.proposition.Triple? && Encodable(h, op.proposition)
    ensures ok ==>
      out.bytes == old(out.bytes) + (U32(ordinal) + ([ActionCode(op.action)] + EncodeTerm(h, op.proposition)))
  {
    hide Encodable, EncodeTerm, U32;
    out.Write(U32(ordinal));
    out.Write([ActionCode(op.action)]);
    if !op.proposition.Triple? || !Encodable(h, op.proposition) {
      return false;
    }
    out.Write(EncodeOne(h, op.proposition));
    return true;
  }

  function EncodeOne(h: Host, t: Term): (b: Octets)
    requires Encodable(h, t)
    ensures WellFormed(h, t) && b == EncodeTerm(h, t)
  {
    EncodeTerm(h, t)
  }

  /** The payload octets once the first `i` operations are written. */
  ghost predicate PayloadSoFar(h: Host, payload: Octets, frame: Frame, i: nat)
    requires i <= |frame.operations|
  {
    FrameEncodable(h, frame) ==>
      payload + EncodeOperations(h, frame.operations, i) == EncodePayload(h, frame)
  }

  lemma PayloadGrows(h: Host, payload: Octets, frame: Frame, i: nat)
    requires i < |frame.operations| && PayloadSoFar(h, payload, frame, i)
    requires var op := frame.operations[i]; op.proposition.Triple? && Encodable(h, op.proposition) && i < I32_MAX
    ensures var op := frame.operations[i];
      PayloadSoFar(h, payload + (U32(i) + ([ActionCode(op.action)] + EncodeTerm(h, op.proposition))), frame, i + 1)
  {
    hide WellFormed, Depth, EncodePayload, EncodeTerm, U32;
    var op := frame.operations[i];
    if FrameEncodable(h, frame) {
      var ordinal, action, term := U32(i), [ActionCode(op.action)], EncodeTerm(h, op.proposition);
      var rest := EncodeOperations(h, frame.operations, i + 1);
      assert payload + (ordinal + (action + (term + rest))) == (payload + (ordinal + (action + term))) + rest;
    }
  }

  /** Writes the payload of `frame` to a fresh stream. */
  method WritePayload(h: Host, frame: Frame) returns (ok: bool, payload: Octets)
    requires frame.sequence >= 0 && frame.operations != []
    ensures ok <==> FrameEncodable(h, frame)
    ensures ok ==> payload == EncodePayload(h, frame)
  {
    hide Encodable, EncodeTerm, U32, I64;
    payload := [];
    if frame.sequence > I64_MAX || |frame.operations| > I32_MAX {
      return false, payload;
    }
    var operations := frame.operations;
    var stream := new OutputStream();
    stream.Write(I64(frame.sequence));
    stream.Write(U32(|operations|));
    PayloadHead(h, frame);
    for i := 0 to |operations|
      invariant fresh(stream)
      invariant forall j :: 0 <= j < i ==> operations[j].proposition.Triple? && Encodable(h, operations[j].proposition)
      invariant PayloadSoFar(h, stream.bytes, frame, i)
    {
      hide PayloadSoFar;
      var before := stream.bytes;
      var written := WriteOperation(h, stream, operations[i], i);
      if !written {
        return false, payload;
      }
      PayloadGrows(h, before, frame, i);
    }
    assert stream.bytes + [] == stream.bytes;
    return true, stream.bytes;
  }

  lemma PayloadHead(h: Host, frame: Frame)
    requires 0 <= frame.sequence <= I64_MAX && |frame.operations| <= I32_MAX
    ensures PayloadSoFar(h, [] + I64(frame.sequence) + U32(|frame.operations|), frame, 0)
  {
    hide Encodable, EncodeOperations, U32, I64;
    if FrameEncodable(h, frame) {
      var s, n, operations := I64(frame.sequence), U32(|frame.operations|), EncodeOperations(h, frame.operations, 0);
      assert ([] + s + n) + operations == s + (n + operations);
    }
  }

  /** Writes one frame, or nothing at all when its payload cannot be encoded. */
  method WriteTransactionFrame(h: Host, out: OutputStream, frame: Frame, deflate: bool) returns (ok: bool)
    requires frame.sequence >= 0 && frame.operations != []
    modifies out
    ensures ok <==> Writable(h, frame, deflate)
    ensures out.bytes == old(out.bytes) + (if ok then EncodeFrame(h, frame, deflate) else [])
  {
    hide FrameEncodable, EncodePayload, U32;
    var encoded, payload := WritePayload(h, frame);
    if !encoded {
      return false;
    }
    var stored := if deflate then h.gzip(payload) else payload;
    if |stored| > I32_MAX {
      return false;
    }
    out.Write(U32(|stored|));
    out.Write(stored);
    out.Write(U32(h.crc(stored)));
    return true;
  }

  /** Reads a whole log with one cursor that moves a frame at a time. */
  method ParseTripleLog(h: Host, b: Octets, allowContinuation: bool) returns (r: Result<Parsed>)
    ensures r == ParseLog(h, b, allowContinuation)
  {
    hide ParseHeader, ReadFrame;
    var headed := ParseHeader(h, b, allowContinuation);
    if headed.Err? {
      return Err(headed.fault);
    }
    var (header, start) := headed.value;
    var position, frames, ends := start, [], [];
    PrependNothing(ScanFrom(h, b, start, header.deflate));
    while true
      invariant start <= position <= |b|
      invariant ScanFrom(h, b, start, header.deflate)
             == Prepend(frames, ends, ScanFrom(h, b, position, header.deflate))
      decreases |b| - position
    {
      var step := ReadFrame(h, b, position, header.deflate);
      match step {
        case Err(fault) => return Err(fault);
        case Ok(End) =>
          assert frames + [] == frames && ends + [] == ends;
          return Ok(Assemble(header, start, Scan(frames, ends, None)));
        case Ok(Short(reason)) =>
          assert frames + [] == frames && ends + [] == ends;
          return Ok(Assemble(header, start, Scan(frames, ends, Some(reason))));
        case Ok(Got(frame, end)) =>
          PrependLast(frames, ends, frame, end, ScanFrom(h, b, end, header.deflate));
          frames, ends, position := frames + [frame], ends + [end], end;
      }
    }
  }

  lemma PrependNothing(r: Result<Scan>)
    ensures Prepend([], [], r) == r
  {
    assert r.Ok? ==> [] + r.value.frames == r.value.frames && [] + r.value.ends == r.value.ends;
  }

  lemma PrependLast(frames: seq<Frame>, ends: seq<nat>, f: Frame, end: nat, r: Result<Scan>)
    ensures Prepend(frames, ends, Prepend([f], [end], r)) == Prepend(frames + [f], ends + [end], r)
  {
    if r.Ok? {
      assert frames + ([f] + r.value.frames) == (frames + [f]) + r.value.frames;
      assert ends + ([end] + r.value.ends) == (ends + [end]) + r.value.ends;
    }
  }

  // ----- writing after a repair -----

  /** The log left by truncating `b` to its whole frames and appending `f` as the opened
      database would: in the form the reader's `deflate` result names. */
  function RepairedThenAppended(h: Host, b: Octets, f: Frame, allow: bool): Octets
    requires ParseLog(h, b, allow).Ok? && Writable(h, f, ParseLog(h, b, allow).value.deflate)
  {
    var p := ParseLog(h, b, allow).value;
    b[..p.ValidBytes()] + EncodeFrame(h, f, p.deflate)
  }

  ghost predicate AppendSurvivesRepair(h: Host, b: Octets, f: Frame, allow: bool)
    requires ParseLog(h, b, allow).Ok? && Writable(h, f, ParseLog(h, b, allow).value.deflate)
  {
    var p := ParseLog(h, b, allow).value;
    var after := ParseLog(h, RepairedThenAppended(h, b, f, allow), allow);
    after.Ok? && after.value.frames == p.frames + [f] && after.value.torn == None
  }

  /** The reader forgets the compression flag when the tail is a torn frame. A frame written after
      the repair is read back exactly when that did not lose a set flag, or when inflating the raw
      payload happens to give the payload itself. */
  lemma AppendSurvivesRepairIff(h: Host, b: Octets, f: Frame, allow: bool)
    requires h.Valid() && ParseLog(h, b, allow).Ok? && Writable(h, f, ParseLog(h, b, allow).value.deflate)
    ensures AppendSurvivesRepair(h, b, f, allow) <==>
      var p := ParseLog(h, b, allow).value;
      || !p.header.deflate
      || p.torn != Some(TornFrame)
      || h.gunzip(EncodePayload(h, f)) == Some(EncodePayload(h, f))
  {
    hide ParseHeader, ScanFrom, EncodeFrame, Stored, EncodePayload, FrameEncodable;
    var p := ParseLog(h, b, allow).value;
    RepairReadsClean(h, b, allow);
    var base := b[..p.ValidBytes()];
    AppendedFrameStep(h, base, f, p.header.deflate, p.deflate, allow);
  }

  /** One frame written with flag `written` after a clean log whose header says `deflate`. */
  lemma AppendedFrameStep(h: Host, base: Octets, f: Frame, deflate: bool, written: bool, allow: bool)
    requires h.Valid() && ParseLog(h, base, allow).Ok? && ParseLog(h, base, allow).value.torn == None
    requires ParseLog(h, base, allow).value.header.deflate == deflate && Writable(h, f, written)
    requires written ==> deflate
    ensures var after := ParseLog(h, base + EncodeFrame(h, f, written), allow);
      (after.Ok? && after.value.frames == ParseLog(h, base, allow).value.frames + [f] && after.value.torn == None)
      <==> (deflate == written || h.gunzip(EncodePayload(h, f)) == Some(EncodePayload(h, f)))
  {
    hide ParseHeader, ScanFrom, EncodeFrame, ReadFrame, Stored, EncodePayload, FrameEncodable;
    var x := EncodeFrame(h, f, written);
    var (header, start) := ParseHeader(h, base, allow).value;
    HeaderUnderSuffix(h, base, x, allow);
    ScanUnderSuffix(h, base, x, start, deflate);
    var old_ := ScanFrom(h, base, start, deflate).value;
    ScanOfOneFrame(h, base, f, deflate, written);
    var last := ScanFrom(h, base + x, |base|, deflate);
    if last.Ok? {
      assert old_.frames + last.value.frames == old_.frames + [f] <==> last.value.frames == [f] by {
        if old_.frames + last.value.frames == old_.frames + [f] {
          assert (old_.frames + last.value.frames)[|old_.frames|..] == last.value.frames;
          assert (old_.frames + [f])[|old_.frames|..] == [f];
        }
      }
    }
  }

  lemma ScanOfOneFrame(h: Host, base: Octets, f: Frame, deflate: bool, written: bool)
    requires h.Valid() && Writable(h, f, written) && (written ==> deflate)
    ensures var last := ScanFrom(h, base + EncodeFrame(h, f, written), |base|, deflate);
      (last.Ok? && last.value.frames == [f] && last.value.torn == None)
      <==> (deflate == written || h.gunzip(EncodePayload(h, f)) == Some(EncodePayload(h, f)))
  {
    hide EncodeFrame, ReadFrame, DecodePayload, EncodePayload, FrameEncodable, EncodeFrames, FrameEnds;
    var b := base + EncodeFrame(h, f, written);
    if deflate == written {
      FrameReadsBack(h, base, f, [], deflate);
      assert b == base + (EncodeFrame(h, f, deflate) + []);
      ScanStep(h, b, |base|, deflate, f, |b|);
      NoFrameAtEnd(h, b, deflate);
    } else {
      RawFrameRead(h, base, f);
      match ReadFrame(h, b, |base|, deflate)
      case Ok(Got(g, end)) =>
        ScanStep(h, b, |base|, deflate, g, end);
        NoFrameAtEnd(h, b, deflate);
        assert ScanFrom(h, b, |base|, deflate) == Ok(Scan([g] + [], [end] + [], None));
        assert [g] + [] == [g];
        assert [g] == [f] <==> g == f by { assert [g][0] == g && [f][0] == f; }
      case _ =>
    }
  }

  /** What a reader that inflates makes of a frame stored raw. */
  lemma RawFrameRead(h: Host, base: Octets, f: Frame)
    requires h.Valid() && Writable(h, f, false)
    ensures var b := base + EncodeFrame(h, f, false);
      var step := ReadFrame(h, b, |base|, true);
      && (step == Ok(Got(f, |b|)) <==> h.gunzip(EncodePayload(h, f)) == Some(EncodePayload(h, f)))
      && (step.Ok? ==> step.value.Got? && step.value.end == |b|)
  {
    hide DecodePayload, EncodePayload, FrameEncodable;
    var payload := EncodePayload(h, f);
    var b := base + EncodeFrame(h, f, false);
    var p, n := |base|, |payload|;
    assert b[p..p + 4] == U32(n);
    assert b[p + 4..p + 4 + n] == payload;
    assert b[p + 4 + n..p + 8 + n] == U32(h.crc(payload));
    PayloadRoundTrip(h, f);
    match h.gunzip(payload)
    case None =>
    case Some(raw) =>
      if DecodePayload(h, raw) == Ok(f) {
        PayloadCanonical(h, raw);
      }
  }
}
