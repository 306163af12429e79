/** The octets of a log, said position by position, and what the octets after the last whole frame read as. */
module WireFormat {
  import opened Bytes
  import opened Terms
  import opened Frames
  import opened FrameLog
  import opened TornTail
  import opened RoundTrip

  // ----- numbers -----

  /** Two and four octets hold a number lowest octet first; eight hold one in two's complement. */
  lemma NumbersAre(b: Octets)
    ensures |b| == 2 ==> Value(b) == b[0] as int + 256 * b[1] as int
    ensures |b| == 4 ==> Value(b) == b[0] as int + 256 * (b[1] as int + 256 * (b[2] as int + 256 * b[3] as int))
    ensures |b| == 8 ==> SignedValue(b) == Value(b[..4]) + 0x1_0000_0000 * Value(b[4..]) - (if b[7] >= 128 then 0x1_0000_0000_0000_0000 else 0)
  {
    if |b| == 2 {
      TwoOctets(b);
    } else if |b| == 4 {
      FourOctets(b);
    } else if |b| == 8 {
      FourOctets(b[..4]);
      FourOctets(b[4..]);
      ValueSplits(b, 4);
      assert Pow256(4) == 0x1_0000_0000 by { assert Pow256(2) == 65536; }
    }
  }

  lemma TwoOctets(b: Octets)
    requires |b| == 2
    ensures Value(b) == b[0] as int + 256 * b[1] as int
  {
    assert Value(b[1..][1..]) == 0;
    assert Value(b[1..]) == b[1] as int + 256 * Value(b[1..][1..]);
  }

  lemma FourOctets(b: Octets)
    requires |b| == 4
    ensures Value(b) == b[0] as int + 256 * (b[1] as int + 256 * (b[2] as int + 256 * b[3] as int))
  {
    TwoOctets(b[1..][1..]);
    assert Value(b[1..]) == b[1] as int + 256 * Value(b[1..][1..]);
  }

  lemma {:induction false} ValueSplits(b: Octets, n: nat)
    requires n <= |b|
    ensures Value(b) == Value(b[..n]) + Pow256(n) * Value(b[n..])
  {
    if n == 0 {
      assert b[0..] == b;
    } else {
      ValueSplits(b[1..], n - 1);
      assert b[..n][1..] == b[1..][..n - 1] && b[1..][n - 1..] == b[n..];
      assert Value(b[..n]) == b[0] as int + 256 * Value(b[1..][..n - 1]);
      hide Value, Pow256;
      Regroup(Pow256(n - 1), Value(b[n..]));
      assert Pow256(n) == 256 * Pow256(n - 1) by { PowerStep(n); }
      assert Value(b) == b[0] as int + 256 * Value(b[1..]) by { FirstOctet(b); }
    }
  }

  lemma Regroup(p: nat, v: nat)
    ensures 256 * (p * v) == (256 * p) * v
  {
  }

  lemma PowerStep(n: nat)
    requires n > 0
    ensures Pow256(n) == 256 * Pow256(n - 1)
  {
  }

  lemma FirstOctet(b: Octets)
    requires b != []
    ensures Value(b) == b[0] as int + 256 * Value(b[1..])
  {
  }

  // ----- terms -----

  /** A tag, then what the tag says follows. */
  ghost predicate TermBytes(b: Octets, t: Term)
    decreases t, 1
  {
    match t
    case Text(text) => |b| == 5 + |text| && b[0] == 1 && Value(b[1..5]) == |text| && b[5..] == text
    case Int(v) => |b| == 9 && b[0] == 2 && SignedValue(b[1..9]) == v
    case Bool(flag) => b == [if flag then 5 else 4]
    case Keyword(name) => |b| == 5 + |name| && b[0] == 6 && Value(b[1..5]) == |name| && b[5..] == name
    case Instant(s, n) => |b| == 13 && b[0] == 8 && SignedValue(b[1..9]) == s && Value(b[9..13]) == n
    case Triple(_, _, _) => exists i: nat, j: nat :: PartsAt(b, t, i, j)
  }

  ghost predicate PartsAt(b: Octets, t: Term, i: nat, j: nat)
    requires t.Triple?
    decreases t, 0
  {
    1 <= i <= j <= |b| && b[0] == 7 && TermBytes(b[1..i], t.t1) && TermBytes(b[i..j], t.t2) && TermBytes(b[j..], t.t3)
  }

  lemma {:induction false} TermIsWritten(h: Host, t: Term)
    requires WellFormed(h, t)
    ensures TermBytes(EncodeTerm(h, t), t)
  {
    if t.Triple? {
      TermIsWritten(h, t.t1);
      TermIsWritten(h, t.t2);
      TermIsWritten(h, t.t3);
      hide TermBytes;
      TripleIsWritten(t, EncodeTerm(h, t.t1), EncodeTerm(h, t.t2), EncodeTerm(h, t.t3));
    } else {
      AtomIsWritten(h, t);
    }
  }

  lemma TripleIsWritten(t: Term, x: Octets, y: Octets, z: Octets)
    requires t.Triple? && TermBytes(x, t.t1) && TermBytes(y, t.t2) && TermBytes(z, t.t3)
    ensures TermBytes([7] + (x + (y + z)), t)
  {
    ThreeParts(x, y, z);
    assert PartsAt([7] + (x + (y + z)), t, 1 + |x|, 1 + |x| + |y|);
  }

  lemma ThreeParts(x: Octets, y: Octets, z: Octets)
    ensures var b, i, j := [7] + (x + (y + z)), 1 + |x|, 1 + |x| + |y|;
      b[0] == 7 && b[1..i] == x && b[i..j] == y && b[j..] == z
  {
    var yz := y + z;
    var b := [7] + (x + yz);
    assert b[1 + |x|..] == yz;
  }

  lemma AtomIsWritten(h: Host, t: Term)
    requires WellFormed(h, t) && !t.Triple?
    ensures TermBytes(EncodeAtom(h, t), t)
  {
    var b := EncodeAtom(h, t);
    match t
    case Text(text) => assert b[1..5] == U32(|text|) && b[5..] == text;
    case Int(v) => assert b[1..9] == I64(v);
    case Bool(flag) =>
    case Keyword(name) => assert b[1..5] == U32(|name|) && b[5..] == name;
    case Instant(s, n) => assert b[1..9] == I64(s) && b[9..13] == U32(n);
  }

  // ----- frames -----

  /** Operation `i`: its ordinal, 1 for an assertion or 2 for a retraction, and its proposition. */
  ghost predicate OperationBytes(b: Octets, op: Operation, i: nat) {
    && |b| > 5 && Value(b[..4]) == i && b[4] == (if op.action.Assert? then 1 else 2)
    && TermBytes(b[5..], op.proposition)
  }

  ghost predicate OperationsBytes(b: Octets, operations: seq<Operation>, i: nat)
    decreases |operations|
  {
    if operations == [] then b == [] else
    exists n: nat :: n <= |b| && OperationBytes(b[..n], operations[0], i) && OperationsBytes(b[n..], operations[1..], i + 1)
  }

  ghost predicate PayloadBytes(b: Octets, f: Frame) {
    && |b| >= 12 && SignedValue(b[..8]) == f.sequence && Value(b[8..12]) == |f.operations|
    && OperationsBytes(b[12..], f.operations, 0)
  }

  /** The length of what is stored, the payload itself or its compressed form, and the checksum of what is stored. */
  ghost predicate FrameBytes(h: Host, b: Octets, f: Frame, deflate: bool) {
    && |b| >= 8
    && var stored := b[4..|b| - 4];
    && Value(b[..4]) == |stored| && Value(b[|b| - 4..]) == h.crc(stored)
    && exists raw :: PayloadBytes(raw, f) && stored == if deflate then h.gzip(raw) else raw
  }

  lemma OperationIsWritten(h: Host, op: Operation, i: nat)
    requires i < I32_MAX && WellFormed(h, op.proposition)
    ensures OperationBytes(U32(i) + ([ActionCode(op.action)] + EncodeTerm(h, op.proposition)), op, i)
  {
    var b := U32(i) + ([ActionCode(op.action)] + EncodeTerm(h, op.proposition));
    TermIsWritten(h, op.proposition);
    hide TermBytes, EncodeTerm;
    assert b[..4] == U32(i) && b[5..] == EncodeTerm(h, op.proposition);
  }

  lemma {:induction false} OperationsAreWritten(h: Host, operations: seq<Operation>, i: nat)
    requires i <= |operations| <= I32_MAX && OperationsEncodable(h, operations)
    ensures OperationsBytes(EncodeOperations(h, operations, i), operations[i..], i)
    decreases |operations| - i
  {
    hide EncodeTerm, OperationBytes, WellFormed;
    if i < |operations| {
      var op, more := operations[i], EncodeOperations(h, operations, i + 1);
      OperationsAreWritten(h, operations, i + 1);
      OperationIsWritten(h, op, i) by { IsWellFormed(h, operations, i); }
      var first := U32(i) + ([ActionCode(op.action)] + EncodeTerm(h, op.proposition));
      var b := EncodeOperations(h, operations, i);
      assert b == first + more;
      assert b[..|first|] == first && b[|first|..] == more;
      assert operations[i..][0] == op && operations[i..][1..] == operations[i + 1..];
    } else {
      assert operations[i..] == [];
    }
  }

  lemma IsWellFormed(h: Host, operations: seq<Operation>, i: nat)
    requires i < |operations| && OperationsEncodable(h, operations)
    ensures WellFormed(h, operations[i].proposition)
  {
    assert operations[i] in operations;
  }

  lemma PayloadIsWritten(h: Host, f: Frame)
    requires FrameEncodable(h, f)
    ensures PayloadBytes(EncodePayload(h, f), f)
  {
    hide EncodeOperations, OperationsBytes;
    OperationsAreWritten(h, f.operations, 0);
    var b := EncodePayload(h, f);
    assert b[..8] == I64(f.sequence) && b[8..12] == U32(|f.operations|);
    assert b[12..] == EncodeOperations(h, f.operations, 0) && f.operations[0..] == f.operations;
  }

  /** A frame is written as those octets. */
  lemma FrameIsWritten(h: Host, f: Frame, deflate: bool)
    requires Writable(h, f, deflate)
    ensures FrameBytes(h, EncodeFrame(h, f, deflate), f, deflate)
  {
    hide EncodePayload, PayloadBytes, FrameEncodable;
    PayloadIsWritten(h, f);
    var stored, b := Stored(h, f, deflate), EncodeFrame(h, f, deflate);
    assert b[..4] == U32(|stored|) && b[4..|b| - 4] == stored && b[|b| - 4..] == U32(h.crc(stored));
  }

  // ----- the header -----

  /** "FRAMLOG" and a zero, version 1, a flag for compression and one for continuation, and the space. */
  ghost predicate HeaderBytes(b: Octets, header: Header) {
    && |b| == 16 + |header.space| && b[..8] == [70, 82, 65, 77, 76, 79, 71, 0]
    && Value(b[8..10]) == 1
    && Value(b[10..12]) == (if header.deflate then 1 else 0) + (if header.continuation then 2 else 0)
    && Value(b[12..16]) == |header.space| && b[16..] == header.space
  }

  lemma HeaderIsWritten(h: Host, header: Header)
    requires ValidHeader(h, header)
    ensures HeaderBytes(EncodeHeader(h, header), header)
  {
    var b := EncodeHeader(h, header);
    assert b[..8] == MAGIC && b[8..10] == U16(LOG_VERSION) && b[10..12] == U16(Flags(header));
    assert b[12..16] == U32(|header.space|) && b[16..] == header.space;
  }

  // ----- after the last whole frame -----

  /** Octets that break off inside a frame: fewer than a length needs, or fewer than the length they give and a checksum
      need. */
  predicate BreaksOff(tail: Octets) {
    0 < |tail| && (|tail| < 4 || (Value(tail[..4]) <= I32_MAX && |tail| < Value(tail[..4]) + 8))
  }

  /** Whatever follows a clean log is a torn tail exactly when it breaks off inside its first frame. The log then reads as
      before, and the reason says whether not even a length is there. */
  lemma TornTailIff(h: Host, b: Octets, tail: Octets, allow: bool)
    requires ParseLog(h, b, allow).Ok? && ParseLog(h, b, allow).value.torn == None
    ensures var clean, r := ParseLog(h, b, allow).value, ParseLog(h, b + tail, allow);
      && (r.Ok? && r.value.torn.Some? && r.value.frames == clean.frames <==> BreaksOff(tail))
      && (BreaksOff(tail) ==>
            && r.value.torn == Some(if |tail| < 4 then TornLength else TornFrame)
            && r.value.header == clean.header && r.value.ends == clean.ends && r.value.ValidBytes() == |b|)
  {
    hide ParseHeader, ScanFrom, ReadFrame;
    var (header, start) := ParseHeader(h, b, allow).value;
    HeaderUnderSuffix(h, b, tail, allow);
    ScanUnderSuffix(h, b, tail, start, header.deflate);
    TailReads(h, b, tail, header.deflate);
    var s := ScanFrom(h, b, start, header.deflate).value;
    assert s.frames + [] == s.frames && s.ends + [] == s.ends;
  }

  /** What is read after the clean octets. */
  lemma TailReads(h: Host, b: Octets, tail: Octets, deflate: bool)
    ensures var r := ScanFrom(h, b + tail, |b|, deflate);
      if BreaksOff(tail) then r == Ok(Scan([], [], Some(if |tail| < 4 then TornLength else TornFrame)))
      else r.Ok? && r.value.torn.Some? ==> r.value.frames != []
  {
    hide DecodePayload;
    if |tail| >= 4 {
      assert (b + tail)[|b|..|b| + 4] == tail[..4];
    }
    FramesOrEnd(h, b + tail, |b|, deflate);
    hide Inflated;
  }

  lemma FramesOrEnd(h: Host, b: Octets, p: nat, deflate: bool)
    requires p <= |b|
    ensures var r, step := ScanFrom(h, b, p, deflate), ReadFrame(h, b, p, deflate);
      && (step == Ok(End) ==> r == Ok(Scan([], [], None)))
      && (forall reason :: step == Ok(Short(reason)) ==> r == Ok(Scan([], [], Some(reason))))
      && (step.Ok? && step.value.Got? && r.Ok? ==> r.value.frames != [])
      && (step.Err? ==> r.Err?)
  {
    hide ReadFrame;
  }
}
