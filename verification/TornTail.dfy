/** Torn-tail recovery: what a reader gets from a log cut at any offset. */
module TornTail {
  import opened Bytes
  import opened Terms
  import opened Frames
  import opened FrameLog

  /** How many of the ascending `ends` lie at or before `c`. */
  function WholeFrames(ends: seq<nat>, c: nat): (k: nat)
    ensures k <= |ends|
  {
    if ends == [] || ends[0] > c then 0 else 1 + WholeFrames(ends[1..], c)
  }

  predicate Ascending(ends: seq<nat>) {
    forall i, j :: 0 <= i < j < |ends| ==> ends[i] < ends[j]
  }

  /** `WholeFrames` is exactly the number of frames that end by the cut. */
  lemma {:induction false} WholeFramesSplits(ends: seq<nat>, c: nat)
    requires Ascending(ends)
    ensures var k := WholeFrames(ends, c);
      && (forall i :: 0 <= i < k ==> ends[i] <= c)
      && (forall i :: k <= i < |ends| ==> ends[i] > c)
  {
    if ends != [] && ends[0] <= c {
      WholeFramesSplits(ends[1..], c);
      var k := WholeFrames(ends[1..], c);
      forall i | 1 <= i < |ends| ensures ends[i] == ends[1..][i - 1] {}
    }
  }

  lemma {:induction false} ScanEndsAscend(h: Host, b: Octets, p: nat, deflate: bool)
    requires p <= |b| && ScanFrom(h, b, p, deflate).Ok?
    ensures var ends := ScanFrom(h, b, p, deflate).value.ends;
      Ascending(ends) && forall i :: 0 <= i < |ends| ==> p + 8 <= ends[i] <= |b|
    decreases |b| - p
  {
    hide ReadFrame;
    if ReadFrame(h, b, p, deflate).value.Got? {
      ScanEndsAscend(h, b, ReadFrame(h, b, p, deflate).value.end, deflate);
    }
  }

  // ----- cutting -----

  /** A frame survives any cut at or after its end; an earlier cut leaves no whole frame there. */
  lemma ReadFrameCut(h: Host, b: Octets, p: nat, c: nat, deflate: bool)
    requires p <= c <= |b| && ReadFrame(h, b, p, deflate).Ok?
    ensures var full := ReadFrame(h, b, p, deflate).value;
      if full.Got? && full.end <= c then ReadFrame(h, b[..c], p, deflate) == Ok(full)
      else var cut := ReadFrame(h, b[..c], p, deflate); cut.Ok? && !cut.value.Got? && (cut.value.End? <==> c == p)
  {
    hide DecodePayload;
    if c - p >= 4 {
      var n := Value(b[p..p + 4]);
      assert b[..c][p..p + 4] == b[p..p + 4];
      if c - p - 4 >= n + 4 {
        assert b[..c][p + 4..p + 4 + n] == b[p + 4..p + 4 + n];
        assert b[..c][p + 4 + n..p + 8 + n] == b[p + 4 + n..p + 8 + n];
      }
    }
  }

  /** The frames ending by the cut, and a torn tail exactly when the cut is inside a frame. */
  predicate IsCut(full: Scan, cut: Scan, p: nat, c: nat)
    requires |full.frames| == |full.ends|
  {
    var k := WholeFrames(full.ends, c);
    && cut.frames == full.frames[..k]
    && cut.ends == full.ends[..k]
    && (cut.torn == None <==> c == LastEnd(full.ends[..k], p))
  }

  /** One frame that ends by the cut is kept in front of what the rest gives. */
  lemma CutKeepsFirst(f: Frame, end: nat, rest: Scan, restCut: Scan, p: nat, c: nat)
    requires |rest.frames| == |rest.ends| && end <= c
    requires IsCut(rest, restCut, end, c)
    ensures IsCut(Scan([f] + rest.frames, [end] + rest.ends, rest.torn),
                  Scan([f] + restCut.frames, [end] + restCut.ends, restCut.torn), p, c)
  {
    var ends := [end] + rest.ends;
    var k := WholeFrames(rest.ends, c);
    assert ends[1..] == rest.ends;
    assert ends[..k + 1] == [end] + rest.ends[..k];
    assert ([f] + rest.frames)[..k + 1] == [f] + rest.frames[..k];
  }

  lemma NothingKept(full: Scan, cut: Scan, p: nat, c: nat)
    requires |full.frames| == |full.ends| && (full.ends == [] || full.ends[0] > c)
    requires cut.frames == [] && cut.ends == [] && (cut.torn == None <==> c == p)
    ensures IsCut(full, cut, p, c)
  {
  }

  lemma {:induction false} ScanCut(h: Host, b: Octets, p: nat, c: nat, deflate: bool)
    requires p <= c <= |b| && ScanFrom(h, b, p, deflate).Ok?
    ensures ScanFrom(h, b[..c], p, deflate).Ok?
    ensures IsCut(ScanFrom(h, b, p, deflate).value, ScanFrom(h, b[..c], p, deflate).value, p, c)
    decreases |b| - p
  {
    hide ReadFrame, IsCut;
    ReadFrameCut(h, b, p, c, deflate);
    var full := ReadFrame(h, b, p, deflate).value;
    if full.Got? && full.end <= c {
      ScanCut(h, b, full.end, c, deflate);
      CutKeepsFirst(full.frame, full.end, ScanFrom(h, b, full.end, deflate).value,
                    ScanFrom(h, b[..c], full.end, deflate).value, p, c);
    } else {
      NothingKept(ScanFrom(h, b, p, deflate).value, ScanFrom(h, b[..c], p, deflate).value, p, c);
    }
  }

  lemma ParseHeaderCut(h: Host, b: Octets, allow: bool, c: nat)
    requires c <= |b| && ParseHeader(h, b, allow).Ok? && ParseHeader(h, b, allow).value.1 <= c
    ensures ParseHeader(h, b[..c], allow) == ParseHeader(h, b, allow)
  {
    var n := Value(b[12..16]);
    assert b[..c][..8] == b[..8] && b[..c][8..10] == b[8..10] && b[..c][10..12] == b[10..12];
    assert b[..c][12..16] == b[12..16] && b[..c][16..16 + n] == b[16..16 + n];
  }

  /** Any readable log, cut anywhere from its header on, reads as exactly the frames that end
      by the cut, and reports a torn tail exactly when the cut is not on a frame boundary. */
  lemma CutReadsWholePrefix(h: Host, b: Octets, allow: bool, c: nat)
    requires ParseLog(h, b, allow).Ok? && ParseLog(h, b, allow).value.headerBytes <= c <= |b|
    ensures ParseLog(h, b[..c], allow).Ok?
    ensures var full, cut := ParseLog(h, b, allow).value, ParseLog(h, b[..c], allow).value;
      var k := WholeFrames(full.ends, c);
      && cut.header == full.header && cut.headerBytes == full.headerBytes
      && cut.frames == full.frames[..k]
      && cut.ends == full.ends[..k]
      && (cut.torn == None <==> c == cut.ValidBytes())
      && cut.ValidBytes() <= c
  {
    hide ParseHeader, ScanFrom;
    var (header, start) := ParseHeader(h, b, allow).value;
    ParseHeaderCut(h, b, allow, c);
    ScanCut(h, b, start, c, header.deflate);
  }

  /** Truncating a torn log to its valid octets makes it read clean, with the same frames. */
  lemma RepairReadsClean(h: Host, b: Octets, allow: bool)
    requires ParseLog(h, b, allow).Ok?
    ensures var full := ParseLog(h, b, allow).value;
      var repaired := ParseLog(h, b[..full.ValidBytes()], allow);
      && repaired.Ok? && repaired.value.torn == None
      && repaired.value.frames == full.frames && repaired.value.ends == full.ends
      && repaired.value.header == full.header
      && repaired.value.ValidBytes() == full.ValidBytes()
  {
    var full := ParseLog(h, b, allow).value;
    ScanEndsAscend(h, b, full.headerBytes, full.header.deflate);
    CutReadsWholePrefix(h, b, allow, full.ValidBytes());
    WholeFramesSplits(full.ends, full.ValidBytes());
    assert WholeFrames(full.ends, full.ValidBytes()) == |full.ends|;
    assert full.frames[..|full.frames|] == full.frames && full.ends[..|full.ends|] == full.ends;
  }
}
