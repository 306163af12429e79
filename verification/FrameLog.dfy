/** FRAMLOG: a header followed by length-prefixed, checksummed transaction frames. */
module FrameLog {
  import opened Bytes
  import opened Terms
  import opened Frames

  /** "FRAMLOG" and a zero octet. */
  const MAGIC: Octets := [70, 82, 65, 77, 76, 79, 71, 0]
  const LOG_VERSION := 1
  const DEFLATE_FLAG := 1
  const CONTINUATION_FLAG := 2

  datatype Header = Header(space: Octets, deflate: bool, continuation: bool)

  datatype TornReason = TornLength | TornFrame

  /** Frames read from one position on, the offset at which each ends, and how the octets run out. */
  datatype Scan = Scan(frames: seq<Frame>, ends: seq<nat>, torn: Option<TornReason>)

  datatype Step = End | Short(reason: TornReason) | Got(frame: Frame, end: nat)

  /** The result of reading a log. `deflate` is false when the reader leaves the key out. */
  datatype Parsed = Parsed(
    header: Header,
    deflate: bool,
    headerBytes: nat,
    frames: seq<Frame>,
    ends: seq<nat>,
    torn: Option<TornReason>)
  {
    /** The offset just past the last whole frame. */
    function ValidBytes(): nat { LastEnd(ends, headerBytes) }

    /** Maps each transaction sequence to the end of its last frame. */
    function PrefixEnds(): (m: map<int, nat>)
      requires |ends| == |frames|
    {
      EndsBySequence(frames, ends)
    }
  }

  function LastEnd(ends: seq<nat>, start: nat): nat {
    if ends == [] then start else ends[|ends| - 1]
  }

  function EndsBySequence(frames: seq<Frame>, ends: seq<nat>): (m: map<int, nat>)
    requires |ends| == |frames|
    decreases |frames|
  {
    if frames == [] then map[] else
    var n := |frames| - 1;
    EndsBySequence(frames[..n], ends[..n])[frames[n].sequence := ends[n]]
  }

  // ----- writing -----

  predicate ValidHeader(h: Host, header: Header) {
    header.space != [] && ValidText(h, header.space)
  }

  function Flags(header: Header): (n: nat)
    ensures n <= 3
  {
    (if header.deflate then DEFLATE_FLAG else 0) + (if header.continuation then CONTINUATION_FLAG else 0)
  }

  function EncodeHeader(h: Host, header: Header): (b: Octets)
    requires ValidHeader(h, header)
    ensures |b| == 16 + |header.space|
  {
    MAGIC + (U16(LOG_VERSION) + (U16(Flags(header)) + (U32(|header.space|) + header.space)))
  }

  /** The payload as stored: compressed in a deflate generation. */
  function Stored(h: Host, f: Frame, deflate: bool): (b: Octets)
    requires FrameEncodable(h, f)
  {
    if deflate then h.gzip(EncodePayload(h, f)) else EncodePayload(h, f)
  }

  predicate Writable(h: Host, f: Frame, deflate: bool) {
    FrameEncodable(h, f) && |Stored(h, f, deflate)| <= I32_MAX
  }

  predicate AllWritable(h: Host, frames: seq<Frame>, deflate: bool) {
    frames == [] || (Writable(h, frames[0], deflate) && AllWritable(h, frames[1..], deflate))
  }

  function EncodeFrame(h: Host, f: Frame, deflate: bool): (b: Octets)
    requires Writable(h, f, deflate)
    ensures |b| == |Stored(h, f, deflate)| + 8
  {
    var p := Stored(h, f, deflate);
    U32(|p|) + (p + U32(h.crc(p)))
  }

  function EncodeFrames(h: Host, frames: seq<Frame>, deflate: bool): (b: Octets)
    requires AllWritable(h, frames, deflate)
  {
    if frames == [] then [] else EncodeFrame(h, frames[0], deflate) + EncodeFrames(h, frames[1..], deflate)
  }

  function EncodeLog(h: Host, header: Header, frames: seq<Frame>): (b: Octets)
    requires ValidHeader(h, header) && AllWritable(h, frames, header.deflate)
  {
    EncodeHeader(h, header) + EncodeFrames(h, frames, header.deflate)
  }

  // ----- reading -----

  /** Reads a header and the offset at which it ends. */
  function ParseHeader(h: Host, b: Octets, allowContinuation: bool): (r: Result<(Header, nat)>)
    ensures r.Ok? ==> r.value.1 <= |b|
  {
    if |b| < 8 || b[..8] != MAGIC || |b| < 16 then Err(CorruptLog) else
    var flags := Value(b[10..12]);
    if Value(b[8..10]) != LOG_VERSION || flags > 3 || (flags >= CONTINUATION_FLAG && !allowContinuation)
    then Err(UnsupportedVersion) else
    var n := Value(b[12..16]);
    if n == 0 || n > I32_MAX || |b| - 16 < n then Err(CorruptLog) else
    if !h.utf8(b[16..16 + n]) then Err(InvalidUtf8) else
    Ok((Header(b[16..16 + n], flags % 2 == 1, flags >= CONTINUATION_FLAG), 16 + n))
  }

  function Inflated(h: Host, payload: Octets, deflate: bool): Option<Octets> {
    if deflate then h.gunzip(payload) else Some(payload)
  }

  /** Reads the frame at `p`, or says why there is no whole frame there. */
  function ReadFrame(h: Host, b: Octets, p: nat, deflate: bool): (r: Result<Step>)
    requires p <= |b|
    ensures r.Ok? && r.value.Got? ==> p + 8 <= r.value.end <= |b|
  {
    var remaining := |b| - p;
    if remaining == 0 then Ok(End) else
    if remaining < 4 then Ok(Short(TornLength)) else
    var n := Value(b[p..p + 4]);
    if n > I32_MAX then Err(CorruptLog) else
    if remaining - 4 < n + 4 then Ok(Short(TornFrame)) else
    var payload := b[p + 4..p + 4 + n];
    if Value(b[p + 4 + n..p + 8 + n]) != h.crc(payload) then Err(CorruptLog) else
    match Inflated(h, payload, deflate)
    case None => Err(CorruptLog)
    case Some(raw) =>
      var frame :- DecodePayload(h, raw);
      Ok(Got(frame, p + 8 + n))
  }

  function Prepend(frames: seq<Frame>, ends: seq<nat>, r: Result<Scan>): Result<Scan> {
    match r
    case Err(fault) => Err(fault)
    case Ok(s) => Ok(Scan(frames + s.frames, ends + s.ends, s.torn))
  }

  function ScanFrom(h: Host, b: Octets, p: nat, deflate: bool): (r: Result<Scan>)
    requires p <= |b|
    ensures r.Ok? ==> |r.value.frames| == |r.value.ends| && LastEnd(r.value.ends, p) <= |b|
    decreases |b| - p
  {
    match ReadFrame(h, b, p, deflate)
    case Err(fault) => Err(fault)
    case Ok(End) => Ok(Scan([], [], None))
    case Ok(Short(reason)) => Ok(Scan([], [], Some(reason)))
    case Ok(Got(frame, end)) => Prepend([frame], [end], ScanFrom(h, b, end, deflate))
  }

  function Assemble(header: Header, headerBytes: nat, s: Scan): Parsed {
    Parsed(header, s.torn != Some(TornFrame) && header.deflate, headerBytes, s.frames, s.ends, s.torn)
  }

  function ParseLog(h: Host, b: Octets, allowContinuation: bool): (r: Result<Parsed>)
    ensures r.Ok? ==> |r.value.frames| == |r.value.ends|
    ensures r.Ok? ==> r.value.headerBytes <= |b| && r.value.ValidBytes() <= |b|
  {
    var (header, start) :- ParseHeader(h, b, allowContinuation);
    var s :- ScanFrom(h, b, start, header.deflate);
    Ok(Assemble(header, start, s))
  }
}
