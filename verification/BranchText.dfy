/** The text files a store keeps beside its logs: a branch's ref, and the marker of an unfinished fork. */
module BranchText {
  import opened Bytes
  import opened Terms

  const MAX_CHAIN_LENGTH := 64
  /** The least number `ParseCount` refuses: it reads at most 18 digits. */
  const COUNT_LIMIT := 1_000_000_000_000_000_000
  const NEWLINE: octet := 10
  const RETURN: octet := 13
  const SPACE: octet := 32

  datatype SegmentRecord = SegmentRecord(sha: string, first: int, last: int, bytes: nat)

  datatype RefDocument = RefDocument(space: Octets, segments: seq<SegmentRecord>)

  datatype ForkMarker = ForkMarker(parent: string, child: string, segment: string)

  // ----- names -----

  predicate AlphaNumeric(c: char) { 'A' <= c <= 'Z' || 'a' <= c <= 'z' || '0' <= c <= '9' }

  predicate ValidBranchName(name: string) {
    && 0 < |name| <= 64 && AlphaNumeric(name[0])
    && (forall i :: 0 <= i < |name| ==> AlphaNumeric(name[i]) || name[i] in "._-")
    && (forall i :: 0 <= i < |name| - 1 ==> !(name[i] == '.' && name[i + 1] == '.'))
  }

  /** A SHA-256 digest in hex. */
  predicate SegmentName(name: string) {
    |name| == 64 && forall i :: 0 <= i < |name| ==> '0' <= name[i] <= '9' || 'a' <= name[i] <= 'f'
  }

  // ----- lines -----

  /** Where the first `c` is, or the length. */
  function IndexOf(text: Octets, c: octet): (i: nat)
    ensures i <= |text| && (i < |text| ==> text[i] == c) && forall k :: 0 <= k < i ==> text[k] != c
  {
    if text == [] || text[0] == c then 0 else 1 + IndexOf(text[1..], c)
  }

  /** The pieces between occurrences of `c`. */
  function Pieces(text: Octets, c: octet): (ps: seq<Octets>)
    ensures |ps| > 0
    decreases |text|
  {
    var i := IndexOf(text, c);
    if i == |text| then [text] else [text[..i]] + Pieces(text[i + 1..], c)
  }

  function DropEmpty(ps: seq<Octets>): seq<Octets> {
    if ps != [] && ps[|ps| - 1] == [] then DropEmpty(ps[..|ps| - 1]) else ps
  }

  /** Splitting keeps no empty piece at the end. */
  function Split(text: Octets, c: octet): seq<Octets> {
    if IndexOf(text, c) == |text| then [text] else DropEmpty(Pieces(text, c))
  }

  /** A line that a newline ends loses one carriage return before it. */
  function Chomp(line: Octets): Octets {
    if line != [] && line[|line| - 1] == RETURN then line[..|line| - 1] else line
  }

  function LinePieces(text: Octets): (ps: seq<Octets>)
    ensures |ps| > 0
    decreases |text|
  {
    var i := IndexOf(text, NEWLINE);
    if i == |text| then [text] else [Chomp(text[..i])] + LinePieces(text[i + 1..])
  }

  function Lines(text: Octets): seq<Octets> {
    if IndexOf(text, NEWLINE) == |text| then [text] else DropEmpty(LinePieces(text))
  }

  function Joined(lines: seq<Octets>): Octets {
    if lines == [] then [] else Joined(lines[..|lines| - 1]) + (lines[|lines| - 1] + [NEWLINE])
  }

  // ----- numbers -----

  function Digit(d: int): octet
    requires 0 <= d < 10
  {
    (48 + d) as octet
  }

  function DecimalNat(n: nat): (b: Octets)
    ensures |b| > 0
  {
    if n < 10 then [Digit(n)] else DecimalNat(n / 10) + [Digit(n % 10)]
  }

  function Decimal(n: int): Octets {
    if n < 0 then [45] + DecimalNat(-n) else DecimalNat(n)
  }

  predicate Digits(b: Octets) {
    forall i :: 0 <= i < |b| ==> 48 <= b[i] <= 57
  }

  function DecimalValue(b: Octets): nat
    requires Digits(b)
  {
    if b == [] then 0 else 10 * DecimalValue(b[..|b| - 1]) + (b[|b| - 1] as int - 48)
  }

  /** Reads 0, or up to 18 digits of which the first is not 0. */
  function ParseCount(b: Octets): Option<nat> {
    if 1 <= |b| <= 18 && Digits(b) && (b[0] != 48 || |b| == 1) then Some(DecimalValue(b)) else None
  }

  /** Eight lower-case hex digits. */
  function Hex(n: nat, width: nat): (b: Octets)
    ensures |b| == width
  {
    if width == 0 then [] else Hex(n / 16, width - 1) + [(if n % 16 < 10 then 48 + n % 16 else 87 + n % 16) as octet]
  }

  function NameOf(b: Octets): (s: string)
    ensures |s| == |b|
  {
    seq(|b|, i requires 0 <= i < |b| => b[i] as int as char)
  }

  // ----- the ref of a branch -----

  const REF_FORMAT := Ascii("framref/v1")
  const SPACE_FIELD := Ascii("space ")
  const SEGMENT_FIELD := Ascii("segment ")
  const CRC_FIELD := Ascii("crc ")

  function CrcLine(h: Host, body: Octets): Octets { CRC_FIELD + Hex(h.crc(body), 8) }

  function SegmentLine(r: SegmentRecord): Octets {
    SEGMENT_FIELD + (Ascii(r.sha) + ([SPACE] + (Decimal(r.first) + ([SPACE] + (Decimal(r.last) + ([SPACE] + Decimal(r.bytes)))))))
  }

  function SegmentLines(segments: seq<SegmentRecord>): (lines: seq<Octets>)
    ensures |lines| == |segments| && forall i :: 0 <= i < |lines| ==> lines[i] == SegmentLine(segments[i])
  {
    seq(|segments|, i requires 0 <= i < |segments| => SegmentLine(segments[i]))
  }

  function RefLines(d: RefDocument): seq<Octets> {
    [REF_FORMAT, SPACE_FIELD + d.space] + SegmentLines(d.segments)
  }

  function PrintRef(h: Host, d: RefDocument): Octets {
    var body := Joined(RefLines(d));
    body + (CrcLine(h, body) + [NEWLINE])
  }

  function ParseSegment(line: Octets, known: seq<SegmentRecord>): Result<SegmentRecord> {
    var fields := Split(line, SPACE);
    if |fields| != 5 then Err(InvalidBranchRef) else
    var sha := NameOf(fields[1]);
    if !SegmentName(sha) || exists i :: 0 <= i < |known| && known[i].sha == sha then Err(InvalidBranchRef) else
    var first, last, bytes := ParseCount(fields[2]), ParseCount(fields[3]), ParseCount(fields[4]);
    if first.None? || last.None? || last.value < first.value || bytes.None? then Err(InvalidBranchRef) else
    Ok(SegmentRecord(sha, first.value, last.value, bytes.value))
  }

  function ParseSegments(lines: seq<Octets>): (r: Result<seq<SegmentRecord>>)
    ensures r.Ok? ==> |r.value| == |lines|
  {
    if lines == [] then Ok([]) else
    var n := |lines| - 1;
    var before :- ParseSegments(lines[..n]);
    if !(SEGMENT_FIELD <= lines[n]) then Err(InvalidBranchRef) else
    var last :- ParseSegment(lines[n], before);
    Ok(before + [last])
  }

  function ParseRef(h: Host, text: Octets): Result<RefDocument> {
    var lines := Lines(text);
    var n := |lines| - 1;
    if n < 2 then Err(InvalidBranchRef) else
    if lines[0] != REF_FORMAT then Err(UnsupportedVersion) else
    if !(SPACE_FIELD <= lines[1]) || !(CRC_FIELD <= lines[n]) then Err(InvalidBranchRef) else
    var space := lines[1][|SPACE_FIELD|..];
    if space == [] || lines[n][|CRC_FIELD|..] != Hex(h.crc(Joined(lines[..n])), 8) then Err(InvalidBranchRef) else
    var segments :- ParseSegments(lines[2..n]);
    if |segments| > MAX_CHAIN_LENGTH then Err(InvalidBranchRef) else
    Ok(RefDocument(space, segments))
  }

  predicate Count(n: int) { 0 <= n < COUNT_LIMIT }

  predicate RecordReads(r: SegmentRecord) {
    Count(r.first) && Count(r.last) && Count(r.bytes) && r.first <= r.last
  }

  /** Whether a SpaceId survives being written on a line of its own. */
  predicate OneLine(space: Octets) {
    space != [] && NEWLINE !in space && space[|space| - 1] != RETURN
  }

  /** The documents a ref can say. */
  predicate RefReads(d: RefDocument) {
    && OneLine(d.space) && |d.segments| <= MAX_CHAIN_LENGTH
    && (forall i :: 0 <= i < |d.segments| ==> SegmentName(d.segments[i].sha) && RecordReads(d.segments[i]))
    && (forall i, j :: 0 <= i < j < |d.segments| ==> d.segments[i].sha != d.segments[j].sha)
  }

  // ----- the marker of a fork -----

  const MARKER_FORMAT := Ascii("framfork/v1")
  const PARENT_FIELD := Ascii("parent ")
  const CHILD_FIELD := Ascii("child ")

  function MarkerLines(m: ForkMarker): seq<Octets> {
    [MARKER_FORMAT, PARENT_FIELD + Ascii(m.parent), CHILD_FIELD + Ascii(m.child), SEGMENT_FIELD + Ascii(m.segment)]
  }

  function PrintMarker(h: Host, m: ForkMarker): Octets {
    var body := Joined(MarkerLines(m));
    body + (CrcLine(h, body) + [NEWLINE])
  }

  /** The markers a file can name. */
  predicate MarkerReads(m: ForkMarker) {
    ValidBranchName(m.parent) && ValidBranchName(m.child) && m.parent != m.child && SegmentName(m.segment)
  }

  function ParseMarker(h: Host, text: Octets): Result<ForkMarker> {
    var lines := Lines(text);
    if |lines| != 5 then Err(InvalidForkMarker) else
    if lines[0] != MARKER_FORMAT then Err(UnsupportedVersion) else
    if !(PARENT_FIELD <= lines[1]) || !(CHILD_FIELD <= lines[2]) || !(SEGMENT_FIELD <= lines[3]) then Err(InvalidForkMarker) else
    var m := ForkMarker(NameOf(lines[1][|PARENT_FIELD|..]), NameOf(lines[2][|CHILD_FIELD|..]), NameOf(lines[3][|SEGMENT_FIELD|..]));
    if lines[4] != CrcLine(h, Joined(lines[..4])) || !MarkerReads(m) then Err(InvalidForkMarker) else
    Ok(m)
  }
}
