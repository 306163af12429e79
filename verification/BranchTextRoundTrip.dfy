/** What a printed ref or marker parses back as. */
module BranchTextRoundTrip {
  import opened Bytes
  import opened Terms
  import opened BranchText

  // ----- numbers -----

  function Pow10(k: nat): nat {
    if k == 0 then 1 else 10 * Pow10(k - 1)
  }

  lemma {:induction false} DecimalDigits(n: nat)
    ensures Digits(DecimalNat(n)) && DecimalValue(DecimalNat(n)) == n
    ensures DecimalNat(n)[0] == 48 ==> n == 0 && |DecimalNat(n)| == 1
  {
    if n >= 10 {
      DecimalDigits(n / 10);
      var b := DecimalNat(n);
      assert b[..|b| - 1] == DecimalNat(n / 10);
      assert b[0] == DecimalNat(n / 10)[0];
    } else {
      assert DecimalNat(n)[..0] == [];
    }
  }

  lemma {:induction false} DecimalFits(n: nat, k: nat)
    requires k > 0
    ensures |DecimalNat(n)| <= k <==> n < Pow10(k)
    decreases k
  {
    if n >= 10 {
      if k > 1 {
        DecimalFits(n / 10, k - 1);
        TenTimes(n, Pow10(k - 1));
      } else {
        assert Pow10(1) == 10 * Pow10(0);
      }
    } else {
      Pow10Grows(k);
    }
  }

  lemma TenTimes(n: nat, p: nat)
    ensures n / 10 < p <==> n < 10 * p
  {
  }

  lemma {:induction false} Pow10Grows(k: nat)
    requires k > 0
    ensures Pow10(k) >= 10
  {
    if k > 1 {
      Pow10Grows(k - 1);
    } else {
      assert Pow10(0) == 1;
    }
  }

  lemma EighteenDigits()
    ensures Pow10(18) == COUNT_LIMIT
  {
    assert Pow10(6) == 1_000_000;
    assert Pow10(12) == 1_000_000 * Pow10(6);
    assert Pow10(18) == 1_000_000 * Pow10(12);
  }

  /** A printed number reads back exactly when it is not negative and has at most 18 digits. */
  lemma CountReads(n: int)
    ensures ParseCount(Decimal(n)) == if Count(n) then Some(n) else None
  {
    if n >= 0 {
      DecimalDigits(n);
      DecimalFits(n, 18);
      EighteenDigits();
    } else {
      assert Decimal(n)[0] == 45;
    }
  }

  // ----- splitting -----

  lemma FirstPiece(p: Octets, c: octet, rest: Octets)
    requires c !in p
    ensures IndexOf(p + ([c] + rest), c) == |p|
    ensures (p + ([c] + rest))[..|p|] == p && (p + ([c] + rest))[|p| + 1..] == rest
  {
    AroundSeparator(p, c, rest);
    StopsAt(p, c, p + ([c] + rest));
  }

  lemma AroundSeparator(p: Octets, c: octet, rest: Octets)
    ensures var text := p + ([c] + rest);
      text[|p|] == c && text[..|p|] == p && text[|p| + 1..] == rest
  {
  }

  lemma StopsAt(p: Octets, c: octet, text: Octets)
    requires c !in p && |p| < |text| && text[..|p|] == p && text[|p|] == c
    ensures IndexOf(text, c) == |p|
  {
    hide IndexOf;
    var i := IndexOf(text, c);
    assert forall k :: 0 <= k < |p| ==> text[k] == p[k];
  }

  lemma NoPiece(p: Octets, c: octet)
    requires c !in p
    ensures IndexOf(p, c) == |p|
  {
    assert forall k :: 0 <= k < |p| ==> p[k] in p;
  }

  lemma PiecesStep(p: Octets, c: octet, rest: Octets)
    requires c !in p
    ensures Pieces(p + ([c] + rest), c) == [p] + Pieces(rest, c)
  {
    FirstPiece(p, c, rest);
  }

  lemma LinePiecesStep(p: Octets, rest: Octets)
    requires NEWLINE !in p
    ensures LinePieces(p + ([NEWLINE] + rest)) == [Chomp(p)] + LinePieces(rest)
  {
    FirstPiece(p, NEWLINE, rest);
  }

  /** A line's fields, none with a space in it and the last not empty. */
  lemma SplitFive(a: Octets, b: Octets, c: Octets, d: Octets, e: Octets)
    requires SPACE !in a && SPACE !in b && SPACE !in c && SPACE !in d && SPACE !in e && e != []
    ensures Split(a + ([SPACE] + (b + ([SPACE] + (c + ([SPACE] + (d + ([SPACE] + e))))))), SPACE) == [a, b, c, d, e]
  {
    hide Pieces, IndexOf;
    var de := d + ([SPACE] + e);
    var cde := c + ([SPACE] + de);
    var bcde := b + ([SPACE] + cde);
    LastPiece(e);
    PiecesStep(d, SPACE, e);
    PiecesStep(c, SPACE, de);
    PiecesStep(b, SPACE, cde);
    PiecesStep(a, SPACE, bcde);
    FirstPiece(a, SPACE, bcde);
  }

  lemma LastPiece(e: Octets)
    requires SPACE !in e
    ensures Pieces(e, SPACE) == [e]
  {
    NoPiece(e, SPACE);
  }

  // ----- lines -----

  predicate CleanLine(line: Octets) {
    NEWLINE !in line && (line != [] ==> line[|line| - 1] != RETURN)
  }

  lemma {:induction false} JoinedFirst(line: Octets, rest: seq<Octets>)
    ensures Joined([line] + rest) == line + ([NEWLINE] + Joined(rest))
    decreases |rest|
  {
    if rest == [] {
      assert [line] + rest == [line] && [line][..0] == [];
      assert Joined([line]) == [] + (line + [NEWLINE]);
      assert line + ([NEWLINE] + []) == [] + (line + [NEWLINE]);
    } else {
      var n := |rest| - 1;
      assert ([line] + rest)[..n + 1] == [line] + rest[..n];
      JoinedFirst(line, rest[..n]);
      var last := rest[n] + [NEWLINE];
      assert (line + ([NEWLINE] + Joined(rest[..n]))) + last == line + ([NEWLINE] + (Joined(rest[..n]) + last));
    }
  }

  /** Text whose first lines are clean splits into those lines and the pieces of what follows. */
  lemma {:induction false} LinesFirst(lines: seq<Octets>, rest: Octets)
    requires forall i :: 0 <= i < |lines| ==> CleanLine(lines[i])
    ensures LinePieces(Joined(lines) + rest) == lines + LinePieces(rest)
  {
    hide LinePieces;
    if lines == [] {
      assert Joined(lines) + rest == rest && lines + LinePieces(rest) == LinePieces(rest);
    } else {
      var more := lines[1..];
      assert lines == [lines[0]] + more;
      JoinedFirst(lines[0], more);
      LinesFirst(more, rest);
      assert Joined(lines) + rest == lines[0] + ([NEWLINE] + (Joined(more) + rest));
      LinePiecesStep(lines[0], Joined(more) + rest);
    }
  }

  /** Clean lines, the last not empty, read back from their text. */
  lemma LinesReadBack(lines: seq<Octets>)
    requires lines != [] && lines[|lines| - 1] != [] && forall i :: 0 <= i < |lines| ==> CleanLine(lines[i])
    ensures Lines(Joined(lines)) == lines
  {
    hide LinePieces, Joined, CleanLine, IndexOf, DropEmpty;
    LinesFirst(lines, []);
    NothingAfterLines();
    EndsInNewline(lines);
    OneEmptyDropped(lines);
    assert Joined(lines) + [] == Joined(lines);
  }

  lemma OneEmptyDropped(lines: seq<Octets>)
    requires lines != [] && lines[|lines| - 1] != []
    ensures DropEmpty(lines + [[]]) == lines
  {
    var all := lines + [[]];
    assert all[..|all| - 1] == lines && all[|all| - 1] == [];
  }

  lemma EndsInNewline(lines: seq<Octets>)
    requires lines != []
    ensures IndexOf(Joined(lines), NEWLINE) < |Joined(lines)|
  {
    hide IndexOf;
    var text := Joined(lines);
    assert text[|text| - 1] == NEWLINE;
  }

  lemma NothingAfterLines()
    ensures LinePieces([]) == [[]]
  {
  }

  lemma {:induction false} PiecesHaveNoNewline(text: Octets)
    ensures forall i :: 0 <= i < |LinePieces(text)| ==> NEWLINE !in LinePieces(text)[i]
    decreases |text|
  {
    var i := IndexOf(text, NEWLINE);
    if i < |text| {
      PiecesHaveNoNewline(text[i + 1..]);
    }
  }

  lemma {:induction false} DropEmptyIsPrefix(ps: seq<Octets>)
    ensures DropEmpty(ps) <= ps
  {
    if ps != [] && ps[|ps| - 1] == [] {
      DropEmptyIsPrefix(ps[..|ps| - 1]);
    }
  }

  /** Every line is a piece of the text. */
  lemma LinesArePieces(text: Octets)
    ensures Lines(text) <= LinePieces(text)
  {
    DropEmptyIsPrefix(LinePieces(text));
  }

  // ----- names -----

  lemma NameReads(name: string)
    requires forall i :: 0 <= i < |name| ==> '-' <= name[i] <= 'z'
    ensures NameOf(Ascii(name)) == name && NEWLINE !in Ascii(name) && RETURN !in Ascii(name) && SPACE !in Ascii(name)
  {
    assert forall i :: 0 <= i < |name| ==> Ascii(name)[i] as int == name[i] as int;
  }

  lemma SegmentNameReads(name: string)
    requires SegmentName(name)
    ensures NameOf(Ascii(name)) == name && NEWLINE !in Ascii(name) && RETURN !in Ascii(name) && SPACE !in Ascii(name)
  {
    NameReads(name);
  }

  lemma BranchNameReads(name: string)
    requires ValidBranchName(name)
    ensures NameOf(Ascii(name)) == name && NEWLINE !in Ascii(name) && RETURN !in Ascii(name) && SPACE !in Ascii(name)
  {
    forall i | 0 <= i < |name| ensures '-' <= name[i] <= 'z' {
      assert AlphaNumeric(name[i]) || name[i] in "._-";
    }
    NameReads(name);
  }

  lemma NumberIsClean(n: int)
    ensures Decimal(n) != [] && NEWLINE !in Decimal(n) && RETURN !in Decimal(n) && SPACE !in Decimal(n)
  {
    DecimalDigits(if n < 0 then -n else n);
  }

  // ----- segment lines -----

  lemma SegmentLineFields(r: SegmentRecord)
    requires SegmentName(r.sha)
    ensures Split(SegmentLine(r), SPACE) == [Ascii("segment"), Ascii(r.sha), Decimal(r.first), Decimal(r.last), Decimal(r.bytes)]
    ensures CleanLine(SegmentLine(r)) && SEGMENT_FIELD <= SegmentLine(r)
  {
    hide Split, Decimal, SegmentName, Ascii;
    SegmentNameReads(r.sha);
    NumberIsClean(r.first);
    NumberIsClean(r.last);
    NumberIsClean(r.bytes);
    FieldName();
    var rest := Ascii(r.sha) + ([SPACE] + (Decimal(r.first) + ([SPACE] + (Decimal(r.last) + ([SPACE] + Decimal(r.bytes))))));
    SplitFive(Ascii("segment"), Ascii(r.sha), Decimal(r.first), Decimal(r.last), Decimal(r.bytes));
    assert SegmentLine(r) == Ascii("segment") + ([SPACE] + rest);
    assert SegmentLine(r)[|SegmentLine(r)| - 1] == Decimal(r.bytes)[|Decimal(r.bytes)| - 1];
  }

  lemma FieldName()
    ensures SEGMENT_FIELD == Ascii("segment") + [SPACE]
    ensures NEWLINE !in Ascii("segment") && SPACE !in Ascii("segment")
  {
  }

  lemma SegmentReads(r: SegmentRecord, known: seq<SegmentRecord>)
    requires SegmentName(r.sha)
    ensures var p := ParseSegment(SegmentLine(r), known);
      if RecordReads(r) && forall i :: 0 <= i < |known| ==> known[i].sha != r.sha then p == Ok(r) else p.Err?
  {
    hide Split, Decimal, SegmentLine, ParseCount, Ascii;
    SegmentLineFields(r);
    SegmentNameReads(r.sha);
    CountReads(r.first);
    CountReads(r.last);
    CountReads(r.bytes);
  }

  predicate SegmentsRead(segments: seq<SegmentRecord>) {
    && (forall i :: 0 <= i < |segments| ==> RecordReads(segments[i]))
    && (forall i, j :: 0 <= i < j < |segments| ==> segments[i].sha != segments[j].sha)
  }

  lemma {:induction false} SegmentsReadBack(segments: seq<SegmentRecord>)
    requires forall i :: 0 <= i < |segments| ==> SegmentName(segments[i].sha)
    ensures var p := ParseSegments(SegmentLines(segments)); if SegmentsRead(segments) then p == Ok(segments) else p.Err?
    decreases |segments|
  {
    assert SegmentsRead([]);
    hide ParseSegment, SegmentLine, RecordReads, SegmentName, SegmentsRead, ParseSegments, SEGMENT_FIELD;
    if segments == [] {
      ParseNone(SegmentLines(segments));
    } else {
      var n := |segments| - 1;
      var before := segments[..n];
      SegmentsReadBack(before);
      assert SegmentLines(segments)[..n] == SegmentLines(before);
      SegmentLineFields(segments[n]);
      SegmentReads(segments[n], before);
      OneSegmentMore(segments);
      ParseMore(SegmentLines(segments));
    }
  }

  lemma ParseNone(lines: seq<Octets>)
    requires lines == []
    ensures ParseSegments(lines) == Ok([])
  {
  }

  lemma ParseMore(lines: seq<Octets>)
    requires lines != [] && SEGMENT_FIELD <= lines[|lines| - 1]
    ensures ParseSegments(lines) == match ParseSegments(lines[..|lines| - 1])
      case Err(e) => Err(e)
      case Ok(before) =>
        match ParseSegment(lines[|lines| - 1], before)
        case Err(e) => Err(e)
        case Ok(last) => Ok(before + [last])
  {
    hide ParseSegment, SEGMENT_FIELD;
  }

  lemma OneSegmentMore(segments: seq<SegmentRecord>)
    requires segments != []
    ensures var n := |segments| - 1;
      && segments == segments[..n] + [segments[n]]
      && (SegmentsRead(segments) <==>
            (SegmentsRead(segments[..n]) && RecordReads(segments[n])
             && forall i :: 0 <= i < n ==> segments[..n][i].sha != segments[n].sha))
  {
    hide RecordReads;
  }

  lemma {:induction false} ValueFits(b: Octets)
    requires Digits(b)
    ensures DecimalValue(b) < Pow10(|b|)
    decreases |b|
  {
    if b != [] {
      ValueFits(b[..|b| - 1]);
    }
  }

  lemma {:induction false} Pow10Rises(k: nat, m: nat)
    requires k <= m
    ensures Pow10(k) <= Pow10(m)
    decreases m
  {
    if k < m {
      Pow10Rises(k, m - 1);
    }
  }

  lemma ParsedCounts(b: Octets)
    ensures ParseCount(b).Some? ==> Count(ParseCount(b).value)
  {
    hide Pow10, DecimalValue;
    if ParseCount(b).Some? {
      ValueFits(b);
      Pow10Rises(|b|, 18);
      EighteenDigits();
    }
  }

  /** Segments that parse are named by distinct digests and numbered in order. */
  predicate GoodSegments(segments: seq<SegmentRecord>) {
    SegmentsRead(segments) && forall i :: 0 <= i < |segments| ==> SegmentName(segments[i].sha)
  }

  lemma ParsedSegment(line: Octets, known: seq<SegmentRecord>)
    ensures ParseSegment(line, known).Ok? ==> var r := ParseSegment(line, known).value;
      SegmentName(r.sha) && RecordReads(r) && forall i :: 0 <= i < |known| ==> known[i].sha != r.sha
  {
    hide Split, SegmentName, ParseCount;
    var fields := Split(line, SPACE);
    if |fields| == 5 {
      ParsedCounts(fields[2]);
      ParsedCounts(fields[3]);
      ParsedCounts(fields[4]);
    }
  }

  lemma {:induction false} ParsedNames(lines: seq<Octets>)
    ensures ParseSegments(lines).Ok? ==> GoodSegments(ParseSegments(lines).value)
    decreases |lines|
  {
    hide ParseSegment, SegmentName, RecordReads;
    if lines != [] && ParseSegments(lines).Ok? {
      var n := |lines| - 1;
      ParsedNames(lines[..n]);
      ParsedSegment(lines[n], ParseSegments(lines[..n]).value);
    }
  }

  /** Whatever text a ref holds, what it says can be said again, but for a SpaceId that ends in a carriage
      return. */
  lemma ParsedReads(h: Host, text: Octets)
    ensures ParseRef(h, text).Ok? ==> var d := ParseRef(h, text).value;
      GoodSegments(d.segments) && |d.segments| <= MAX_CHAIN_LENGTH && d.space != []
  {
    hide ParseSegments, GoodSegments, Lines, Joined, Hex;
    var lines := Lines(text);
    if |lines| > 2 {
      ParsedNames(lines[2..|lines| - 1]);
    }
  }

  // ----- refs -----

  lemma CrcLineIsClean(h: Host, body: Octets)
    ensures CleanLine(CrcLine(h, body)) && CrcLine(h, body) != [] && CRC_FIELD <= CrcLine(h, body)
    ensures CrcLine(h, body)[|CRC_FIELD|..] == Hex(h.crc(body), 8)
  {
    HexIsClean(h.crc(body), 8);
    assert |CRC_FIELD| == 4 && NEWLINE !in CRC_FIELD;
  }

  lemma {:induction false} HexIsClean(n: nat, width: nat)
    ensures forall i :: 0 <= i < width ==> Hex(n, width)[i] >= 48
  {
    if width > 0 {
      HexIsClean(n / 16, width - 1);
    }
  }

  lemma SpaceLineIsClean(space: Octets)
    requires OneLine(space)
    ensures CleanLine(SPACE_FIELD + space) && (SPACE_FIELD + space)[|SPACE_FIELD|..] == space
    ensures CleanLine(REF_FORMAT)
  {
    assert |SPACE_FIELD| == 6 && NEWLINE !in SPACE_FIELD && NEWLINE !in REF_FORMAT && |REF_FORMAT| == 10;
  }

  /** The lines of a printed ref whose SpaceId fits a line. */
  lemma PrintedLines(h: Host, d: RefDocument)
    requires OneLine(d.space) && forall i :: 0 <= i < |d.segments| ==> SegmentName(d.segments[i].sha)
    ensures Lines(PrintRef(h, d)) == RefLines(d) + [CrcLine(h, Joined(RefLines(d)))]
  {
    hide Lines, SegmentLine, CrcLine, SegmentName, OneLine, CleanLine;
    var lines := RefLines(d);
    var body := Joined(lines);
    var all := lines + [CrcLine(h, body)];
    CrcLineIsClean(h, body);
    SpaceLineIsClean(d.space);
    forall i | 0 <= i < |all| ensures CleanLine(all[i]) {
      if 2 <= i < |lines| {
        SegmentLineFields(d.segments[i - 2]);
      }
    }
    assert all[..|lines|] == lines;
    LinesReadBack(all);
  }

  lemma PrintedReads(h: Host, d: RefDocument)
    requires OneLine(d.space) && forall i :: 0 <= i < |d.segments| ==> SegmentName(d.segments[i].sha)
    ensures var p := ParseRef(h, PrintRef(h, d)); if RefReads(d) then p == Ok(d) else p.Err?
  {
    hide Lines, SegmentLine, CrcLine, SegmentName, OneLine, ParseSegments, RecordReads, PrintRef;
    PrintedLines(h, d);
    var lines := RefLines(d) + [CrcLine(h, Joined(RefLines(d)))];
    var n := |lines| - 1;
    CrcLineIsClean(h, Joined(RefLines(d)));
    SpaceLineIsClean(d.space);
    assert lines[..n] == RefLines(d) && lines[2..n] == SegmentLines(d.segments);
    assert d.space != [] by { OneLineIsSome(d.space); }
    SegmentsReadBack(d.segments);
  }

  lemma OneLineIsSome(space: Octets)
    requires OneLine(space)
    ensures space != []
  {
  }

  /** A SpaceId that does not fit a line is never read back as itself. */
  lemma BrokenSpaceMisreads(h: Host, d: RefDocument)
    requires !OneLine(d.space)
    ensures var p := ParseRef(h, PrintRef(h, d)); p.Ok? ==> p.value.space != d.space
  {
    hide ParseSegments, SegmentLine, CrcLine, LinePieces, Lines;
    var text := PrintRef(h, d);
    var p := ParseRef(h, text);
    if p.Ok? {
      PiecesHaveNoNewline(text);
      LinesArePieces(text);
      var line := Lines(text)[1];
      assert line == LinePieces(text)[1];
      if NEWLINE !in d.space && d.space != [] {
        SecondLine(h, d);
      }
    }
  }

  lemma SecondLine(h: Host, d: RefDocument)
    requires NEWLINE !in d.space
    ensures |LinePieces(PrintRef(h, d))| >= 2 && LinePieces(PrintRef(h, d))[1] == Chomp(SPACE_FIELD + d.space)
  {
    hide LinePieces, SegmentLine, CrcLine, Joined, Chomp;
    var text, body := PrintRef(h, d), Joined(RefLines(d));
    var after := CrcLine(h, body) + [NEWLINE];
    var line, more := SPACE_FIELD + d.space, SegmentLines(d.segments);
    assert RefLines(d) == [REF_FORMAT] + ([line] + more);
    JoinedFirst(REF_FORMAT, [line] + more);
    JoinedFirst(line, more);
    var rest := Joined(more) + after;
    assert text == REF_FORMAT + ([NEWLINE] + (line + ([NEWLINE] + rest)));
    assert NEWLINE !in REF_FORMAT && NEWLINE !in SPACE_FIELD;
    LinePiecesStep(REF_FORMAT, line + ([NEWLINE] + rest));
    LinePiecesStep(line, rest);
  }

  /** A printed ref that does not read back as its document fails, or gives another SpaceId. */
  lemma PrintedRefReads(h: Host, d: RefDocument)
    requires forall i :: 0 <= i < |d.segments| ==> SegmentName(d.segments[i].sha)
    ensures var p := ParseRef(h, PrintRef(h, d));
      if RefReads(d) then p == Ok(d) else p.Err? || p.value.space != d.space
  {
    hide PrintRef, ParseRef, SegmentName, RecordReads, OneLine;
    if OneLine(d.space) {
      PrintedReads(h, d);
    } else {
      BrokenSpaceMisreads(h, d);
    }
  }

  /** A printed ref reads back as the document it prints exactly when the SpaceId fits a line, the segments
      are few enough, named by distinct digests, and numbered with at most 18 digits, in order. */
  lemma RefRoundTripIff(h: Host, d: RefDocument)
    ensures ParseRef(h, PrintRef(h, d)) == Ok(d) <==> RefReads(d)
  {
    hide PrintRef, ParseSegments, Lines, SegmentName, RecordReads, OneLine;
    if !OneLine(d.space) {
      BrokenSpaceMisreads(h, d);
    } else if forall i :: 0 <= i < |d.segments| ==> SegmentName(d.segments[i].sha) {
      PrintedReads(h, d);
    } else {
      var lines := Lines(PrintRef(h, d));
      if |lines| > 2 {
        ParsedNames(lines[2..|lines| - 1]);
      }
    }
  }

  // ----- markers -----

  lemma MarkerLinesAreClean(m: ForkMarker)
    requires MarkerReads(m)
    ensures forall i :: 0 <= i < 4 ==> CleanLine(MarkerLines(m)[i])
    ensures MarkerLines(m)[1][|PARENT_FIELD|..] == Ascii(m.parent) && MarkerLines(m)[2][|CHILD_FIELD|..] == Ascii(m.child)
    ensures MarkerLines(m)[3][|SEGMENT_FIELD|..] == Ascii(m.segment)
  {
    BranchNameReads(m.parent);
    BranchNameReads(m.child);
    SegmentNameReads(m.segment);
    assert |m.parent| > 0 && |m.child| > 0 && |m.segment| == 64;
    hide Ascii, ValidBranchName, SegmentName;
    MarkerFields();
    var a, b, c := Ascii(m.parent), Ascii(m.child), Ascii(m.segment);
    assert (PARENT_FIELD + a)[|PARENT_FIELD + a| - 1] == a[|a| - 1];
    assert (CHILD_FIELD + b)[|CHILD_FIELD + b| - 1] == b[|b| - 1];
    assert (SEGMENT_FIELD + c)[|SEGMENT_FIELD + c| - 1] == c[|c| - 1];
  }

  lemma MarkerFields()
    ensures NEWLINE !in PARENT_FIELD && NEWLINE !in CHILD_FIELD && NEWLINE !in SEGMENT_FIELD
    ensures CleanLine(MARKER_FORMAT)
  {
    assert |MARKER_FORMAT| == 11;
  }

  /** A printed marker reads back exactly when it names two different branches and a digest. */
  lemma MarkerRoundTripIff(h: Host, m: ForkMarker)
    ensures ParseMarker(h, PrintMarker(h, m)) == Ok(m) <==> MarkerReads(m)
  {
    hide MarkerReads, Lines, Joined, CrcLine, Ascii;
    if MarkerReads(m) {
      var lines := MarkerLines(m);
      var body := Joined(lines);
      var all := lines + [CrcLine(h, body)];
      MarkerLinesAreClean(m);
      CrcLineIsClean(h, body);
      assert all[..4] == lines;
      MarkerText(h, m);
      LinesReadBack(all);
      MarkerNames(m);
    }
  }

  lemma MarkerText(h: Host, m: ForkMarker)
    ensures PrintMarker(h, m) == Joined(MarkerLines(m) + [CrcLine(h, Joined(MarkerLines(m)))])
  {
    hide CrcLine, Ascii;
    var lines := MarkerLines(m);
    var all := lines + [CrcLine(h, Joined(lines))];
    assert all[..4] == lines;
  }

  lemma MarkerNames(m: ForkMarker)
    requires MarkerReads(m)
    ensures NameOf(Ascii(m.parent)) == m.parent && NameOf(Ascii(m.child)) == m.child && NameOf(Ascii(m.segment)) == m.segment
  {
    BranchNameReads(m.parent);
    BranchNameReads(m.child);
    SegmentNameReads(m.segment);
  }
}
