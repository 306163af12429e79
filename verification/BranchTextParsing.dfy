/** Which texts a ref and a fork marker parse from. */
module BranchTextParsing {
  import opened Bytes
  import opened Terms
  import opened BranchText
  import opened BranchTextRoundTrip

  // ----- names, by their codes -----

  predicate LetterOrDigit(c: char) {
    65 <= c as int <= 90 || 97 <= c as int <= 122 || 48 <= c as int <= 57
  }

  predicate NoTwoDots(name: string) {
    forall i, j :: 0 <= i < |name| && 0 <= j < |name| && j == i + 1 ==> name[i] != '.' || name[j] != '.'
  }

  /** A usable branch name has 1 to 64 characters, starts with a letter or digit, goes on with letters, digits, dots,
      underscores and hyphens, and has no two dots in a row. */
  lemma UsableNameIff(name: string)
    ensures ValidBranchName(name) <==>
      (1 <= |name| <= 64 && LetterOrDigit(name[0])
       && (forall i :: 0 <= i < |name| ==> LetterOrDigit(name[i]) || name[i] in "._-")
       && NoTwoDots(name))
  {
  }

  // ----- numbers -----

  function Power16(k: nat): nat {
    if k == 0 then 1 else 16 * Power16(k - 1)
  }

  function HexDigit(b: octet): Option<nat> {
    if 48 <= b <= 57 then Some(b as int - 48) else if 97 <= b <= 102 then Some(b as int - 87) else None
  }

  ghost predicate IsHex(b: Octets, n: nat)
    decreases |b|
  {
    if b == [] then n == 0 else
    var d := HexDigit(b[|b| - 1]);
    d.Some? && n % 16 == d.value && IsHex(b[..|b| - 1], n / 16)
  }

  /** A number of eight hex digits is written in lower case, its leading zeros included. */
  lemma {:induction false} HexIsHex(n: nat, width: nat)
    requires n < Power16(width)
    ensures IsHex(Hex(n, width), n)
  {
    if width > 0 {
      Sixteenth(n, Power16(width - 1));
      HexIsHex(n / 16, width - 1);
      var b := Hex(n, width);
      assert b[..|b| - 1] == Hex(n / 16, width - 1);
    }
  }

  lemma Sixteenth(n: nat, p: nat)
    requires n < 16 * p
    ensures n / 16 < p
  {
  }

  lemma {:induction false} DecimalIsOnly(b: Octets)
    requires Digits(b) && b != [] && (b[0] != 48 || |b| == 1)
    ensures DecimalNat(DecimalValue(b)) == b
    ensures b[0] != 48 ==> DecimalValue(b) > 0
  {
    var n := |b| - 1;
    if n == 0 {
      assert b[..0] == [];
      assert DecimalValue(b) == b[0] as int - 48;
      assert [Digit(DecimalValue(b))] == b;
    } else {
      DecimalIsOnly(b[..n]);
      var v := DecimalValue(b[..n]);
      assert DecimalValue(b) / 10 == v && DecimalValue(b) % 10 == b[n] as int - 48;
      assert b == b[..n] + [b[n]];
    }
  }

  /** Only the printed form of a number reads as it. */
  lemma CountReadsOnly(b: Octets, n: nat)
    ensures ParseCount(b) == Some(n) <==> b == Decimal(n) && Count(n)
  {
    if ParseCount(b).Some? {
      DecimalIsOnly(b);
      CountReads(ParseCount(b).value);
      ParsedCounts(b);
    }
    if b == Decimal(n) && Count(n) {
      CountReads(n);
    }
  }

  // ----- pieces -----

  function Repeat(c: octet, k: nat): (b: Octets)
    ensures |b| == k && forall i :: 0 <= i < k ==> b[i] == c
  {
    seq(k, _ => c)
  }

  /** Pieces with a separator between any two. */
  function Together(ps: seq<Octets>, c: octet): Octets {
    if ps == [] then [] else if |ps| == 1 then ps[0] else ps[0] + ([c] + Together(ps[1..], c))
  }

  lemma {:induction false} PiecesTogether(text: Octets, c: octet)
    ensures Together(Pieces(text, c), c) == text
    ensures forall i :: 0 <= i < |Pieces(text, c)| ==> c !in Pieces(text, c)[i]
    decreases |text|
  {
    var i := IndexOf(text, c);
    if i < |text| {
      PiecesTogether(text[i + 1..], c);
      assert text == text[..i] + ([c] + text[i + 1..]);
      assert Pieces(text, c)[1..] == Pieces(text[i + 1..], c);
    } else {
      assert c !in text;
    }
  }

  lemma {:induction false} DropEmptyDrops(ps: seq<Octets>)
    ensures DropEmpty(ps) <= ps
    ensures forall i :: |DropEmpty(ps)| <= i < |ps| ==> ps[i] == []
    ensures DropEmpty(ps) != [] ==> DropEmpty(ps)[|DropEmpty(ps)| - 1] != []
  {
    if ps != [] && ps[|ps| - 1] == [] {
      DropEmptyDrops(ps[..|ps| - 1]);
    }
  }

  lemma {:induction false} EmptyTail(ps: seq<Octets>, n: nat, c: octet)
    requires 0 < n <= |ps| && forall i :: n <= i < |ps| ==> ps[i] == []
    ensures Together(ps, c) == Together(ps[..n], c) + Repeat(c, |ps| - n)
    decreases |ps|
  {
    if |ps| == 1 {
      assert ps[..1] == ps;
    } else if n == 1 {
      AllEmpty(ps[1..], c);
      assert ps[..1] == [ps[0]];
      assert [c] + Repeat(c, |ps| - 2) == Repeat(c, |ps| - 1);
    } else {
      EmptyTail(ps[1..], n - 1, c);
      assert ps[..n][1..] == ps[1..][..n - 1];
      assert ps[0] + ([c] + (Together(ps[1..][..n - 1], c) + Repeat(c, |ps| - n)))
        == (ps[0] + ([c] + Together(ps[1..][..n - 1], c))) + Repeat(c, |ps| - n);
    }
  }

  lemma {:induction false} AllEmpty(ps: seq<Octets>, c: octet)
    requires ps != [] && forall i :: 0 <= i < |ps| ==> ps[i] == []
    ensures Together(ps, c) == Repeat(c, |ps| - 1)
  {
    if |ps| > 1 {
      AllEmpty(ps[1..], c);
      assert [] + ([c] + Repeat(c, |ps| - 2)) == Repeat(c, |ps| - 1);
    }
  }

  /** A line ends at a newline, octet 10, and loses one carriage return, octet 13, before it. */
  lemma LineEnds(line: Octets, rest: Octets)
    requires 10 !in line
    ensures LinePieces(line + ([10] + rest))
      == [if line != [] && line[|line| - 1] == 13 then line[..|line| - 1] else line] + LinePieces(rest)
    ensures LinePieces(line) == [line]
  {
    LinePiecesStep(line, rest);
    NoPiece(line, NEWLINE);
  }

  // ----- segment lines -----

  /** The line, or the line and then only spaces. */
  predicate Padded(line: Octets, l: Octets) {
    l <= line && forall i :: |l| <= i < |line| ==> line[i] == SPACE
  }

  function Five(a: Octets, b: Octets, c: Octets, d: Octets, e: Octets): Octets {
    a + ([SPACE] + (b + ([SPACE] + (c + ([SPACE] + (d + ([SPACE] + e)))))))
  }

  lemma TogetherFive(a: Octets, b: Octets, c: Octets, d: Octets, e: Octets)
    ensures Together([a, b, c, d, e], SPACE) == Five(a, b, c, d, e)
  {
    assert [d, e][1..] == [e];
    assert Together([d, e], SPACE) == d + ([SPACE] + e);
    assert [c, d, e][1..] == [d, e];
    assert Together([c, d, e], SPACE) == c + ([SPACE] + (d + ([SPACE] + e)));
    assert [b, c, d, e][1..] == [c, d, e];
    assert Together([b, c, d, e], SPACE) == b + ([SPACE] + (c + ([SPACE] + (d + ([SPACE] + e)))));
    assert [a, b, c, d, e][1..] == [b, c, d, e];
  }

  /** A line splits into five fields exactly when it is those with a space between any two, and spaces after. */
  lemma FieldsMean(line: Octets)
    requires |Split(line, SPACE)| == 5
    ensures var f := Split(line, SPACE); Padded(line, Five(f[0], f[1], f[2], f[3], f[4]))
    ensures forall i :: 0 <= i < 5 ==> SPACE !in Split(line, SPACE)[i]
  {
    var ps, f := Pieces(line, SPACE), Split(line, SPACE);
    hide IndexOf, Pieces, DropEmpty;
    PiecesTogether(line, SPACE);
    DropEmptyDrops(ps);
    assert f == DropEmpty(ps) by { FiveAreSplit(line); }
    EmptyTail(ps, 5, SPACE);
    assert ps[..5] == f && f == [f[0], f[1], f[2], f[3], f[4]];
    TogetherFive(f[0], f[1], f[2], f[3], f[4]);
  }

  lemma FiveAreSplit(line: Octets)
    requires |Split(line, SPACE)| == 5
    ensures Split(line, SPACE) == DropEmpty(Pieces(line, SPACE))
  {
    hide Pieces, DropEmpty;
  }

  lemma PiecesOfSpaces(e: Octets, k: nat)
    requires SPACE !in e
    ensures var ps := Pieces(e + Repeat(SPACE, k), SPACE);
      |ps| == k + 1 && ps[0] == e && forall i :: 1 <= i <= k ==> ps[i] == []
  {
    hide Pieces;
    if k == 0 {
      assert e + Repeat(SPACE, 0) == e;
      LastPiece(e);
    } else {
      assert e + Repeat(SPACE, k) == e + ([SPACE] + Repeat(SPACE, k - 1));
      PiecesStep(e, SPACE, Repeat(SPACE, k - 1));
      PiecesOfOnlySpaces(k - 1);
    }
  }

  lemma {:induction false} PiecesOfOnlySpaces(k: nat)
    ensures var ps := Pieces(Repeat(SPACE, k), SPACE); |ps| == k + 1 && forall i :: 0 <= i <= k ==> ps[i] == []
  {
    hide Pieces;
    if k == 0 {
      assert Repeat(SPACE, 0) == [];
      LastPiece([]);
    } else {
      assert Repeat(SPACE, k) == [] + ([SPACE] + Repeat(SPACE, k - 1));
      PiecesStep([], SPACE, Repeat(SPACE, k - 1));
      PiecesOfOnlySpaces(k - 1);
    }
  }

  lemma PaddedSplits(a: Octets, b: Octets, c: Octets, d: Octets, e: Octets, line: Octets)
    requires SPACE !in a && SPACE !in b && SPACE !in c && SPACE !in d && SPACE !in e && e != []
    requires Padded(line, Five(a, b, c, d, e))
    ensures Split(line, SPACE) == [a, b, c, d, e]
  {
    hide Pieces, IndexOf, DropEmpty;
    var k := |line| - |Five(a, b, c, d, e)|;
    var tail := e + Repeat(SPACE, k);
    var de := d + ([SPACE] + tail);
    var cde := c + ([SPACE] + de);
    var bcde := b + ([SPACE] + cde);
    assert line == a + ([SPACE] + bcde) by { PaddingJoins(a, b, c, d, e, k, line); }
    PiecesOfSpaces(e, k);
    PiecesStep(d, SPACE, tail);
    PiecesStep(c, SPACE, de);
    PiecesStep(b, SPACE, cde);
    PiecesStep(a, SPACE, bcde);
    FirstPiece(a, SPACE, bcde);
    var rest := Pieces(tail, SPACE);
    var ps := [a] + ([b] + ([c] + ([d] + rest)));
    assert Pieces(line, SPACE) == ps;
    LastKept(a, b, c, d, e, rest, ps);
  }

  lemma PaddingJoins(a: Octets, b: Octets, c: Octets, d: Octets, e: Octets, k: nat, line: Octets)
    requires Padded(line, Five(a, b, c, d, e)) && |line| == |Five(a, b, c, d, e)| + k
    ensures line == Five(a, b, c, d, e + Repeat(SPACE, k))
  {
    assert line == Five(a, b, c, d, e) + Repeat(SPACE, k);
    hide *;
    FiveJoins(a, b, c, d, e, Repeat(SPACE, k));
  }

  lemma FiveJoins(a: Octets, b: Octets, c: Octets, d: Octets, e: Octets, more: Octets)
    ensures Five(a, b, c, d, e) + more == Five(a, b, c, d, e + more)
  {
    var de := d + ([SPACE] + e);
    var cde := c + ([SPACE] + de);
    assert de + more == d + ([SPACE] + (e + more));
    assert cde + more == c + ([SPACE] + (de + more));
    assert (b + ([SPACE] + cde)) + more == b + ([SPACE] + (cde + more));
    assert (a + ([SPACE] + (b + ([SPACE] + cde)))) + more == a + ([SPACE] + ((b + ([SPACE] + cde)) + more));
  }

  lemma LastKept(a: Octets, b: Octets, c: Octets, d: Octets, e: Octets, rest: seq<Octets>, ps: seq<Octets>)
    requires rest != [] && rest[0] == e && e != [] && forall i :: 1 <= i < |rest| ==> rest[i] == []
    requires ps == [a] + ([b] + ([c] + ([d] + rest)))
    ensures DropEmpty(ps) == [a, b, c, d, e]
  {
    hide DropEmpty;
    DropEmptyDrops(ps);
    assert ps[4] == e;
    assert forall i :: 5 <= i < |ps| ==> ps[i] == rest[i - 4];
    var kept := DropEmpty(ps);
    assert |kept| == 5;
    assert kept == ps[..5] == [a, b, c, d, e];
  }

  /** A line says a segment when it is the printed line of a readable record, perhaps with spaces after it. */
  predicate Says(line: Octets, r: SegmentRecord) {
    Padded(line, SegmentLine(r)) && SegmentName(r.sha) && RecordReads(r)
  }

  predicate Named(known: seq<SegmentRecord>, sha: string) {
    exists i :: 0 <= i < |known| && known[i].sha == sha
  }

  lemma SegmentParsesIff(line: Octets, known: seq<SegmentRecord>, r: SegmentRecord)
    ensures SEGMENT_FIELD <= line && ParseSegment(line, known) == Ok(r) <==> Says(line, r) && !Named(known, r.sha)
  {
    hide Split, ParseCount, Decimal, SegmentName, RecordReads, Ascii, Padded;
    if SEGMENT_FIELD <= line && ParseSegment(line, known) == Ok(r) {
      SegmentSays(line, known, r);
    }
    if Says(line, r) {
      SaidParses(line, known, r);
    }
  }

  lemma SegmentSays(line: Octets, known: seq<SegmentRecord>, r: SegmentRecord)
    requires SEGMENT_FIELD <= line && ParseSegment(line, known) == Ok(r)
    ensures Says(line, r) && !Named(known, r.sha)
  {
    hide Split, ParseCount, Decimal, SegmentName, Ascii, Padded;
    var f := Split(line, SPACE);
    FieldsMean(line);
    CountReadsOnly(f[2], r.first);
    CountReadsOnly(f[3], r.last);
    CountReadsOnly(f[4], r.bytes);
    NameIsAscii(f[1]);
    FirstField(line, f[0], f[1] + ([SPACE] + (f[2] + ([SPACE] + (f[3] + ([SPACE] + f[4]))))));
    FieldName();
    assert Five(f[0], f[1], f[2], f[3], f[4]) == SegmentLine(r) by {
      var rest := f[1] + ([SPACE] + (f[2] + ([SPACE] + (f[3] + ([SPACE] + f[4])))));
      assert Ascii("segment") + ([SPACE] + rest) == (Ascii("segment") + [SPACE]) + rest;
    }
  }

  lemma NameIsAscii(b: Octets)
    ensures Ascii(NameOf(b)) == b
  {
  }

  /** A line that begins with the field's name and a space has that name as its first field. */
  lemma FirstField(line: Octets, first: Octets, rest: Octets)
    requires SEGMENT_FIELD <= line && SPACE !in first && Padded(line, first + ([SPACE] + rest))
    ensures first == Ascii("segment")
  {
    FieldName();
    var l, name := first + ([SPACE] + rest), Ascii("segment");
    hide Ascii, SEGMENT_FIELD, IndexOf;
    assert line[|name|] == SPACE by { assert line[|name|] == (name + [SPACE])[|name|]; }
    assert line[|first|] == SPACE by { assert line[|first|] == l[|first|]; }
    assert line[..|first|] == first by { assert line[..|first|] == l[..|first|]; }
    assert line[..|name|] == name by { assert line[..|name|] == (name + [SPACE])[..|name|]; }
    StopsAt(first, SPACE, line);
    StopsAt(name, SPACE, line);
  }

  lemma SaidParses(line: Octets, known: seq<SegmentRecord>, r: SegmentRecord)
    requires Says(line, r)
    ensures SEGMENT_FIELD <= line
    ensures var p := ParseSegment(line, known); if Named(known, r.sha) then p.Err? else p == Ok(r)
  {
    hide Split, ParseCount, Decimal, SegmentName, Ascii;
    SegmentNameReads(r.sha);
    NumberIsClean(r.first);
    NumberIsClean(r.last);
    NumberIsClean(r.bytes);
    CountReads(r.first);
    CountReads(r.last);
    CountReads(r.bytes);
    FieldName();
    var rest := Ascii(r.sha) + ([SPACE] + (Decimal(r.first) + ([SPACE] + (Decimal(r.last) + ([SPACE] + Decimal(r.bytes))))));
    assert SegmentLine(r) == Ascii("segment") + ([SPACE] + rest);
    PaddedSplits(Ascii("segment"), Ascii(r.sha), Decimal(r.first), Decimal(r.last), Decimal(r.bytes), line);
  }

  /** Each line says its record, and no two records have the same digest. */
  ghost predicate SayAll(lines: seq<Octets>, segments: seq<SegmentRecord>) {
    && |lines| == |segments|
    && (forall i :: 0 <= i < |segments| ==> Says(lines[i], segments[i]))
    && forall i, j :: 0 <= i < j < |segments| ==> segments[i].sha != segments[j].sha
  }

  lemma {:induction false} SegmentsParseIff(lines: seq<Octets>, segments: seq<SegmentRecord>)
    ensures ParseSegments(lines) == Ok(segments) <==> SayAll(lines, segments)
    decreases |lines|
  {
    hide ParseSegments, ParseSegment, Says, SegmentLine, SEGMENT_FIELD;
    if lines == [] {
      ParseNone(lines);
    } else {
      var n := |lines| - 1;
      LinesParse(lines);
      if |segments| == |lines| {
        SegmentsParseIff(lines[..n], segments[..n]);
        SegmentParsesIff(lines[n], segments[..n], segments[n]);
        SayOneMore(lines, segments);
        assert segments == segments[..n] + [segments[n]];
      }
      if ParseSegments(lines).Ok? {
        var before := ParseSegments(lines[..n]).value;
        assert ParseSegments(lines).value[..n] == before;
      }
    }
  }

  lemma SayOneMore(lines: seq<Octets>, segments: seq<SegmentRecord>)
    requires |lines| == |segments| > 0
    ensures var n := |lines| - 1;
      SayAll(lines, segments) <==>
        SayAll(lines[..n], segments[..n]) && Says(lines[n], segments[n]) && !Named(segments[..n], segments[n].sha)
  {
    hide Says;
    var n := |lines| - 1;
    assert Named(segments[..n], segments[n].sha) <==> exists i :: 0 <= i < n && segments[i].sha == segments[n].sha by {
      assert forall i :: 0 <= i < n ==> segments[..n][i] == segments[i];
    }
  }

  lemma LinesParse(lines: seq<Octets>)
    requires lines != []
    ensures var n := |lines| - 1;
      var before := ParseSegments(lines[..n]);
      if before.Err? || !(SEGMENT_FIELD <= lines[n]) then ParseSegments(lines).Err? else
      match ParseSegment(lines[n], before.value)
      case Err(_) => ParseSegments(lines).Err?
      case Ok(last) => ParseSegments(lines) == Ok(before.value + [last])
  {
    hide ParseSegment, SEGMENT_FIELD;
  }

  // ----- whole texts -----

  /** The lines of a ref: its format, its space, a line for each of at most 64 segments, and the checksum of all that
      comes before. */
  ghost predicate RefText(h: Host, lines: seq<Octets>, d: RefDocument) {
    var n := |d.segments| + 2;
    && |lines| == n + 1 && |d.segments| <= 64
    && lines[0] == Ascii("framref/v1") && lines[1] == Ascii("space ") + d.space && d.space != []
    && SayAll(lines[2..n], d.segments)
    && lines[n] == Ascii("crc ") + Hex(h.crc(Joined(lines[..n])), 8)
  }

  /** A text parses as a ref exactly when its lines are those of that ref. */
  lemma RefParsesIff(h: Host, text: Octets, d: RefDocument)
    ensures ParseRef(h, text) == Ok(d) <==> RefText(h, BranchText.Lines(text), d)
  {
    hide ParseSegments, Hex, Joined, Ascii, SayAll, Lines;
    var lines := BranchText.Lines(text);
    if |lines| >= 3 {
      SegmentsParseIff(lines[2..|lines| - 1], d.segments);
      if ParseSegments(lines[2..|lines| - 1]).Ok? {
        SegmentsParseIff(lines[2..|lines| - 1], ParseSegments(lines[2..|lines| - 1]).value);
      }
      AfterField(SPACE_FIELD, lines[1], d.space);
      AfterField(CRC_FIELD, lines[|lines| - 1], Hex(h.crc(Joined(lines[..|lines| - 1])), 8));
    }
    SaidAreAsMany(lines, d);
  }

  lemma SaidAreAsMany(lines: seq<Octets>, d: RefDocument)
    ensures |lines| >= 3 && SayAll(lines[2..|lines| - 1], d.segments) ==> |lines| == |d.segments| + 3
  {
    hide Says;
  }

  lemma AfterField(field: Octets, line: Octets, value: Octets)
    ensures line == field + value <==> field <= line && line[|field|..] == value
  {
    if field <= line {
      assert line == field + line[|field|..];
    }
  }

  /** A text that does not parse is refused for its version exactly when it has lines enough and the first is not the
      format known here. */
  lemma RefRefusedBecause(h: Host, text: Octets)
    requires ParseRef(h, text).Err?
    ensures var lines := BranchText.Lines(text);
      ParseRef(h, text).fault == if |lines| >= 3 && lines[0] != Ascii("framref/v1") then UnsupportedVersion else InvalidBranchRef
  {
    hide Hex, Joined, Ascii, Lines, ParseSegment, ParseSegments;
    var lines := BranchText.Lines(text);
    if |lines| >= 3 {
      SegmentsRefuse(lines[2..|lines| - 1]);
    }
  }

  lemma {:induction false} SegmentsRefuse(lines: seq<Octets>)
    ensures ParseSegments(lines).Err? ==> ParseSegments(lines).fault == InvalidBranchRef
  {
    if lines != [] {
      SegmentsRefuse(lines[..|lines| - 1]);
    }
  }

  /** The lines of a marker: its format, the two names, the digest and the checksum. */
  ghost predicate MarkerText(h: Host, lines: seq<Octets>, m: ForkMarker) {
    && |lines| == 5
    && lines[0] == Ascii("framfork/v1") && lines[1] == Ascii("parent ") + Ascii(m.parent)
    && lines[2] == Ascii("child ") + Ascii(m.child) && lines[3] == Ascii("segment ") + Ascii(m.segment)
    && lines[4] == Ascii("crc ") + Hex(h.crc(Joined(lines[..4])), 8)
  }

  lemma MarkerParsesIff(h: Host, text: Octets, m: ForkMarker)
    ensures ParseMarker(h, text) == Ok(m) <==>
      MarkerText(h, BranchText.Lines(text), m)
      && ValidBranchName(m.parent) && ValidBranchName(m.child) && m.parent != m.child && SegmentName(m.segment)
  {
    hide Hex, Joined, Ascii, Lines, NameOf, ValidBranchName, SegmentName;
    var lines := BranchText.Lines(text);
    if |lines| == 5 {
      NameAfterField(PARENT_FIELD, lines[1], m.parent);
      NameAfterField(CHILD_FIELD, lines[2], m.child);
      NameAfterField(SEGMENT_FIELD, lines[3], m.segment);
    }
  }

  /** A text that is no marker is refused for its version exactly when it has five lines and the first is not the format
      known here. */
  lemma MarkerRefusedBecause(h: Host, text: Octets)
    requires ParseMarker(h, text).Err?
    ensures var lines := BranchText.Lines(text);
      ParseMarker(h, text).fault == if |lines| == 5 && lines[0] != Ascii("framfork/v1") then UnsupportedVersion else InvalidForkMarker
  {
    hide Hex, Joined, Ascii, Lines, NameOf, ValidBranchName, SegmentName;
  }

  lemma NameAfterField(field: Octets, line: Octets, name: string)
    ensures (ValidBranchName(name) || SegmentName(name)) && line == field + Ascii(name) ==> field <= line && NameOf(line[|field|..]) == name
    ensures field <= line && NameOf(line[|field|..]) == name ==> line == field + Ascii(name)
  {
    if field <= line {
      NameIsAscii(line[|field|..]);
      AfterField(field, line, line[|field|..]);
    }
    AfterField(field, line, Ascii(name));
    if ValidBranchName(name) {
      BranchNameReads(name);
    }
    if SegmentName(name) {
      SegmentNameReads(name);
    }
  }
}
