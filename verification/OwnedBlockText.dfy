/** What the owned block says, which text counts as one, and when an edit is refused. */
module OwnedBlockText {
  import opened Bytes
  import opened OwnedBlock
  import opened OwnedBlockRoundTrip

  // ----- what is written between the markers -----

  /** The lines of a text, each ended by a newline. */
  function Split(text: Octets): seq<Octets> {
    if text == [] then [] else
    var rest := Split(text[1..]);
    if text[0] == 10 then [[]] + rest else
    if rest == [] then [] else [[text[0]] + rest[0]] + rest[1..]
  }

  lemma {:induction false} SplitLine(line: Octets, rest: Octets)
    requires NEWLINE !in line
    ensures Split(line + ([NEWLINE] + rest)) == [line] + Split(rest)
  {
    var text := line + ([NEWLINE] + rest);
    if line == [] {
      assert text[1..] == rest;
    } else {
      assert text[1..] == line[1..] + ([NEWLINE] + rest);
      SplitLine(line[1..], rest);
      assert [text[0]] + line[1..] == line;
    }
  }

  lemma {:induction false} SplitLines(lines: seq<Octets>)
    requires forall i :: 0 <= i < |lines| ==> NEWLINE !in lines[i]
    ensures Split(Lines(lines)) == lines
  {
    if lines != [] {
      SplitLines(lines[1..]);
      SplitLine(lines[0], Lines(lines[1..]));
    }
  }

  /** Where the `i`-th of the quoted strings starts when ", " stands between them. */
  function Offset(j: Json, args: seq<string>, i: nat): nat
    requires i < |args|
  {
    if i == 0 then 0 else Offset(j, args, i - 1) + |j.dumps(args[i - 1])| + 2
  }

  /** The text lists the quoted strings with ", " between any two, and holds nothing else. */
  ghost predicate Lists(j: Json, args: seq<string>, text: Octets) {
    && (args == [] ==> text == [])
    && (args != [] ==> |text| == Offset(j, args, |args| - 1) + |j.dumps(args[|args| - 1])|)
    && (forall i: nat :: i < |args| ==> At(text, Offset(j, args, i), j.dumps(args[i])))
    && (forall i: nat :: 0 < i < |args| ==> At(text, Offset(j, args, i) - 2, Ascii(", ")))
  }

  lemma {:induction false} OffsetShifts(j: Json, args: seq<string>, i: nat)
    requires i + 1 < |args|
    ensures Offset(j, args, i + 1) == |j.dumps(args[0])| + 2 + Offset(j, args[1..], i)
  {
    if i > 0 {
      OffsetShifts(j, args, i - 1);
    }
  }

  lemma AtLater(before: Octets, text: Octets, p: nat, needle: Octets)
    requires At(text, p, needle)
    ensures At(before + text, |before| + p, needle)
  {
    assert (before + text)[|before| + p..|before| + p + |needle|] == text[p..p + |needle|];
  }

  lemma {:induction false} JoinedLists(j: Json, args: seq<string>)
    ensures Lists(j, args, Joined(j, args))
  {
    if |args| > 1 {
      JoinedLists(j, args[1..]);
      ListsMore(j, args, Joined(j, args[1..]));
    }
  }

  lemma ListsMore(j: Json, args: seq<string>, rest: Octets)
    requires |args| > 1 && Lists(j, args[1..], rest)
    ensures Lists(j, args, j.dumps(args[0]) + (Ascii(", ") + rest))
  {
    hide At, Ascii, Offset;
    var text := j.dumps(args[0]) + (Ascii(", ") + rest);
    OffsetShifts(j, args, |args| - 2);
    forall i: nat | i < |args|
      ensures At(text, Offset(j, args, i), j.dumps(args[i])) && (i > 0 ==> At(text, Offset(j, args, i) - 2, Ascii(", ")))
    {
      ListsOne(j, args, rest, i);
    }
  }

  lemma ListsOne(j: Json, args: seq<string>, rest: Octets, i: nat)
    requires |args| > 1 && Lists(j, args[1..], rest) && i < |args|
    ensures var text := j.dumps(args[0]) + (Ascii(", ") + rest);
      At(text, Offset(j, args, i), j.dumps(args[i])) && (i > 0 ==> At(text, Offset(j, args, i) - 2, Ascii(", ")))
  {
    hide At, Ascii;
    var first, comma := j.dumps(args[0]), Ascii(", ");
    assert first + (comma + rest) == (first + comma) + rest;
    if i == 0 {
      AtFirst(first, comma + rest);
    } else {
      OffsetShifts(j, args, i - 1);
      hide Offset;
      AtLater(first + comma, rest, Offset(j, args[1..], i - 1), j.dumps(args[i]));
      if i == 1 {
        AtFirst(comma, rest);
        AtLater(first, comma + rest, 0, comma);
        FirstOffset(j, args[1..]);
      } else {
        AtLater(first + comma, rest, Offset(j, args[1..], i - 1) - 2, comma);
      }
    }
  }

  lemma FirstOffset(j: Json, args: seq<string>)
    requires args != []
    ensures Offset(j, args, 0) == 0
  {
  }

  lemma AtFirst(needle: Octets, rest: Octets)
    ensures At(needle + rest, 0, needle)
  {
  }

  /** Line by line: the table, the command, the arguments and, if there is any environment, its table with
      a line for each key. */
  ghost predicate Says(j: Json, s: Server, text: Octets) {
    var ls := Split(text);
    && text != [] && text[|text| - 1] == 10
    && |ls| == (if s.env == [] then 3 else 5 + |s.env|)
    && ls[0] == Ascii("[mcp_servers.fram]") && ls[1] == Ascii("command = ") + j.dumps(s.command)
    && (exists list :: ls[2] == Ascii("args = [") + (list + Ascii("]")) && Lists(j, s.args, list))
    && (s.env != [] ==> ls[3] == [] && ls[4] == Ascii("[mcp_servers.fram.env]"))
    && forall i: nat :: i < |s.env| ==> ls[5 + i] == s.env[i].0 + (Ascii(" = ") + j.dumps(s.env[i].1))
  }

  lemma {:induction false} EnvLinesAre(j: Json, env: seq<(Octets, string)>)
    ensures |EnvLines(j, env)| == |env|
    ensures forall i :: 0 <= i < |env| ==> EnvLines(j, env)[i] == env[i].0 + (Ascii(" = ") + j.dumps(env[i].1))
  {
    if env != [] {
      EnvLinesAre(j, env[1..]);
    }
  }

  lemma RenderedLines(j: Json, s: Server)
    requires j.Valid() && KeysOnOneLine(s)
    ensures forall i :: 0 <= i < |RenderLines(j, s)| ==> NEWLINE !in RenderLines(j, s)[i]
  {
    hide Ascii;
    EnvLinesArePlain(j, s.env);
    JoinedHasNoNewline(j, s.args);
    FixedLines(j, s);
  }

  /** The text written says the command, the arguments and the environment it was given. */
  lemma RenderSays(j: Json, s: Server)
    requires j.Valid() && KeysOnOneLine(s)
    ensures Says(j, s, Render(j, s))
  {
    RenderedLines(j, s);
    SplitLines(RenderLines(j, s));
    RenderIsPlain(j, s);
    JoinedLists(j, s.args);
    EnvLinesAre(j, s.env);
    hide Ascii, Joined, Lists, EnvLines, Lines, Split, KeysOnOneLine;
  }

  // ----- which text is a block -----

  /** One begin marker in all, one end marker after it, and the newlines it records before it. */
  ghost predicate MarkedAt(data: Octets, b: nat, e: nat, span: Span) {
    && b < |data| && BeginAt(data, b) == Some(span.separator) && NoBegin(data, 0, b) && NoBegin(data, b + 1, |data|)
    && b + |BEGIN_TEXT| + 2 <= e && At(data, e, END_MARKER)
    && (forall q :: b + |BEGIN_TEXT| + 2 <= q && q != e ==> !At(data, q, END_MARKER))
    && span.start + span.separator == b && data[span.start..b] == Newlines(span.separator)
    && span.end == e + |END_MARKER|
  }

  ghost predicate Marked(data: Octets, span: Span) {
    exists b: nat, e: nat :: MarkedAt(data, b, e, span)
  }

  /** A file without a block is one without a begin marker. */
  lemma AbsentIff(data: Octets)
    ensures OwnedSpan(data) == Absent <==> NoBegin(data, 0, |data|)
  {
    hide Begins, Find;
    if NoBegin(data, 0, |data|) {
      NoneFrom(data, 0);
    }
    if OwnedSpan(data) == Absent {
      AbsentMeansNone(data);
    }
  }

  /** The block found is the one a single pair of markers bounds, and without such a pair none is. */
  lemma OwnedIff(data: Octets, span: Span)
    ensures OwnedSpan(data) == Owned(span) <==> Marked(data, span)
  {
    hide Begins, Find, BeginAt, At, END_MARKER, NoBegin;
    if OwnedSpan(data) == Owned(span) {
      OwnedIsMarked(data, span);
    }
    if Marked(data, span) {
      var b: nat, e: nat :| MarkedAt(data, b, e, span);
      MarkedIsOwned(data, b, e, span);
    }
  }

  lemma MarkedIsOwned(data: Octets, b: nat, e: nat, span: Span)
    requires MarkedAt(data, b, e, span)
    ensures OwnedSpan(data) == Owned(span)
  {
    hide Begins, BeginAt, END_MARKER, Find, At;
    OnlyOne(data, 0, b);
    EndFound(data, b + |BEGIN_TEXT| + 2, e);
  }

  lemma EndFound(data: Octets, from: nat, e: nat)
    requires from <= e && At(data, e, END_MARKER) && forall q :: from <= q && q != e ==> !At(data, q, END_MARKER)
    ensures Find(data, END_MARKER, from) == Some(e) && Find(data, END_MARKER, e + |END_MARKER|) == None
  {
    hide At;
    EndShape();
    hide END_MARKER;
  }

  lemma OwnedIsMarked(data: Octets, span: Span)
    requires OwnedSpan(data) == Owned(span)
    ensures Marked(data, span)
  {
    hide Begins, END_MARKER, Find, At, BeginAt;
    var b := Begins(data, 0)[0];
    var e := Find(data, END_MARKER, b + |BEGIN_TEXT| + 2).value;
    OnlyFound(data, b);
    assert b < |data| by { BeginFacts(data, b); }
    forall q | b + |BEGIN_TEXT| + 2 <= q && q != e ensures !At(data, q, END_MARKER) {
      EndsApart(data, e, q);
    }
    assert MarkedAt(data, b, e, span);
  }

  lemma OnlyFound(data: Octets, b: nat)
    requires Begins(data, 0) == [b]
    ensures NoBegin(data, 0, b) && NoBegin(data, b + 1, |data|)
  {
    hide Begins, BeginAt;
    forall p: nat | p < |data| && p != b ensures BeginAt(data, p).None? {
      if BeginAt(data, p).Some? {
        EachIsFound(data, p);
      }
    }
    forall p | 0 <= p < b ensures BeginAt(data, p).None? {
      if p >= |data| {
        PastTheEnd(data, p);
      }
    }
  }

  lemma PastTheEnd(data: Octets, p: nat)
    requires p >= |data|
    ensures BeginAt(data, p).None?
  {
  }

  /** Two end markers never overlap. */
  lemma EndsApart(data: Octets, e: nat, q: int)
    requires At(data, e, END_MARKER)
    ensures e < q < e + |END_MARKER| ==> !At(data, q, END_MARKER)
  {
    EndShape();
    BeginIsLine(0);
    if e < q < e + |END_MARKER| && At(data, q, END_MARKER) {
      AtEndsLine(data, e, END_MARKER, 109);
      AtEndsLine(data, q, END_MARKER, 109);
    }
  }

  // ----- an unmarked table -----

  /** A line that is the table header and then only spaces and tabs, with a carriage return allowed last. */
  ghost predicate HeaderLine(data: Octets, p: nat, q: nat) {
    && LineStart(data, p) && At(data, p, Ascii("[mcp_servers.fram]")) && p + |TABLE| <= q <= |data|
    && (forall i :: p + |TABLE| <= i < q ==> data[i] in {32, 9})
    && (q == |data| || data[q] == 10 || (data[q] == 13 && (q + 1 == |data| || data[q + 1] == 10)))
  }

  lemma {:induction false} SkipBlanksIs(data: Octets, p: nat)
    requires p <= |data|
    ensures var q := SkipBlanks(data, p);
      (forall i :: p <= i < q ==> data[i] in {32, 9}) && (q < |data| ==> data[q] !in {32, 9})
    decreases |data| - p
  {
    if p < |data| && data[p] in {32, 9} {
      SkipBlanksIs(data, p + 1);
    }
  }

  lemma UnmanagedAtIff(data: Octets, p: nat)
    ensures UnmanagedAt(data, p) <==> exists q: nat :: HeaderLine(data, p, q)
  {
    hide Ascii, SkipBlanks;
    if At(data, p, Ascii(TABLE)) {
      SkipBlanksIs(data, p + |TABLE|);
      var q := SkipBlanks(data, p + |TABLE|);
      if UnmanagedAt(data, p) {
        assert HeaderLine(data, p, q);
      }
      if r: nat :| HeaderLine(data, p, r) {
        assert r == q;
      }
    }
  }

  lemma UnmanagedIff(data: Octets)
    ensures Unmanaged(data) <==> exists p: nat, q: nat :: p < |data| && HeaderLine(data, p, q)
  {
    hide UnmanagedAt, HeaderLine;
    if Unmanaged(data) {
      var p :| 0 <= p < |data| && UnmanagedAt(data, p);
      UnmanagedAtIff(data, p);
    }
    if p: nat, q: nat :| p < |data| && HeaderLine(data, p, q) {
      UnmanagedAtIff(data, p);
    }
  }

  // ----- when an edit is refused, and what it leaves -----

  /** Markers that bound no block. */
  ghost predicate Malformation(data: Octets) {
    !NoBegin(data, 0, |data|) && forall span :: !Marked(data, span)
  }

  lemma MalformedIff(data: Octets)
    ensures OwnedSpan(data) == Malformed <==> Malformation(data)
  {
    hide OwnedSpan, NoBegin, Marked;
    AbsentIff(data);
    forall span ensures OwnedSpan(data) == Owned(span) <==> Marked(data, span) {
      OwnedIff(data, span);
    }
  }

  /** Nothing, or a text that ends in an empty line. */
  predicate EndsBlank(d: Octets) {
    d == [] || (|d| >= 2 && d[|d| - 2] == 10 && d[|d| - 1] == 10)
  }

  /** The separator is the fewest newlines that leave an empty line before the block. */
  lemma SeparatorIsFewest(d: Octets, k: nat)
    ensures EndsBlank(d + Newlines(AppendSeparator(d)))
    ensures EndsBlank(d + Newlines(k)) ==> k >= AppendSeparator(d)
  {
    hide Newlines;
  }

  /** Setting is refused exactly when the markers bound no block or, without markers, a line is the table
      header; unsetting exactly when the markers bound no block. */
  lemma RefusedIff(j: Json, file: Option<Octets>, s: Server)
    ensures var data := Content(file);
      Set(j, file, s).Refused? <==>
        (Malformation(data) || (NoBegin(data, 0, |data|) && exists p: nat, q: nat :: p < |data| && HeaderLine(data, p, q)))
    ensures Unset(file).Refused? <==> Malformation(Content(file))
  {
    hide OwnedSpan, Unmanaged, HeaderLine, NoBegin, Malformation, RenderOwned;
    var data := Content(file);
    MalformedIff(data);
    AbsentIff(data);
    UnmanagedIff(data);
  }

  /** A set that is not refused leaves the text before and after as it was, and between them the separator,
      the begin marker that records it, lines that say the server, and the end marker: in place of the one
      block there was, or after everything with the fewest newlines that make an empty line. */
  lemma SetWrites(j: Json, file: Option<Octets>, s: Server) returns (before: Octets, k: nat, text: Octets, after: Octets)
    requires j.Valid() && KeysOnOneLine(s) && Set(j, file, s).Left?
    ensures k <= 2 && Says(j, s, text)
    ensures Set(j, file, s) == Left(Some(before + (Newlines(k) + (BeginMarker(k) + (text + END_MARKER)) + after)))
    ensures var data := Content(file);
      || (NoBegin(data, 0, |data|) && before == data && after == [] && k == AppendSeparator(data))
      || exists span :: Marked(data, span) && k == span.separator && span.start <= span.end <= |data|
           && before == data[..span.start] && after == data[span.end..]
  {
    hide OwnedSpan, Unmanaged, NoBegin, Marked, Says, Render, BeginMarker, END_MARKER, AppendSeparator;
    var data := Content(file);
    text := Render(j, s);
    RenderSays(j, s);
    AbsentIff(data);
    match OwnedSpan(data)
    case Owned(span) =>
      OwnedIff(data, span);
      before, k, after := data[..span.start], span.separator, data[span.end..];
    case Absent =>
      before, k, after := data, AppendSeparator(data), [];
      assert RenderOwned(j, s, k) + [] == RenderOwned(j, s, k);
  }

  /** An unset that is not refused takes out exactly the block there is, or leaves the file alone when there
      is none; a file with nothing else is deleted. */
  lemma UnsetLeaves(file: Option<Octets>)
    requires Unset(file).Left?
    ensures var data := Content(file);
      || (NoBegin(data, 0, |data|) && Unset(file) == Left(file))
      || exists span :: Marked(data, span) && span.start <= span.end <= |data|
           && Unset(file) == Left(if data[..span.start] + data[span.end..] == [] then None
                                  else Some(data[..span.start] + data[span.end..]))
  {
    hide OwnedSpan, NoBegin, Marked;
    var data := Content(file);
    AbsentIff(data);
    match OwnedSpan(data)
    case Owned(span) => OwnedIff(data, span);
    case Absent =>
  }
}
