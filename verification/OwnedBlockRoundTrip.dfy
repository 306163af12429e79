/** Setting and unsetting the owned block, exactly. */
module OwnedBlockRoundTrip {
  import opened Bytes
  import opened OwnedBlock

  // ----- rendered text holds no marker -----

  /** Non-empty, ending in a newline, and no newline follows anything but a bracket, a quote or a newline. */
  ghost predicate Plain(r: Octets) {
    && r != [] && r[|r| - 1] == NEWLINE && r[0] != NEWLINE
    && forall i :: 1 <= i < |r| && r[i] == NEWLINE ==> r[i - 1] in {93, 34, NEWLINE}
  }

  /** A line that ends in a bracket or a quote. */
  ghost predicate PlainLine(l: Octets) {
    NEWLINE !in l && (l != [] ==> l[|l| - 1] in {93, 34})
  }

  lemma {:induction false} LinesArePlain(lines: seq<Octets>)
    requires lines != [] && lines[0] != [] && forall i :: 0 <= i < |lines| ==> PlainLine(lines[i])
    ensures Plain(Lines(lines))
  {
    TailIsPlain(lines[1..]);
    var first, rest := lines[0], Lines(lines[1..]);
    var r := first + ([NEWLINE] + rest);
    forall i | 1 <= i < |r| && r[i] == NEWLINE ensures r[i - 1] in {93, 34, NEWLINE} {
      JoinIsPlain(first, rest, i);
    }
  }

  /** What follows the first line. */
  ghost predicate PlainRest(r: Octets) {
    && (r != [] ==> r[|r| - 1] == NEWLINE)
    && forall i :: 1 <= i < |r| && r[i] == NEWLINE ==> r[i - 1] in {93, 34, NEWLINE}
  }

  lemma JoinIsPlain(first: Octets, rest: Octets, i: nat)
    requires PlainLine(first) && PlainRest(rest)
    requires var r := first + ([NEWLINE] + rest); 1 <= i < |r| && r[i] == NEWLINE
    ensures (first + ([NEWLINE] + rest))[i - 1] in {93, 34, NEWLINE}
  {
    var r, n := first + ([NEWLINE] + rest), |first|;
    if i > n + 1 {
      assert r[i] == rest[i - n - 1] && r[i - 1] == rest[i - n - 2];
    }
  }

  lemma {:induction false} TailIsPlain(lines: seq<Octets>)
    requires forall i :: 0 <= i < |lines| ==> PlainLine(lines[i])
    ensures PlainRest(Lines(lines))
  {
    if lines != [] {
      TailIsPlain(lines[1..]);
      var first, rest := lines[0], Lines(lines[1..]);
      var r := first + ([NEWLINE] + rest);
      forall i | 1 <= i < |r| && r[i] == NEWLINE ensures r[i - 1] in {93, 34, NEWLINE} {
        JoinIsPlain(first, rest, i);
      }
    }
  }

  lemma {:induction false} JoinedHasNoNewline(j: Json, args: seq<string>)
    requires j.Valid()
    ensures NEWLINE !in Joined(j, args)
  {
    if |args| > 1 {
      JoinedHasNoNewline(j, args[1..]);
      assert Ascii(", ")[0] == 44 && Ascii(", ")[1] == 32;
    }
  }

  predicate KeysOnOneLine(s: Server) {
    forall i :: 0 <= i < |s.env| ==> NEWLINE !in s.env[i].0
  }

  lemma {:induction false} EnvLinesArePlain(j: Json, env: seq<(Octets, string)>)
    requires j.Valid() && forall i :: 0 <= i < |env| ==> NEWLINE !in env[i].0
    ensures forall i :: 0 <= i < |EnvLines(j, env)| ==> PlainLine(EnvLines(j, env)[i])
  {
    if env != [] {
      EnvLinesArePlain(j, env[1..]);
      var eq := Ascii(" = ");
      assert eq[0] == 32 && eq[1] == 61 && eq[2] == 32;
      var line := env[0].0 + (eq + j.dumps(env[0].1));
      assert line[|line| - 1] == j.dumps(env[0].1)[|j.dumps(env[0].1)| - 1];
    }
  }

  lemma NoNewlineIn(s: string)
    requires forall i :: 0 <= i < |s| ==> 32 <= s[i] as int < 127
    ensures NEWLINE !in Ascii(s)
  {
  }

  lemma RenderIsPlain(j: Json, s: Server)
    requires j.Valid() && KeysOnOneLine(s)
    ensures Plain(Render(j, s))
  {
    hide Ascii, Plain, Lines;
    EnvLinesArePlain(j, s.env);
    JoinedHasNoNewline(j, s.args);
    FixedLines(j, s);
    var head := [Ascii(TABLE), Ascii("command = ") + j.dumps(s.command), Ascii("args = [") + (Joined(j, s.args) + Ascii("]"))];
    var tail := if s.env == [] then [] else [[], Ascii("[mcp_servers.fram.env]")] + EnvLines(j, s.env);
    assert forall i :: 0 <= i < |tail| ==> PlainLine(tail[i]);
    LinesArePlain(head + tail);
  }

  lemma FixedLines(j: Json, s: Server)
    requires j.Valid() && NEWLINE !in Joined(j, s.args)
    ensures PlainLine(Ascii(TABLE)) && Ascii(TABLE) != [] && PlainLine(Ascii("[mcp_servers.fram.env]")) && PlainLine([])
    ensures PlainLine(Ascii("command = ") + j.dumps(s.command))
    ensures PlainLine(Ascii("args = [") + (Joined(j, s.args) + Ascii("]")))
  {
    NoNewlineIn(TABLE);
    NoNewlineIn("[mcp_servers.fram.env]");
    NoNewlineIn("command = ");
    NoNewlineIn("args = [");
    NoNewlineIn("]");
  }

  // ----- where markers can be -----

  /** No begin marker starts from `from` on and before `to`. */
  ghost predicate NoBegin(data: Octets, from: nat, to: nat) {
    forall p :: from <= p < to ==> BeginAt(data, p).None?
  }

  lemma {:induction false} NoneFrom(data: Octets, p: nat)
    requires NoBegin(data, p, |data|)
    ensures Begins(data, p) == []
    decreases |data| - p
  {
    if p < |data| {
      NoneFrom(data, p + 1);
    }
  }

  lemma {:induction false} OnlyOne(data: Octets, p: nat, b: nat)
    requires p <= b < |data| && BeginAt(data, b).Some? && NoBegin(data, p, b)
    requires NoBegin(data, b + |BEGIN_TEXT| + 2, |data|)
    ensures Begins(data, p) == [b]
    decreases b - p
  {
    hide BeginAt;
    if p < b {
      OnlyOne(data, p + 1, b);
    } else {
      NoneFrom(data, b + |BEGIN_TEXT| + 2);
    }
  }

  /** Every begin marker is among those found, since two never overlap. */
  lemma {:induction false} FoundFrom(data: Octets, p: nat, b: nat)
    requires p <= b < |data| && BeginAt(data, b).Some?
    requires forall q :: p <= q < b && BeginAt(data, q).Some? ==> q + |BEGIN_TEXT| + 2 <= b
    ensures b in Begins(data, p)
    decreases |data| - p
  {
    hide BeginAt;
    if BeginAt(data, p).Some? && p < b {
      FoundFrom(data, p + |BEGIN_TEXT| + 2, b);
    } else if p < b {
      FoundFrom(data, p + 1, b);
    }
  }

  predicate Printable(s: string) {
    forall i :: 0 <= i < |s| ==> 32 <= s[i] as int < 127
  }

  lemma JoinPrintable(a: string, b: string)
    requires Printable(a) && Printable(b)
    ensures Printable(a + b)
  {
  }

  lemma TextsArePrintable()
    ensures Printable(BEGIN_TEXT) && Printable(END_TEXT)
  {
    assert Printable(OWNER) && Printable(SECTION);
    assert Printable("# >>> ") && Printable("# <<< ") && Printable(" separator=");
    hide Printable;
    JoinPrintable("# >>> ", OWNER);
    JoinPrintable("# >>> " + OWNER, SECTION);
    JoinPrintable("# >>> " + OWNER + SECTION, " separator=");
    JoinPrintable("# <<< ", OWNER);
    JoinPrintable("# <<< " + OWNER, SECTION);
  }

  /** A marker's text: one newline, at its very end. */
  lemma BeginShape(k: nat)
    requires k <= 2
    ensures var b := BeginMarker(k);
      && |b| == |BEGIN_TEXT| + 2 && b[|b| - 1] == NEWLINE && b[|b| - 2] as int == 48 + k
      && (forall i :: 0 <= i < |b| - 1 ==> b[i] != NEWLINE) && b[2] == 62 && |BEGIN_TEXT| > 2
  {
    var t := Ascii(BEGIN_TEXT);
    TextsArePrintable();
    NoNewlineIn(BEGIN_TEXT);
    assert forall i :: 0 <= i < |t| ==> t[i] in t;
    assert BEGIN_TEXT[2] == '>';
  }

  lemma EndShape()
    ensures |END_MARKER| == |END_TEXT| + 1 && END_MARKER[|END_MARKER| - 1] == NEWLINE
    ensures END_MARKER[|END_MARKER| - 2] == 109 && END_MARKER[2] == 60 && |END_TEXT| > 2
    ensures forall i :: 0 <= i < |END_MARKER| - 1 ==> END_MARKER[i] != NEWLINE
  {
    var t := Ascii(END_TEXT);
    TextsArePrintable();
    NoNewlineIn(END_TEXT);
    assert forall i :: 0 <= i < |t| ==> t[i] in t;
    assert END_TEXT[2] == '<' && END_TEXT[|END_TEXT| - 1] == 'm';
  }

  /** A text whose only newline is its last octet, and the octet before that. */
  predicate LineOf(needle: Octets, last: octet) {
    && |needle| > 2 && needle[|needle| - 1] == NEWLINE && needle[|needle| - 2] == last
    && forall i :: 0 <= i < |needle| - 1 ==> needle[i] != NEWLINE
  }

  /** Such a text is found only where its newline is, so not across another newline. */
  lemma AtEndsLine(data: Octets, p: nat, needle: Octets, last: octet)
    requires LineOf(needle, last) && At(data, p, needle)
    ensures data[p + |needle| - 1] == NEWLINE && data[p + |needle| - 2] == last
    ensures forall i :: p <= i < p + |needle| - 1 ==> data[i] != NEWLINE
  {
    var w := data[p..p + |needle|];
    assert w[|needle| - 1] == NEWLINE && w[|needle| - 2] == last;
    forall i | p <= i < p + |needle| - 1 ensures data[i] != NEWLINE {
      assert w[i - p] == data[i];
    }
  }

  /** So it is not in plain text, nor does it start in plain text and run on past it. */
  lemma NotInPlain(data: Octets, from: nat, r: Octets, p: nat, needle: Octets, last: octet)
    requires Plain(r) && from + |r| <= |data| && data[from..from + |r|] == r
    requires LineOf(needle, last) && last !in {93, 34, NEWLINE} && from <= p < from + |r|
    ensures !At(data, p, needle)
  {
    var e := p + |needle| - 1;
    assert data[from + |r| - 1] == data[from..from + |r|][|r| - 1];
    if from <= e < from + |r| {
      assert data[e] == data[from..from + |r|][e - from];
      assert e > from ==> data[e - 1] == data[from..from + |r|][e - 1 - from];
    }
    if At(data, p, needle) {
      AtEndsLine(data, p, needle, last);
    }
  }

  // ----- a block in its surroundings -----

  function BodyAt(d: Octets, k: nat): nat { |d| + k + |BEGIN_TEXT| + 2 }

  function EndAt(d: Octets, k: nat, r: Octets): nat { BodyAt(d, k) + |r| }

  function AfterAt(d: Octets, k: nat, r: Octets): nat { EndAt(d, k, r) + |END_MARKER| }

  /** `data` is `before`, then `k` newlines, a begin marker, `r`, an end marker, then `after`. */
  ghost predicate Framed(data: Octets, before: Octets, k: nat, r: Octets, after: Octets) {
    && k <= 2 && |data| == AfterAt(before, k, r) + |after|
    && data[..|before|] == before
    && data[|before|..|before| + k] == Newlines(k)
    && data[|before| + k..BodyAt(before, k)] == BeginMarker(k)
    && data[BodyAt(before, k)..EndAt(before, k, r)] == r
    && data[EndAt(before, k, r)..AfterAt(before, k, r)] == END_MARKER
    && data[AfterAt(before, k, r)..] == after
  }

  /** The last line has no newline yet and would be a begin marker if it had. */
  predicate OpenBegin(d: Octets) {
    exists k :: 0 <= k <= 2 && OpenWith(d, k)
  }

  predicate OpenWith(d: Octets, k: nat)
    requires k <= 2
  {
    var p := |d| - |BEGIN_TEXT| - 1;
    0 <= p && LineStart(d, p) && d[p..] + [NEWLINE] == BeginMarker(k)
  }

  /** `k` newlines leave the next line empty before it. */
  predicate Separates(d: Octets, k: nat) {
    k == 0 ==> d == [] || d[|d| - 1] == NEWLINE
  }

  ghost predicate NoMarkers(t: Octets) {
    NoBegin(t, 0, |t|) && forall q :: 0 <= q ==> !At(t, q, END_MARKER)
  }

  lemma BeginIsLine(k: nat)
    requires k <= 2
    ensures LineOf(BeginMarker(k), (48 + k) as octet) && LineOf(END_MARKER, 109) && BeginMarker(k)[2] == 62 && END_MARKER[2] == 60
  {
    BeginShape(k);
    EndShape();
  }

  /** A marker at `p` starts a line, and its own line runs to its newline. */
  lemma BeginFacts(data: Octets, p: nat)
    requires BeginAt(data, p).Some?
    ensures var e := p + |BEGIN_TEXT| + 1;
      && e < |data| && LineStart(data, p) && data[e] == NEWLINE && data[p + 2] == 62
      && data[e - 1] as int == 48 + BeginAt(data, p).value
      && forall i :: p <= i < e ==> data[i] != NEWLINE
  {
    var k := BeginAt(data, p).value;
    BeginIsLine(k);
    AtEndsLine(data, p, BeginMarker(k), (48 + k) as octet);
    assert data[p..p + |BeginMarker(k)|][2] == data[p + 2];
  }

  lemma BeginFrom(data: Octets, p: nat, k: nat)
    requires k <= 2 && LineStart(data, p) && At(data, p, BeginMarker(k))
    ensures BeginAt(data, p) == Some(k)
  {
    BeginIsLine(k);
    AtEndsLine(data, p, BeginMarker(k), (48 + k) as octet);
    hide BeginMarker;
    BeginFacts(data, p);
  }

  /** Before the block: no marker but one the text already had, or one the separator completes. */
  lemma NoBeginBefore(data: Octets, d: Octets, k: nat, r: Octets, t: Octets, p: nat)
    requires Framed(data, d, k, r, t) && Separates(d, k) && NoBegin(d, 0, |d|) && p < |d|
    ensures BeginAt(data, p).Some? ==> OpenBegin(d)
  {
    if BeginAt(data, p).Some? {
      BeginFacts(data, p);
      var j, e := BeginAt(data, p).value, p + |BEGIN_TEXT| + 1;
      var w := data[p..e + 1];
      assert w == BeginMarker(j);
      assert forall i :: 0 <= i < |d| ==> data[i] == data[..|d|][i];
      assert k == 0 ==> data[|d| - 1] == NEWLINE;
      if e < |d| {
        assert d[p..e + 1] == w;
        BeginFrom(d, p, j);
      } else {
        assert k > 0 ==> data[|d|] == data[|d|..|d| + k][0];
        assert d[p..] + [NEWLINE] == w;
        assert OpenWith(d, j);
      }
    }
  }

  lemma NoBeginInside(data: Octets, d: Octets, k: nat, r: Octets, t: Octets, p: nat)
    requires Framed(data, d, k, r, t) && Plain(r) && |d| <= p < AfterAt(d, k, r) && p != |d| + k
    ensures BeginAt(data, p).None?
  {
    hide BeginMarker, END_MARKER, Plain, BeginAt;
    if p < BodyAt(d, k) {
      NoBeginInHead(data, d, k, r, t, p);
    } else if p < EndAt(d, k, r) {
      NoBeginInBody(data, d, k, r, t, p);
    } else {
      NoBeginInTail(data, d, k, r, t, p);
    }
  }

  lemma NoBeginInHead(data: Octets, d: Octets, k: nat, r: Octets, t: Octets, p: nat)
    requires Framed(data, d, k, r, t) && |d| <= p < BodyAt(d, k) && p != |d| + k
    ensures BeginAt(data, p).None?
  {
    hide BeginMarker, END_MARKER;
    var b := |d| + k;
    BeginIsLine(k);
    if p < b {
      assert data[p] == data[|d|..b][p - |d|];
      if BeginAt(data, p).Some? {
        BeginFacts(data, p);
      }
    } else {
      assert At(data, b, BeginMarker(k));
      AtEndsLine(data, b, BeginMarker(k), (48 + k) as octet);
    }
  }

  lemma NoBeginInBody(data: Octets, d: Octets, k: nat, r: Octets, t: Octets, p: nat)
    requires Framed(data, d, k, r, t) && Plain(r) && BodyAt(d, k) <= p < EndAt(d, k, r)
    ensures BeginAt(data, p).None?
  {
    hide BeginMarker, END_MARKER, Plain;
    if BeginAt(data, p).Some? {
      var j := BeginAt(data, p).value;
      BeginIsLine(j);
      NotInPlain(data, BodyAt(d, k), r, p, BeginMarker(j), (48 + j) as octet);
    }
  }

  lemma NoBeginInTail(data: Octets, d: Octets, k: nat, r: Octets, t: Octets, p: nat)
    requires Framed(data, d, k, r, t) && EndAt(d, k, r) <= p < AfterAt(d, k, r)
    ensures BeginAt(data, p).None?
  {
    hide BeginMarker, END_MARKER;
    var end := EndAt(d, k, r);
    BeginIsLine(k);
    assert At(data, end, END_MARKER);
    AtEndsLine(data, end, END_MARKER, 109);
    assert data[end + 2] == data[end..AfterAt(d, k, r)][2];
    if BeginAt(data, p).Some? {
      BeginFacts(data, p);
    }
  }

  lemma NoBeginAfter(data: Octets, d: Octets, k: nat, r: Octets, t: Octets, p: nat)
    requires Framed(data, d, k, r, t) && NoBegin(t, 0, |t|) && AfterAt(d, k, r) <= p < |data|
    ensures BeginAt(data, p).None?
  {
    var a := AfterAt(d, k, r);
    if BeginAt(data, p).Some? {
      var j := BeginAt(data, p).value;
      assert t[p - a..p - a + |BeginMarker(j)|] == data[p..p + |BeginMarker(j)|];
      assert p > a ==> data[p - 1] == t[p - 1 - a];
      BeginFrom(t, p - a, j);
    }
  }

  /** The span found in such data is exactly the block with its separator. */
  lemma SpanIsBlock(data: Octets, d: Octets, k: nat, r: Octets, t: Octets)
    requires Framed(data, d, k, r, t) && Plain(r) && Separates(d, k)
    requires NoBegin(d, 0, |d|) && !OpenBegin(d) && NoMarkers(t)
    ensures OwnedSpan(data) == Owned(Span(|d|, AfterAt(d, k, r), k))
  {
    hide BeginMarker, END_MARKER, Plain, OpenBegin, Begins;
    var b := |d| + k;
    BlockBegins(data, d, k, r, t);
    forall p | 0 <= p < |data| && p != b ensures BeginAt(data, p).None? {
      NoBeginElsewhere(data, d, k, r, t, p);
    }
    hide BeginAt;
    OnlyOne(data, 0, b);
    FindsEnd(data, d, k, r, t);
  }

  lemma NoBeginElsewhere(data: Octets, d: Octets, k: nat, r: Octets, t: Octets, p: nat)
    requires Framed(data, d, k, r, t) && Plain(r) && Separates(d, k)
    requires NoBegin(d, 0, |d|) && !OpenBegin(d) && NoMarkers(t) && p < |data| && p != |d| + k
    ensures BeginAt(data, p).None?
  {
    hide BeginMarker, END_MARKER, Plain, OpenBegin, BeginAt;
    if p < |d| {
      NoBeginBefore(data, d, k, r, t, p);
    } else if p < AfterAt(d, k, r) {
      NoBeginInside(data, d, k, r, t, p);
    } else {
      NoBeginAfter(data, d, k, r, t, p);
    }
  }

  lemma BlockBegins(data: Octets, d: Octets, k: nat, r: Octets, t: Octets)
    requires Framed(data, d, k, r, t) && Separates(d, k)
    ensures BeginAt(data, |d| + k) == Some(k)
  {
    hide BeginMarker, END_MARKER;
    assert k > 0 ==> data[|d| + k - 1] == data[|d|..|d| + k][k - 1];
    assert k == 0 && d != [] ==> data[|d| - 1] == data[..|d|][|d| - 1];
    BeginFrom(data, |d| + k, k);
  }

  lemma FindsEnd(data: Octets, d: Octets, k: nat, r: Octets, t: Octets)
    requires Framed(data, d, k, r, t) && Plain(r) && NoMarkers(t)
    ensures Find(data, END_MARKER, BodyAt(d, k)) == Some(EndAt(d, k, r))
    ensures Find(data, END_MARKER, AfterAt(d, k, r)) == None
  {
    hide BeginMarker, END_MARKER, Plain;
    var body, end, after := BodyAt(d, k), EndAt(d, k, r), AfterAt(d, k, r);
    BeginIsLine(0);
    assert At(data, end, END_MARKER);
    forall q | body <= q < end ensures !At(data, q, END_MARKER) {
      NotInPlain(data, body, r, q, END_MARKER, 109);
    }
    forall q | after <= q ensures !At(data, q, END_MARKER) {
      AtShifts(data, after, t, q, END_MARKER);
    }
  }

  lemma AtShifts(data: Octets, a: nat, t: Octets, q: nat, needle: Octets)
    requires a <= |data| && data[a..] == t && a <= q
    ensures At(data, q, needle) <==> At(t, q - a, needle)
  {
    if q + |needle| <= |data| {
      assert t[q - a..q - a + |needle|] == data[q..q + |needle|];
    }
  }

  // ----- the edits -----

  /** Two begin markers never overlap, so each is found. */
  lemma EachIsFound(data: Octets, b: nat)
    requires BeginAt(data, b).Some?
    ensures b in Begins(data, 0)
  {
    BeginFacts(data, b);
    forall q | 0 <= q < b && BeginAt(data, q).Some? ensures q + |BEGIN_TEXT| + 2 <= b {
      BeginFacts(data, q);
    }
    FoundFrom(data, 0, b);
  }

  lemma AbsentMeansNone(data: Octets)
    requires OwnedSpan(data) == Absent
    ensures NoBegin(data, 0, |data|)
  {
    hide Begins;
    forall p | 0 <= p < |data| ensures BeginAt(data, p).None? {
      if BeginAt(data, p).Some? {
        EachIsFound(data, p);
      }
    }
  }

  lemma BuiltIsFramed(j: Json, d: Octets, k: nat, s: Server, t: Octets)
    requires k <= 2
    ensures Framed(d + (RenderOwned(j, s, k) + t), d, k, Render(j, s), t)
  {
    hide Render, BeginMarker, END_MARKER;
    var r, block := Render(j, s), RenderOwned(j, s, k);
    var data := d + (block + t);
    var b, body, end, after := |d| + k, BodyAt(d, k), EndAt(d, k, r), AfterAt(d, k, r);
    assert block[..k] == Newlines(k) && block[k..body - |d|] == BeginMarker(k);
    assert block[body - |d|..end - |d|] == r && block[end - |d|..] == END_MARKER;
    assert data[|d|..after] == block;
    assert data[|d|..b] == block[..k] && data[b..body] == block[k..body - |d|];
    assert data[body..end] == block[body - |d|..end - |d|] && data[end..after] == block[end - |d|..];
  }

  lemma SeparatorSeparates(d: Octets)
    ensures Separates(d, AppendSeparator(d))
  {
  }

  /** The block in its place: found exactly, replaced exactly, removed exactly. */
  lemma BuiltSpan(j: Json, d: Octets, k: nat, s: Server, t: Octets)
    requires j.Valid() && KeysOnOneLine(s) && k <= 2 && Separates(d, k)
    requires NoBegin(d, 0, |d|) && !OpenBegin(d) && NoMarkers(t)
    ensures var data := d + (RenderOwned(j, s, k) + t);
      && OwnedSpan(data) == Owned(Span(|d|, |d| + |RenderOwned(j, s, k)|, k))
      && data[..|d|] == d && data[|d| + |RenderOwned(j, s, k)|..] == t
  {
    hide Render, BeginMarker, END_MARKER, OpenBegin, OwnedSpan, NoMarkers;
    RenderIsPlain(j, s);
    BuiltIsFramed(j, d, k, s, t);
    SpanIsBlock(d + (RenderOwned(j, s, k) + t), d, k, Render(j, s), t);
  }

  /** A text a first block can be added to. */
  predicate Unowned(file: Option<Octets>) {
    OwnedSpan(Content(file)) == Absent && !Unmanaged(Content(file))
  }

  lemma NothingAfter()
    ensures NoMarkers([])
  {
  }

  lemma SetAppends(j: Json, file: Option<Octets>, s: Server)
    requires Unowned(file)
    ensures var d := Content(file); Set(j, file, s) == Left(Some(d + (RenderOwned(j, s, AppendSeparator(d)) + [])))
  {
    hide Render, OwnedSpan, Unmanaged;
    var d := Content(file);
    assert RenderOwned(j, s, AppendSeparator(d)) + [] == RenderOwned(j, s, AppendSeparator(d));
  }

  /** If the last line would complete a marker, adding the block makes two of them. */
  lemma OpenBeginClashes(j: Json, d: Octets, s: Server)
    requires OpenBegin(d)
    ensures OwnedSpan(d + (RenderOwned(j, s, AppendSeparator(d)) + [])) == Malformed
  {
    hide Render, AppendSeparator, RenderOwned, Begins, BeginAt, BeginMarker, END_MARKER;
    var i :| 0 <= i <= 2 && OpenWith(d, i);
    assert |BeginMarker(i)| == |BEGIN_TEXT| + 2;
    var p, k := |d| - |BEGIN_TEXT| - 1, AppendSeparator(d);
    var data := d + (RenderOwned(j, s, k) + []);
    OpenNeedsBreak(d, i);
    BuiltIsFramed(j, d, k, s, []);
    SeparatorSeparates(d);
    hide OpenWith, Framed, Separates;
    BlockBegins(data, d, k, Render(j, s), []);
    OpenBegins(data, d, k, Render(j, s), i);
    EachIsFound(data, p);
    EachIsFound(data, |d| + k);
    hide *;
    TwoBegins(data, p, |d| + k);
  }

  lemma TwoBegins(data: Octets, p: nat, q: nat)
    requires p in Begins(data, 0) && q in Begins(data, 0) && p != q
    ensures OwnedSpan(data) == Malformed
  {
    hide Begins, END_MARKER;
  }

  lemma OpenNeedsBreak(d: Octets, i: nat)
    requires i <= 2 && OpenWith(d, i)
    ensures AppendSeparator(d) == 2
  {
    BeginIsLine(i);
    var p := |d| - |BEGIN_TEXT| - 1;
    assert (d[p..] + [NEWLINE])[|BEGIN_TEXT|] == d[|d| - 1];
  }

  lemma OpenBegins(data: Octets, d: Octets, k: nat, r: Octets, i: nat)
    requires i <= 2 && OpenWith(d, i) && k > 0 && Framed(data, d, k, r, [])
    ensures BeginAt(data, |d| - |BEGIN_TEXT| - 1).Some?
  {
    var p := |d| - |BEGIN_TEXT| - 1;
    hide BeginMarker, END_MARKER;
    assert data[|d|] == data[|d|..|d| + k][0];
    assert data[p..|d| + 1] == data[..|d|][p..] + [data[|d|]];
    assert p > 0 ==> data[p - 1] == data[..|d|][p - 1];
    assert |BeginMarker(i)| == |BEGIN_TEXT| + 2;
    BeginFrom(data, p, i);
  }

  /** Unsetting after setting gives back the very bytes there were, exactly when the last line was not an
      unfinished begin marker and the file was not an empty one, which is deleted. */
  lemma UnsetUndoesSetIff(j: Json, file: Option<Octets>, s: Server)
    requires j.Valid() && KeysOnOneLine(s) && Unowned(file)
    ensures Set(j, file, s).Left?
    ensures Unset(Set(j, file, s).file) == Left(file) <==> !OpenBegin(Content(file)) && file != Some([])
  {
    hide Render, OwnedSpan, Unmanaged, RenderOwned, OpenBegin, NoMarkers, AppendSeparator;
    var d := Content(file);
    SetAppends(j, file, s);
    if OpenBegin(d) {
      OpenBeginClashes(j, d, s);
    } else {
      AbsentMeansNone(d);
      SeparatorSeparates(d);
      NothingAfter();
      BuiltSpan(j, d, AppendSeparator(d), s, []);
      assert d + [] == d;
    }
  }

  /** Setting twice is setting once with the second server, under the same condition. */
  lemma SetReplacesSetIff(j: Json, file: Option<Octets>, first: Server, second: Server)
    requires j.Valid() && KeysOnOneLine(first) && Unowned(file)
    ensures Set(j, file, first).Left? && Set(j, file, second).Left?
    ensures Set(j, Set(j, file, first).file, second) == Set(j, file, second) <==> !OpenBegin(Content(file))
  {
    hide Render, OwnedSpan, Unmanaged, RenderOwned, OpenBegin, NoMarkers, AppendSeparator;
    var d := Content(file);
    SetAppends(j, file, first);
    SetAppends(j, file, second);
    if OpenBegin(d) {
      OpenBeginClashes(j, d, first);
    } else {
      AbsentMeansNone(d);
      SeparatorSeparates(d);
      NothingAfter();
      BuiltSpan(j, d, AppendSeparator(d), first, []);
    }
  }

  /** Text added after the block, if it holds no marker, survives both edits untouched. */
  lemma TrailingTextSurvives(j: Json, file: Option<Octets>, first: Server, second: Server, t: Octets)
    requires j.Valid() && KeysOnOneLine(first) && Unowned(file) && !OpenBegin(Content(file)) && NoMarkers(t)
    ensures var d := Content(file);
      var after := Some(Set(j, file, first).file.value + t);
      && Set(j, file, first).Left? && Set(j, file, first).file.Some? && Set(j, file, second).Left? && Set(j, file, second).file.Some?
      && Set(j, after, second) == Left(Some(Set(j, file, second).file.value + t))
      && Unset(after) == Left(if d + t == [] then None else Some(d + t))
  {
    hide Render, OwnedSpan, Unmanaged, RenderOwned, OpenBegin, NoMarkers, AppendSeparator;
    var d := Content(file);
    var k := AppendSeparator(d);
    SetAppends(j, file, first);
    SetAppends(j, file, second);
    AbsentMeansNone(d);
    SeparatorSeparates(d);
    BuiltSpan(j, d, k, first, t);
    var one, two := RenderOwned(j, first, k), RenderOwned(j, second, k);
    hide *;
    AddedAfter(d, one, t);
    AddedAfter(d, two, t);
    var span := Span(|d|, |d| + |one|, k);
    EditedAt(j, d + (one + t), second, span);
  }

  /** Cutting the block out of a text, or putting another in its place. */
  lemma AddedAfter(d: Octets, block: Octets, t: Octets)
    ensures (d + (block + [])) + t == d + (block + t) && (d + block) + t == d + (block + t)
    ensures var all := d + (block + t); all[..|d|] == d && all[|d| + |block|..] == t
  {
  }

  /** Both edits of a text with one block. */
  lemma EditedAt(j: Json, data: Octets, s: Server, span: Span)
    requires OwnedSpan(data) == Owned(span) && span.start <= span.end <= |data|
    ensures Set(j, Some(data), s) == Left(Some(data[..span.start] + (RenderOwned(j, s, span.separator) + data[span.end..])))
    ensures var rest := data[..span.start] + data[span.end..];
      Unset(Some(data)) == Left(if rest == [] then None else Some(rest))
  {
    hide OwnedSpan;
  }

  /** A file of one line: a begin marker whose newline is still missing. */
  const UNFINISHED: Octets := Ascii(BEGIN_TEXT) + [48]

  /** It is taken for a file without a block, and unsetting does not give it back. */
  lemma UnfinishedMarkerIsCompleted(j: Json, s: Server)
    requires j.Valid() && KeysOnOneLine(s)
    ensures Unowned(Some(UNFINISHED)) && Set(j, Some(UNFINISHED), s).Left?
    ensures Unset(Set(j, Some(UNFINISHED), s).file) != Left(Some(UNFINISHED))
    ensures Unowned(Some([])) && Unset(Set(j, Some([]), s).file) == Left(None)
  {
    hide Set, Unset, Begins;
    var d := UNFINISHED;
    assert Begins(d, 0) == [] by { NoneFrom(d, 0); }
    assert Begins([], 0) == [] by { NoneFrom([], 0); }
    assert OwnedSpan(d) == Absent && OwnedSpan([]) == Absent;
    hide OwnedSpan;
    UnfinishedIsUnmanaged();
    assert d + [NEWLINE] == BeginMarker(0);
    assert OpenWith(d, 0);
    hide BeginMarker;
    UnsetUndoesSetIff(j, Some(d), s);
    EmptyIsDeleted(j, s);
  }

  lemma UnfinishedIsUnmanaged()
    ensures !Unmanaged(UNFINISHED) && !Unmanaged([])
  {
    TextsArePrintable();
    NoNewlineIn(BEGIN_TEXT);
    var d := UNFINISHED;
    assert d[0] == 35 && Ascii(TABLE)[0] == 91;
    assert forall p :: 0 < p < |d| ==> !LineStart(d, p);
    NotAtStart(d, Ascii(TABLE));
  }

  lemma NotAtStart(data: Octets, needle: Octets)
    requires data != [] && needle != [] && data[0] != needle[0]
    ensures !At(data, 0, needle)
  {
    assert |needle| <= |data| ==> data[0..|needle|][0] == data[0];
  }

  /** An empty file is deleted. */
  lemma EmptyIsDeleted(j: Json, s: Server)
    requires j.Valid() && KeysOnOneLine(s) && Unowned(Some([]))
    ensures Unset(Set(j, Some([]), s).file) == Left(None)
  {
    hide Render, OwnedSpan, Unmanaged, RenderOwned, NoMarkers, AppendSeparator;
    SetAppends(j, Some([]), s);
    AbsentMeansNone([]);
    SeparatorSeparates([]);
    NothingAfter();
    BuiltSpan(j, [], AppendSeparator([]), s, []);
  }
}
