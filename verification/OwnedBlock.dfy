/** The owned block of a project config, edited byte for byte. */
module OwnedBlock {
  import opened Bytes

  const NEWLINE: octet := 10
  const OWNER := "fram-code-wire managed"
  const SECTION := " mcp_servers.fram"
  const BEGIN_TEXT := "# >>> " + OWNER + SECTION + " separator="
  const END_TEXT := "# <<< " + OWNER + SECTION
  const TABLE := "[mcp_servers.fram]"

  function BeginMarker(k: nat): (b: Octets)
    requires k <= 2
    ensures |b| == |BEGIN_TEXT| + 2
  {
    Ascii(BEGIN_TEXT) + [(48 + k) as octet, NEWLINE]
  }

  const END_MARKER: Octets := Ascii(END_TEXT) + [NEWLINE]

  // ----- rendering -----

  /** How a string is quoted; a quoted string has no raw newline. */
  datatype Json = Json(dumps: string -> Octets)
  {
    ghost predicate Valid() {
      forall s :: NEWLINE !in dumps(s) && dumps(s) != [] && dumps(s)[|dumps(s)| - 1] == 34
    }
  }

  datatype Server = Server(command: string, args: seq<string>, env: seq<(Octets, string)>)

  function Joined(j: Json, args: seq<string>): Octets {
    if args == [] then [] else if |args| == 1 then j.dumps(args[0]) else
    j.dumps(args[0]) + (Ascii(", ") + Joined(j, args[1..]))
  }

  function EnvLines(j: Json, env: seq<(Octets, string)>): seq<Octets> {
    if env == [] then [] else [env[0].0 + (Ascii(" = ") + j.dumps(env[0].1))] + EnvLines(j, env[1..])
  }

  function RenderLines(j: Json, s: Server): seq<Octets> {
    [Ascii(TABLE), Ascii("command = ") + j.dumps(s.command), Ascii("args = [") + (Joined(j, s.args) + Ascii("]"))]
      + (if s.env == [] then [] else [[], Ascii("[mcp_servers.fram.env]")] + EnvLines(j, s.env))
  }

  function Lines(lines: seq<Octets>): Octets {
    if lines == [] then [] else lines[0] + ([NEWLINE] + Lines(lines[1..]))
  }

  function Render(j: Json, s: Server): Octets { Lines(RenderLines(j, s)) }

  function Newlines(k: nat): (b: Octets)
    ensures |b| == k && forall i :: 0 <= i < k ==> b[i] == NEWLINE
  {
    seq(k, _ => NEWLINE)
  }

  function RenderOwned(j: Json, s: Server, k: nat): Octets
    requires k <= 2
  {
    Newlines(k) + (BeginMarker(k) + (Render(j, s) + END_MARKER))
  }

  // ----- finding the block -----

  predicate At(data: Octets, p: int, needle: Octets) {
    0 <= p && p + |needle| <= |data| && data[p..p + |needle|] == needle
  }

  predicate LineStart(data: Octets, p: nat) {
    p == 0 || (p <= |data| && data[p - 1] == NEWLINE)
  }

  /** The separator length a begin marker at `p` records. */
  function BeginAt(data: Octets, p: nat): (k: Option<nat>)
    ensures k.Some? ==> k.value <= 2 && LineStart(data, p) && At(data, p, BeginMarker(k.value))
  {
    if !LineStart(data, p) then None else
    if At(data, p, BeginMarker(0)) then Some(0) else
    if At(data, p, BeginMarker(1)) then Some(1) else
    if At(data, p, BeginMarker(2)) then Some(2) else None
  }

  /** The begin markers from `p` on, as the expression finds them, none overlapping. */
  function Begins(data: Octets, p: nat): seq<nat>
    decreases |data| - p
  {
    if p >= |data| then [] else
    if BeginAt(data, p).Some? then [p] + Begins(data, p + |BEGIN_TEXT| + 2) else Begins(data, p + 1)
  }

  function Find(data: Octets, needle: Octets, p: nat): (r: Option<nat>)
    ensures r.Some? ==> r.value >= p && At(data, r.value, needle)
    ensures r.Some? ==> forall q :: p <= q < r.value ==> !At(data, q, needle)
    ensures r.None? ==> forall q :: p <= q ==> !At(data, q, needle)
    decreases |data| - p
  {
    if p + |needle| > |data| then None else if At(data, p, needle) then Some(p) else Find(data, needle, p + 1)
  }

  datatype Span = Span(start: nat, end: nat, separator: nat)

  datatype Found = Malformed | Absent | Owned(span: Span)

  /** The raw span the block owns, separator included. */
  function OwnedSpan(data: Octets): (f: Found)
    ensures f.Owned? ==> f.span.start <= f.span.end <= |data| && f.span.separator <= 2
  {
    var begins := Begins(data, 0);
    if begins == [] then Absent else
    if |begins| != 1 || BeginAt(data, begins[0]).None? then Malformed else
    var begin, k := begins[0], BeginAt(data, begins[0]).value;
    var end := Find(data, END_MARKER, begin + |BEGIN_TEXT| + 2);
    if end.None? then Malformed else
    if Find(data, END_MARKER, end.value + |END_MARKER|).Some? then Malformed else
    if begin < k || data[begin - k..begin] != Newlines(k) then Malformed else
    Owned(Span(begin - k, end.value + |END_MARKER|, k))
  }

  function AppendSeparator(data: Octets): (k: nat)
    ensures k <= 2
  {
    var n := |data|;
    if n == 0 || (n >= 2 && data[n - 2] == NEWLINE && data[n - 1] == NEWLINE) then 0 else
    if data[n - 1] == NEWLINE then 1 else 2
  }

  /** Where spaces and tabs from `p` on stop. */
  function SkipBlanks(data: Octets, p: nat): (q: nat)
    requires p <= |data|
    ensures p <= q <= |data|
    decreases |data| - p
  {
    if p < |data| && (data[p] == 32 || data[p] == 9) then SkipBlanks(data, p + 1) else p
  }

  /** A table header nobody marked, alone on its line. */
  predicate UnmanagedAt(data: Octets, p: nat) {
    LineStart(data, p) && At(data, p, Ascii(TABLE)) &&
    var q := SkipBlanks(data, p + |TABLE|);
    var e := if q < |data| && data[q] == 13 then q + 1 else q;
    e == |data| || data[e] == NEWLINE || q == |data| || data[q] == NEWLINE
  }

  predicate Unmanaged(data: Octets) {
    exists p :: 0 <= p < |data| && UnmanagedAt(data, p)
  }

  // ----- the two edits -----

  datatype Edited = Refused | Left(file: Option<Octets>)

  function Content(file: Option<Octets>): Octets {
    if file.None? then [] else file.value
  }

  function Set(j: Json, file: Option<Octets>, s: Server): Edited {
    var data := Content(file);
    match OwnedSpan(data)
    case Malformed => Refused
    case Owned(span) => Left(Some(data[..span.start] + (RenderOwned(j, s, span.separator) + data[span.end..])))
    case Absent =>
      if Unmanaged(data) then Refused else Left(Some(data + RenderOwned(j, s, AppendSeparator(data))))
  }

  /** Removes the block; a file left empty is deleted. */
  function Unset(file: Option<Octets>): Edited {
    var data := Content(file);
    match OwnedSpan(data)
    case Malformed => Refused
    case Absent => Left(file)
    case Owned(span) =>
      var rest := data[..span.start] + data[span.end..];
      Left(if rest == [] then None else Some(rest))
  }
}
