/** The recursive Term kernel and TermCodecV1, its tagged binary form. */
module Terms {
  import opened Bytes

  /** A text is held as its UTF-8 octets. */
  datatype Term =
    | Text(text: Octets)
    | Int(value: int)
    | Bool(flag: bool)
    | Keyword(name: Octets)
    | Instant(seconds: int, nanos: int)
    | Triple(t1: Term, t2: Term, t3: Term)

  /** The library routines the log depends on: CRC-32, GZIP, and UTF-8 validation. */
  datatype Host = Host(
    crc: Octets -> u32,
    gzip: Octets -> Octets,
    gunzip: Octets -> Option<Octets>,
    utf8: Octets -> bool)
  {
    /** What callers rely on: inflation undoes deflation. */
    ghost predicate Valid() {
      forall b {:trigger gzip(b)} :: gunzip(gzip(b)) == Some(b)
    }
  }

  const MAX_TERM_DEPTH := 256
  const NANOS_PER_SECOND := 1_000_000_000

  function Depth(t: Term): (d: nat) {
    if t.Triple? then
      var a, b, c := Depth(t.t1), Depth(t.t2), Depth(t.t3);
      1 + (if a >= b && a >= c then a else if b >= c then b else c)
    else 0
  }

  predicate ValidText(h: Host, b: Octets) {
    |b| <= I32_MAX && h.utf8(b)
  }

  /** Terms with a defined byte form, whatever their depth. */
  predicate WellFormed(h: Host, t: Term) {
    match t
    case Text(text) => ValidText(h, text)
    case Int(v) => IsI64(v)
    case Bool(_) => true
    case Keyword(name) => name != [] && ValidText(h, name)
    case Instant(s, n) => IsI64(s) && 0 <= n < NANOS_PER_SECOND
    case Triple(a, b, c) => WellFormed(h, a) && WellFormed(h, b) && WellFormed(h, c)
  }

  /** Terms the codec writes: well formed and no deeper than the codec bound. */
  predicate Encodable(h: Host, t: Term) {
    WellFormed(h, t) && Depth(t) <= 256
  }

  /** The tag octet and body of an atom. */
  function EncodeAtom(h: Host, t: Term): (b: Octets)
    requires WellFormed(h, t) && !t.Triple?
    ensures |b| > 0 && b[0] != 7
  {
    match t
    case Text(text) => [1] + (U32(|text|) + text)
    case Int(v) => [2] + I64(v)
    case Bool(flag) => if flag then [5] else [4]
    case Keyword(name) => [6] + (U32(|name|) + name)
    case Instant(s, n) => [8] + (I64(s) + U32(n))
  }

  function EncodeTerm(h: Host, t: Term): (b: Octets)
    requires WellFormed(h, t)
    ensures |b| > 0
  {
    if t.Triple? then [7] + (EncodeTerm(h, t.t1) + (EncodeTerm(h, t.t2) + EncodeTerm(h, t.t3)))
    else EncodeAtom(h, t)
  }

  function DecodeText(h: Host, b: Octets): (r: Result<(Octets, Octets)>)
    ensures r.Ok? ==> |r.value.1| <= |b|
  {
    if |b| < 4 then Err(CorruptLog) else
    var n := Value(b[..4]);
    if n > I32_MAX || |b| - 4 < n then Err(CorruptLog) else
    if !h.utf8(b[4..4 + n]) then Err(CorruptLog) else
    Ok((b[4..4 + n], b[4 + n..]))
  }

  /** Reads the atom body that follows `tag`. */
  function DecodeAtom(h: Host, tag: octet, body: Octets): (r: Result<(Term, Octets)>)
    ensures r.Ok? ==> |r.value.1| <= |body| && !r.value.0.Triple?
  {
    match tag
    case 1 => var (text, rest) :- DecodeText(h, body); Ok((Text(text), rest))
    case 2 => if |body| < 8 then Err(CorruptLog) else Ok((Int(SignedValue(body[..8])), body[8..]))
    case 4 => Ok((Bool(false), body))
    case 5 => Ok((Bool(true), body))
    case 6 =>
      var (name, rest) :- DecodeText(h, body);
      if name == [] then Err(CorruptLog) else Ok((Keyword(name), rest))
    case 8 =>
      if |body| < 12 then Err(CorruptLog) else
      var nanos := Value(body[8..12]);
      if nanos >= NANOS_PER_SECOND then Err(CorruptLog) else
      Ok((Instant(SignedValue(body[..8]), nanos), body[12..]))
    case _ => Err(CorruptLog)
  }

  /** Reads one term at nesting `depth` and returns it with the octets after it. */
  function DecodeTerm(h: Host, b: Octets, depth: nat): (r: Result<(Term, Octets)>)
    ensures r.Ok? ==> |r.value.1| < |b|
    decreases |b|
  {
    if depth > MAX_TERM_DEPTH then Err(TermDepthExceeded) else
    if |b| == 0 then Err(CorruptLog) else
    if b[0] != 7 then DecodeAtom(h, b[0], b[1..]) else
    var (t1, r1) :- DecodeTerm(h, b[1..], depth + 1);
    var (t2, r2) :- DecodeTerm(h, r1, depth + 1);
    var (t3, r3) :- DecodeTerm(h, r2, depth + 1);
    Ok((Triple(t1, t2, t3), r3))
  }

  lemma TextRoundTrip(h: Host, text: Octets, rest: Octets)
    requires ValidText(h, text)
    ensures DecodeText(h, (U32(|text|) + text) + rest) == Ok((text, rest))
  {
    var b := (U32(|text|) + text) + rest;
    assert b[..4] == U32(|text|);
    assert b[4..4 + |text|] == text;
    assert b[4 + |text|..] == rest;
  }

  lemma AtomRoundTrip(h: Host, t: Term, rest: Octets)
    requires WellFormed(h, t) && !t.Triple?
    ensures var b := EncodeAtom(h, t); DecodeAtom(h, b[0], b[1..] + rest) == Ok((t, rest))
  {
    var body := EncodeAtom(h, t)[1..];
    match t
    case Text(text) =>
      assert body == U32(|text|) + text;
      TextRoundTrip(h, text, rest);
    case Keyword(name) =>
      assert body == U32(|name|) + name;
      TextRoundTrip(h, name, rest);
    case Int(v) =>
      assert body == I64(v);
      I64RoundTrip(v, rest);
    case Bool(_) =>
      assert body + rest == rest;
    case Instant(s, n) =>
      var all := body + rest;
      assert all[..8] == I64(s) && all[8..12] == U32(n) && all[12..] == rest;
      I64RoundTrip(s, rest);
  }

  lemma ShiftTriple(e1: Octets, e2: Octets, e3: Octets, rest: Octets)
    ensures [7] + (e1 + (e2 + e3)) + rest == [7] + (e1 + (e2 + (e3 + rest)))
  {
  }

  lemma DepthOfParts(t: Term)
    requires t.Triple?
    ensures Depth(t.t1) < Depth(t) && Depth(t.t2) < Depth(t) && Depth(t.t3) < Depth(t)
  {
  }

  lemma AtomReadsBack(h: Host, t: Term, rest: Octets, depth: nat)
    requires WellFormed(h, t) && !t.Triple? && depth <= MAX_TERM_DEPTH
    ensures DecodeTerm(h, EncodeTerm(h, t) + rest, depth) == Ok((t, rest))
  {
    var b := EncodeTerm(h, t) + rest;
    assert b[0] == EncodeAtom(h, t)[0] && b[1..] == EncodeAtom(h, t)[1..] + rest;
    AtomRoundTrip(h, t, rest);
  }

  /** A triple reads back once its three parts do. */
  lemma TripleReadsBack(h: Host, t: Term, rest: Octets, depth: nat)
    requires WellFormed(h, t) && t.Triple? && depth <= MAX_TERM_DEPTH
    requires var b3 := EncodeTerm(h, t.t3) + rest; var b2 := EncodeTerm(h, t.t2) + b3;
      && DecodeTerm(h, EncodeTerm(h, t.t1) + b2, depth + 1) == Ok((t.t1, b2))
      && DecodeTerm(h, b2, depth + 1) == Ok((t.t2, b3))
      && DecodeTerm(h, b3, depth + 1) == Ok((t.t3, rest))
    ensures DecodeTerm(h, EncodeTerm(h, t) + rest, depth) == Ok((t, rest))
  {
    ShiftTriple(EncodeTerm(h, t.t1), EncodeTerm(h, t.t2), EncodeTerm(h, t.t3), rest);
    var b := EncodeTerm(h, t) + rest;
    assert b[1..] == EncodeTerm(h, t.t1) + (EncodeTerm(h, t.t2) + (EncodeTerm(h, t.t3) + rest));
  }

  /** Every encodable term reads back exactly, leaving the octets after it untouched. */
  lemma {:induction false} TermRoundTrip(h: Host, t: Term, rest: Octets, depth: nat)
    requires WellFormed(h, t)
    requires depth + Depth(t) <= MAX_TERM_DEPTH
    ensures DecodeTerm(h, EncodeTerm(h, t) + rest, depth) == Ok((t, rest))
  {
    hide DecodeTerm, EncodeTerm;
    if t.Triple? {
      DepthOfParts(t);
      var b3 := EncodeTerm(h, t.t3) + rest;
      var b2 := EncodeTerm(h, t.t2) + b3;
      TermRoundTrip(h, t.t1, b2, depth + 1);
      TermRoundTrip(h, t.t2, b3, depth + 1);
      TermRoundTrip(h, t.t3, rest, depth + 1);
      TripleReadsBack(h, t, rest, depth);
    } else {
      AtomReadsBack(h, t, rest, depth);
    }
  }

  lemma TextCanonical(h: Host, b: Octets)
    requires DecodeText(h, b).Ok?
    ensures var (text, rest) := DecodeText(h, b).value;
      ValidText(h, text) && b == (U32(|text|) + text) + rest
  {
    U32Canonical(b[..4]);
    var n := Value(b[..4]);
    assert b == (b[..4] + b[4..4 + n]) + b[4 + n..];
  }

  lemma AtomCanonical(h: Host, tag: octet, body: Octets)
    requires DecodeAtom(h, tag, body).Ok?
    ensures var (t, rest) := DecodeAtom(h, tag, body).value;
      WellFormed(h, t) && [tag] + body == EncodeAtom(h, t) + rest
  {
    var (t, rest) := DecodeAtom(h, tag, body).value;
    if tag == 1 || tag == 6 {
      TextCanonical(h, body);
    } else if tag == 2 {
      I64Canonical(body[..8]);
      assert body == I64(t.value) + rest;
    } else if tag == 8 {
      I64Canonical(body[..8]);
      U32Canonical(body[8..12]);
      assert body == (I64(t.seconds) + U32(t.nanos)) + rest;
    }
    assert [tag] + body == EncodeAtom(h, t) + rest;
  }

  /** `b` is the encoding of `t` at nesting `depth`, followed by `rest`. */
  ghost predicate Spells(h: Host, b: Octets, depth: nat, t: Term, rest: Octets) {
    WellFormed(h, t) && depth + Depth(t) <= MAX_TERM_DEPTH && b == EncodeTerm(h, t) + rest
  }

  lemma AtomSpelled(h: Host, b: Octets, depth: nat)
    requires |b| > 0 && b[0] != 7 && DecodeTerm(h, b, depth).Ok?
    ensures Spells(h, b, depth, DecodeTerm(h, b, depth).value.0, DecodeTerm(h, b, depth).value.1)
  {
    assert b == [b[0]] + b[1..];
    AtomCanonical(h, b[0], b[1..]);
  }

  lemma TripleSpelled(h: Host, b: Octets, depth: nat, t1: Term, r1: Octets, t2: Term, r2: Octets, t3: Term, r3: Octets)
    requires Spells(h, b, depth + 1, t1, r1)
    requires Spells(h, r1, depth + 1, t2, r2)
    requires Spells(h, r2, depth + 1, t3, r3)
    ensures Spells(h, [7] + b, depth, Triple(t1, t2, t3), r3)
  {
    ShiftTriple(EncodeTerm(h, t1), EncodeTerm(h, t2), EncodeTerm(h, t3), r3);
  }

  /** The codec is canonical: octets that decode are the encoding of what they decode to. */
  lemma {:induction false} TermCanonical(h: Host, b: Octets, depth: nat)
    requires DecodeTerm(h, b, depth).Ok?
    ensures Spells(h, b, depth, DecodeTerm(h, b, depth).value.0, DecodeTerm(h, b, depth).value.1)
    decreases |b|
  {
    hide Spells, DecodeAtom;
    assert b == [b[0]] + b[1..];
    if b[0] != 7 {
      AtomSpelled(h, b, depth);
    } else {
      var (t1, r1) := DecodeTerm(h, b[1..], depth + 1).value;
      TermCanonical(h, b[1..], depth + 1);
      var (t2, r2) := DecodeTerm(h, r1, depth + 1).value;
      TermCanonical(h, r1, depth + 1);
      var (t3, r3) := DecodeTerm(h, r2, depth + 1).value;
      TermCanonical(h, r2, depth + 1);
      TripleSpelled(h, b[1..], depth, t1, r1, t2, r2, t3, r3);
    }
  }
}
