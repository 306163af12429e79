/** Transaction frames and their FRAMLOG payload. */
module Frames {
  import opened Bytes
  import opened Terms

  datatype Action = Assert | Retract

  datatype Operation = Operation(action: Action, proposition: Term)

  datatype Frame = Frame(sequence: int, operations: seq<Operation>)

  /** Operations the term store accepts: a nonempty list about triples. */
  predicate ValidOperations(operations: seq<Operation>) {
    operations != [] && forall op :: op in operations ==> op.proposition.Triple?
  }

  predicate OperationsEncodable(h: Host, operations: seq<Operation>) {
    forall op :: op in operations ==> op.proposition.Triple? && Encodable(h, op.proposition)
  }

  /** Frames whose payload the writer can produce and the reader accepts. */
  predicate FrameEncodable(h: Host, f: Frame) {
    && 0 <= f.sequence <= I64_MAX
    && 0 < |f.operations| <= I32_MAX
    && OperationsEncodable(h, f.operations)
  }

  function ActionCode(a: Action): (c: octet)
    ensures c == 1 || c == 2
  {
    if a.Assert? then 1 else 2
  }

  /** The operations from ordinal `i` on; each carries its ordinal explicitly. */
  function EncodeOperations(h: Host, operations: seq<Operation>, i: nat): (b: Octets)
    requires i <= |operations| <= I32_MAX && OperationsEncodable(h, operations)
    decreases |operations| - i
  {
    if i == |operations| then [] else
    var op := operations[i];
    U32(i) + ([ActionCode(op.action)] + (EncodeTerm(h, op.proposition) + EncodeOperations(h, operations, i + 1)))
  }

  function EncodePayload(h: Host, f: Frame): (b: Octets)
    requires FrameEncodable(h, f)
  {
    I64(f.sequence) + (U32(|f.operations|) + EncodeOperations(h, f.operations, 0))
  }

  function DecodeOperation(h: Host, b: Octets, i: nat): (r: Result<(Operation, Octets)>)
  {
    if |b| < 4 then Err(CorruptLog) else
    if Value(b[..4]) != i then Err(NoncontiguousOrdinal) else
    if |b| < 5 then Err(CorruptLog) else
    var (proposition, rest) :- DecodeTerm(h, b[5..], 0);
    if !proposition.Triple? || (b[4] != 1 && b[4] != 2) then Err(CorruptLog) else
    Ok((Operation(if b[4] == 1 then Assert else Retract, proposition), rest))
  }

  /** Operations `i` up to `n`, which must use up `b`. */
  function DecodeOperations(h: Host, b: Octets, i: nat, n: nat): (r: Result<seq<Operation>>)
    requires i <= n
    ensures r.Ok? ==> |r.value| == n - i
    decreases n - i
  {
    if i == n then (if b == [] then Ok([]) else Err(CorruptLog)) else
    var (op, rest) :- DecodeOperation(h, b, i);
    var more :- DecodeOperations(h, rest, i + 1, n);
    Ok([op] + more)
  }

  function DecodePayload(h: Host, b: Octets): (r: Result<Frame>)
  {
    if |b| < 12 then Err(CorruptLog) else
    var sequence := SignedValue(b[..8]);
    var count := Value(b[8..12]);
    if sequence < 0 || count == 0 || count > I32_MAX then Err(CorruptLog) else
    var operations :- DecodeOperations(h, b[12..], 0, count);
    Ok(Frame(sequence, operations))
  }

  lemma OperationRoundTrip(h: Host, op: Operation, i: nat, rest: Octets)
    requires i < I32_MAX && op.proposition.Triple? && Encodable(h, op.proposition)
    ensures DecodeOperation(h, U32(i) + ([ActionCode(op.action)] + (EncodeTerm(h, op.proposition) + rest)), i)
         == Ok((op, rest))
  {
    hide DecodeTerm, EncodeTerm;
    var term := EncodeTerm(h, op.proposition) + rest;
    var b := U32(i) + ([ActionCode(op.action)] + term);
    assert b[..4] == U32(i) && b[4] == ActionCode(op.action) && b[5..] == term;
    TermRoundTrip(h, op.proposition, rest, 0);
  }

  lemma {:induction false} OperationsRoundTrip(h: Host, operations: seq<Operation>, i: nat)
    requires i <= |operations| <= I32_MAX && OperationsEncodable(h, operations)
    ensures DecodeOperations(h, EncodeOperations(h, operations, i), i, |operations|) == Ok(operations[i..])
    decreases |operations| - i
  {
    hide DecodeOperation, EncodeTerm, Encodable;
    if i < |operations| {
      OperationsRoundTrip(h, operations, i + 1);
      OperationRoundTrip(h, operations[i], i, EncodeOperations(h, operations, i + 1));
      assert operations[i..] == [operations[i]] + operations[i + 1..];
    } else {
      assert operations[i..] == [];
    }
  }

  /** What the writer puts in a payload, the reader takes out. */
  lemma PayloadRoundTrip(h: Host, f: Frame)
    requires FrameEncodable(h, f)
    ensures DecodePayload(h, EncodePayload(h, f)) == Ok(f)
  {
    hide DecodeOperations, EncodeOperations, Encodable;
    var b := EncodePayload(h, f);
    var operations := EncodeOperations(h, f.operations, 0);
    assert b[..8] == I64(f.sequence) && b[8..12] == U32(|f.operations|) && b[12..] == operations;
    I64RoundTrip(f.sequence, []);
    OperationsRoundTrip(h, f.operations, 0);
    assert f.operations[0..] == f.operations;
  }

  lemma OperationCanonical(h: Host, b: Octets, i: nat)
    requires i < I32_MAX && DecodeOperation(h, b, i).Ok?
    ensures var (op, rest) := DecodeOperation(h, b, i).value;
      && op.proposition.Triple? && Encodable(h, op.proposition)
      && b == U32(i) + ([ActionCode(op.action)] + (EncodeTerm(h, op.proposition) + rest))
  {
    hide DecodeTerm, EncodeTerm;
    TermCanonical(h, b[5..], 0);
    U32Canonical(b[..4]);
    assert b == b[..4] + ([b[4]] + b[5..]);
  }

  /** `b` spells the operations that follow `before`, and nothing else. */
  lemma {:induction false} OperationsCanonical(h: Host, b: Octets, before: seq<Operation>, n: nat)
    requires |before| <= n <= I32_MAX && OperationsEncodable(h, before)
    requires DecodeOperations(h, b, |before|, n).Ok?
    ensures var all := before + DecodeOperations(h, b, |before|, n).value;
      |all| == n && OperationsEncodable(h, all) && b == EncodeOperations(h, all, |before|)
    decreases n - |before|
  {
    hide DecodeOperation, EncodeTerm, Encodable;
    if |before| < n {
      var (op, rest) := DecodeOperation(h, b, |before|).value;
      OperationCanonical(h, b, |before|);
      OperationsCanonical(h, rest, before + [op], n);
      assert before + DecodeOperations(h, b, |before|, n).value
          == before + [op] + DecodeOperations(h, rest, |before| + 1, n).value;
    }
  }

  /** A payload the reader accepts is the one the writer would have produced. */
  lemma PayloadCanonical(h: Host, b: Octets)
    requires DecodePayload(h, b).Ok?
    ensures var f := DecodePayload(h, b).value;
      FrameEncodable(h, f) && EncodePayload(h, f) == b
  {
    hide DecodeOperations, EncodeOperations, Encodable, I64, U32, SignedValue, Value;
    var count := Value(b[8..12]);
    I64Canonical(b[..8]);
    U32Canonical(b[8..12]);
    OperationsCanonical(h, b[12..], [], count);
    var operations := DecodeOperations(h, b[12..], 0, count).value;
    assert [] + operations == operations;
    assert b == b[..8] + (b[8..12] + b[12..]);
  }
}
