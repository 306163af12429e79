/** The native host's log storage, written in chunks, and the limits it derives from a budget. */
module NativeStorage {
  import opened Bytes

  const CHUNK := 8192

  predicate IsOctet(v: int) { 0 <= v <= 255 }

  predicate AllOctets(v: seq<int>) {
    forall i :: 0 <= i < |v| ==> IsOctet(v[i])
  }

  function ToOctets(v: seq<int>): (b: Octets)
    requires AllOctets(v)
    ensures |b| == |v| && forall i :: 0 <= i < |v| ==> b[i] as int == v[i]
  {
    seq(|v|, i requires 0 <= i < |v| => v[i] as octet)
  }

  /** An append-only file. `room` is how many octets it still takes before writing fails, `syncs` how many
      barriers still succeed, and `durable` what the last one that succeeded covered. */
  class Storage {
    var bytes: Octets
    ghost var durable: Octets
    var room: Option<nat>
    var syncs: Option<nat>
    var truncates: bool

    constructor (initial: Octets, room: Option<nat>, syncs: Option<nat>, truncates: bool)
      ensures bytes == initial && this.room == room && this.syncs == syncs && this.truncates == truncates
    {
      bytes, this.room, this.syncs, this.truncates := initial, room, syncs, truncates;
      durable := initial;
    }

    /** Whether a vector can be appended whole. */
    predicate Takes(vector: seq<int>)
      reads this
    {
      AllOctets(vector) && (room.Some? ==> |vector| <= room.value)
    }

    /** Writes the first `count` octets of the buffer, or as many as still fit. */
    method Append(chunk: array<octet>, count: nat) returns (ok: bool)
      requires count <= chunk.Length
      modifies this`bytes, this`room
      ensures (Written(ok, bytes, room)) == WriteOctets(old(bytes), old(room), chunk[..count])
    {
      if room.Some? && room.value < count {
        bytes, room := bytes + chunk[..count][..room.value], Some(0);
        return false;
      }
      bytes := bytes + chunk[..count];
      room := if room.Some? then Some(room.value - count) else None;
      return true;
    }

    method Sync() returns (ok: bool)
      modifies this`syncs, this`durable
      ensures ok <==> old(syncs) != Some(0)
      ensures syncs == if old(syncs).Some? && ok then Some(old(syncs).value - 1) else old(syncs)
      ensures durable == if ok then bytes else old(durable)
    {
      if syncs == Some(0) {
        return false;
      }
      syncs := if syncs.Some? then Some(syncs.value - 1) else None;
      durable := bytes;
      return true;
    }

    method Truncate(length: nat) returns (ok: bool)
      requires length <= |bytes|
      modifies this`bytes
      ensures ok == truncates && bytes == if ok then old(bytes)[..length] else old(bytes)
    {
      if truncates {
        bytes := bytes[..length];
      }
      return truncates;
    }

    /** Appends a vector of words as octets, a chunk at a time; a word that is no octet stops it before its
        chunk is written. It succeeds exactly when the vector can be appended whole, and then it all is there. */
    method AppendVector(vector: seq<int>) returns (ok: bool)
      modifies this`bytes, this`room
      ensures Written(ok, bytes, room) == WriteVector(old(bytes), old(room), vector)
      ensures ok <==> old(Takes(vector))
      ensures ok ==> AllOctets(vector) && bytes == old(bytes) + ToOctets(vector)
      ensures old(bytes) <= bytes
    {
      ghost var k := WriteVectorMeaning(bytes, room, vector);
      WholePrefix(bytes, room, vector, WriteVector(bytes, room, vector), k);
      var chunk := new octet[CHUNK];
      var offset := 0;
      while offset < |vector|
        invariant offset <= |vector|
        invariant WriteVector(old(bytes), old(room), vector) == WriteVector(bytes, room, vector[offset..])
      {
        var count := if |vector| - offset > CHUNK then CHUNK else |vector| - offset;
        ghost var now := vector[offset..];
        assert now[..count] == vector[offset..offset + count];
        var octets := FillChunk(vector, offset, count, chunk);
        if !octets {
          return false;
        }
        var written := Append(chunk, count);
        if !written {
          return false;
        }
        assert now[count..] == vector[offset + count..];
        offset := offset + count;
      }
      return true;
    }
  }

  /** Copies words into the buffer, stopping at the first that is no octet. */
  method FillChunk(vector: seq<int>, offset: nat, count: nat, chunk: array<octet>) returns (ok: bool)
    requires offset + count <= |vector| && count <= chunk.Length
    modifies chunk
    ensures ok == AllOctets(vector[offset..offset + count])
    ensures ok ==> chunk[..count] == ToOctets(vector[offset..offset + count])
  {
    ghost var here := vector[offset..offset + count];
    var index := 0;
    while index < count
      invariant index <= count
      invariant forall j :: 0 <= j < index ==> IsOctet(here[j]) && chunk[j] as int == here[j]
    {
      var value := vector[offset + index];
      assert here[index] == value;
      if value < 0 || value > 255 {
        return false;
      }
      chunk[index] := value as octet;
      index := index + 1;
    }
    assert chunk[..count] == ToOctets(here);
    return true;
  }

  datatype Written = Written(ok: bool, bytes: Octets, room: Option<nat>)

  function WriteOctets(bytes: Octets, room: Option<nat>, b: Octets): Written {
    if room.Some? && room.value < |b| then Written(false, bytes + b[..room.value], Some(0)) else
    Written(true, bytes + b, if room.Some? then Some(room.value - |b|) else None)
  }

  function WriteVector(bytes: Octets, room: Option<nat>, v: seq<int>): Written
    decreases |v|
  {
    if v == [] then Written(true, bytes, room) else
    var count := if |v| > CHUNK then CHUNK else |v|;
    if !AllOctets(v[..count]) then Written(false, bytes, room) else
    var w := WriteOctets(bytes, room, ToOctets(v[..count]));
    if !w.ok then w else WriteVector(w.bytes, w.room, v[count..])
  }

  /** `w` is what appending `v` leaves: its first `k` words, all of them exactly when it succeeds. */
  ghost predicate Appends(bytes: Octets, room: Option<nat>, v: seq<int>, w: Written, k: nat) {
    && k <= |v| && AllOctets(v[..k]) && w.bytes == bytes + ToOctets(v[..k])
    && (w.ok <==> k == |v|) && (w.ok <==> AllOctets(v) && (room.Some? ==> |v| <= room.value))
  }

  /** A chunked append succeeds exactly when every word is an octet and all of them fit, and then the whole
      vector is there; otherwise a proper prefix of it is. */
  lemma {:induction false} WriteVectorMeaning(bytes: Octets, room: Option<nat>, v: seq<int>) returns (k: nat)
    ensures Appends(bytes, room, v, WriteVector(bytes, room, v), k)
    decreases |v|
  {
    var count := if |v| > CHUNK then CHUNK else |v|;
    if v == [] {
      k := 0;
      assert bytes + ToOctets(v[..0]) == bytes;
    } else if !AllOctets(v[..count]) {
      k := 0;
      OctetsSplit(v, count);
      assert bytes + ToOctets(v[..0]) == bytes;
    } else {
      var w := WriteOctets(bytes, room, ToOctets(v[..count]));
      if w.ok {
        var more := WriteVectorMeaning(w.bytes, w.room, v[count..]);
        k := count + more;
        hide Appends, WriteVector;
        ChunkThenRest(bytes, room, v, count, WriteVector(w.bytes, w.room, v[count..]), more);
      } else {
        k := room.value;
        assert v[..k] == v[..count][..k];
        assert ToOctets(v[..count])[..k] == ToOctets(v[..k]);
      }
    }
  }

  /** The words before the first that is no octet, as far as whole chunks of 8192 hold them; all of them if every word
      is an octet. */
  function WholeChunks(v: seq<int>, bad: nat): nat {
    if bad >= |v| then |v| else 8192 * (bad / 8192)
  }

  /** How much of a vector whose first word that is no octet is `bad` gets written: whole chunks before that word, as far
      as they fit. */
  function Reached(room: Option<nat>, v: seq<int>, bad: nat): nat {
    var good := WholeChunks(v, bad);
    if room.Some? && room.value < good then room.value else good
  }

  lemma {:induction false} WrittenLength(bytes: Octets, room: Option<nat>, v: seq<int>, bad: nat)
    requires bad <= |v| && AllOctets(v[..bad]) && (bad < |v| ==> !IsOctet(v[bad]))
    ensures |WriteVector(bytes, room, v).bytes| == |bytes| + Reached(room, v, bad)
    decreases |v|
  {
    var count := if |v| > CHUNK then CHUNK else |v|;
    assert AllOctets(v[..count]) <==> bad >= count by {
      if bad < count {
        assert v[..count][bad] == v[bad];
      } else {
        assert v[..count] == v[..bad][..count];
      }
    }
    ReachedFrom(room, v, bad);
    hide Reached;
    if v != [] && bad >= count {
      assert v[count..][..bad - count] == v[..bad][count..];
      var w := WriteOctets(bytes, room, ToOctets(v[..count]));
      if w.ok {
        WrittenLength(w.bytes, w.room, v[count..], bad - count);
      }
    }
  }

  /** How far an append reaches, chunk by chunk. */
  lemma ReachedFrom(room: Option<nat>, v: seq<int>, bad: nat)
    requires bad <= |v|
    ensures var count := if |v| > CHUNK then CHUNK else |v|;
      if v == [] || bad < count then Reached(room, v, bad) == 0 else
      if room.Some? && room.value < count then Reached(room, v, bad) == room.value else
      Reached(room, v, bad) == count + Reached(if room.Some? then Some(room.value - count) else None, v[count..], bad - count)
  {
    assert bad >= CHUNK ==> (bad - CHUNK) / CHUNK == bad / CHUNK - 1;
  }

  /** An append leaves exactly the words it reached. */
  lemma WritesWholeChunks(bytes: Octets, room: Option<nat>, v: seq<int>, bad: nat)
    requires bad <= |v| && AllOctets(v[..bad]) && (bad < |v| ==> !IsOctet(v[bad]))
    ensures var k := Reached(room, v, bad);
      k <= |v| && AllOctets(v[..k]) && WriteVector(bytes, room, v).bytes == bytes + ToOctets(v[..k])
  {
    hide WriteVector;
    WrittenLength(bytes, room, v, bad);
    var k := WriteVectorMeaning(bytes, room, v);
  }

  lemma WholePrefix(bytes: Octets, room: Option<nat>, v: seq<int>, w: Written, k: nat)
    requires Appends(bytes, room, v, w, k)
    ensures bytes <= w.bytes && (w.ok ==> AllOctets(v) && w.bytes == bytes + ToOctets(v))
    ensures w.ok <==> AllOctets(v) && (room.Some? ==> |v| <= room.value)
  {
    assert v[..|v|] == v;
  }

  lemma ChunkThenRest(bytes: Octets, room: Option<nat>, v: seq<int>, count: nat, w: Written, more: nat)
    requires count <= |v| && AllOctets(v[..count]) && (room.Some? ==> count <= room.value)
    requires Appends(bytes + ToOctets(v[..count]), if room.Some? then Some(room.value - count) else None, v[count..], w, more)
    ensures Appends(bytes, room, v, w, count + more)
  {
    var first, rest := v[..count], v[count..];
    assert v[..count + more] == first + rest[..more];
    OctetsJoin(first, rest[..more], v[..count + more]);
    OctetsSplit(v, count);
    assert (bytes + ToOctets(first)) + ToOctets(rest[..more]) == bytes + (ToOctets(first) + ToOctets(rest[..more]));
  }

  lemma OctetsJoin(a: seq<int>, b: seq<int>, v: seq<int>)
    requires v == a + b && AllOctets(a) && AllOctets(b)
    ensures AllOctets(v) && ToOctets(v) == ToOctets(a) + ToOctets(b)
  {
  }

  lemma OctetsSplit(v: seq<int>, n: nat)
    requires n <= |v|
    ensures AllOctets(v) <==> AllOctets(v[..n]) && AllOctets(v[n..])
  {
    if AllOctets(v[..n]) && AllOctets(v[n..]) {
      forall i | 0 <= i < |v| ensures IsOctet(v[i]) {
        assert i < n ==> v[i] == v[..n][i];
        assert i >= n ==> v[i] == v[n..][i - n];
      }
    }
  }

  // ----- limits -----

  const KIB := 1024
  const MIB := 1024 * 1024

  datatype Limits = Limits(growth: nat, generations: nat, increment: nat)

  function Clamp(n: nat, low: nat, high: nat): nat {
    if n < low then low else if n > high then high else n
  }

  const DEFAULTS := Limits(64 * KIB, 256, 64 * MIB)

  /** The limits a memory budget implies; zero means no budget was named. */
  function DeriveLimits(budget: nat): Limits {
    if budget == 0 then DEFAULTS else
    Limits(Clamp(budget / 1024, 16 * KIB, 8 * MIB), Clamp(budget / MIB, 8, 256), Clamp(budget / 4, MIB, 64 * MIB))
  }

  /** The limits without a budget, the bounds of those a budget implies, and what they are between their bounds. */
  lemma LimitsAre(budget: nat)
    ensures DeriveLimits(0) == Limits(65536, 256, 67108864)
    ensures budget > 0 ==> var l := DeriveLimits(budget);
      && 16384 <= l.growth <= 8388608 && 8 <= l.generations <= 256 && 1048576 <= l.increment <= 67108864
      && (16384 <= budget / 1024 <= 8388608 ==> l.growth == budget / 1024)
      && (8 <= budget / 1048576 <= 256 ==> l.generations == budget / 1048576)
      && (1048576 <= budget / 4 <= 67108864 ==> l.increment == budget / 4)
  {
  }

  /** A larger budget never lowers a limit. */
  lemma LimitsRise(less: nat, more: nat)
    requires 0 < less <= more
    ensures var a, b := DeriveLimits(less), DeriveLimits(more);
      a.growth <= b.growth && a.generations <= b.generations && a.increment <= b.increment
  {
    assert less / 1024 <= more / 1024 && less / MIB <= more / MIB && less / 4 <= more / 4;
  }
}
