/** History: cutting a log at a sequence, and reading back the frames a store holds. */
module History {
  import opened Bytes
  import opened Terms
  import opened Frames
  import opened FrameLog
  import opened TornTail
  import opened TermStore
  import opened Fence

  /** The frames with sequence at most `upper`. */
  function UpTo(frames: seq<Frame>, upper: int): seq<Frame> {
    if frames == [] then [] else
    (if frames[0].sequence <= upper then [frames[0]] else []) + UpTo(frames[1..], upper)
  }

  predicate Rising(frames: seq<Frame>) {
    forall i, j :: 0 <= i < j < |frames| ==> frames[i].sequence < frames[j].sequence
  }

  // ----- the prefix of a log -----

  /** The last sequence at most `upper`, as a scan of the frames finds it. */
  function LastUpTo(frames: seq<Frame>, upper: int): Option<int> {
    if frames == [] then None else
    var n := |frames| - 1;
    if frames[n].sequence <= upper then Some(frames[n].sequence) else LastUpTo(frames[..n], upper)
  }

  datatype PrefixSource = PrefixSource(space: Octets, sequence: int, valid: nat)

  /** Binds a sequence to the exact octets of the log up to it. */
  function PrefixOf(h: Host, b: Octets, upper: int): Result<PrefixSource> {
    var p :- ParseLog(h, b, false);
    match LastUpTo(p.frames, upper)
    case None => Ok(PrefixSource(p.header.space, 0, p.headerBytes))
    case Some(sequence) =>
      var ends := p.PrefixEnds();
      if sequence !in ends then Err(CorruptLog) else
      Ok(PrefixSource(p.header.space, sequence, ends[sequence]))
  }

  /** How many leading frames have sequence at most `upper`. */
  function CountUpTo(frames: seq<Frame>, upper: int): (k: nat)
    ensures k <= |frames|
  {
    if frames == [] || frames[0].sequence > upper then 0 else 1 + CountUpTo(frames[1..], upper)
  }

  lemma {:induction false} UpToIsPrefix(frames: seq<Frame>, upper: int)
    requires Rising(frames)
    ensures var k := CountUpTo(frames, upper);
      && UpTo(frames, upper) == frames[..k]
      && (forall i :: 0 <= i < k ==> frames[i].sequence <= upper)
      && (forall i :: k <= i < |frames| ==> frames[i].sequence > upper)
  {
    if frames != [] {
      UpToIsPrefix(frames[1..], upper);
      var k := CountUpTo(frames[1..], upper);
      if frames[0].sequence <= upper {
        assert frames[..k + 1] == [frames[0]] + frames[1..][..k];
        forall i | 1 <= i < |frames| ensures frames[i] == frames[1..][i - 1] {}
      } else {
        forall i | 1 <= i < |frames| ensures frames[i].sequence > upper {}
        assert k == 0 by {
          if |frames| > 1 {
            assert frames[1].sequence > upper;
          }
        }
        assert frames[..0] == [] && frames[1..][..0] == [];
      }
    }
  }

  lemma {:induction false} LastUpToIsLast(frames: seq<Frame>, upper: int)
    requires Rising(frames)
    ensures var k := CountUpTo(frames, upper);
      LastUpTo(frames, upper) == if k == 0 then None else Some(frames[k - 1].sequence)
    decreases |frames|
  {
    UpToIsPrefix(frames, upper);
    if frames != [] {
      var n := |frames| - 1;
      UpToIsPrefix(frames[..n], upper);
      if frames[n].sequence > upper {
        LastUpToIsLast(frames[..n], upper);
        CountOfPrefix(frames, n, upper);
      }
    }
  }

  lemma {:induction false} CountOfPrefix(frames: seq<Frame>, n: nat, upper: int)
    requires n < |frames| && frames[n].sequence > upper
    ensures CountUpTo(frames[..n], upper) == CountUpTo(frames, upper)
  {
    if n > 0 && frames[0].sequence <= upper {
      assert frames[..n][1..] == frames[1..][..n - 1];
      CountOfPrefix(frames[1..], n - 1, upper);
    }
  }

  lemma {:induction false} EndsFound(frames: seq<Frame>, ends: seq<nat>, i: nat)
    requires |ends| == |frames| && Rising(frames) && i < |frames|
    ensures frames[i].sequence in EndsBySequence(frames, ends) && EndsBySequence(frames, ends)[frames[i].sequence] == ends[i]
    decreases |frames|
  {
    var n := |frames| - 1;
    if i < n {
      EndsFound(frames[..n], ends[..n], i);
    }
  }

  /** On a log whose sequences rise, the bound octets read clean, as exactly the frames up to the bound. */
  lemma PrefixReadsUpTo(h: Host, b: Octets, upper: int)
    requires ParseLog(h, b, false).Ok? && Rising(ParseLog(h, b, false).value.frames)
    ensures PrefixOf(h, b, upper).Ok? && PrefixOf(h, b, upper).value.valid <= |b|
    ensures var p := ParseLog(h, b, false).value;
      var cut := ParseLog(h, b[..PrefixOf(h, b, upper).value.valid], false);
      && cut.Ok? && cut.value.header == p.header && cut.value.torn == None
      && cut.value.frames == UpTo(p.frames, upper)
      && PrefixOf(h, b, upper).value.sequence == (match LastUpTo(p.frames, upper) case None => 0 case Some(s) => s)
  {
    hide ParseHeader, ScanFrom, EndsBySequence;
    var p := ParseLog(h, b, false).value;
    var k := CountUpTo(p.frames, upper);
    LastUpToIsLast(p.frames, upper);
    UpToIsPrefix(p.frames, upper);
    EndsAscend(h, b);
    if k > 0 {
      EndsFound(p.frames, p.ends, k - 1);
    }
    var c := LastEnd(p.ends[..k], p.headerBytes);
    assert k > 0 ==> c == p.ends[k - 1];
    CutAtEnd(h, b, k);
  }

  lemma EndsAscend(h: Host, b: Octets)
    requires ParseLog(h, b, false).Ok?
    ensures var p := ParseLog(h, b, false).value;
      TornTail.Ascending(p.ends) && p.headerBytes <= |b| && |p.frames| == |p.ends|
      && forall i :: 0 <= i < |p.ends| ==> p.headerBytes < p.ends[i] <= |b|
  {
    var p := ParseLog(h, b, false).value;
    ScanEndsAscend(h, b, p.headerBytes, p.header.deflate);
  }

  /** Cutting at the end of the first `k` frames leaves those frames, clean. */
  lemma CutAtEnd(h: Host, b: Octets, k: nat)
    requires ParseLog(h, b, false).Ok? && k <= |ParseLog(h, b, false).value.frames|
    ensures var p := ParseLog(h, b, false).value;
      var c := LastEnd(p.ends[..k], p.headerBytes);
      && p.headerBytes <= c <= |b|
      && var cut := ParseLog(h, b[..c], false);
         cut.Ok? && cut.value.header == p.header && cut.value.torn == None && cut.value.frames == p.frames[..k]
  {
    hide ParseLog;
    var p := ParseLog(h, b, false).value;
    EndsAscend(h, b);
    var c := LastEnd(p.ends[..k], p.headerBytes);
    CutReadsWholePrefix(h, b, false, c);
    WholeUpTo(p.ends, k, c, p.headerBytes);
  }

  /** Exactly the first `k` ends lie at or before the last of them. */
  lemma {:induction false} WholeUpTo(ends: seq<nat>, k: nat, c: nat, start: nat)
    requires TornTail.Ascending(ends) && k <= |ends| && c == LastEnd(ends[..k], start)
    requires forall i :: 0 <= i < |ends| ==> start < ends[i]
    ensures WholeFrames(ends, c) == k
  {
    WholeFramesSplits(ends, c);
    var w := WholeFrames(ends, c);
    assert k > 0 ==> c == ends[k - 1];
    if 0 <= k < |ends| {
      assert ends[k] > c;
    }
    if 0 <= w < |ends| {
      assert ends[w] > c;
    }
  }

  // ----- the frames a store still holds -----

  /** The transaction recorded at `i`, as the frame that made it. */
  function FrameAt(s: Store, i: nat): Frame
    requires i < |s.transactions| && s.transactions[i].first + s.transactions[i].count <= |s.rows|
  {
    var t := s.transactions[i];
    Frame(t.sequence, seq(t.count, j requires 0 <= j < t.count =>
      Operation(s.rows[t.first + j].action, s.rows[t.first + j].proposition)))
  }

  /** The store's transactions are exactly these frames. */
  ghost predicate Stores(s: Store, fs: seq<Frame>) {
    && |s.transactions| == |fs|
    && forall i :: 0 <= i < |fs| ==>
         s.transactions[i].first + s.transactions[i].count <= |s.rows| && FrameAt(s, i) == fs[i]
  }

  lemma CommitStores(s: Store, fs: seq<Frame>, f: Frame)
    requires Stores(s, fs)
    ensures Stores(Commit(s, f), fs + [f])
  {
    var t := Commit(s, f);
    CommittedTransactions(s, f);
    hide Commit;
    CommitFacts(s, f);
    var n := |fs|;
    forall i | 0 <= i <= n
      ensures t.transactions[i].first + t.transactions[i].count <= |t.rows| && FrameAt(t, i) == (fs + [f])[i]
    {
      if i < n {
        assert t.transactions[i] == s.transactions[i];
        assert FrameAt(t, i).operations == FrameAt(s, i).operations;
      } else {
        assert FrameAt(t, i).operations == f.operations;
      }
    }
  }

  lemma CommittedTransactions(s: Store, f: Frame)
    ensures Commit(s, f).transactions == s.transactions + [TransactionRow(f.sequence, |s.rows|, |f.operations|)]
  {
    ApplyRowsFrame(s.(transactions := s.transactions + [TransactionRow(f.sequence, |s.rows|, |f.operations|)]), RowsOf(f));
  }

  lemma {:induction false} ReplayStores(space: Octets, fs: seq<Frame>)
    requires ReplayAll(NewStore(space), fs).Ok?
    ensures Stores(ReplayAll(NewStore(space), fs).value, fs)
    decreases |fs|
  {
    hide Commit, Stores;
    if fs == [] {
      NewStoreStores(space);
    } else {
      var n := |fs| - 1;
      ReplayStores(space, fs[..n]);
      CommitStores(ReplayAll(NewStore(space), fs[..n]).value, fs[..n], fs[n]);
      assert fs == fs[..n] + [fs[n]];
    }
  }

  lemma NewStoreStores(space: Octets)
    ensures Stores(NewStore(space), [])
  {
  }

  // ----- the frames between two sequences -----

  predicate RisingRows(ts: seq<TransactionRow>) {
    forall i, j :: 0 <= i < j < |ts| ==> ts[i].sequence < ts[j].sequence
  }

  /** The first transaction past a sequence, found by halving. */
  method FirstTransactionAfter(ts: seq<TransactionRow>, sequence: int) returns (low: nat)
    requires RisingRows(ts)
    ensures low <= |ts|
    ensures forall i :: 0 <= i < low ==> ts[i].sequence <= sequence
    ensures forall i :: low <= i < |ts| ==> ts[i].sequence > sequence
  {
    low := 0;
    var high := |ts|;
    while low < high
      invariant low <= high <= |ts|
      invariant forall i :: 0 <= i < low ==> ts[i].sequence <= sequence
      invariant forall i :: high <= i < |ts| ==> ts[i].sequence > sequence
    {
      var middle := (low + high) / 2;
      if ts[middle].sequence <= sequence {
        low := middle + 1;
      } else {
        high := middle;
      }
    }
  }

  lemma StoredRise(s: Store, fs: seq<Frame>)
    requires Stores(s, fs) && Rising(fs)
    ensures RisingRows(s.transactions)
  {
    forall i, j | 0 <= i < j < |fs| ensures s.transactions[i].sequence < s.transactions[j].sequence {
      assert FrameAt(s, i) == fs[i] && FrameAt(s, j) == fs[j];
    }
  }

  /** The store's frames after `lower`, up to `upper`. */
  method TransactionFramesBetween(s: Store, lower: int, upper: int, ghost fs: seq<Frame>) returns (frames: seq<Frame>)
    requires Stores(s, fs) && Rising(fs) && lower <= upper
    ensures UpTo(fs, upper) == UpTo(fs, lower) + frames
  {
    StoredRise(s, fs);
    var first := FirstTransactionAfter(s.transactions, lower);
    var end := FirstTransactionAfter(s.transactions, upper);
    BoundsInOrder(s, fs, lower, upper, first, end);
    frames := [];
    for i := first to end
      invariant frames == fs[first..i]
    {
      frames := frames + [FrameAt(s, i)];
    }
  }

  /** The boundaries of the two bounds come in order, and cut the frames the bounds do. */
  lemma BoundsInOrder(s: Store, fs: seq<Frame>, lower: int, upper: int, first: nat, end: nat)
    requires Stores(s, fs) && Rising(fs) && lower <= upper && first <= |s.transactions| && end <= |s.transactions|
    requires forall i :: 0 <= i < first ==> s.transactions[i].sequence <= lower
    requires forall i :: first <= i < |s.transactions| ==> s.transactions[i].sequence > lower
    requires forall i :: 0 <= i < end ==> s.transactions[i].sequence <= upper
    requires forall i :: end <= i < |s.transactions| ==> s.transactions[i].sequence > upper
    ensures first <= end <= |fs| && UpTo(fs, upper) == UpTo(fs, lower) + fs[first..end]
  {
    assert end < |s.transactions| ==> s.transactions[end].sequence > upper;
    CountIsBoundary(s, fs, lower, first);
    CountIsBoundary(s, fs, upper, end);
    hide Stores, Rising;
    UpToIsPrefix(fs, lower);
    UpToIsPrefix(fs, upper);
    assert fs[..end] == fs[..first] + fs[first..end];
  }

  lemma CountIsBoundary(s: Store, fs: seq<Frame>, upper: int, k: nat)
    requires Stores(s, fs) && Rising(fs) && k <= |s.transactions|
    requires forall i :: 0 <= i < k ==> s.transactions[i].sequence <= upper
    requires forall i :: k <= i < |fs| ==> s.transactions[i].sequence > upper
    ensures CountUpTo(fs, upper) == k
  {
    UpToIsPrefix(fs, upper);
    var c := CountUpTo(fs, upper);
    forall i | 0 <= i < |fs| ensures fs[i].sequence == s.transactions[i].sequence {
      assert FrameAt(s, i) == fs[i];
    }
    if c < |fs| {
      assert fs[c].sequence > upper;
    }
    if k < |fs| {
      assert fs[k].sequence > upper;
    }
  }
}
