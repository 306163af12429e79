/** Historical roots: a query checkpoint bound to the octets it was made from, and the replay that starts
    from the newest one the present log still vouches for. */
module Checkpoints {
  import opened Bytes
  import opened Terms
  import opened Frames
  import opened FrameLog
  import opened TornTail
  import opened RoundTrip
  import opened TermStore
  import opened Fence
  import opened History
  import opened BranchText
  import opened Branches
  import opened Forks

  const RETAINED := 4

  // ----- dumping a store and restoring it -----

  /** What a dump keeps of a store: its history, without the indexes that follow from it. */
  datatype Dump = Dump(space: Octets, next: int, transactions: seq<TransactionRow>, rows: seq<Row>)

  function DumpOf(s: Store): Dump { Dump(s.space, s.next, s.transactions, s.rows) }

  /** The rows of transaction `i` carry its sequence and are numbered from 0. */
  predicate ValidSlice(d: Dump, t: TransactionRow) {
    && t.count > 0 && t.first + t.count <= |d.rows|
    && forall p :: t.first <= p < t.first + t.count ==>
         d.rows[p].sequence == t.sequence && d.rows[p].ordinal == p - t.first && d.rows[p].proposition.Triple?
  }

  /** Transaction `i` comes after the one before it and covers the rows that follow it. */
  predicate InOrder(d: Dump, i: nat)
    requires i < |d.transactions|
  {
    && d.transactions[i].sequence > (if i == 0 then -1 else d.transactions[i - 1].sequence)
    && d.transactions[i].first == if i == 0 then 0 else d.transactions[i - 1].first + d.transactions[i - 1].count
  }

  /** What restoring checks of a dump: transactions that rise, cover the rows end to end, and lead up to the
      next sequence. */
  predicate ValidHistory(d: Dump) {
    var n := |d.transactions|;
    && (forall i :: 0 <= i < n ==> ValidSlice(d, d.transactions[i]))
    && (forall i: nat :: i < n ==> InOrder(d, i))
    && |d.rows| == (if n == 0 then 0 else d.transactions[n - 1].first + d.transactions[n - 1].count)
    && d.next == (if n == 0 then 1 else d.transactions[n - 1].sequence + 1)
  }

  /** Rebuilds the live stacks and withdrawal targets by applying every row again. */
  function Rebuilt(d: Dump): Store {
    ApplyRows(NewStore(d.space).(transactions := d.transactions, next := d.next), d.rows)
  }

  function Restore(space: Octets, d: Dump): Option<Store> {
    if d.space == [] || d.next < 1 || !ValidHistory(d) || d.space != space then None else Some(Rebuilt(d))
  }

  lemma {:induction false} ApplyRowsIgnores(s: Store, ts: seq<TransactionRow>, next: int, rows: seq<Row>)
    ensures ApplyRows(s.(transactions := ts, next := next), rows) == ApplyRows(s, rows).(transactions := ts, next := next)
    decreases |rows|
  {
    if rows != [] {
      ApplyRowsIgnores(s, ts, next, rows[..|rows| - 1]);
    }
  }

  lemma CommitRebuilds(s: Store, f: Frame)
    requires s == Rebuilt(DumpOf(s))
    ensures Commit(s, f) == Rebuilt(DumpOf(Commit(s, f)))
  {
    hide ApplyRows;
    var rows, t := RowsOf(f), Commit(s, f);
    var ts := s.transactions + [TransactionRow(f.sequence, |s.rows|, |f.operations|)];
    var fresh_ := NewStore(s.space);
    CommitFacts(s, f);
    CommittedTransactions(s, f);
    ApplyRowsIgnores(fresh_, s.transactions, s.next, s.rows);
    ApplyRowsIgnores(fresh_, ts, f.sequence + 1, s.rows + rows);
    ApplyRowsConcat(fresh_, s.rows, rows);
    var base := ApplyRows(fresh_, s.rows);
    ApplyRowsIgnores(base, ts, s.next, rows);
  }

  lemma CommitKeepsHistory(s: Store, f: Frame)
    requires ValidHistory(DumpOf(s)) && ValidOperations(f.operations)
    requires f.sequence >= 0 && (s.transactions != [] ==> f.sequence >= s.next)
    ensures ValidHistory(DumpOf(Commit(s, f)))
  {
    CommitFacts(s, f);
    CommittedTransactions(s, f);
    hide Commit;
    GrownHistory(DumpOf(s), DumpOf(Commit(s, f)), f);
  }

  lemma GrownHistory(d: Dump, e: Dump, f: Frame)
    requires ValidHistory(d) && ValidOperations(f.operations) && e.next == f.sequence + 1
    requires f.sequence >= 0 && (d.transactions != [] ==> f.sequence >= d.next)
    requires e.transactions == d.transactions + [TransactionRow(f.sequence, |d.rows|, |f.operations|)]
    requires e.rows == d.rows + RowsOf(f)
    ensures ValidHistory(e)
  {
    var n := |d.transactions|;
    forall i | 0 <= i <= n ensures ValidSlice(e, e.transactions[i]) {
      if i < n {
        assert e.transactions[i] == d.transactions[i];
        SliceGrows(d, e, d.transactions[i]);
      } else {
        NewSlice(d, e, f);
      }
    }
    hide ValidSlice, RowsOf;
    assert |RowsOf(f)| == |f.operations|;
    forall i: nat | i <= n ensures InOrder(e, i) {
      NextInOrder(d, e, f, i);
    }
    assert e.transactions[|e.transactions| - 1] == TransactionRow(f.sequence, |d.rows|, |f.operations|);
  }

  lemma NextInOrder(d: Dump, e: Dump, f: Frame, i: nat)
    requires ValidHistory(d) && i <= |d.transactions|
    requires f.sequence >= 0 && (d.transactions != [] ==> f.sequence >= d.next)
    requires e.transactions == d.transactions + [TransactionRow(f.sequence, |d.rows|, |f.operations|)]
    ensures InOrder(e, i)
  {
    hide ValidSlice;
    assert i > 0 ==> e.transactions[i - 1] == d.transactions[i - 1];
    assert i < |d.transactions| ==> e.transactions[i] == d.transactions[i] && InOrder(d, i);
  }

  lemma SliceGrows(d: Dump, e: Dump, t: TransactionRow)
    requires ValidSlice(d, t) && d.rows <= e.rows
    ensures ValidSlice(e, t)
  {
  }

  lemma NewSlice(d: Dump, e: Dump, f: Frame)
    requires e.rows == d.rows + RowsOf(f) && ValidOperations(f.operations)
    ensures ValidSlice(e, TransactionRow(f.sequence, |d.rows|, |f.operations|))
  {
    forall p | |d.rows| <= p < |e.rows| ensures e.rows[p] == RowsOf(f)[p - |d.rows|] {
    }
  }

  /** Dumping a replayed store and restoring the dump gives that store back. */
  lemma {:induction false} DumpRestores(space: Octets, fs: seq<Frame>)
    requires space != [] && ReplayAll(NewStore(space), fs).Ok?
    ensures var s := ReplayAll(NewStore(space), fs).value;
      && s.next >= 1 && s.space == space && ValidHistory(DumpOf(s)) && s == Rebuilt(DumpOf(s))
      && Restore(space, DumpOf(s)) == Some(s)
    decreases |fs|
  {
    hide Commit, ValidHistory, Rebuilt;
    if fs == [] {
      NewDumpRestores(space);
    } else {
      var n := |fs| - 1;
      DumpRestores(space, fs[..n]);
      var before := ReplayAll(NewStore(space), fs[..n]).value;
      CommitRebuilds(before, fs[n]);
      CommitKeepsHistory(before, fs[n]);
      CommitFacts(before, fs[n]);
    }
  }

  lemma NewDumpRestores(space: Octets)
    ensures ValidHistory(DumpOf(NewStore(space))) && NewStore(space) == Rebuilt(DumpOf(NewStore(space)))
  {
  }

  // ----- binding a checkpoint to the log -----

  /** The exact prefix of the log a checkpoint was made from. */
  datatype Binding = Binding(space: Octets, fingerprint: string, valid: nat)

  /** The binding of the prefix up to a version, and the sequence that prefix ends at. */
  function SourceOf(h: Host, digest: Digest, b: Octets, version: int): Result<(Binding, int)> {
    var source :- PrefixOf(h, b, version);
    if source.valid > |b| then Err(CorruptLog) else
    Ok((Binding(source.space, digest(b[..source.valid]), source.valid), source.sequence))
  }

  datatype Checkpoint = Checkpoint(binding: Binding, image: Dump)

  /** A checkpoint file: whole, or with octets that fail its checksum. */
  datatype File = Whole(checkpoint: Checkpoint) | Damaged

  /** The checkpoint files by the version in their names. */
  type Directory = map<int, File>

  /** Opens a file under the binding the present log has at that version; the restored root must end where
      the present prefix ends. */
  function Accepts(h: Host, digest: Digest, space: Octets, b: Octets, version: int, file: File): Option<Store> {
    match SourceOf(h, digest, b, version)
    case Err(_) => None
    case Ok((binding, sequence)) =>
      if file.Damaged? || file.checkpoint.binding != binding then None else
      match Restore(space, file.checkpoint.image)
      case None => None
      case Some(root) => if sequence == root.next - 1 then Some(root) else None
  }

  /** The newest file up to `upper` that is accepted. */
  function LoadCheckpoint(h: Host, digest: Digest, space: Octets, b: Octets, files: Directory, upper: int): Option<Store>
    decreases upper + 1
  {
    if upper < 0 then None else
    if upper in files && Accepts(h, digest, space, b, upper, files[upper]).Some?
    then Accepts(h, digest, space, b, upper, files[upper])
    else LoadCheckpoint(h, digest, space, b, files, upper - 1)
  }

  /** Keeps the newest few files. */
  function Pruned(files: Directory): Directory {
    map v | v in files && |set w | w in files && w > v| < RETAINED :: files[v]
  }

  /** Writes the root at a version, bound to the log as it is now. */
  function WriteCheckpoint(h: Host, digest: Digest, b: Octets, interval: nat, version: int, root: Store, files: Directory): Directory
    requires interval > 0
  {
    if version <= 0 || version % interval != 0 then files else
    match SourceOf(h, digest, b, version)
    case Err(_) => files
    case Ok((binding, _)) =>
      if Restore(binding.space, DumpOf(root)).None? then files else
      Pruned(files[version := Whole(Checkpoint(binding, DumpOf(root)))])
  }

  // ----- what acceptance proves -----

  /** The log reads, in this space, as frames that replay. */
  ghost predicate Sound(h: Host, space: Octets, b: Octets) {
    && ParseLog(h, b, false).Ok? && ParseLog(h, b, false).value.header.space == space
    && ReplayAll(NewStore(space), ParseLog(h, b, false).value.frames).Ok?
  }

  function FramesOf(h: Host, b: Octets): seq<Frame> {
    match ParseLog(h, b, false) case Ok(p) => p.frames case Err(_) => []
  }

  /** The checkpoint was made at `version` from log `b`, when its root was the replay of that prefix. */
  ghost predicate WrittenFrom(h: Host, digest: Digest, space: Octets, b: Octets, version: int, c: Checkpoint) {
    && Sound(h, space, b)
    && SourceOf(h, digest, b, version).Ok? && SourceOf(h, digest, b, version).value.0 == c.binding
    && exists root :: c.image == DumpOf(root) && ReplayAll(NewStore(space), UpTo(FramesOf(h, b), version)) == Ok(root)
  }

  ghost predicate CollisionFree(digest: Digest) {
    forall a: Octets, b: Octets :: digest(a) == digest(b) ==> a == b
  }

  lemma SoundRises(h: Host, space: Octets, b: Octets)
    requires Sound(h, space, b)
    ensures Rising(FramesOf(h, b)) && forall i :: 0 <= i < |FramesOf(h, b)| ==> FramesOf(h, b)[i].sequence >= 1
  {
    hide ParseLog, ReplayAll;
    ReplayAscends(NewStore(space), FramesOf(h, b));
  }

  /** A source always exists for a log that replays, and its octets read as the frames up to the version. */
  lemma SourceReads(h: Host, digest: Digest, space: Octets, b: Octets, version: int)
    requires Sound(h, space, b)
    ensures SourceOf(h, digest, b, version).Ok?
    ensures var (binding, sequence) := SourceOf(h, digest, b, version).value;
      && binding.valid <= |b| && binding == Binding(space, digest(b[..binding.valid]), binding.valid)
      && FramesOf(h, b[..binding.valid]) == UpTo(FramesOf(h, b), version)
      && sequence == LastSequence(UpTo(FramesOf(h, b), version))
  {
    hide ParseLog, ReplayAll;
    SoundRises(h, space, b);
    PrefixReadsUpTo(h, b, version);
    PrefixSpace(h, b, version);
    LastUpToIsLast(FramesOf(h, b), version);
    UpToIsPrefix(FramesOf(h, b), version);
  }

  lemma PrefixSpace(h: Host, b: Octets, version: int)
    requires PrefixOf(h, b, version).Ok?
    ensures ParseLog(h, b, false).Ok? && PrefixOf(h, b, version).value.space == ParseLog(h, b, false).value.header.space
  {
    hide ParseLog;
  }

  /** Whatever has happened to the log since a checkpoint was written, if the present log still vouches for
      it then the restored root is the replay of the present frames up to its version. The test of the
      sequence refuses nothing the binding lets through. */
  lemma AcceptedIsReplay(h: Host, digest: Digest, space: Octets, was: Octets, now: Octets, version: int, c: Checkpoint)
    requires space != [] && CollisionFree(digest)
    requires WrittenFrom(h, digest, space, was, version, c) && Sound(h, space, now)
    ensures var r := Accepts(h, digest, space, now, version, Whole(c));
      && SourceOf(h, digest, now, version).Ok?
      && (r.Some? <==> SourceOf(h, digest, now, version).value.0 == c.binding)
      && (r.Some? ==> ReplayAll(NewStore(space), UpTo(FramesOf(h, now), version)) == Ok(r.value))
  {
    hide SourceOf, FramesOf, Sound, ReplayAll, Restore, CollisionFree;
    SourceReads(h, digest, space, was, version);
    SourceReads(h, digest, space, now, version);
    var root :| c.image == DumpOf(root) && ReplayAll(NewStore(space), UpTo(FramesOf(h, was), version)) == Ok(root);
    DumpRestores(space, UpTo(FramesOf(h, was), version));
    if SourceOf(h, digest, now, version).value.0 == c.binding {
      SameOctets(digest, was[..c.binding.valid], now[..c.binding.valid]);
      LastIsNext(space, UpTo(FramesOf(h, was), version));
    }
  }

  lemma SameOctets(digest: Digest, a: Octets, b: Octets)
    requires CollisionFree(digest) && digest(a) == digest(b)
    ensures a == b
  {
  }

  /** A checkpoint stays accepted by every log that keeps the whole frames of the one it was written from:
      one that was repaired, appended to, or both. */
  lemma StillAccepted(h: Host, digest: Digest, space: Octets, was: Octets, now: Octets, version: int, c: Checkpoint)
    requires space != [] && CollisionFree(digest)
    requires WrittenFrom(h, digest, space, was, version, c) && Sound(h, space, now)
    requires ParseLog(h, was, false).value.ValidBytes() <= |was| && was[..ParseLog(h, was, false).value.ValidBytes()] <= now
    requires FramesOf(h, was) != [] && version <= LastSequence(FramesOf(h, was))
    ensures Accepts(h, digest, space, now, version, Whole(c)).Some?
  {
    AcceptedIsReplay(h, digest, space, was, now, version, c);
    SamePrefix(h, space, was, now, version);
  }

  lemma SamePrefix(h: Host, space: Octets, was: Octets, now: Octets, version: int)
    requires Sound(h, space, was) && Sound(h, space, now)
    requires ParseLog(h, was, false).value.ValidBytes() <= |was| && was[..ParseLog(h, was, false).value.ValidBytes()] <= now
    requires FramesOf(h, was) != [] && version <= LastSequence(FramesOf(h, was))
    ensures PrefixOf(h, was, version) == PrefixOf(h, now, version)
    ensures PrefixOf(h, was, version).Ok? && var n := PrefixOf(h, was, version).value.valid; n <= |was| && n <= |now| && was[..n] == now[..n]
  {
    hide ParseLog, ReplayAll, PrefixOf;
    var p, q := ParseLog(h, was, false).value, ParseLog(h, now, false).value;
    SoundRises(h, space, was);
    SoundRises(h, space, now);
    SameEnds(h, was, now);
    SameBoundary(p.frames, q.frames, version);
    PrefixAt(h, was, version);
    PrefixAt(h, now, version);
    var k, c := CountUpTo(p.frames, version), p.ValidBytes();
    assert p.ends[..k] == q.ends[..k];
    EndsAscend(h, was);
    var n := LastEnd(p.ends[..k], p.headerBytes);
    ShorterPrefix(was, now, c, n);
  }

  lemma ShorterPrefix(was: Octets, now: Octets, c: nat, n: nat)
    requires n <= c <= |was| && was[..c] <= now
    ensures n <= |now| && was[..n] == now[..n]
  {
    assert now[..c][..n] == now[..n] && was[..c][..n] == was[..n];
  }

  /** The source of a rising log, by the number of frames it keeps. */
  lemma PrefixAt(h: Host, b: Octets, version: int)
    requires ParseLog(h, b, false).Ok? && Rising(ParseLog(h, b, false).value.frames)
    ensures var p := ParseLog(h, b, false).value;
      var k := CountUpTo(p.frames, version);
      && |p.ends| == |p.frames|
      && PrefixOf(h, b, version) == Ok(PrefixSource(p.header.space, if k == 0 then 0 else p.frames[k - 1].sequence,
           LastEnd(p.ends[..k], p.headerBytes)))
  {
    hide ParseLog, EndsBySequence;
    var p := ParseLog(h, b, false).value;
    EndsAscend(h, b);
    LastUpToIsLast(p.frames, version);
    var k := CountUpTo(p.frames, version);
    if k > 0 {
      EndsFound(p.frames, p.ends, k - 1);
    }
  }

  /** The log that keeps the whole frames of another reads as those frames first, ending where they did. */
  lemma SameEnds(h: Host, was: Octets, now: Octets)
    requires ParseLog(h, was, false).Ok? && ParseLog(h, now, false).Ok?
    requires ParseLog(h, was, false).value.ValidBytes() <= |was| && was[..ParseLog(h, was, false).value.ValidBytes()] <= now
    ensures var p, q := ParseLog(h, was, false).value, ParseLog(h, now, false).value;
      && p.frames <= q.frames && p.ends <= q.ends && q.headerBytes == p.headerBytes && q.header == p.header
      && |p.frames| == |p.ends| && |q.frames| == |q.ends|
      && (p.ends != [] ==> p.ValidBytes() == p.ends[|p.ends| - 1]) && p.headerBytes <= p.ValidBytes()
  {
    hide ParseLog;
    var p, q := ParseLog(h, was, false).value, ParseLog(h, now, false).value;
    var c := p.ValidBytes();
    EndsAscend(h, was);
    EndsAscend(h, now);
    RepairReadsClean(h, was, false);
    assert now[..c] == was[..c];
    HeaderFits(h, was, now, c);
    CutReadsWholePrefix(h, now, false, c);
  }

  /** A log that begins with the whole of another starts with its header. */
  lemma HeaderFits(h: Host, was: Octets, now: Octets, c: nat)
    requires ParseLog(h, was, false).Ok? && ParseLog(h, now, false).Ok? && c <= |was| && c <= |now| && was[..c] == now[..c]
    requires ParseLog(h, was, false).value.headerBytes <= c
    ensures ParseLog(h, now, false).value.headerBytes <= c
    ensures ParseLog(h, now, false).value.headerBytes == ParseLog(h, was, false).value.headerBytes
  {
    hide ScanFrom, ParseHeader;
    ParseHeaderCut(h, was, false, c);
    HeaderUnderSuffix(h, was[..c], now[c..], false);
    assert was[..c] + now[c..] == now;
  }

  lemma SameBoundary(fs: seq<Frame>, more: seq<Frame>, version: int)
    requires fs <= more && Rising(more) && fs != [] && version <= LastSequence(fs)
    ensures CountUpTo(more, version) == CountUpTo(fs, version) && UpTo(more, version) == UpTo(fs, version)
  {
    assert Rising(fs);
    UpToIsPrefix(fs, version);
    UpToIsPrefix(more, version);
    var k, m := CountUpTo(fs, version), CountUpTo(more, version);
    assert k < |fs| ==> more[k] == fs[k];
    assert m < |fs| ==> more[m] == fs[m];
    assert forall i :: |fs| <= i < |more| ==> more[i].sequence > more[|fs| - 1].sequence;
  }

  // ----- the directory over its life -----

  /** Every whole file was written from some log, when that log replayed to the root it holds. */
  ghost predicate Genuine(h: Host, digest: Digest, space: Octets, files: Directory) {
    forall v :: v in files && files[v].Whole? ==> exists b :: WrittenFrom(h, digest, space, b, v, files[v].checkpoint)
  }

  /** Writing keeps the directory genuine, as does losing or damaging any of its files. */
  lemma WriteKeepsGenuine(h: Host, digest: Digest, space: Octets, b: Octets, interval: nat, version: int, root: Store, files: Directory)
    requires interval > 0 && Genuine(h, digest, space, files) && Sound(h, space, b)
    requires ReplayAll(NewStore(space), UpTo(FramesOf(h, b), version)) == Ok(root)
    ensures Genuine(h, digest, space, WriteCheckpoint(h, digest, b, interval, version, root, files))
  {
    hide SourceOf, FramesOf, Sound, ReplayAll, Restore;
    SourceReads(h, digest, space, b, version);
    var c := Checkpoint(SourceOf(h, digest, b, version).value.0, DumpOf(root));
    assert WrittenFrom(h, digest, space, b, version, c);
  }

  lemma LossKeepsGenuine(h: Host, digest: Digest, space: Octets, files: Directory, left: Directory)
    requires Genuine(h, digest, space, files)
    requires forall v :: v in left ==> left[v].Damaged? || (v in files && left[v] == files[v])
    ensures Genuine(h, digest, space, left)
  {
  }

  /** Whatever a genuine directory offers is the replay of the present frames up to some version. */
  lemma {:induction false} LoadedIsReplay(h: Host, digest: Digest, space: Octets, b: Octets, files: Directory, upper: int)
    requires space != [] && CollisionFree(digest) && Genuine(h, digest, space, files) && Sound(h, space, b)
    ensures LoadCheckpoint(h, digest, space, b, files, upper).Some? ==>
      ReplaysSome(space, FramesOf(h, b), upper, LoadCheckpoint(h, digest, space, b, files, upper).value)
    decreases upper + 1
  {
    hide Accepts, ReplayAll, Sound, CollisionFree, WrittenFrom;
    if upper >= 0 {
      LoadedIsReplay(h, digest, space, b, files, upper - 1);
      if upper in files && Accepts(h, digest, space, b, upper, files[upper]).Some? {
        NotDamaged(h, digest, space, b, upper, files[upper]);
        var was :| WrittenFrom(h, digest, space, was, upper, files[upper].checkpoint);
        AcceptedIsReplay(h, digest, space, was, b, upper, files[upper].checkpoint);
      }
    }
  }

  lemma NotDamaged(h: Host, digest: Digest, space: Octets, b: Octets, version: int, file: File)
    requires Accepts(h, digest, space, b, version, file).Some?
    ensures file == Whole(file.checkpoint)
  {
  }

  // ----- historical roots -----

  /** `base` is the replay of the frames up to some version no later than `upper`. */
  ghost predicate ReplaysSome(space: Octets, fs: seq<Frame>, upper: int, base: Store) {
    exists v :: v <= upper && ReplayAll(NewStore(space), UpTo(fs, v)) == Ok(base)
  }

  /** Such a root covers what its own last sequence says. */
  lemma CoversItsOwn(space: Octets, fs: seq<Frame>, version: int, base: Store)
    requires ReplayAll(NewStore(space), fs).Ok? && ReplaysSome(space, fs, version, base)
    ensures Rising(fs) && (version >= 0 ==> base.next - 1 <= version)
    ensures ReplayAll(NewStore(space), UpTo(fs, base.next - 1)) == Ok(base)
  {
    hide ReplayAll;
    ReplayAscends(NewStore(space), fs);
    var v :| v <= version && ReplayAll(NewStore(space), UpTo(fs, v)) == Ok(base);
    UpToIsPrefix(fs, v);
    var k := CountUpTo(fs, v);
    LastIsNext(space, UpTo(fs, v));
    UpToIsPrefix(fs, base.next - 1);
    SameCount(fs, v, base.next - 1);
  }

  /** A replay's next sequence is one past its last frame. */
  lemma LastIsNext(space: Octets, fs: seq<Frame>)
    requires ReplayAll(NewStore(space), fs).Ok?
    ensures ReplayAll(NewStore(space), fs).value.next == if fs == [] then 1 else fs[|fs| - 1].sequence + 1
  {
    hide Commit;
    if fs != [] {
      CommitFacts(ReplayAll(NewStore(space), fs[..|fs| - 1]).value, fs[|fs| - 1]);
    }
  }

  /** Bounding by the last sequence kept keeps the same frames. */
  lemma SameCount(fs: seq<Frame>, v: int, last: int)
    requires Rising(fs) && forall i :: 0 <= i < |fs| ==> fs[i].sequence >= 1
    requires var k := CountUpTo(fs, v); last == if k == 0 then 0 else fs[k - 1].sequence
    ensures UpTo(fs, last) == UpTo(fs, v)
  {
    UpToIsPrefix(fs, v);
    UpToIsPrefix(fs, last);
    var k, c := CountUpTo(fs, v), CountUpTo(fs, last);
    if c < |fs| {
      assert fs[c].sequence > last;
    }
    if k < |fs| {
      assert fs[k].sequence > v;
    }
  }

  /** The store at an earlier version: the head itself, or the newest checkpoint the log vouches for with the
      frames after it replayed. The result is checkpointed in its turn. The log may have grown past the head. */
  method ReplayedRoot(h: Host, digest: Digest, head: Store, version: int, log: Option<Octets>, interval: nat, files: Directory,
                      ghost fs: seq<Frame>)
    returns (r: Result<Store>, left: Directory)
    requires interval > 0 && head.space != [] && CollisionFree(digest) && Genuine(h, digest, head.space, files)
    requires ReplayAll(NewStore(head.space), fs) == Ok(head)
    requires log.Some? ==> Sound(h, head.space, log.value) && fs <= FramesOf(h, log.value)
    ensures r.Err? <==> version < 0 || version > head.Current()
    ensures r.Ok? ==> r == ReplayAll(NewStore(head.space), UpTo(fs, version))
    ensures left == if r.Err? || version == head.Current() || log.None? then files
                    else WriteCheckpoint(h, digest, log.value, interval, version, r.value, files)
    ensures Genuine(h, digest, head.space, left)
  {
    hide ReplayFrame, Commit, Stores, ReplaysSome, Genuine, Sound, FramesOf, WriteCheckpoint, CollisionFree;
    left := files;
    ReplayAscends(NewStore(head.space), fs);
    if version < 0 || version > head.Current() {
      return Err(InvalidSnapshot), left;
    }
    if version == head.Current() {
      AllUpTo(fs, version);
      return Ok(head), left;
    }
    var base: Option<Store> := None;
    if log.Some? {
      base := LoadCheckpoint(h, digest, head.space, log.value, files, version);
      LoadedIsReplay(h, digest, head.space, log.value, files, version);
      PresentCovers(h, head.space, fs, log.value, version, base);
    }
    var context := if base.Some? then base.value else NewStore(head.space);
    ReplayStores(head.space, fs);
    StartsAt(head.space, fs, version, base);
    var lower := context.next - 1;
    var frames := TransactionFramesBetween(head, lower, version, fs);
    ReplayConcat(NewStore(head.space), UpTo(fs, lower), frames);
    PrefixReplays(head.space, fs, version);
    var root := ReplayFrames(context, frames);
    if log.Some? {
      PresentPrefix(h, head.space, fs, log.value, version);
      WriteKeepsGenuine(h, digest, head.space, log.value, interval, version, root, files);
      left := WriteCheckpoint(h, digest, log.value, interval, version, root, files);
    }
    return Ok(root), left;
  }

  /** Replays frames one by one onto a root. */
  method ReplayFrames(context: Store, frames: seq<Frame>) returns (root: Store)
    requires ReplayAll(context, frames).Ok?
    ensures ReplayAll(context, frames) == Ok(root)
  {
    hide ReplayFrame;
    root := context;
    for i := 0 to |frames|
      invariant ReplayAll(context, frames[..i]) == Ok(root)
    {
      assert frames[..i + 1][..i] == frames[..i];
      ReplayPrefix(context, frames, i + 1);
      var next := ReplayFrame(root, frames[i]);
      root := next.value;
    }
    assert frames[..|frames|] == frames;
  }

  /** The frames up to a version of the head are the same in memory and in the log. */
  lemma PresentPrefix(h: Host, space: Octets, fs: seq<Frame>, b: Octets, version: int)
    requires ReplayAll(NewStore(space), fs).Ok? && Sound(h, space, b) && fs <= FramesOf(h, b)
    requires version < ReplayAll(NewStore(space), fs).value.next
    ensures version >= 1 ==> UpTo(FramesOf(h, b), version) == UpTo(fs, version)
    ensures version < 1 ==> UpTo(FramesOf(h, b), version) == [] == UpTo(fs, version)
  {
    hide FramesOf, Sound, ReplayAll;
    SoundRises(h, space, b);
    ReplayAscends(NewStore(space), fs);
    LastIsNext(space, fs);
    if fs != [] {
      SameBoundary(fs, FramesOf(h, b), version);
    }
    if version < 1 {
      NothingUpTo(fs, version);
      NothingUpTo(FramesOf(h, b), version);
    }
  }

  lemma {:induction false} NothingUpTo(fs: seq<Frame>, version: int)
    requires forall i :: 0 <= i < |fs| ==> fs[i].sequence > version
    ensures UpTo(fs, version) == []
  {
    if fs != [] {
      NothingUpTo(fs[1..], version);
    }
  }

  lemma PresentCovers(h: Host, space: Octets, fs: seq<Frame>, b: Octets, version: int, base: Option<Store>)
    requires ReplayAll(NewStore(space), fs).Ok? && Sound(h, space, b) && fs <= FramesOf(h, b)
    requires version < ReplayAll(NewStore(space), fs).value.next
    requires base.Some? ==> ReplaysSome(space, FramesOf(h, b), version, base.value)
    ensures base.Some? ==> ReplaysSome(space, fs, version, base.value)
  {
    hide FramesOf, Sound, ReplayAll;
    if base.Some? {
      var v :| v <= version && ReplayAll(NewStore(space), UpTo(FramesOf(h, b), v)) == Ok(base.value);
      PresentPrefix(h, space, fs, b, v);
    }
  }

  lemma {:induction false} AllUpTo(fs: seq<Frame>, upper: int)
    requires forall i :: 0 <= i < |fs| ==> fs[i].sequence <= upper
    ensures UpTo(fs, upper) == fs
  {
    if fs != [] {
      AllUpTo(fs[1..], upper);
    }
  }

  lemma PrefixReplays(space: Octets, fs: seq<Frame>, version: int)
    requires ReplayAll(NewStore(space), fs).Ok?
    ensures ReplayAll(NewStore(space), UpTo(fs, version)).Ok?
  {
    hide ReplayAll;
    ReplayAscends(NewStore(space), fs);
    UpToIsPrefix(fs, version);
    ReplayPrefix(NewStore(space), fs, CountUpTo(fs, version));
  }

  /** Where the replay starts: at no frames, or at what the checkpoint covers. */
  lemma StartsAt(space: Octets, fs: seq<Frame>, version: int, base: Option<Store>)
    requires ReplayAll(NewStore(space), fs).Ok? && version >= 0
    requires base.Some? ==> ReplaysSome(space, fs, version, base.value)
    ensures var context := if base.Some? then base.value else NewStore(space);
      && context.next - 1 <= version
      && ReplayAll(NewStore(space), UpTo(fs, context.next - 1)) == Ok(context)
  {
    ReplayAscends(NewStore(space), fs);
    UpToIsPrefix(fs, 0);
    if base.Some? {
      CoversItsOwn(space, fs, version, base.value);
    } else {
      assert UpTo(fs, 0) == [];
    }
  }
}
