/** Which dumps restore, which checkpoint is offered, and which files are kept. */
module CheckpointFiles {
  import opened Bytes
  import opened Terms
  import opened Frames
  import opened FrameLog
  import opened TermStore
  import opened Fence
  import opened History
  import opened BranchText
  import opened Forks
  import opened Checkpoints

  // ----- which dumps restore -----

  /** Frames in rising order, the first from 0 on, each with something to do. */
  ghost predicate Historical(fs: seq<Frame>) {
    && (forall i :: 0 <= i < |fs| ==> fs[i].sequence >= 0 && ValidOperations(fs[i].operations))
    && forall i, j :: 0 <= i < j < |fs| ==> fs[i].sequence < fs[j].sequence
  }

  /** Frames committed one after the other. */
  function Committed(s: Store, fs: seq<Frame>): Store {
    if fs == [] then s else Commit(Committed(s, fs[..|fs| - 1]), fs[|fs| - 1])
  }

  lemma {:induction false} CommittedFacts(space: Octets, fs: seq<Frame>)
    requires Historical(fs)
    ensures var s := Committed(NewStore(space), fs);
      && s.space == space && |s.transactions| == |fs|
      && s.next == if fs == [] then 1 else fs[|fs| - 1].sequence + 1
  {
    hide Commit, ValidOperations;
    if fs != [] {
      var n := |fs| - 1;
      CommittedFacts(space, fs[..n]);
      CommitFacts(Committed(NewStore(space), fs[..n]), fs[n]);
      CommittedTransactions(Committed(NewStore(space), fs[..n]), fs[n]);
    }
  }

  lemma {:induction false} CommittedRestores(space: Octets, fs: seq<Frame>)
    requires Historical(fs)
    ensures var s := Committed(NewStore(space), fs); ValidHistory(DumpOf(s)) && s == Rebuilt(DumpOf(s))
  {
    hide Commit, ValidHistory, Rebuilt, ValidOperations;
    if fs == [] {
      NewDumpRestores(space);
    } else {
      var n := |fs| - 1;
      CommittedRestores(space, fs[..n]);
      CommittedFacts(space, fs[..n]);
      var before := Committed(NewStore(space), fs[..n]);
      CommitRebuilds(before, fs[n]);
      CommitKeepsHistory(before, fs[n]);
    }
  }

  /** The frame a dump records as its last transaction. */
  function LastFrame(d: Dump): (f: Frame)
    requires ValidHistory(d) && d.transactions != []
    ensures var t := d.transactions[|d.transactions| - 1];
      f.sequence == t.sequence && |f.operations| == t.count && ValidOperations(f.operations)
  {
    var t := d.transactions[|d.transactions| - 1];
    assert ValidSlice(d, t);
    Frame(t.sequence, seq(t.count, i requires 0 <= i < t.count =>
      Operation(d.rows[t.first + i].action, d.rows[t.first + i].proposition)))
  }

  /** The dump before its last transaction. */
  function Earlier(d: Dump): Dump
    requires ValidHistory(d) && d.transactions != []
  {
    var n := |d.transactions| - 1;
    var t := d.transactions[n];
    assert ValidSlice(d, t);
    Dump(d.space, if n == 0 then 1 else d.transactions[n - 1].sequence + 1, d.transactions[..n], d.rows[..t.first])
  }

  lemma EarlierIsValid(d: Dump)
    requires ValidHistory(d) && d.transactions != []
    ensures ValidHistory(Earlier(d))
    ensures LastFrame(d).sequence >= 0 && (Earlier(d).transactions != [] ==> LastFrame(d).sequence >= Earlier(d).next)
  {
    hide ValidSlice, InOrder;
    var n, e := |d.transactions| - 1, Earlier(d);
    EndsRise(d, n);
    forall i: nat | i < n ensures ValidSlice(e, e.transactions[i]) && InOrder(e, i) {
      StaysInPlace(d, e, i);
    }
    LastFollows(d, n);
  }

  /** A transaction whose rows a shorter dump keeps is as valid there. */
  lemma StaysInPlace(d: Dump, e: Dump, i: nat)
    requires ValidHistory(d) && i < |e.transactions| && e.transactions <= d.transactions && e.rows <= d.rows
    requires d.transactions[i].first + d.transactions[i].count <= |e.rows|
    ensures ValidSlice(e, e.transactions[i]) && InOrder(e, i)
  {
    assert ValidSlice(d, d.transactions[i]) && InOrder(d, i);
  }

  lemma LastFollows(d: Dump, n: nat)
    requires ValidHistory(d) && n < |d.transactions|
    ensures ValidSlice(d, d.transactions[n])
    ensures d.transactions[n].first == if n == 0 then 0 else d.transactions[n - 1].first + d.transactions[n - 1].count
    ensures n > 0 ==> d.transactions[n].sequence > d.transactions[n - 1].sequence
  {
    assert InOrder(d, n);
  }

  /** Each transaction's rows end where a later one's start, or before; and sequences start from 0. */
  lemma {:induction false} EndsRise(d: Dump, n: nat)
    requires ValidHistory(d) && n < |d.transactions|
    ensures d.transactions[n].sequence >= 0
    ensures forall i :: 0 <= i < n ==> d.transactions[i].first + d.transactions[i].count <= d.transactions[n].first
  {
    assert InOrder(d, n) && ValidSlice(d, d.transactions[n]);
    if n > 0 {
      EndsRise(d, n - 1);
      assert ValidSlice(d, d.transactions[n - 1]);
    }
  }

  lemma LastRows(d: Dump)
    requires ValidHistory(d) && d.transactions != []
    ensures var t := d.transactions[|d.transactions| - 1];
      t.first == |Earlier(d).rows| && d.rows == Earlier(d).rows + RowsOf(LastFrame(d))
  {
    var t := d.transactions[|d.transactions| - 1];
    var rows := RowsOf(LastFrame(d));
    assert ValidSlice(d, t);
    forall i | 0 <= i < t.count ensures rows[i] == d.rows[t.first + i] {
    }
    assert d.rows == d.rows[..t.first] + d.rows[t.first..];
    assert d.rows[t.first..] == rows;
  }

  /** A valid history is that of frames committed one after the other, and rebuilding it gives their store. */
  lemma {:induction false} HistoryIsCommitted(d: Dump) returns (fs: seq<Frame>)
    requires ValidHistory(d)
    ensures Historical(fs) && |fs| == |d.transactions|
    ensures d == DumpOf(Committed(NewStore(d.space), fs)) && Rebuilt(d) == Committed(NewStore(d.space), fs)
    decreases |d.transactions|
  {
    hide Commit, Rebuilt, ValidOperations;
    if d.transactions == [] {
      fs := [];
      EmptyHistory(d);
      NewDumpRestores(d.space);
    } else {
      EarlierIsValid(d);
      var before := HistoryIsCommitted(Earlier(d));
      OneMoreCommitted(d, before);
      fs := before + [LastFrame(d)];
    }
  }

  lemma OneMoreCommitted(d: Dump, before: seq<Frame>)
    requires ValidHistory(d) && d.transactions != [] && Historical(before)
    requires LastFrame(d).sequence >= 0 && (before != [] ==> LastFrame(d).sequence >= Earlier(d).next)
    requires Earlier(d) == DumpOf(Committed(NewStore(d.space), before))
    requires Rebuilt(Earlier(d)) == Committed(NewStore(d.space), before)
    ensures var fs := before + [LastFrame(d)];
      Historical(fs) && d == DumpOf(Committed(NewStore(d.space), fs)) && Rebuilt(d) == Committed(NewStore(d.space), fs)
  {
    hide Commit, Rebuilt, ValidOperations, ValidHistory;
    var f, s := LastFrame(d), Committed(NewStore(d.space), before);
    LastRows(d);
    CommittedFacts(d.space, before);
    CommitFacts(s, f);
    CommittedTransactions(s, f);
    CommitRebuilds(s, f);
    assert (before + [f])[..|before|] == before;
    LastTransaction(d, Commit(s, f));
  }

  lemma EmptyHistory(d: Dump)
    requires ValidHistory(d) && d.transactions == []
    ensures d == DumpOf(NewStore(d.space))
  {
  }

  lemma LastTransaction(d: Dump, t: Store)
    requires ValidHistory(d) && d.transactions != [] && t.space == d.space && t.next == LastFrame(d).sequence + 1
    requires t.rows == d.rows && |Earlier(d).rows| == d.transactions[|d.transactions| - 1].first
    requires t.transactions
      == Earlier(d).transactions + [TransactionRow(LastFrame(d).sequence, |Earlier(d).rows|, |LastFrame(d).operations|)]
    ensures DumpOf(t) == d
  {
    hide ValidSlice, InOrder;
    var n := |d.transactions| - 1;
    assert d.transactions == d.transactions[..n] + [d.transactions[n]];
  }

  /** A dump restores exactly when it is that of rising frames committed in this space; the root is then
      their store. */
  lemma RestoresIff(space: Octets, d: Dump)
    ensures Restore(space, d).Some? <==>
      space != [] && d.space == space && exists fs :: Historical(fs) && d == DumpOf(Committed(NewStore(space), fs))
    ensures Restore(space, d).Some? ==> d == DumpOf(Restore(space, d).value)
  {
    hide Commit, ValidHistory, Rebuilt, Historical, Committed;
    if ValidHistory(d) {
      var fs := HistoryIsCommitted(d);
    }
    if fs :| Historical(fs) && d == DumpOf(Committed(NewStore(space), fs)) {
      CommittedRestores(space, fs);
      NextIsPositive(space, fs);
    }
  }

  lemma NextIsPositive(space: Octets, fs: seq<Frame>)
    requires Historical(fs)
    ensures Committed(NewStore(space), fs).next >= 1
  {
    CommittedFacts(space, fs);
  }

  /** Not every such dump is of a store a log can give: replay wants the first sequence to be at least 1. */
  lemma {:induction false} ReplaysIff(space: Octets, fs: seq<Frame>)
    requires Historical(fs)
    ensures ReplayAll(NewStore(space), fs).Ok? <==> (fs == [] || fs[0].sequence >= 1)
    ensures ReplayAll(NewStore(space), fs).Ok? ==> ReplayAll(NewStore(space), fs).value == Committed(NewStore(space), fs)
  {
    hide Commit, ValidOperations;
    if fs != [] {
      var n := |fs| - 1;
      ReplaysIff(space, fs[..n]);
      CommittedFacts(space, fs[..n]);
    }
  }

  // ----- which checkpoint is offered -----

  /** A file is accepted as a root exactly when it is whole, it is bound to this space and to the very octets of the
      log that read as the frames up to the version, and its dump restores to that root and ends where they end. */
  lemma AcceptedIff(h: Host, digest: Digest, space: Octets, b: Octets, version: int, file: File, root: Store)
    requires Sound(h, space, b)
    ensures PrefixOf(h, b, version).Ok?
    ensures var n := PrefixOf(h, b, version).value.valid; var frames := UpTo(Checkpoints.FramesOf(h, b), version);
      && n <= |b| && Checkpoints.FramesOf(h, b[..n]) == frames
      && (Accepts(h, digest, space, b, version, file) == Some(root) <==>
            (file.Whole? && file.checkpoint.binding == Binding(space, digest(b[..n]), n)
             && Restore(space, file.checkpoint.image) == Some(root)
             && root.next - 1 == if frames == [] then 0 else frames[|frames| - 1].sequence))
  {
    hide Sound, Restore, PrefixOf, UpTo;
    SourceReads(h, digest, space, b, version);
  }

  /** File `v` is accepted, and no newer one up to the version is. */
  ghost predicate Offers(h: Host, digest: Digest, space: Octets, b: Octets, files: Directory, upper: int, v: int)
    requires v in files
  {
    && 0 <= v <= upper && Accepts(h, digest, space, b, v, files[v]).Some?
    && forall w :: w in files && v < w <= upper ==> Accepts(h, digest, space, b, w, files[w]).None?
  }

  /** The root offered is the one accepted from the newest acceptable file up to the version. */
  lemma {:induction false} NewestIsOffered(h: Host, digest: Digest, space: Octets, b: Octets, files: Directory, upper: int)
    ensures var r := LoadCheckpoint(h, digest, space, b, files, upper);
      && (r.None? <==> forall v :: v in files && 0 <= v <= upper ==> Accepts(h, digest, space, b, v, files[v]).None?)
      && (r.Some? ==> exists v :: v in files && Offers(h, digest, space, b, files, upper, v) && Accepts(h, digest, space, b, v, files[v]) == r)
    decreases upper + 1
  {
    hide Accepts, Offers;
    if upper >= 0 {
      NewestIsOffered(h, digest, space, b, files, upper - 1);
      if upper in files && Accepts(h, digest, space, b, upper, files[upper]).Some? {
        OffersTop(h, digest, space, b, files, upper);
      } else if LoadCheckpoint(h, digest, space, b, files, upper - 1).Some? {
        var v :| v in files && Offers(h, digest, space, b, files, upper - 1, v)
          && Accepts(h, digest, space, b, v, files[v]) == LoadCheckpoint(h, digest, space, b, files, upper - 1);
        OffersBelow(h, digest, space, b, files, upper, v);
      }
    }
  }

  lemma OffersTop(h: Host, digest: Digest, space: Octets, b: Octets, files: Directory, upper: int)
    requires upper >= 0 && upper in files && Accepts(h, digest, space, b, upper, files[upper]).Some?
    ensures Offers(h, digest, space, b, files, upper, upper)
  {
    hide Accepts;
  }

  lemma OffersBelow(h: Host, digest: Digest, space: Octets, b: Octets, files: Directory, upper: int, v: int)
    requires v in files && Offers(h, digest, space, b, files, upper - 1, v)
    requires upper in files ==> Accepts(h, digest, space, b, upper, files[upper]).None?
    ensures Offers(h, digest, space, b, files, upper, v)
  {
    hide Accepts;
  }

  // ----- which files are kept -----

  function Newer(files: Directory, v: int): set<int> { set w | w in files && w > v }

  /** Writing happens exactly at positive multiples of the interval, for a version the log vouches for and a
      root that can be restored; it adds that file and keeps those with fewer than four newer ones. */
  lemma WrittenExactly(h: Host, digest: Digest, b: Octets, interval: nat, version: int, root: Store, files: Directory)
    requires interval > 0
    ensures var left, source := WriteCheckpoint(h, digest, b, interval, version, root, files), SourceOf(h, digest, b, version);
      if version > 0 && version % interval == 0 && source.Ok? && Restore(source.value.0.space, DumpOf(root)).Some? then
        var grown := files[version := Whole(Checkpoint(source.value.0, DumpOf(root)))];
        (forall v :: v in left <==> v in grown && |Newer(grown, v)| < 4) && (forall v :: v in left ==> left[v] == grown[v])
      else left == files
  {
    hide SourceOf, Restore;
    var left, source := WriteCheckpoint(h, digest, b, interval, version, root, files), SourceOf(h, digest, b, version);
    if version > 0 && version % interval == 0 && source.Ok? && Restore(source.value.0.space, DumpOf(root)).Some? {
      var grown := files[version := Whole(Checkpoint(source.value.0, DumpOf(root)))];
      assert left == Pruned(grown);
      forall v ensures Newer(grown, v) == set w | w in grown && w > v {}
    }
  }

  /** The files with fewer than four newer ones are the four newest: whatever is kept is newer than whatever
      is not, and four are kept, or all. */
  lemma KeepsNewestFour(files: Directory)
    ensures var kept := Pruned(files);
      && kept.Keys <= files.Keys && |kept| == (if |files| < 4 then |files| else 4)
      && forall v, w :: v in kept && w in files && w !in kept ==> w < v
  {
    NewestCount(files.Keys, 4);
    var kept := Pruned(files);
    assert kept.Keys == Newest(files.Keys, 4) by {
      forall v ensures v in kept.Keys <==> v in Newest(files.Keys, 4) {
        assert Above(files.Keys, v) == set w | w in files && w > v;
      }
    }
    assert |kept| == |kept.Keys| && |files| == |files.Keys|;
    forall v, w | v in kept && w in files && w !in kept ensures w < v {
      if w >= v {
        Subset(Above(files.Keys, w), Above(files.Keys, v));
      }
    }
  }

  function Above(keys: set<int>, v: int): set<int> { set w | w in keys && w > v }

  function Newest(keys: set<int>, n: nat): set<int> { set v | v in keys && |Above(keys, v)| < n }

  lemma Subset(a: set<int>, b: set<int>)
    requires a <= b
    ensures |a| <= |b|
  {
    assert b == a + (b - a);
  }

  lemma Pick<T>(keys: set<T>) returns (x: T)
    requires keys != {}
    ensures x in keys
  {
    x :| x in keys;
  }

  lemma OneMore(keys: set<int>, x: int)
    requires x !in keys
    ensures |keys + {x}| == |keys| + 1
  {
  }

  lemma {:induction false} Largest(keys: set<int>) returns (m: int)
    requires keys != {}
    ensures m in keys && forall v :: v in keys ==> v <= m
    decreases |keys|
  {
    var x := Pick(keys);
    if keys == {x} {
      m := x;
    } else {
      var rest := keys - {x};
      assert keys == rest + {x};
      m := Largest(rest);
      if x > m {
        m := x;
      }
    }
  }

  lemma {:induction false} NewestCount(keys: set<int>, n: nat)
    ensures |Newest(keys, n)| == if |keys| < n then |keys| else n
    decreases |keys|
  {
    hide *;
    if keys == {} || n == 0 {
      NoneNewest(keys, n);
    } else {
      var m := Largest(keys);
      var rest := keys - {m};
      assert rest + {m} == keys;
      OneMore(rest, m);
      NewestCount(rest, n - 1);
      WithLargest(keys, m, n);
      OneMore(Newest(rest, n - 1), m);
    }
  }

  lemma NoneNewest(keys: set<int>, n: nat)
    requires keys == {} || n == 0
    ensures Newest(keys, n) == {}
  {
    hide Above;
  }

  lemma WithLargest(keys: set<int>, m: int, n: nat)
    requires n > 0 && m in keys && forall v :: v in keys ==> v <= m
    ensures Newest(keys, n) == Newest(keys - {m}, n - 1) + {m} && m !in Newest(keys - {m}, n - 1)
  {
    assert Above(keys, m) == {};
    forall v | v in keys && v != m ensures |Above(keys, v)| == |Above(keys - {m}, v)| + 1 {
      assert Above(keys, v) == Above(keys - {m}, v) + {m};
    }
    hide Above;
  }

  /** So the root of a due version, once written, is what the directory offers for it until four newer ones
      have been written. */
  lemma WrittenIsOffered(h: Host, digest: Digest, space: Octets, b: Octets, interval: nat, version: int, root: Store, files: Directory)
    requires interval > 0 && version > 0 && version % interval == 0 && space != [] && Sound(h, space, b)
    requires ReplayAll(NewStore(space), UpTo(Checkpoints.FramesOf(h, b), version)) == Ok(root)
    requires |Newer(files, version)| < 4
    ensures LoadCheckpoint(h, digest, space, b, WriteCheckpoint(h, digest, b, interval, version, root, files), version) == Some(root)
  {
    hide SourceOf, Sound, ReplayAll, Restore, WriteCheckpoint, Pruned, ValidHistory, Rebuilt, Accepts;
    SourceReads(h, digest, space, b, version);
    DumpRestores(space, UpTo(Checkpoints.FramesOf(h, b), version));
    LastIsNext(space, UpTo(Checkpoints.FramesOf(h, b), version));
    WrittenExactly(h, digest, b, interval, version, root, files);
    var left := WriteCheckpoint(h, digest, b, interval, version, root, files);
    var grown := files[version := Whole(Checkpoint(SourceOf(h, digest, b, version).value.0, DumpOf(root)))];
    assert Newer(grown, version) == Newer(files, version);
    assert version in left && left[version] == grown[version];
    AcceptsOwn(h, digest, space, b, version, root);
  }

  lemma AcceptsOwn(h: Host, digest: Digest, space: Octets, b: Octets, version: int, root: Store)
    requires SourceOf(h, digest, b, version).Ok? && Restore(space, DumpOf(root)) == Some(root)
    requires SourceOf(h, digest, b, version).value.1 == root.next - 1
    ensures Accepts(h, digest, space, b, version, Whole(Checkpoint(SourceOf(h, digest, b, version).value.0, DumpOf(root)))) == Some(root)
  {
    hide SourceOf, Restore;
  }
}
