/** The database object: a log file, the store published to readers, and the mutation status. */
module Database {
  import opened Bytes
  import opened Terms
  import opened Frames
  import opened FrameLog
  import opened TornTail
  import opened LogIO
  import opened TermStore
  import opened Requests
  import opened Durability
  import opened Fence
  import opened GroupCommit
  import opened Leases
  import opened LeaseRuns

  /** Writes frames to a fresh stream until one cannot be encoded. */
  method WriteFrames(h: Host, out: OutputStream, frames: seq<Frame>, deflate: bool) returns (ok: bool)
    requires out.bytes == [] && forall f :: f in frames ==> f.sequence >= 0 && f.operations != []
    modifies out
    ensures out.bytes == EncodeFrames(h, WritablePrefix(h, frames, deflate), deflate)
    ensures ok == (WritablePrefix(h, frames, deflate) == frames)
  {
    hide Written, Writable, EncodeFrame, EncodeFrames, WritablePrefix;
    NothingWritten(h, frames, deflate);
    var i := 0;
    while i < |frames|
      invariant i <= |frames| && Written(h, out.bytes, frames, i, deflate)
    {
      ghost var before := out.bytes;
      var written := WriteTransactionFrame(h, out, frames[i], deflate);
      if !written {
        assert before + [] == before;
        WrittenIsPrefix(h, out.bytes, frames, i, deflate);
        return false;
      }
      OneMoreWritten(h, before, frames, i, deflate);
      i := i + 1;
    }
    WrittenIsPrefix(h, out.bytes, frames, i, deflate);
    return true;
  }

  class LogFile {
    var content: Octets

    constructor (initial: Octets)
      ensures content == initial
    {
      content := initial;
    }

    /** Appends frames under one barrier. `fault` is how much reaches the disk when it fails; the
        stream stops at the first frame that cannot be encoded. */
    method AppendDurable(h: Host, frames: seq<Frame>, deflate: bool, fault: Option<nat>) returns (ok: bool)
      requires forall f :: f in frames ==> f.sequence >= 0 && f.operations != []
      modifies this
      ensures Appended(ok, content) == Append(h, old(content), frames, deflate, fault)
    {
      hide WritablePrefix, EncodeFrames;
      var out := new OutputStream();
      var encoded := WriteFrames(h, out, frames, deflate);
      if encoded && fault.None? {
        content := content + out.bytes;
        return true;
      }
      var n := if fault.None? || fault.value >= |out.bytes| then |out.bytes| else fault.value;
      assert out.bytes[..|out.bytes|] == out.bytes;
      content := content + out.bytes[..n];
      return false;
    }
  }

  /** The stream holds exactly the first `i` frames. */
  ghost predicate Written(h: Host, bytes: Octets, frames: seq<Frame>, i: nat, deflate: bool) {
    i <= |frames| && AllWritable(h, frames[..i], deflate) && bytes == EncodeFrames(h, frames[..i], deflate)
  }

  lemma NothingWritten(h: Host, frames: seq<Frame>, deflate: bool)
    ensures Written(h, [], frames, 0, deflate)
  {
  }

  lemma OneMoreWritten(h: Host, bytes: Octets, frames: seq<Frame>, i: nat, deflate: bool)
    requires i < |frames| && Written(h, bytes, frames, i, deflate) && Writable(h, frames[i], deflate)
    ensures Written(h, bytes + EncodeFrame(h, frames[i], deflate), frames, i + 1, deflate)
  {
    hide Writable, EncodeFrame, EncodeFrames;
    EncodeConcat(h, frames[..i], frames[i], deflate);
    assert frames[..i + 1] == frames[..i] + [frames[i]];
  }

  /** The stream holds the writable prefix once it stops at the end or at an unwritable frame. */
  lemma WrittenIsPrefix(h: Host, bytes: Octets, frames: seq<Frame>, i: nat, deflate: bool)
    requires Written(h, bytes, frames, i, deflate)
    requires i == |frames| || !Writable(h, frames[i], deflate)
    ensures WritablePrefix(h, frames, deflate) == frames[..i]
    ensures bytes == EncodeFrames(h, WritablePrefix(h, frames, deflate), deflate)
  {
    hide Writable, EncodeFrames;
    PrefixStops(h, frames, i, deflate);
  }

  lemma {:induction false} PrefixStops(h: Host, frames: seq<Frame>, i: nat, deflate: bool)
    requires i <= |frames| && AllWritable(h, frames[..i], deflate)
    requires i == |frames| || !Writable(h, frames[i], deflate)
    ensures WritablePrefix(h, frames, deflate) == frames[..i]
  {
    hide Writable;
    if i > 0 {
      assert frames[..i][1..] == frames[1..][..i - 1];
      PrefixStops(h, frames[1..], i - 1, deflate);
    }
  }

  class Database {
    const host: Host
    const space: Octets
    const deflate: bool
    const torn: Option<TornReason>
    const file: LogFile?
    var store: Store
    var status: Status

    /** The whole state as a value. */
    ghost function State(): Db
      reads this, file
    {
      Db(space, store, if file == null then None else Some(file.content), deflate, torn, status)
    }

    ghost predicate Valid()
      reads this
    {
      store.next >= 1
    }

    /** A database over an already opened state. */
    constructor (host: Host, db: Db)
      requires db.store.next >= 1
      ensures this.host == host && State() == db && Valid()
      ensures file == null || fresh(file)
    {
      this.host, space, deflate, torn := host, db.space, db.deflate, db.torn;
      store, status := db.store, db.status;
      if db.log.Some? {
        file := new LogFile(db.log.value);
      } else {
        file := null;
      }
    }

    /** Fences the database, then makes the durable history its memory. */
    method FenceAndReconcile(before: Store)
      requires Valid() && before.next >= 1
      modifies this
      ensures State() == Durability.FenceAndReconcile(host, old(State()).(store := before)) && Valid()
    {
      hide ParseLog, ReplayAll;
      store := before;
      status := Fenced(false);
      if file == null {
        status := Fenced(true);
        return;
      }
      var parsed := ParseTripleLog(host, file.content, false);
      if parsed.Err? || parsed.value.header.space != space {
        status := Corrupt;
        return;
      }
      var replayed := ReplayAll(NewStore(space), parsed.value.frames);
      if replayed.Err? {
        status := Corrupt;
        return;
      }
      ReplayKeepsSpace(NewStore(space), parsed.value.frames);
      store, status := replayed.value, Fenced(true);
    }

    /** Appends the frame, then applies it; any failure of the append fences the database. */
    method Commit(request: Request, fault: Option<nat>) returns (r: CommitResult)
      requires Valid()
      modifies this, file
      ensures (State(), r) == CommitStep(host, old(State()), request, fault)
      ensures Valid()
    {
      hide Prepare, TermStore.Commit, Append;
      var ready := Readiness();
      if ready.Some? {
        return Refused(ready.value);
      }
      var prepared := Prepare(store, torn.Some?, request);
      if prepared.Refuse? {
        return Refused(prepared.refusal);
      }
      var frame, before := prepared.value, store;
      CommitFacts(store, frame);
      PreparedIsNext(store, torn.Some?, request);
      if file != null {
        var written := file.AppendDurable(host, [frame], deflate, fault);
        if !written {
          FenceAndReconcile(before);
          return Ambiguous(status);
        }
      }
      store := TermStore.Commit(store, frame);
      return Committed(ReceiptOf(before, store, frame, |request.operations|));
    }

    /** Takes the resource unless an unexpired lease holds it. */
    method AcquireLease(resource: Term, holder: Term, ttl: int, now: int, fault: Option<nat>) returns (r: CommitResult)
      requires Valid()
      modifies this, file
      ensures (State(), r) == LeaseStep(host, old(State()), Acquire(resource, holder, ttl, now), fault) && Valid()
    {
      hide CommitStep;
      match Leases.AcquireLease(store, resource, holder, ttl, now)
      case Reject(refusal) => return Refused(refusal);
      case Submit(request) => r := Commit(request, fault);
    }

    method RenewLease(resource: Term, holder: Term, epoch: Term, ttl: int, now: int, fault: Option<nat>) returns (r: CommitResult)
      requires Valid()
      modifies this, file
      ensures (State(), r) == LeaseStep(host, old(State()), Renew(resource, holder, epoch, ttl, now), fault) && Valid()
    {
      hide CommitStep;
      match Leases.RenewLease(store, resource, holder, epoch, ttl, now)
      case Reject(refusal) => return Refused(refusal);
      case Submit(request) => r := Commit(request, fault);
    }

    method ReleaseLease(resource: Term, holder: Term, epoch: Term, fault: Option<nat>) returns (r: CommitResult)
      requires Valid()
      modifies this, file
      ensures (State(), r) == LeaseStep(host, old(State()), Release(resource, holder, epoch), fault) && Valid()
    {
      hide CommitStep;
      match Leases.ReleaseLease(store, resource, holder, epoch)
      case Reject(refusal) => return Refused(refusal);
      case Submit(request) => r := Commit(request, fault);
    }

    method Readiness() returns (r: Option<Refusal>)
      ensures r == MutationReady(State())
    {
      match status
      case Ready => return None;
      case Fenced(_) => return Some(RecoveryRequired);
      case Corrupt => return Some(DatabaseCorrupt);
    }

    /** Runs the mutations in order on a private root, appends every deferred frame under one barrier,
        and only then publishes the root. */
    method CommitCohort(mutations: seq<Mutation>, fault: Option<nat>) returns (r: CohortResult)
      requires Valid()
      modifies this, file
      ensures (State(), r) == CohortStep(host, old(State()), mutations, fault)
      ensures Valid()
    {
      hide ScratchStep, Append;
      var ready := Readiness();
      if ready.Some? {
        return CohortRefused(ready.value);
      }
      var scratch := Scratch(store, [], []);
      for i := 0 to |mutations|
        invariant scratch == RunScratch(store, torn.Some?, mutations[..i])
        invariant State() == old(State()) && Valid()
      {
        assert mutations[..i + 1][..i] == mutations[..i];
        scratch := ScratchStep(scratch, torn.Some?, mutations[i]);
      }
      assert mutations[..|mutations|] == mutations;
      ScratchReplays(store, torn.Some?, mutations);
      if scratch.frames == [] {
        return Published(scratch.outcomes, 0);
      }
      if file != null {
        FramesAreValid(store, scratch.frames);
        var written := file.AppendDurable(host, scratch.frames, deflate, fault);
        if !written {
          FenceAndReconcile(store);
          return CohortAmbiguous(status);
        }
      }
      store := scratch.store;
      return Published(scratch.outcomes, |scratch.frames|);
    }
  }

  lemma {:induction false} FramesAreValid(s: Store, fs: seq<Frame>)
    requires ReplayAll(s, fs).Ok?
    ensures forall f :: f in fs ==> f.sequence >= 0 && f.operations != []
    decreases |fs|
  {
    hide TermStore.Commit;
    if fs != [] {
      FramesAreValid(s, fs[..|fs| - 1]);
    }
  }
}
