/** `request_transfer` and `request_transfer_with_retry` of transfer.rs as they update the local file,
    the history rows and the queue. */
module TransferProgram {
  import opened Sequences
  import opened Wrappers
  import opened TransferModel
  import Framing
  import Queue
  import TransferSafety

  /** What another task does to the shared queue. */
  datatype QueueOp = Push(entry: Queue.QueueEntry) | Update(id: string, status: Queue.QueueStatus, bytes: nat)
  {
    function Id(): string {
      if Push? then entry.transferId else id
    }
  }

  /** What other tasks do to the queue wherever this one gives them the chance: while an attempt waits for
      its n-th frame, during the sleeps, and between the last update and the return. */
  datatype Others = Others(during: nat -> nat -> seq<QueueOp>, asleep: nat -> seq<QueueOp>, atEnd: seq<QueueOp>)

  /** The fixed parts of a request. */
  datatype Job = Job(transferId: string, fileName: string, remotePath: string, peerName: string, startedAt: int)
  {
    function Entry(status: Queue.QueueStatus, bytes: nat, total: nat): Queue.QueueEntry {
      Queue.QueueEntry(transferId, fileName, remotePath, peerName, status, bytes, total, startedAt)
    }
  }

  function Reason(e: TransferError): string {
    match e
    case IoError => "io error"
    case JsonError => "json error"
    case AccessDenied => "access denied"
    case InvalidOffset => "invalid resume offset"
    case Checksum => "checksum mismatch"
    case Protocol => "protocol error"
  }

  /** History row and queue entry, if it is still listed, agree with the outcome and on the bytes. */
  ghost predicate Agreed(outcome: Result<(), TransferError>, hist: Option<nat>, rows: seq<Row>,
                         entries: seq<Queue.QueueEntry>, id: string) {
    && (hist.Some? ==> hist.value < |rows|)
    && match outcome
       case Ok(_) =>
         hist.Some? && rows[hist.value].status == Complete
         && Queue.Shows(entries, id, Queue.Complete, rows[hist.value].bytes)
       case Err(e) =>
         (hist.Some? ==> rows[hist.value].status == RowStatus.Failed)
         && Queue.Shows(entries, id, Queue.Failed(Reason(e)), if hist.Some? then rows[hist.value].bytes else 0)
  }

  /** Other tasks leave this transfer alone. */
  ghost predicate Untouched(ops: seq<QueueOp>, id: string) {
    forall op :: op in ops ==> op.Id() != id
  }

  ghost predicate NeverTouched(meanwhile: nat -> seq<QueueOp>, id: string) {
    forall n :: Untouched(meanwhile(n), id)
  }

  /** Status and bytes the queue shows of an attempt that fails: queued until the transfer starts, in progress
      with the bytes read after that, and failed without any after a wrong checksum. */
  function ShownAfter(d: Disk, hist: Option<nat>, resumeOffset: nat, conn: Option<seq<Bytes>>, t: Tools)
    : (Queue.QueueStatus, nat)
    requires hist.Some? ==> hist.value < |d.rows|
  {
    if !Starts(conn, t) then (Queue.Queued, resumeOffset)
    else if Attempt(d, hist, conn, t).outcome == Err(Checksum) then (Queue.Failed("checksum_mismatch"), 0)
    else
      var start := t.decode(conn.value[0]).value;
      var (id, rows) := UseRow(d.rows, hist, start.resumeOffset);
      var begun := Open(d, start.resumeOffset).(rows := rows);
      (Queue.InProgress, Receive(begun, id, start.resumeOffset, start.size, conn.value[1..]).bytes)
  }

  class Receiver {
    var file: Option<Bytes>
    var rows: seq<Row>
    const queue: Queue.TransferQueue

    constructor (queue: Queue.TransferQueue, disk: Disk)
      ensures OnDisk() == disk && this.queue == queue
    {
      this.queue := queue;
      file, rows := disk.file, disk.rows;
    }

    ghost function OnDisk(): Disk
      reads this
    {
      Disk(file, rows)
    }

    method RequestTransfer(job: Job, hist: Option<nat>, resumeOffset: nat, conn: Option<seq<Bytes>>,
                           meanwhile: nat -> seq<QueueOp>, t: Tools)
      returns (outcome: Result<(), TransferError>, hist': Option<nat>)
      requires queue.Valid() && (hist.Some? ==> hist.value < |rows|)
      modifies this, queue
      ensures queue.Valid()
      ensures Attempted(OnDisk(), hist', outcome) == Attempt(old(OnDisk()), hist, conn, t)
      ensures outcome.Ok? ==> Agreed(outcome, hist', rows, queue.entries, job.transferId)
      ensures outcome.Err? && NeverTouched(meanwhile, job.transferId) ==>
        var (status, bytes) := ShownAfter(old(OnDisk()), hist, resumeOffset, conn, t);
        Queue.Shows(queue.entries, job.transferId, status, bytes)
    {
      hist' := hist;
      Queue.PushShows(queue.entries, job.Entry(Queue.Queued, resumeOffset, 0), queue.maxHistory);
      queue.Push(job.Entry(Queue.Queued, resumeOffset, 0));
      Interleave(meanwhile(0), job.transferId, Queue.Queued, resumeOffset);
      if conn.None? || conn.value == [] {
        return Err(IoError), hist;
      }
      var frames := conn.value;
      var reply := t.decode(frames[0]);
      if reply.None? {
        return Err(JsonError), hist;
      }
      if reply.value.ErrorMsg? {
        return Err(ErrorOf(reply.value.code)), hist;
      }
      if !reply.value.TransferStart? {
        return Err(Protocol), hist;
      }
      var size, serverOffset := reply.value.size, reply.value.resumeOffset;

      var id := OpenLocal(hist, serverOffset);
      hist' := Some(id);
      Queue.PushShows(queue.entries, job.Entry(Queue.InProgress, serverOffset, size), queue.maxHistory);
      queue.Push(job.Entry(Queue.InProgress, serverOffset, size));
      var bytesReceived, next, lost := ReceiveChunks(job, id, serverOffset, size, frames, meanwhile);
      if lost || next == |frames| {
        return Err(IoError), hist';
      }
      Interleave(meanwhile(next), job.transferId, Queue.InProgress, bytesReceived);
      outcome := FinishTransfer(job, id, bytesReceived, frames[next..], t);
    }

    /** Open or create the local file and take the history row into use. */
    method OpenLocal(hist: Option<nat>, serverOffset: nat) returns (id: nat)
      requires hist.Some? ==> hist.value < |rows|
      modifies this
      ensures (id, rows) == UseRow(old(rows), hist, serverOffset) && id < |rows|
      ensures file == Open(old(OnDisk()), serverOffset).file
    {
      file := Some(if serverOffset == 0 then [] else if file.Some? then file.value else []);
      if hist.Some? {
        id := hist.value;
        rows := rows[id := rows[id].(status := InProgress)];
      } else {
        id := |rows|;
        rows := rows + [Row(serverOffset, InProgress)];
      }
    }

    /** One data frame is written, and recorded in row and queue entry. */
    method StoreChunk(job: Job, id: nat, before: nat, chunk: Bytes, ghost size: nat, ghost frames: seq<Bytes>)
      returns (bytesReceived: nat)
      requires id < |rows| && file.Some? && queue.Valid() && before < size
      requires frames != [] && frames[0] == chunk && chunk != []
      modifies this, queue
      ensures queue.Valid() && file.Some? && id < |rows|
      ensures Receive(old(OnDisk()), id, before, size, frames)
           == Receive(OnDisk(), id, bytesReceived, size, frames[1..])
      ensures Queue.Shows(queue.entries, job.transferId, Queue.InProgress, bytesReceived)
    {
      ReceiveStep(OnDisk(), id, before, size, frames);
      file := Some(WriteAt(file.value, before, chunk));
      bytesReceived := before + |chunk|;
      rows := rows[id := Row(bytesReceived, InProgress)];
      Queue.UpdateKeeps(queue.entries, job.transferId, Queue.InProgress, bytesReceived, queue.maxHistory);
      queue.Update(job.transferId, Queue.InProgress, bytesReceived);
      assert OnDisk() == AfterChunk(old(OnDisk()), id, before, chunk);
    }

    /** The loop over data frames; `next` is the first frame it did not read. */
    method ReceiveChunks(job: Job, id: nat, serverOffset: nat, size: nat, frames: seq<Bytes>,
                         meanwhile: nat -> seq<QueueOp>)
      returns (bytesReceived: nat, next: nat, lost: bool)
      requires id < |rows| && file.Some? && frames != [] && queue.Valid()
      modifies this, queue
      ensures queue.Valid() && file.Some? && 1 <= next <= |frames|
      ensures Received(OnDisk(), bytesReceived, frames[next..], lost)
           == Receive(old(OnDisk()), id, serverOffset, size, frames[1..])
      ensures old(Queue.Shows(queue.entries, job.transferId, Queue.InProgress, serverOffset))
              && NeverTouched(meanwhile, job.transferId) ==>
        Queue.Shows(queue.entries, job.transferId, Queue.InProgress, bytesReceived)
    {
      ghost var goal := Receive(OnDisk(), id, serverOffset, size, frames[1..]);
      bytesReceived, next, lost := serverOffset, 1, false;
      while bytesReceived < size
        invariant 1 <= next <= |frames| && id < |rows| && file.Some? && queue.Valid() && !lost
        invariant goal == Receive(OnDisk(), id, bytesReceived, size, frames[next..])
        invariant old(Queue.Shows(queue.entries, job.transferId, Queue.InProgress, serverOffset))
                  && NeverTouched(meanwhile, job.transferId) ==>
          Queue.Shows(queue.entries, job.transferId, Queue.InProgress, bytesReceived)
        decreases |frames| - next
      {
        Interleave(meanwhile(next), job.transferId, Queue.InProgress, bytesReceived);
        if next == |frames| {
          lost := true;
          return;
        }
        var chunk := frames[next];
        DropOneMore(frames, next);
        next := next + 1;
        if chunk == [] {
          break;
        }
        bytesReceived := StoreChunk(job, id, bytesReceived, chunk, size, frames[next - 1..]);
      }
    }

    /** The control frame and the checksum. */
    method FinishTransfer(job: Job, id: nat, bytesReceived: nat, rest: seq<Bytes>, t: Tools)
      returns (outcome: Result<(), TransferError>)
      requires id < |rows| && file.Some? && rest != [] && queue.Valid()
      modifies this, queue
      ensures queue.Valid()
      ensures Attempted(OnDisk(), Some(id), outcome)
           == Finish(Received(old(OnDisk()), bytesReceived, rest, false), id, t)
      ensures outcome.Ok? ==>
        id < |rows| && rows[id].status == Complete
        && Queue.Shows(queue.entries, job.transferId, Queue.Complete, rows[id].bytes)
      ensures outcome == Err(Checksum) ==>
        Queue.Shows(queue.entries, job.transferId, Queue.Failed("checksum_mismatch"), 0)
      ensures outcome.Err? && outcome != Err(Checksum) ==> queue.entries == old(queue.entries)
    {
      var control := t.decode(rest[0]);
      if control.None? {
        return Err(JsonError);
      }
      if !control.value.TransferComplete? {
        return Err(Protocol);
      }
      var actual := t.hash(file.value);
      if actual == control.value.checksum {
        rows := rows[id := Row(bytesReceived, Complete)];
        Queue.UpdateKeeps(queue.entries, job.transferId, Queue.Complete, bytesReceived, queue.maxHistory);
        queue.Update(job.transferId, Queue.Complete, bytesReceived);
        outcome := Ok(());
      } else {
        file := None;
        rows := rows[id := Row(0, RowStatus.Failed)];
        Queue.UpdateKeeps(queue.entries, job.transferId, Queue.Failed("checksum_mismatch"), 0, queue.maxHistory);
        queue.Update(job.transferId, Queue.Failed("checksum_mismatch"), 0);
        outcome := Err(Checksum);
      }
    }

    /** Other tasks have their turn; what the queue shows of a transfer they leave alone stays. */
    method Interleave(ops: seq<QueueOp>, ghost id: string, ghost status: Queue.QueueStatus, ghost bytes: nat)
      requires queue.Valid()
      modifies queue
      ensures queue.Valid()
      ensures old(Queue.Shows(queue.entries, id, status, bytes)) && Untouched(ops, id) ==>
        Queue.Shows(queue.entries, id, status, bytes)
    {
      for i := 0 to |ops|
        invariant queue.Valid()
        invariant old(Queue.Shows(queue.entries, id, status, bytes)) && Untouched(ops, id) ==>
          Queue.Shows(queue.entries, id, status, bytes)
      {
        assert ops[i] in ops;
        match ops[i]
        case Push(e) =>
          if e.transferId != id { Queue.PushElsewhere(queue.entries, e, queue.maxHistory, id); }
          queue.Push(e);
        case Update(other, st, n) =>
          if other != id { Queue.UpdateElsewhere(queue.entries, other, st, n, id); }
          queue.Update(other, st, n);
      }
    }

    /** Tasks that work on other transfers do not disturb what the queue shows for this one. */
    method InterleaveOthers(ops: seq<QueueOp>, job: Job, ghost outcome: Result<(), TransferError>,
                            ghost hist: Option<nat>)
      requires queue.Valid() && Agreed(outcome, hist, rows, queue.entries, job.transferId)
      requires forall op :: op in ops ==> op.Id() != job.transferId
      modifies queue
      ensures queue.Valid() && Agreed(outcome, hist, rows, queue.entries, job.transferId)
    {
      for i := 0 to |ops|
        invariant queue.Valid() && Agreed(outcome, hist, rows, queue.entries, job.transferId)
      {
        assert ops[i] in ops;
        match ops[i]
        case Push(e) =>
          Queue.PushElsewhere(queue.entries, e, queue.maxHistory, job.transferId);
          queue.Push(e);
        case Update(id, status, bytes) =>
          Queue.UpdateElsewhere(queue.entries, id, status, bytes, job.transferId);
          queue.Update(id, status, bytes);
      }
    }

    /** Between two attempts: row and queue entry are left partial, the rest of the program goes on during
        the sleep, and the next attempt resumes where the row says. */
    method Wait(job: Job, hist: Option<nat>, resumeOffset: nat, meanwhile: seq<QueueOp>, ghost a: Attempted)
      returns (next: nat)
      requires queue.Valid() && (hist.Some? ==> hist.value < |rows|) && a.disk == OnDisk() && a.hist == hist
      modifies this, queue
      ensures queue.Valid() && OnDisk() == Pause(a) && next == NextOffset(a, resumeOffset)
      ensures Untouched(meanwhile, job.transferId) ==>
        Queue.Shows(queue.entries, job.transferId, Queue.Partial, resumeOffset)
    {
      if hist.Some? {
        rows := rows[hist.value := rows[hist.value].(status := Partial)];
      }
      Queue.UpdateKeeps(queue.entries, job.transferId, Queue.Partial, resumeOffset, queue.maxHistory);
      queue.Update(job.transferId, Queue.Partial, resumeOffset);
      Interleave(meanwhile, job.transferId, Queue.Partial, resumeOffset);
      next := if hist.Some? then rows[hist.value].bytes else resumeOffset;
    }

    /** After the last attempt. */
    method Abandon(job: Job, hist: Option<nat>, e: TransferError, ghost a: Attempted)
      requires queue.Valid() && (hist.Some? ==> hist.value < |rows|) && a.disk == OnDisk() && a.hist == hist
      modifies this, queue
      ensures queue.Valid() && OnDisk() == GiveUp(a)
      ensures Agreed(Err(e), hist, rows, queue.entries, job.transferId)
    {
      var bytes: nat := 0;
      if hist.Some? {
        bytes := rows[hist.value].bytes;
        rows := rows[hist.value := Row(bytes, RowStatus.Failed)];
      }
      Queue.UpdateKeeps(queue.entries, job.transferId, Queue.Failed(Reason(e)), bytes, queue.maxHistory);
      queue.Update(job.transferId, Queue.Failed(Reason(e)), bytes);
    }

    /** One attempt, with the place of the whole run in which it stands. */
    method TryOnce(job: Job, hist: Option<nat>, resumeOffset: nat, attempt: nat, meanwhile: nat -> seq<QueueOp>,
                   ghost goal: Run, ghost slept: nat, server: Server, t: Tools)
      returns (outcome: Result<(), TransferError>, id: Option<nat>, ghost a: Attempted)
      requires queue.Valid() && WillEndIn(goal, OnDisk(), hist, resumeOffset, attempt, slept, server, t)
      modifies this, queue
      ensures queue.Valid() && (id.Some? ==> id.value < |rows|)
      ensures a == Attempted(OnDisk(), id, outcome)
      ensures a == Attempt(old(OnDisk()), hist, server(attempt, resumeOffset), t)
      ensures outcome.Ok? ==>
        goal == Run(OnDisk(), id, outcome, attempt + 1, slept)
        && Agreed(outcome, id, rows, queue.entries, job.transferId)
      ensures outcome.Err? && attempt == |RETRY_DELAYS_SECS| ==>
        goal == Run(GiveUp(a), id, outcome, attempt + 1, slept)
    {
      ghost var d := OnDisk();
      outcome, id := RequestTransfer(job, hist, resumeOffset, server(attempt, resumeOffset), meanwhile, t);
      a := Attempted(OnDisk(), id, outcome);
      AfterAttempt(goal, a, d, hist, resumeOffset, attempt, slept, server, t);
    }

    /** The same with what is still to come: the run goes on from the next attempt. */
    method WaitOn(job: Job, hist: Option<nat>, resumeOffset: nat, meanwhile: seq<QueueOp>, ghost a: Attempted,
                  ghost goal: Run, ghost d: Disk, ghost h: Option<nat>, attempt: nat, ghost slept: nat, server: Server,
                  t: Tools) returns (next: nat)
      requires queue.Valid() && (hist.Some? ==> hist.value < |rows|) && a.disk == OnDisk() && a.hist == hist
      requires WillEndIn(goal, d, h, resumeOffset, attempt, slept, server, t) && attempt < |RETRY_DELAYS_SECS|
      requires a == Attempt(d, h, server(attempt, resumeOffset), t) && a.outcome.Err?
      modifies this, queue
      ensures queue.Valid()
      ensures WillEndIn(goal, OnDisk(), hist, next, attempt + 1, slept + RETRY_DELAYS_SECS[attempt], server, t)
    {
      next := Wait(job, hist, resumeOffset, meanwhile, a);
      AfterPause(goal, a, d, h, resumeOffset, attempt, slept, server, t, OnDisk(), next,
                 slept + RETRY_DELAYS_SECS[attempt]);
    }

    /** One round of the retry loop: an attempt, and what follows it. */
    method Round(job: Job, hist: Option<nat>, resumeOffset: nat, attempt: nat, others: Others, server: Server, t: Tools,
                 ghost goal: Run, ghost slept: nat)
      returns (outcome: Result<(), TransferError>, id: Option<nat>, next: nat, done: bool)
      requires queue.Valid() && WillEndIn(goal, OnDisk(), hist, resumeOffset, attempt, slept, server, t)
      modifies this, queue
      ensures queue.Valid() && (!done ==> attempt < |RETRY_DELAYS_SECS|)
      ensures done ==>
        goal == Run(OnDisk(), id, outcome, attempt + 1, slept)
        && Agreed(outcome, id, rows, queue.entries, job.transferId)
      ensures !done ==>
        WillEndIn(goal, OnDisk(), id, next, attempt + 1, slept + RETRY_DELAYS_SECS[attempt], server, t)
    {
      ghost var d, a := OnDisk(), Attempted(OnDisk(), hist, Err(IoError));
      next := resumeOffset;
      outcome, id, a := TryOnce(job, hist, resumeOffset, attempt, others.during(attempt), goal, slept, server, t);
      done := outcome.Ok? || attempt == |RETRY_DELAYS_SECS|;
      if !done {
        next := WaitOn(job, id, resumeOffset, others.asleep(attempt), a, goal, d, hist, attempt, slept, server, t);
      } else if outcome.Err? {
        Abandon(job, id, outcome.error, a);
      }
    }

    /** The retry loop: it ends as the run does that was still ahead. */
    method RetryLoop(job: Job, found: Option<nat>, startOffset: nat, server: Server, others: Others, t: Tools,
                     ghost goal: Run)
      returns (outcome: Result<(), TransferError>, ghost hist: Option<nat>, ghost attempts: nat, ghost slept: nat)
      requires queue.Valid() && WillEndIn(goal, OnDisk(), found, startOffset, 0, 0, server, t)
      requires forall op :: op in others.atEnd ==> op.Id() != job.transferId
      modifies this, queue
      ensures queue.Valid() && goal == Run(OnDisk(), hist, outcome, attempts, slept)
      ensures Agreed(outcome, hist, rows, queue.entries, job.transferId)
    {
      var histId, resumeOffset, attempt := found, startOffset, 0;
      slept := 0;
      var done := false;
      while true
        invariant queue.Valid()
        invariant WillEndIn(goal, OnDisk(), histId, resumeOffset, attempt, slept, server, t)
        decreases |RETRY_DELAYS_SECS| - attempt
      {
        outcome, histId, resumeOffset, done :=
          Round(job, histId, resumeOffset, attempt, others, server, t, goal, slept);
        if done {
          break;
        }
        slept, attempt := slept + RETRY_DELAYS_SECS[attempt], attempt + 1;
      }
      attempts, hist := attempt + 1, histId;
      InterleaveOthers(others.atEnd, job, outcome, hist);
    }

    /** Returns what `Request` says, whatever other tasks do meanwhile, and leaves row and queue entry, if
        it is still listed, in agreement. */
    method RequestTransferWithRetry(job: Job, server: Server, others: Others, t: Tools)
      returns (outcome: Result<(), TransferError>, ghost hist: Option<nat>, ghost attempts: nat, ghost slept: nat)
      requires queue.Valid() && forall op :: op in others.atEnd ==> op.Id() != job.transferId
      modifies this, queue
      ensures queue.Valid()
      ensures Run(OnDisk(), hist, outcome, attempts, slept) == Request(old(OnDisk()), server, t)
      ensures attempts <= 7 && slept <= 61
      ensures Agreed(outcome, hist, rows, queue.entries, job.transferId)
    {
      ghost var goal := Start(OnDisk(), server, t);
      var histId: Option<nat> := FindPartial(rows);
      var resumeOffset: nat := if histId.Some? then rows[histId.value].bytes else 0;
      outcome, hist, attempts, slept := RetryLoop(job, histId, resumeOffset, server, others, t, goal);
    }
  }

  ghost function Start(d: Disk, server: Server, t: Tools): (goal: Run)
    ensures goal == Request(d, server, t) && goal.attempts <= 7 && goal.slept <= 61
    ensures WillEndIn(goal, d, FindPartial(d.rows), StartOffset(d), 0, 0, server, t)
  {
    TransferSafety.RequestBounded(d, server, t);
    Request(d, server, t)
  }

  // ----- a connection cut at any byte is an honest server

  /** Sealing the sender's frames, cutting the byte stream anywhere and reading it back delivers what
      `Delivers` asks of a connection. */
  lemma CutConnectionDelivers(c: Framing.Cipher, nonce: nat, n: nat, remote: Bytes, name: string, offset: nat,
                              chunks: seq<Bytes>, t: Tools)
    requires c.Sound() && offset <= |remote| && IsChunking(chunks, remote[offset..])
    requires forall m :: m in Served(remote, name, offset, chunks, t) ==> |m| + 28 <= Framing.MAX_FRAME_BYTES
    requires var sealed := Framing.SealAll(c, nonce, Served(remote, name, offset, chunks, t));
      (forall p :: p in sealed ==> |p| <= Framing.MAX_FRAME_BYTES) ==> n <= |Framing.Wire(sealed)|
    ensures var sealed := Framing.SealAll(c, nonce, Served(remote, name, offset, chunks, t));
      (forall p :: p in sealed ==> |p| <= Framing.MAX_FRAME_BYTES)
      && TransferSafety.Delivers(Some(Framing.OpenAll(c, Framing.Wire(sealed)[..n])), remote, name, offset, t)
  {
    var k := Framing.CutSessionDeliversPrefix(c, nonce, Served(remote, name, offset, chunks, t), n);
  }
}
