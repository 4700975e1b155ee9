/** The resumable pull of transfer.rs as functions of what is on disk and what arrives.

    One local path, one peer and one remote path are fixed. A connection delivers a list of decrypted
    frames and then ends; `Framing.CutSessionDeliversPrefix` shows that a byte stream cut anywhere
    delivers exactly such a list. Writes reach the file at once and database calls succeed. */
module TransferModel {
  import opened Wrappers
  import Framing

  type Bytes = seq<Framing.byte>

  const RETRY_DELAYS_SECS: seq<nat> := [1, 2, 4, 8, 16, 30]

  datatype Msg =
    | TransferStart(filename: string, size: nat, resumeOffset: nat)
    | TransferComplete(checksum: string)
    | ErrorMsg(code: string)
    | OtherMsg

  /** The JSON encoding of control messages and the file checksum. */
  datatype Tools = Tools(encode: Msg -> Bytes, decode: Bytes -> Option<Msg>, hash: Bytes -> string)
  {
    ghost predicate Faithful() {
      forall m :: decode(encode(m)) == Some(m)
    }
  }

  datatype TransferError = IoError | JsonError | AccessDenied | InvalidOffset | Checksum | Protocol

  // ----- sender

  function Concat(chunks: seq<Bytes>): Bytes {
    if chunks == [] then [] else chunks[0] + Concat(chunks[1..])
  }

  ghost predicate IsChunking(chunks: seq<Bytes>, data: Bytes) {
    Concat(chunks) == data && forall c :: c in chunks ==> 0 < |c| <= 65536
  }

  /** An answer: what is announced, the chunks read, and the checksum. */
  function Sent(name: string, size: nat, offset: nat, chunks: seq<Bytes>, checksum: string, t: Tools): seq<Bytes> {
    [t.encode(TransferStart(name, size, offset))] + chunks + [t.encode(TransferComplete(checksum))]
  }

  /** The frames `serve_one_file` sends for a file that stays as it is, cut into `chunks`. */
  function Served(content: Bytes, name: string, offset: nat, chunks: seq<Bytes>, t: Tools): seq<Bytes> {
    if offset > |content| then [t.encode(ErrorMsg("invalid_offset"))]
    else Sent(name, |content|, offset, chunks, t.hash(content), t)
  }

  lemma {:induction false} ConcatSnoc(chunks: seq<Bytes>, c: Bytes)
    ensures Concat(chunks + [c]) == Concat(chunks) + c
  {
    if chunks == [] {
      assert chunks + [c] == [c] && Concat([c]) == c + Concat([c][1..]);
    } else {
      assert (chunks + [c])[1..] == chunks[1..] + [c];
      ConcatSnoc(chunks[1..], c);
    }
  }

  /** The reads before the first empty one. */
  function UntilEmpty(buffers: seq<Bytes>): seq<Bytes> {
    if buffers == [] || buffers[0] == [] then [] else [buffers[0]] + UntilEmpty(buffers[1..])
  }

  lemma {:induction false} UntilEmptyAt(buffers: seq<Bytes>, i: nat)
    requires i <= |buffers| && forall j :: 0 <= j < i ==> buffers[j] != []
    ensures UntilEmpty(buffers) == buffers[..i] + UntilEmpty(buffers[i..])
  {
    if i > 0 {
      UntilEmptyAt(buffers[1..], i - 1);
      assert buffers[1..][i - 1..] == buffers[i..];
      assert buffers[..i] == [buffers[0]] + buffers[1..][..i - 1];
    }
  }

  /** The three looks at the file agree. */
  predicate StaysAsItIs(size: nat, hashed: Bytes, offset: nat, chunks: seq<Bytes>) {
    size == |hashed| && (offset <= size ==> Concat(chunks) == hashed[offset..])
  }

  /** `serve_one_file`. The size, the content that is hashed and the content that is read are looked at one
      after the other, so a file that is written meanwhile can give three different views. `buffers` is what
      the successive reads return. */
  method ServeOneFile(allowed: bool, readable: bool, size: nat, hashed: Bytes, buffers: seq<Bytes>, name: string,
                      resumeOffset: nat, t: Tools)
    returns (frames: seq<Bytes>)
    requires forall r :: r in buffers ==> |r| <= 65536
    ensures !(allowed && readable) ==> frames == [t.encode(ErrorMsg("access_denied"))]
    ensures allowed && readable && resumeOffset > size ==> frames == [t.encode(ErrorMsg("invalid_offset"))]
    ensures allowed && readable && resumeOffset <= size ==>
      frames == Sent(name, size, resumeOffset, UntilEmpty(buffers), t.hash(hashed), t)
    ensures allowed && readable && StaysAsItIs(size, hashed, resumeOffset, UntilEmpty(buffers)) ==>
      frames == Served(hashed, name, resumeOffset, UntilEmpty(buffers), t)
      && (resumeOffset <= size ==> IsChunking(UntilEmpty(buffers), hashed[resumeOffset..]))
  {
    if !allowed || !readable {
      return [t.encode(ErrorMsg("access_denied"))];
    }
    if resumeOffset > size {
      return [t.encode(ErrorMsg("invalid_offset"))];
    }
    var checksum := t.hash(hashed);
    var start := t.encode(TransferStart(name, size, resumeOffset));
    frames := [start];
    var i := 0;
    while i < |buffers|
      invariant 0 <= i <= |buffers| && frames == [start] + buffers[..i]
      invariant forall j :: 0 <= j < i ==> buffers[j] != []
    {
      if buffers[i] == [] {
        break;
      }
      frames := frames + [buffers[i]];
      i := i + 1;
    }
    UntilEmptyAt(buffers, i);
    assert UntilEmpty(buffers) == buffers[..i];
    frames := frames + [t.encode(TransferComplete(checksum))];
  }

  // ----- receiver

  datatype RowStatus = InProgress | Partial | Complete | Failed

  /** A history row of this peer and path. */
  datatype Row = Row(bytes: nat, status: RowStatus)

  /** What survives the process: the local file and the history rows, oldest first. */
  datatype Disk = Disk(file: Option<Bytes>, rows: seq<Row>)

  function Zeros(n: nat): Bytes { seq(n, _ => 0) }

  /** Writing at a position overwrites, extends, or leaves a hole of zeros before it. */
  function WriteAt(f: Bytes, pos: nat, data: Bytes): Bytes {
    (if pos <= |f| then f[..pos] else f + Zeros(pos - |f|)) + data
      + (if pos + |data| < |f| then f[pos + |data|..] else [])
  }

  function FileOf(d: Disk): Bytes {
    if d.file.Some? then d.file.value else []
  }

  /** Created when missing, emptied when the transfer starts at 0. */
  function Open(d: Disk, offset: nat): Disk {
    d.(file := Some(if offset == 0 then [] else FileOf(d)))
  }

  /** The row this attempt uses, and the rows with it in progress. */
  function UseRow(rows: seq<Row>, hist: Option<nat>, offset: nat): (nat, seq<Row>)
    requires hist.Some? ==> hist.value < |rows|
  {
    if hist.Some? then (hist.value, rows[hist.value := rows[hist.value].(status := InProgress)])
    else (|rows|, rows + [Row(offset, InProgress)])
  }

  function AfterWrite(d: Disk, bytes: nat, chunk: Bytes): Disk {
    d.(file := Some(WriteAt(FileOf(d), bytes, chunk)))
  }

  function AfterChunk(d: Disk, id: nat, bytes: nat, chunk: Bytes): Disk
    requires id < |d.rows|
  {
    AfterWrite(d, bytes, chunk).(rows := d.rows[id := Row(bytes + |chunk|, InProgress)])
  }

  datatype Received = Received(disk: Disk, bytes: nat, rest: seq<Bytes>, lost: bool)

  /** The loop over data frames: it ends at the announced size, at an empty frame, or at the end of
      the connection. */
  function Receive(d: Disk, id: nat, bytes: nat, size: nat, frames: seq<Bytes>): (r: Received)
    requires id < |d.rows|
    ensures |r.disk.rows| == |d.rows|
    decreases |frames|
  {
    if bytes >= size then Received(d, bytes, frames, false)
    else if frames == [] then Received(d, bytes, [], true)
    else if frames[0] == [] then Received(d, bytes, frames[1..], false)
    else Receive(AfterChunk(d, id, bytes, frames[0]), id, bytes + |frames[0]|, size, frames[1..])
  }

  /** One round of the loop. */
  lemma ReceiveStep(d: Disk, id: nat, bytes: nat, size: nat, frames: seq<Bytes>)
    requires id < |d.rows| && bytes < size && frames != [] && frames[0] != []
    ensures Receive(d, id, bytes, size, frames)
         == Receive(AfterChunk(d, id, bytes, frames[0]), id, bytes + |frames[0]|, size, frames[1..])
  {
  }

  datatype Attempted = Attempted(disk: Disk, hist: Option<nat>, outcome: Result<(), TransferError>)

  /** The end of an attempt: the control frame and the checksum. */
  function Finish(r: Received, id: nat, t: Tools): Attempted
    requires id < |r.disk.rows|
  {
    if r.lost || r.rest == [] then Attempted(r.disk, Some(id), Err(IoError))
    else
      match t.decode(r.rest[0])
      case None => Attempted(r.disk, Some(id), Err(JsonError))
      case Some(TransferComplete(checksum)) =>
        if t.hash(FileOf(r.disk)) == checksum then
          Attempted(r.disk.(rows := r.disk.rows[id := Row(r.bytes, Complete)]), Some(id), Ok(()))
        else
          Attempted(Disk(None, r.disk.rows[id := Row(0, RowStatus.Failed)]), Some(id), Err(Checksum))
      case Some(_) => Attempted(r.disk, Some(id), Err(Protocol))
  }

  function ErrorOf(code: string): TransferError {
    if code == "access_denied" then AccessDenied
    else if code == "invalid_offset" then InvalidOffset
    else Protocol
  }

  /** `request_transfer`; no connection at all is `None`. */
  function Attempt(d: Disk, hist: Option<nat>, conn: Option<seq<Bytes>>, t: Tools): Attempted
    requires hist.Some? ==> hist.value < |d.rows|
  {
    if conn.None? || conn.value == [] then Attempted(d, hist, Err(IoError))
    else
      match t.decode(conn.value[0])
      case None => Attempted(d, hist, Err(JsonError))
      case Some(ErrorMsg(code)) => Attempted(d, hist, Err(ErrorOf(code)))
      case Some(TransferStart(_, size, offset)) =>
        var (id, rows) := UseRow(d.rows, hist, offset);
        Finish(Receive(Open(d, offset).(rows := rows), id, offset, size, conn.value[1..]), id, t)
      case Some(_) => Attempted(d, hist, Err(Protocol))
  }

  // ----- retries

  datatype Run = Run(disk: Disk, hist: Option<nat>, outcome: Result<(), TransferError>, attempts: nat, slept: nat)

  /** What a server delivers for the n-th attempt at a resume offset, before the connection ends. */
  type Server = (nat, nat) -> Option<seq<Bytes>>

  function Pause(a: Attempted): Disk
    requires a.hist.Some? ==> a.hist.value < |a.disk.rows|
  {
    if a.hist.None? then a.disk
    else a.disk.(rows := a.disk.rows[a.hist.value := a.disk.rows[a.hist.value].(status := Partial)])
  }

  function GiveUp(a: Attempted): Disk
    requires a.hist.Some? ==> a.hist.value < |a.disk.rows|
  {
    if a.hist.None? then a.disk
    else a.disk.(rows := a.disk.rows[a.hist.value := a.disk.rows[a.hist.value].(status := RowStatus.Failed)])
  }

  function NextOffset(a: Attempted, offset: nat): nat
    requires a.hist.Some? ==> a.hist.value < |a.disk.rows|
  {
    if a.hist.Some? then a.disk.rows[a.hist.value].bytes else offset
  }

  lemma AttemptRows(d: Disk, hist: Option<nat>, conn: Option<seq<Bytes>>, t: Tools)
    requires hist.Some? ==> hist.value < |d.rows|
    ensures var a := Attempt(d, hist, conn, t);
      (a.hist.Some? ==> a.hist.value < |a.disk.rows|) && (hist.Some? ==> a.hist == hist)
      && (a.outcome.Ok? ==> a.hist.Some?)
  {
  }

  /** The loop of `request_transfer_with_retry` from one attempt on. */
  function Retry(d: Disk, hist: Option<nat>, offset: nat, attempt: nat, server: Server, t: Tools): Run
    requires hist.Some? ==> hist.value < |d.rows|
    requires attempt <= |RETRY_DELAYS_SECS|
    decreases |RETRY_DELAYS_SECS| - attempt, d
  {
    AttemptRows(d, hist, server(attempt, offset), t);
    var a := Attempt(d, hist, server(attempt, offset), t);
    if a.outcome.Ok? then Run(a.disk, a.hist, a.outcome, 1, 0)
    else if attempt < |RETRY_DELAYS_SECS| then
      var r := Retry(Pause(a), a.hist, NextOffset(a, offset), attempt + 1, server, t);
      r.(attempts := r.attempts + 1, slept := r.slept + RETRY_DELAYS_SECS[attempt])
    else Run(GiveUp(a), a.hist, a.outcome, 1, 0)
  }

  /** One round of the retry loop. */
  lemma RetryStep(a: Attempted, d: Disk, hist: Option<nat>, offset: nat, attempt: nat, server: Server, t: Tools)
    requires (hist.Some? ==> hist.value < |d.rows|) && attempt <= |RETRY_DELAYS_SECS|
    requires a == Attempt(d, hist, server(attempt, offset), t) && (a.hist.Some? ==> a.hist.value < |a.disk.rows|)
    ensures Retry(d, hist, offset, attempt, server, t)
         == if a.outcome.Ok? then Run(a.disk, a.hist, a.outcome, 1, 0)
            else if attempt == |RETRY_DELAYS_SECS| then Run(GiveUp(a), a.hist, a.outcome, 1, 0)
            else var r := Retry(Pause(a), a.hist, NextOffset(a, offset), attempt + 1, server, t);
                 r.(attempts := r.attempts + 1, slept := r.slept + RETRY_DELAYS_SECS[attempt])
  {
  }

  /** With `attempt` attempts and `slept` seconds behind it, the loop still has `Retry` to do and will
      end in `goal`. */
  ghost predicate WillEndIn(goal: Run, d: Disk, hist: Option<nat>, offset: nat, attempt: nat, slept: nat,
                            server: Server, t: Tools) {
    && (hist.Some? ==> hist.value < |d.rows|) && attempt <= |RETRY_DELAYS_SECS|
    && var r := Retry(d, hist, offset, attempt, server, t);
       goal == r.(attempts := attempt + r.attempts, slept := slept + r.slept)
  }

  lemma AfterAttempt(goal: Run, a: Attempted, d: Disk, hist: Option<nat>, offset: nat, attempt: nat, slept: nat,
                     server: Server, t: Tools)
    requires WillEndIn(goal, d, hist, offset, attempt, slept, server, t)
    requires a == Attempt(d, hist, server(attempt, offset), t)
    ensures (a.hist.Some? ==> a.hist.value < |a.disk.rows|) && (a.outcome.Ok? ==> a.hist.Some?)
    ensures a.outcome.Ok? ==> goal == Run(a.disk, a.hist, a.outcome, attempt + 1, slept)
    ensures a.outcome.Err? && attempt == |RETRY_DELAYS_SECS| ==>
      goal == Run(GiveUp(a), a.hist, a.outcome, attempt + 1, slept)
  {
    AttemptRows(d, hist, server(attempt, offset), t);
  }

  lemma AfterPause(goal: Run, a: Attempted, d: Disk, hist: Option<nat>, offset: nat, attempt: nat, slept: nat,
                   server: Server, t: Tools,
                   d': Disk, offset': nat, slept': nat)
    requires WillEndIn(goal, d, hist, offset, attempt, slept, server, t)
    requires a == Attempt(d, hist, server(attempt, offset), t) && a.outcome.Err? && attempt < |RETRY_DELAYS_SECS|
    requires a.hist.Some? ==> a.hist.value < |a.disk.rows|
    requires d' == Pause(a) && offset' == NextOffset(a, offset) && slept' == slept + RETRY_DELAYS_SECS[attempt]
    ensures WillEndIn(goal, d', a.hist, offset', attempt + 1, slept', server, t)
  {
  }

  /** `find_partial_transfer`: the most recent row left partial. */
  function FindPartial(rows: seq<Row>): (r: Option<nat>)
    ensures r.Some? ==> r.value < |rows| && rows[r.value].status == Partial
    ensures forall i :: (if r.Some? then r.value + 1 else 0) <= i < |rows| ==> rows[i].status != Partial
  {
    if rows == [] then None
    else if rows[|rows| - 1].status == Partial then Some(|rows| - 1)
    else FindPartial(rows[..|rows| - 1])
  }

  function StartOffset(d: Disk): nat {
    var hist := FindPartial(d.rows);
    if hist.Some? then d.rows[hist.value].bytes else 0
  }

  /** A whole call of `request_transfer_with_retry`. */
  function Request(d: Disk, server: Server, t: Tools): Run {
    Retry(d, FindPartial(d.rows), StartOffset(d), 0, server, t)
  }

  // ----- every state the disk passes through, with the row in use

  datatype Moment = Moment(disk: Disk, active: Option<nat>)

  function ReceiveMoments(d: Disk, id: nat, bytes: nat, size: nat, frames: seq<Bytes>): seq<Moment>
    requires id < |d.rows|
    decreases |frames|
  {
    if bytes >= size || frames == [] || frames[0] == [] then []
    else
      var next := AfterChunk(d, id, bytes, frames[0]);
      [Moment(AfterWrite(d, bytes, frames[0]), Some(id)), Moment(next, Some(id))]
        + ReceiveMoments(next, id, bytes + |frames[0]|, size, frames[1..])
  }

  predicate Starts(conn: Option<seq<Bytes>>, t: Tools) {
    conn.Some? && conn.value != [] && t.decode(conn.value[0]).Some? && t.decode(conn.value[0]).value.TransferStart?
  }

  function AttemptMoments(d: Disk, hist: Option<nat>, conn: Option<seq<Bytes>>, t: Tools): seq<Moment>
    requires hist.Some? ==> hist.value < |d.rows|
  {
    if !Starts(conn, t) then []
    else
      var start := t.decode(conn.value[0]).value;
      var (id, rows) := UseRow(d.rows, hist, start.resumeOffset);
      var emptied := Open(d, start.resumeOffset);
      var a := Attempt(d, hist, conn, t);
      var r := Receive(emptied.(rows := rows), id, start.resumeOffset, start.size, conn.value[1..]);
      [Moment(emptied, hist), Moment(emptied.(rows := rows), Some(id))]
        + ReceiveMoments(emptied.(rows := rows), id, start.resumeOffset, start.size, conn.value[1..])
        + (if a.outcome == Err(Checksum) then [Moment(r.disk.(file := None), Some(id))] else [])
        + [Moment(a.disk, Some(id))]
  }

  function RetryMoments(d: Disk, hist: Option<nat>, offset: nat, attempt: nat, server: Server, t: Tools): seq<Moment>
    requires hist.Some? ==> hist.value < |d.rows|
    requires attempt <= |RETRY_DELAYS_SECS|
    decreases |RETRY_DELAYS_SECS| - attempt, d
  {
    AttemptRows(d, hist, server(attempt, offset), t);
    var a := Attempt(d, hist, server(attempt, offset), t);
    AttemptMoments(d, hist, server(attempt, offset), t)
      + (if a.outcome.Ok? then []
         else if attempt < |RETRY_DELAYS_SECS| then
           [Moment(Pause(a), a.hist)] + RetryMoments(Pause(a), a.hist, NextOffset(a, offset), attempt + 1, server, t)
         else [Moment(GiveUp(a), a.hist)])
  }

  function Moments(d: Disk, server: Server, t: Tools): seq<Moment> {
    RetryMoments(d, FindPartial(d.rows), StartOffset(d), 0, server, t)
  }

  /** A call that runs to its end, or a process killed at one of the states it passes through. */
  datatype Episode = Episode(server: Server, killedAt: Option<nat>)

  function AfterEpisode(d: Disk, e: Episode, t: Tools): Disk {
    var moments := Moments(d, e.server, t);
    if e.killedAt.Some? && e.killedAt.value < |moments| then moments[e.killedAt.value].disk
    else Request(d, e.server, t).disk
  }

  function AfterEpisodes(d: Disk, es: seq<Episode>, t: Tools): Disk
    decreases |es|
  {
    if es == [] then d else AfterEpisodes(AfterEpisode(d, es[0], t), es[1..], t)
  }
}
