/** What holds over whole runs of the resumable pull. */
module TransferSafety {
  import opened Sequences
  import opened Wrappers
  import opened TransferModel

  // ----- one unchanging remote file, connections that may drop anywhere, processes that may be killed

  /** The local file is a prefix of the remote one, the row in use records no more than is there, and
      no other row is left to resume from. */
  ghost predicate Good(d: Disk, remote: Bytes, active: Option<nat>) {
    && FileOf(d) <= remote
    && (active.Some? ==> active.value < |d.rows| && d.rows[active.value].bytes <= |FileOf(d)|)
    && (forall i :: 0 <= i < |d.rows| && d.rows[i].status == Partial ==> active == Some(i))
  }

  /** Safe at every one of these moments. */
  ghost predicate AllGood(ms: seq<Moment>, remote: Bytes) {
    forall i :: 0 <= i < |ms| ==> Good(ms[i].disk, remote, ms[i].active)
  }

  lemma AllGoodAppend(a: seq<Moment>, b: seq<Moment>, remote: Bytes)
    requires AllGood(a, remote) && AllGood(b, remote)
    ensures AllGood(a + b, remote)
  {
  }

  /** Every answer is what `serve_one_file` sends for the remote file, cut off somewhere. */
  ghost predicate Honest(server: Server, remote: Bytes, name: string, t: Tools) {
    forall n, offset :: Delivers(server(n, offset), remote, name, offset, t)
  }

  ghost predicate Delivers(conn: Option<seq<Bytes>>, remote: Bytes, name: string, offset: nat, t: Tools) {
    conn.Some? && offset <= |remote| ==>
      exists chunks :: IsChunking(chunks, remote[offset..]) && conn.value <= Served(remote, name, offset, chunks, t)
  }

  /** The whole answer arrives. */
  ghost predicate DeliversAll(conn: Option<seq<Bytes>>, remote: Bytes, name: string, offset: nat, t: Tools) {
    conn.Some? && offset <= |remote| &&
    exists chunks :: IsChunking(chunks, remote[offset..]) && conn.value == Served(remote, name, offset, chunks, t)
  }

  /** Writing the next bytes of the remote file over a prefix of it gives a prefix of it. */
  lemma WriteKeepsPrefix(f: Bytes, remote: Bytes, pos: nat, data: Bytes)
    requires f <= remote && pos <= |f| && pos + |data| <= |remote| && data == remote[pos..pos + |data|]
    ensures WriteAt(f, pos, data) == remote[..if |f| < pos + |data| then pos + |data| else |f|]
  {
    var n := pos + |data|;
    assert f == remote[..|f|];
    assert f[..pos] == remote[..pos];
    assert remote[..pos] + data == remote[..n];
    if n < |f| {
      assert remote[..n] + f[n..] == remote[..|f|];
    }
  }

  lemma ChunkGood(d: Disk, id: nat, bytes: nat, chunk: Bytes, remote: Bytes)
    requires Good(d, remote, Some(id)) && bytes <= |FileOf(d)|
    requires bytes + |chunk| <= |remote| && chunk == remote[bytes..bytes + |chunk|]
    ensures Good(AfterWrite(d, bytes, chunk), remote, Some(id))
    ensures Good(AfterChunk(d, id, bytes, chunk), remote, Some(id))
    ensures bytes + |chunk| <= |FileOf(AfterChunk(d, id, bytes, chunk))|
  {
    WriteKeepsPrefix(FileOf(d), remote, bytes, chunk);
  }

  lemma FirstChunk(chunks: seq<Bytes>, data: Bytes)
    requires chunks != [] && IsChunking(chunks, data)
    ensures |chunks[0]| <= |data| && chunks[0] == data[..|chunks[0]|] && |chunks[0]| > 0
    ensures IsChunking(chunks[1..], data[|chunks[0]|..])
  {
    assert chunks[0] in chunks;
    assert data == chunks[0] + Concat(chunks[1..]);
    assert forall c :: c in chunks[1..] ==> c in chunks;
  }

  lemma NoMoreChunks(chunks: seq<Bytes>, data: Bytes)
    requires IsChunking(chunks, data) && data == []
    ensures chunks == []
  {
  }

  /** `frames` is the rest of an answer, cut off somewhere. */
  ghost predicate RestOfAnswer(frames: seq<Bytes>, chunks: seq<Bytes>, control: Bytes, remote: Bytes, bytes: nat) {
    bytes <= |remote| && IsChunking(chunks, remote[bytes..]) && frames <= chunks + [control]
  }

  /** While bytes are missing, the next frame is the next chunk. */
  lemma NextFrame(frames: seq<Bytes>, chunks: seq<Bytes>, control: Bytes, remote: Bytes, bytes: nat)
    requires RestOfAnswer(frames, chunks, control, remote, bytes) && bytes < |remote|
    ensures chunks != []
    ensures frames != [] ==>
      var c := frames[0];
      c == chunks[0] && c != [] && bytes + |c| <= |remote| && c == remote[bytes..bytes + |c|]
      && RestOfAnswer(frames[1..], chunks[1..], control, remote, bytes + |c|)
  {
    assert |remote[bytes..]| > 0 && Concat([]) == [];
    FirstChunk(chunks, remote[bytes..]);
    if frames != [] {
      var c := chunks[0];
      assert frames[0] == (chunks + [control])[0] == c;
      assert remote[bytes..][|c|..] == remote[bytes + |c|..];
      assert (chunks + [control])[1..] == chunks[1..] + [control];
    }
  }

  /** The data loop ended well: when it was not cut off, the whole file is there and the next frame is
      the control frame. */
  ghost predicate ReceivedWell(r: Received, frames: seq<Bytes>, chunks: seq<Bytes>, remote: Bytes, id: nat) {
    && Good(r.disk, remote, Some(id))
    && (if r.lost then |frames| < |chunks|
        else r.bytes == |remote| && FileOf(r.disk) == remote && |chunks| <= |frames| && r.rest == frames[|chunks|..])
  }

  lemma WellShift(r: Received, frames: seq<Bytes>, chunks: seq<Bytes>, remote: Bytes, id: nat)
    requires frames != [] && chunks != [] && ReceivedWell(r, frames[1..], chunks[1..], remote, id)
    ensures ReceivedWell(r, frames, chunks, remote, id)
  {
  }

  lemma RoundKeeps(d: Disk, id: nat, bytes: nat, remote: Bytes, chunks: seq<Bytes>, control: Bytes, frames: seq<Bytes>)
    returns (next: Disk, n: nat)
    requires Good(d, remote, Some(id)) && bytes <= |FileOf(d)| && bytes < |remote| && frames != []
    requires RestOfAnswer(frames, chunks, control, remote, bytes)
    ensures chunks != [] && frames[0] != []
    ensures next == AfterChunk(d, id, bytes, frames[0]) && n == bytes + |frames[0]|
    ensures Good(next, remote, Some(id)) && n <= |FileOf(next)|
    ensures RestOfAnswer(frames[1..], chunks[1..], control, remote, n)
  {
    NextFrame(frames, chunks, control, remote, bytes);
    ChunkGood(d, id, bytes, frames[0], remote);
    next, n := AfterChunk(d, id, bytes, frames[0]), bytes + |frames[0]|;
  }

  /** One round of the data loop. */
  lemma RoundOfLoop(d: Disk, id: nat, bytes: nat, remote: Bytes, chunks: seq<Bytes>, control: Bytes, frames: seq<Bytes>)
    returns (next: Disk, n: nat)
    requires Good(d, remote, Some(id)) && bytes <= |FileOf(d)| && bytes < |remote| && frames != []
    requires RestOfAnswer(frames, chunks, control, remote, bytes)
    ensures chunks != [] && Good(next, remote, Some(id)) && n <= |FileOf(next)|
    ensures RestOfAnswer(frames[1..], chunks[1..], control, remote, n)
    ensures Receive(d, id, bytes, |remote|, frames) == Receive(next, id, n, |remote|, frames[1..])
  {
    next, n := RoundKeeps(d, id, bytes, remote, chunks, control, frames);
    ReceiveStep(d, id, bytes, |remote|, frames);
  }

  /** Nothing is missing, or nothing more arrives. */
  lemma LoopEnds(d: Disk, id: nat, bytes: nat, remote: Bytes, chunks: seq<Bytes>, control: Bytes, frames: seq<Bytes>)
    requires Good(d, remote, Some(id)) && bytes <= |FileOf(d)| && (bytes == |remote| || frames == [])
    requires RestOfAnswer(frames, chunks, control, remote, bytes)
    ensures ReceivedWell(Received(d, bytes, frames, bytes < |remote|), frames, chunks, remote, id)
  {
    if bytes < |remote| {
      NextFrame(frames, chunks, control, remote, bytes);
    } else {
      assert FileOf(d) == remote;
      NoMoreChunks(chunks, remote[bytes..]);
    }
  }

  /** The data loop on a cut-off answer. */
  lemma {:induction false} ReceiveGood(d: Disk, id: nat, bytes: nat, remote: Bytes, chunks: seq<Bytes>, control: Bytes,
                                       frames: seq<Bytes>) returns (r: Received)
    requires Good(d, remote, Some(id)) && bytes <= |FileOf(d)|
    requires RestOfAnswer(frames, chunks, control, remote, bytes)
    ensures r == Receive(d, id, bytes, |remote|, frames) && ReceivedWell(r, frames, chunks, remote, id)
    decreases |frames|
  {
    if bytes == |remote| || frames == [] {
      LoopEnds(d, id, bytes, remote, chunks, control, frames);
      r := Received(d, bytes, frames, bytes < |remote|);
    } else {
      var next, n := RoundOfLoop(d, id, bytes, remote, chunks, control, frames);
      r := ReceiveGood(next, id, n, remote, chunks[1..], control, frames[1..]);
      WellShift(r, frames, chunks, remote, id);
    }
  }

  lemma TwoGood(a: Disk, b: Disk, id: nat, rest: seq<Moment>, remote: Bytes)
    requires Good(a, remote, Some(id)) && Good(b, remote, Some(id)) && AllGood(rest, remote)
    ensures AllGood([Moment(a, Some(id)), Moment(b, Some(id))] + rest, remote)
  {
    var first := [Moment(a, Some(id)), Moment(b, Some(id))];
    AllGoodAppend(first, rest, remote);
  }

  /** Each frame the data loop will read continues the file where the last one ended. */
  ghost predicate Continues(frames: seq<Bytes>, remote: Bytes, bytes: nat)
    decreases |frames|
  {
    bytes < |remote| && frames != [] ==>
      var n := bytes + |frames[0]|;
      bytes < n <= |remote| && frames[0] == remote[bytes..n] && Continues(frames[1..], remote, n)
  }

  lemma {:induction false} AnswerContinues(frames: seq<Bytes>, chunks: seq<Bytes>, control: Bytes, remote: Bytes,
                                           bytes: nat)
    requires RestOfAnswer(frames, chunks, control, remote, bytes)
    ensures Continues(frames, remote, bytes)
    decreases |frames|
  {
    if bytes < |remote| && frames != [] {
      NextFrame(frames, chunks, control, remote, bytes);
      AnswerContinues(frames[1..], chunks[1..], control, remote, bytes + |frames[0]|);
    }
  }

  lemma {:induction false} ReceiveMomentsGood(d: Disk, id: nat, bytes: nat, remote: Bytes, frames: seq<Bytes>)
    requires Good(d, remote, Some(id)) && bytes <= |FileOf(d)| && Continues(frames, remote, bytes)
    ensures AllGood(ReceiveMoments(d, id, bytes, |remote|, frames), remote)
    decreases |frames|
  {
    if bytes < |remote| && frames != [] {
      var n := bytes + |frames[0]|;
      var written, next := AfterWrite(d, bytes, frames[0]), AfterChunk(d, id, bytes, frames[0]);
      ChunkGood(d, id, bytes, frames[0], remote);
      ReceiveMomentsGood(next, id, n, remote, frames[1..]);
      TwoGood(written, next, id, ReceiveMoments(next, id, n, |remote|, frames[1..]), remote);
    }
  }

  /** The row and offset with which an attempt starts. */
  ghost predicate Ready(d: Disk, remote: Bytes, hist: Option<nat>, offset: nat) {
    Good(d, remote, hist) && offset == if hist.Some? then d.rows[hist.value].bytes else 0
  }

  lemma OpenGood(d: Disk, remote: Bytes, hist: Option<nat>, offset: nat)
    requires Ready(d, remote, hist, offset)
    ensures Good(Open(d, offset), remote, hist) && offset <= |FileOf(Open(d, offset))| && offset <= |remote|
    ensures var (id, rows) := UseRow(d.rows, hist, offset); Good(Open(d, offset).(rows := rows), remote, Some(id))
  {
  }

  /** What a cut-off answer looks like to the receiver. */
  lemma AnswerShape(remote: Bytes, name: string, offset: nat, chunks: seq<Bytes>, frames: seq<Bytes>, t: Tools)
    requires t.Faithful() && offset <= |remote| && frames != [] && frames <= Served(remote, name, offset, chunks, t)
    ensures t.decode(frames[0]) == Some(TransferStart(name, |remote|, offset))
    ensures frames[1..] <= chunks + [t.encode(TransferComplete(t.hash(remote)))]
    ensures frames == Served(remote, name, offset, chunks, t) <==> |frames| == |chunks| + 2
  {
    var all := Served(remote, name, offset, chunks, t);
    assert frames[0] == all[0];
    assert all[1..] == chunks + [t.encode(TransferComplete(t.hash(remote)))];
    assert frames[1..] == all[..|frames|][1..] == all[1..][..|frames| - 1];
    assert |frames| == |all| ==> frames == all;
  }

  lemma AttemptGood(d: Disk, remote: Bytes, name: string, hist: Option<nat>, offset: nat, frames: seq<Bytes>,
                    chunks: seq<Bytes>, t: Tools)
    requires t.Faithful() && Ready(d, remote, hist, offset) && offset <= |remote| && frames != []
    requires IsChunking(chunks, remote[offset..]) && frames <= Served(remote, name, offset, chunks, t)
    ensures var a := Attempt(d, hist, Some(frames), t);
      && a.hist.Some? && Good(a.disk, remote, a.hist)
      && (a.outcome.Ok? <==> frames == Served(remote, name, offset, chunks, t))
      && (a.outcome.Ok? ==> FileOf(a.disk) == remote && a.disk.rows[a.hist.value] == Row(|remote|, Complete))
      && (a.outcome.Err? ==> a.outcome.error == IoError)
  {
    var control := t.encode(TransferComplete(t.hash(remote)));
    AnswerShape(remote, name, offset, chunks, frames, t);
    OpenGood(d, remote, hist, offset);
    var (id, rows) := UseRow(d.rows, hist, offset);
    var start := Open(d, offset).(rows := rows);
    var r := ReceiveGood(start, id, offset, remote, chunks, control, frames[1..]);
    if !r.lost && r.rest != [] {
      assert r.rest[0] == (chunks + [control])[|chunks|] == control;
    }
  }

  lemma Bracketed(a: Moment, b: Moment, middle: seq<Moment>, z: Moment, remote: Bytes)
    requires Good(a.disk, remote, a.active) && Good(b.disk, remote, b.active) && Good(z.disk, remote, z.active)
    requires AllGood(middle, remote)
    ensures AllGood([a, b] + middle + [z], remote)
  {
  }

  /** The disks the data loop passes through. */
  lemma StartedGood(d: Disk, remote: Bytes, name: string, hist: Option<nat>, offset: nat, frames: seq<Bytes>,
                    chunks: seq<Bytes>, t: Tools)
    requires t.Faithful() && Ready(d, remote, hist, offset) && offset <= |remote| && frames != []
    requires IsChunking(chunks, remote[offset..]) && frames <= Served(remote, name, offset, chunks, t)
    ensures var (id, rows) := UseRow(d.rows, hist, offset);
      AllGood(ReceiveMoments(Open(d, offset).(rows := rows), id, offset, |remote|, frames[1..]), remote)
  {
    AnswerShape(remote, name, offset, chunks, frames, t);
    OpenGood(d, remote, hist, offset);
    AnswerContinues(frames[1..], chunks, t.encode(TransferComplete(t.hash(remote))), remote, offset);
    var (id, rows) := UseRow(d.rows, hist, offset);
    ReceiveMomentsGood(Open(d, offset).(rows := rows), id, offset, remote, frames[1..]);
  }

  lemma StartMoments(d: Disk, hist: Option<nat>, frames: seq<Bytes>, name: string, size: nat, offset: nat, t: Tools)
    requires (hist.Some? ==> hist.value < |d.rows|) && frames != []
    requires t.decode(frames[0]) == Some(TransferStart(name, size, offset))
    ensures var (id, rows) := UseRow(d.rows, hist, offset);
      var start := Open(d, offset).(rows := rows);
      (Attempt(d, hist, Some(frames), t).outcome != Err(Checksum) ==>
        AttemptMoments(d, hist, Some(frames), t)
          == [Moment(Open(d, offset), hist), Moment(start, Some(id))]
            + ReceiveMoments(start, id, offset, size, frames[1..])
            + [Moment(Attempt(d, hist, Some(frames), t).disk, Some(id))])
      && Attempt(d, hist, Some(frames), t).hist == Some(id)
  {
  }

  lemma AttemptMomentsGood(d: Disk, remote: Bytes, name: string, hist: Option<nat>, offset: nat, frames: seq<Bytes>,
                           chunks: seq<Bytes>, t: Tools)
    requires t.Faithful() && Ready(d, remote, hist, offset) && offset <= |remote| && frames != []
    requires IsChunking(chunks, remote[offset..]) && frames <= Served(remote, name, offset, chunks, t)
    ensures AllGood(AttemptMoments(d, hist, Some(frames), t), remote)
  {
    AttemptGood(d, remote, name, hist, offset, frames, chunks, t);
    AnswerShape(remote, name, offset, chunks, frames, t);
    OpenGood(d, remote, hist, offset);
    StartedGood(d, remote, name, hist, offset, frames, chunks, t);
    StartMoments(d, hist, frames, name, |remote|, offset, t);
    var (id, rows) := UseRow(d.rows, hist, offset);
    var emptied := Open(d, offset);
    var start := emptied.(rows := rows);
    Bracketed(Moment(emptied, hist), Moment(start, Some(id)), ReceiveMoments(start, id, offset, |remote|, frames[1..]),
              Moment(Attempt(d, hist, Some(frames), t).disk, Some(id)), remote);
  }

  /** One attempt against the unchanging file: it succeeds exactly when the whole answer arrives, and
      it fails in no other way than by the connection ending. */
  lemma AttemptSafe(d: Disk, remote: Bytes, name: string, hist: Option<nat>, offset: nat, conn: Option<seq<Bytes>>,
                    t: Tools)
    requires t.Faithful() && Ready(d, remote, hist, offset) && Delivers(conn, remote, name, offset, t)
    ensures var a := Attempt(d, hist, conn, t);
      && Good(a.disk, remote, a.hist) && (hist.Some? ==> a.hist == hist)
      && (a.outcome.Ok? <==> DeliversAll(conn, remote, name, offset, t))
      && (a.outcome.Ok? ==>
            a.hist.Some? && FileOf(a.disk) == remote && a.disk.rows[a.hist.value] == Row(|remote|, Complete))
      && (a.outcome.Err? ==> a.outcome.error == IoError && Ready(a.disk, remote, a.hist, NextOffset(a, offset)))
  {
    OpenGood(d, remote, hist, offset);
    if conn.Some? && conn.value != [] {
      var chunks :| IsChunking(chunks, remote[offset..]) && conn.value <= Served(remote, name, offset, chunks, t);
      AttemptGood(d, remote, name, hist, offset, conn.value, chunks, t);
      if DeliversAll(conn, remote, name, offset, t) {
        var other :| IsChunking(other, remote[offset..]) && conn.value == Served(remote, name, offset, other, t);
        AttemptGood(d, remote, name, hist, offset, conn.value, other, t);
      }
      AttemptRows(d, hist, conn, t);
    }
  }

  /** Every moment of such an attempt is safe. */
  lemma AttemptMomentsSafe(d: Disk, remote: Bytes, name: string, hist: Option<nat>, offset: nat,
                           conn: Option<seq<Bytes>>, t: Tools)
    requires t.Faithful() && Ready(d, remote, hist, offset) && Delivers(conn, remote, name, offset, t)
    ensures AllGood(AttemptMoments(d, hist, conn, t), remote)
  {
    OpenGood(d, remote, hist, offset);
    if conn.Some? && conn.value != [] {
      var chunks :| IsChunking(chunks, remote[offset..]) && conn.value <= Served(remote, name, offset, chunks, t);
      AttemptMomentsGood(d, remote, name, hist, offset, conn.value, chunks, t);
    }
  }

  /** Between attempts, and when giving up, the disk is as safe as after the attempt. */
  lemma PauseGood(a: Attempted, remote: Bytes, offset: nat)
    requires a.hist.Some? ==> a.hist.value < |a.disk.rows|
    requires Ready(a.disk, remote, a.hist, NextOffset(a, offset))
    ensures Ready(Pause(a), remote, a.hist, NextOffset(a, offset)) && Good(GiveUp(a), remote, a.hist)
  {
  }

  /** How a call against the unchanging file may end. */
  ghost predicate RunGood(run: Run, remote: Bytes) {
    && Good(run.disk, remote, run.hist)
    && (run.outcome.Ok? ==>
          run.hist.Some? && FileOf(run.disk) == remote && run.disk.rows[run.hist.value] == Row(|remote|, Complete))
    && (run.outcome.Err? ==> run.outcome.error == IoError)
  }

  /** The same of one attempt, and of what pausing or giving up makes of it. */
  ghost predicate AttemptEndsGood(a: Attempted, remote: Bytes, offset: nat) {
    && RunGood(Run(a.disk, a.hist, a.outcome, 1, 0), remote)
    && (a.outcome.Err? ==>
          Ready(Pause(a), remote, a.hist, NextOffset(a, offset)) && Good(GiveUp(a), remote, a.hist))
  }

  lemma AttemptEnds(d: Disk, remote: Bytes, name: string, hist: Option<nat>, offset: nat, conn: Option<seq<Bytes>>,
                    t: Tools) returns (a: Attempted)
    requires t.Faithful() && Ready(d, remote, hist, offset) && Delivers(conn, remote, name, offset, t)
    ensures a == Attempt(d, hist, conn, t) && AttemptEndsGood(a, remote, offset)
  {
    AttemptSafe(d, remote, name, hist, offset, conn, t);
    AttemptRows(d, hist, conn, t);
    a := Attempt(d, hist, conn, t);
    if a.outcome.Err? { PauseGood(a, remote, offset); }
  }

  /** What one round of the retry loop makes of the rest of the run. */
  lemma RoundOfRetry(a: Attempted, rest: Run, d: Disk, remote: Bytes, hist: Option<nat>, offset: nat,
                     attempt: nat, server: Server, t: Tools) returns (run: Run)
    requires (hist.Some? ==> hist.value < |d.rows|) && attempt <= |RETRY_DELAYS_SECS|
    requires a == Attempt(d, hist, server(attempt, offset), t) && AttemptEndsGood(a, remote, offset)
    requires a.outcome.Err? && attempt < |RETRY_DELAYS_SECS| ==>
      rest == Retry(Pause(a), a.hist, NextOffset(a, offset), attempt + 1, server, t) && RunGood(rest, remote)
    ensures run == Retry(d, hist, offset, attempt, server, t) && RunGood(run, remote)
  {
    RetryStep(a, d, hist, offset, attempt, server, t);
    run := Retry(d, hist, offset, attempt, server, t);
  }

  lemma {:induction false} RetryGood(d: Disk, remote: Bytes, name: string, hist: Option<nat>, offset: nat,
                                     attempt: nat, server: Server, t: Tools) returns (run: Run)
    requires t.Faithful() && Honest(server, remote, name, t) && Ready(d, remote, hist, offset)
    requires attempt <= |RETRY_DELAYS_SECS|
    ensures run == Retry(d, hist, offset, attempt, server, t) && RunGood(run, remote)
    decreases |RETRY_DELAYS_SECS| - attempt
  {
    var a := AttemptEnds(d, remote, name, hist, offset, server(attempt, offset), t);
    run := Run(a.disk, a.hist, a.outcome, 1, 0);
    if a.outcome.Err? && attempt < |RETRY_DELAYS_SECS| {
      run := RetryGood(Pause(a), remote, name, a.hist, NextOffset(a, offset), attempt + 1, server, t);
    }
    run := RoundOfRetry(a, run, d, remote, hist, offset, attempt, server, t);
  }

  /** One attempt passes through safe disks only, and what comes after it starts safe. */
  ghost predicate RoundGood(a: Attempted, now: seq<Moment>, remote: Bytes, offset: nat) {
    && AllGood(now, remote)
    && (a.hist.Some? ==> a.hist.value < |a.disk.rows|)
    && (a.outcome.Err? ==>
          Ready(Pause(a), remote, a.hist, NextOffset(a, offset)) && Good(GiveUp(a), remote, a.hist))
  }

  lemma RoundSafe(d: Disk, remote: Bytes, name: string, hist: Option<nat>, offset: nat, conn: Option<seq<Bytes>>,
                  t: Tools)
    requires t.Faithful() && Ready(d, remote, hist, offset) && Delivers(conn, remote, name, offset, t)
    ensures RoundGood(Attempt(d, hist, conn, t), AttemptMoments(d, hist, conn, t), remote, offset)
  {
    AttemptSafe(d, remote, name, hist, offset, conn, t);
    AttemptMomentsSafe(d, remote, name, hist, offset, conn, t);
    AttemptRows(d, hist, conn, t);
    var a := Attempt(d, hist, conn, t);
    if a.outcome.Err? { PauseGood(a, remote, offset); }
  }

  lemma RetryMomentsStep(d: Disk, remote: Bytes, hist: Option<nat>, offset: nat, attempt: nat, server: Server, t: Tools)
    requires (hist.Some? ==> hist.value < |d.rows|) && attempt <= |RETRY_DELAYS_SECS|
    requires var conn := server(attempt, offset);
      RoundGood(Attempt(d, hist, conn, t), AttemptMoments(d, hist, conn, t), remote, offset)
    requires var a := Attempt(d, hist, server(attempt, offset), t);
      a.outcome.Err? && attempt < |RETRY_DELAYS_SECS| ==>
        AllGood(RetryMoments(Pause(a), a.hist, NextOffset(a, offset), attempt + 1, server, t), remote)
    ensures AllGood(RetryMoments(d, hist, offset, attempt, server, t), remote)
  {
  }

  lemma {:induction false} RetryMomentsGood(d: Disk, remote: Bytes, name: string, hist: Option<nat>, offset: nat,
                                            attempt: nat, server: Server, t: Tools)
    requires t.Faithful() && Honest(server, remote, name, t) && Ready(d, remote, hist, offset)
    requires attempt <= |RETRY_DELAYS_SECS|
    ensures AllGood(RetryMoments(d, hist, offset, attempt, server, t), remote)
    decreases |RETRY_DELAYS_SECS| - attempt
  {
    var conn := server(attempt, offset);
    RoundSafe(d, remote, name, hist, offset, conn, t);
    var a := Attempt(d, hist, conn, t);
    if a.outcome.Err? && attempt < |RETRY_DELAYS_SECS| {
      RetryMomentsGood(Pause(a), remote, name, a.hist, NextOffset(a, offset), attempt + 1, server, t);
    }
    RetryMomentsStep(d, remote, hist, offset, attempt, server, t);
  }

  lemma ReadyToStart(d: Disk, remote: Bytes, active: Option<nat>)
    requires Good(d, remote, active)
    ensures Ready(d, remote, FindPartial(d.rows), StartOffset(d))
  {
  }

  /** A run of `request_transfer_with_retry` from any safe disk: every disk state it passes through is
      safe, and if it reports success the local file is the remote file, byte for byte. */
  lemma RequestSafe(d: Disk, remote: Bytes, name: string, active: Option<nat>, server: Server, t: Tools)
    requires t.Faithful() && Honest(server, remote, name, t) && Good(d, remote, active)
    ensures AllGood(Moments(d, server, t), remote)
    ensures var run := Request(d, server, t);
      && Good(run.disk, remote, run.hist)
      && (run.outcome.Ok? ==> FileOf(run.disk) == remote)
      && (run.outcome.Err? ==> run.outcome.error == IoError)
  {
    ReadyToStart(d, remote, active);
    var run := RetryGood(d, remote, name, FindPartial(d.rows), StartOffset(d), 0, server, t);
    RetryMomentsGood(d, remote, name, FindPartial(d.rows), StartOffset(d), 0, server, t);
  }

  lemma EpisodeSafe(d: Disk, remote: Bytes, name: string, active: Option<nat>, e: Episode, t: Tools)
    returns (next: Option<nat>)
    requires t.Faithful() && Honest(e.server, remote, name, t) && Good(d, remote, active)
    ensures Good(AfterEpisode(d, e, t), remote, next)
  {
    RequestSafe(d, remote, name, active, e.server, t);
    var moments := Moments(d, e.server, t);
    if e.killedAt.Some? && e.killedAt.value < |moments| {
      next := moments[e.killedAt.value].active;
    } else {
      next := Request(d, e.server, t).hist;
    }
  }

  /** Any number of calls, each finished or killed at any moment: the local file stays a prefix of the
      remote file and at most one row is left to resume from, recording no more bytes than the file has. */
  lemma {:induction false} EveryRunSafe(d: Disk, remote: Bytes, name: string, active: Option<nat>, es: seq<Episode>,
                                        t: Tools)
    returns (last: Option<nat>)
    requires t.Faithful() && Good(d, remote, active)
    requires forall e :: e in es ==> Honest(e.server, remote, name, t)
    ensures Good(AfterEpisodes(d, es, t), remote, last)
    decreases |es|
  {
    if es == [] {
      last := active;
    } else {
      assert es[0] in es;
      var next := EpisodeSafe(d, remote, name, active, es[0], t);
      last := EveryRunSafe(AfterEpisode(d, es[0], t), remote, name, next, es[1..], t);
    }
  }

  /** Whatever happened to the attempts before it, one attempt whose answer arrives whole makes the call
      succeed. */
  lemma {:induction false} WholeAnswerSucceeds(d: Disk, remote: Bytes, name: string, hist: Option<nat>, offset: nat,
                                               attempt: nat, n: nat, server: Server, t: Tools)
    requires t.Faithful() && Honest(server, remote, name, t) && Ready(d, remote, hist, offset)
    requires attempt <= n <= |RETRY_DELAYS_SECS|
    requires forall o :: 0 <= o <= |remote| ==> DeliversAll(server(n, o), remote, name, o, t)
    ensures var run := Retry(d, hist, offset, attempt, server, t);
      run.outcome.Ok? && FileOf(run.disk) == remote && 1 <= run.attempts <= n + 1 - attempt
    decreases n - attempt
  {
    var conn := server(attempt, offset);
    OpenGood(d, remote, hist, offset);
    AttemptSafe(d, remote, name, hist, offset, conn, t);
    AttemptRows(d, hist, conn, t);
    var a := Attempt(d, hist, conn, t);
    if a.outcome.Err? {
      assert attempt < n;
      PauseGood(a, remote, offset);
      WholeAnswerSucceeds(Pause(a), remote, name, a.hist, NextOffset(a, offset), attempt + 1, n, server, t);
    }
  }

  /** So a call succeeds when any one of its seven attempts gets through, and no later than that one. */
  lemma AnyWholeAnswerSucceeds(d: Disk, remote: Bytes, name: string, active: Option<nat>, n: nat, server: Server,
                               t: Tools)
    requires t.Faithful() && Honest(server, remote, name, t) && Good(d, remote, active) && n < 7
    requires forall o :: 0 <= o <= |remote| ==> DeliversAll(server(n, o), remote, name, o, t)
    ensures var run := Request(d, server, t);
      run.outcome.Ok? && FileOf(run.disk) == remote && 1 <= run.attempts <= n + 1
  {
    ReadyToStart(d, remote, active);
    WholeAnswerSucceeds(d, remote, name, FindPartial(d.rows), StartOffset(d), 0, n, server, t);
  }

  /** The whole story of one pull: nothing on disk, then any number of calls, each finished or killed at any
      moment. What is there is always a prefix of the remote file, and one more call of which any one attempt
      is answered whole completes it. */
  lemma PullFromNothing(remote: Bytes, name: string, es: seq<Episode>, n: nat, server: Server, t: Tools)
    requires t.Faithful() && Honest(server, remote, name, t) && n < 7
    requires forall e :: e in es ==> Honest(e.server, remote, name, t)
    requires forall o :: 0 <= o <= |remote| ==> DeliversAll(server(n, o), remote, name, o, t)
    ensures var d := AfterEpisodes(Disk(None, []), es, t);
      && FileOf(d) <= remote
      && Request(d, server, t).outcome.Ok? && FileOf(Request(d, server, t).disk) == remote
  {
    var start := Disk(None, []);
    assert Good(start, remote, None);
    var last := EveryRunSafe(start, remote, name, None, es, t);
    AnyWholeAnswerSucceeds(AfterEpisodes(start, es, t), remote, name, last, n, server, t);
  }

  // ----- any server, any contents: what the retry loop promises on its own

  function Sum(s: seq<nat>): nat {
    if s == [] then 0 else s[0] + Sum(s[1..])
  }

  /** The delays still ahead. */
  lemma {:induction false} RetryBounded(d: Disk, hist: Option<nat>, offset: nat, attempt: nat, server: Server, t: Tools)
    requires hist.Some? ==> hist.value < |d.rows|
    requires attempt <= |RETRY_DELAYS_SECS|
    ensures var run := Retry(d, hist, offset, attempt, server, t);
      run.attempts <= |RETRY_DELAYS_SECS| + 1 - attempt && run.slept <= Sum(RETRY_DELAYS_SECS[attempt..])
    decreases |RETRY_DELAYS_SECS| - attempt
  {
    var conn := server(attempt, offset);
    AttemptRows(d, hist, conn, t);
    var a := Attempt(d, hist, conn, t);
    if a.outcome.Err? && attempt < |RETRY_DELAYS_SECS| {
      RetryBounded(Pause(a), a.hist, NextOffset(a, offset), attempt + 1, server, t);
      assert RETRY_DELAYS_SECS[attempt..][1..] == RETRY_DELAYS_SECS[attempt + 1..];
    }
  }

  /** At most seven attempts and sixty-one seconds of sleep. */
  lemma RequestBounded(d: Disk, server: Server, t: Tools)
    ensures Request(d, server, t).attempts <= 7 && Request(d, server, t).slept <= 61
  {
    RetryBounded(d, FindPartial(d.rows), StartOffset(d), 0, server, t);
    var s := RETRY_DELAYS_SECS;
    assert s[0..][1..] == s[1..] && s[1..][1..] == s[2..] && s[2..][1..] == s[3..];
    assert s[3..][1..] == s[4..] && s[4..][1..] == s[5..] && s[5..][1..] == s[6..] == [];
    assert Sum(s[3..]) == 54;
    assert Sum(s[0..]) == 61;
  }
}
