/** What the resumable pull promises when the remote file may change, and how it recovers from a local
    file that does not belong to the remote one. */
module TransferChanges {
  import opened Wrappers
  import opened TransferModel

  // ----- where the data loop stops, and what it leaves

  /** How many of these chunks are read as data. */
  function Stop(bytes: nat, size: nat, chunks: seq<Bytes>): (k: nat)
    ensures k <= |chunks|
    decreases |chunks|
  {
    if bytes >= size || chunks == [] then 0 else 1 + Stop(bytes + |chunks[0]|, size, chunks[1..])
  }

  /** The loop stops at the first place where the announced size is reached. */
  lemma {:induction false} StopIsFirst(bytes: nat, size: nat, chunks: seq<Bytes>, j: nat)
    requires j <= Stop(bytes, size, chunks)
    ensures j < Stop(bytes, size, chunks) ==> bytes + |Concat(chunks[..j])| < size
    ensures j == Stop(bytes, size, chunks) < |chunks| ==> bytes + |Concat(chunks[..j])| >= size
    decreases j
  {
    if j > 0 {
      StopIsFirst(bytes + |chunks[0]|, size, chunks[1..], j - 1);
      ConcatFirst(chunks, j);
    }
  }

  lemma ConcatFirst(chunks: seq<Bytes>, j: nat)
    requires 0 < j <= |chunks|
    ensures Concat(chunks[..j]) == chunks[0] + Concat(chunks[1..][..j - 1])
  {
    assert chunks[..j][1..] == chunks[1..][..j - 1];
  }

  /** The condition of the misreading, in terms of sizes: some chunk comes after the announced size is
      reached. */
  predicate Surplus(offset: nat, size: nat, chunks: seq<Bytes>) {
    Stop(offset, size, chunks) < |chunks|
  }

  lemma SurplusIff(offset: nat, size: nat, chunks: seq<Bytes>)
    ensures Surplus(offset, size, chunks) <==>
      chunks != [] && offset + |Concat(chunks[..|chunks| - 1])| >= size
  {
    var k := Stop(offset, size, chunks);
    if k < |chunks| {
      StopIsFirst(offset, size, chunks, k);
      ConcatLonger(chunks, k, |chunks| - 1);
    } else if chunks != [] {
      StopIsFirst(offset, size, chunks, |chunks| - 1);
    }
  }

  lemma {:induction false} ConcatLonger(chunks: seq<Bytes>, i: nat, j: nat)
    requires i <= j <= |chunks|
    ensures |Concat(chunks[..i])| <= |Concat(chunks[..j])|
    decreases j
  {
    if i < j {
      ConcatLonger(chunks, i, j - 1);
      assert chunks[..j] == chunks[..j - 1] + [chunks[j - 1]];
      ConcatSnoc(chunks[..j - 1], chunks[j - 1]);
    }
  }

  /** Two writes in a row are one write. */
  lemma WriteTwice(f: Bytes, pos: nat, a: Bytes, b: Bytes)
    ensures WriteAt(WriteAt(f, pos, a), pos + |a|, b) == WriteAt(f, pos, a + b)
  {
    var head := if pos <= |f| then f[..pos] else f + Zeros(pos - |f|);
    var g := WriteAt(f, pos, a);
    assert g[..pos + |a|] == head + a;
    var n := pos + |a| + |b|;
    if n < |f| {
      assert g[n..] == f[n..];
    }
    assert (head + a) + b == head + (a + b);
  }

  lemma ChunkTwice(d: Disk, id: nat, bytes: nat, a: Bytes, b: Bytes)
    requires id < |d.rows|
    ensures AfterChunk(AfterChunk(d, id, bytes, a), id, bytes + |a|, b) == AfterChunk(d, id, bytes, a + b)
  {
    WriteTwice(FileOf(d), bytes, a, b);
  }

  /** The disk after reading chunks that together are `data`. */
  function Landed(d: Disk, id: nat, bytes: nat, data: Bytes): Disk
    requires id < |d.rows|
  {
    if data == [] then d else AfterChunk(d, id, bytes, data)
  }

  lemma ReceiveOne(d: Disk, id: nat, bytes: nat, size: nat, c: Bytes, frames: seq<Bytes>)
    requires id < |d.rows| && c != [] && bytes < size
    ensures Receive(d, id, bytes, size, [c] + frames)
         == Receive(AfterChunk(d, id, bytes, c), id, bytes + |c|, size, frames)
  {
    assert ([c] + frames)[1..] == frames;
  }

  /** The data loop has read the chunks up to its stop as one piece of data. */
  ghost predicate ReadAsOne(r: Received, d: Disk, id: nat, bytes: nat, size: nat, chunks: seq<Bytes>, tail: seq<Bytes>)
    requires id < |d.rows|
  {
    var k := Stop(bytes, size, chunks);
    var data := Concat(chunks[..k]);
    r == Receive(Landed(d, id, bytes, data), id, bytes + |data|, size, chunks[k..] + tail)
  }

  lemma ReadOneMore(r: Received, d: Disk, id: nat, bytes: nat, size: nat, c: Bytes, rest: seq<Bytes>, tail: seq<Bytes>)
    requires id < |d.rows| && c != [] && bytes < size
    requires ReadAsOne(r, AfterChunk(d, id, bytes, c), id, bytes + |c|, size, rest, tail)
    ensures ReadAsOne(r, d, id, bytes, size, [c] + rest, tail)
  {
    var k := Stop(bytes + |c|, size, rest);
    var chunks, data := [c] + rest, Concat(rest[..k]);
    assert chunks[1..] == rest && chunks[k + 1..] == rest[k..];
    ConcatFirst(chunks, k + 1);
    assert Stop(bytes, size, chunks) == k + 1 && Concat(chunks[..k + 1]) == c + data;
    LandedFirst(d, id, bytes, c, data);
  }

  lemma {:induction false} ReceiveStops(d: Disk, id: nat, bytes: nat, size: nat, chunks: seq<Bytes>, tail: seq<Bytes>)
    requires id < |d.rows| && forall c :: c in chunks ==> c != []
    ensures ReadAsOne(Receive(d, id, bytes, size, chunks + tail), d, id, bytes, size, chunks, tail)
    decreases |chunks|
  {
    if Stop(bytes, size, chunks) == 0 {
      assert chunks[..0] == [] && chunks[0..] == chunks;
    } else {
      var c, rest := chunks[0], chunks[1..];
      assert c in chunks && forall x :: x in rest ==> x in chunks;
      assert chunks == [c] + rest && chunks + tail == [c] + (rest + tail);
      ReceiveOne(d, id, bytes, size, c, rest + tail);
      ReceiveStops(AfterChunk(d, id, bytes, c), id, bytes + |c|, size, rest, tail);
      ReadOneMore(Receive(d, id, bytes, size, chunks + tail), d, id, bytes, size, c, rest, tail);
    }
  }

  lemma LandedFirst(d: Disk, id: nat, bytes: nat, c: Bytes, data: Bytes)
    requires id < |d.rows| && c != []
    ensures Landed(AfterChunk(d, id, bytes, c), id, bytes + |c|, data) == Landed(d, id, bytes, c + data)
  {
    ChunkTwice(d, id, bytes, c, data);
    assert data == [] ==> c + data == c;
  }

  // ----- one attempt, whatever the sender's file did meanwhile

  /** What the local file holds when the data loop stops. */
  function Local(d: Disk, size: nat, offset: nat, chunks: seq<Bytes>): Bytes {
    var data := Concat(chunks[..Stop(offset, size, chunks)]);
    var start := FileOf(Open(d, offset));
    if data == [] then start else WriteAt(start, offset, data)
  }

  /** How the frame read as the control frame decides. */
  function Decided(m: Option<Msg>, hash: string): Result<(), TransferError> {
    match m
    case None => Err(JsonError)
    case Some(TransferComplete(c)) => if c == hash then Ok(()) else Err(Checksum)
    case Some(_) => Err(Protocol)
  }

  /** The outcome of an attempt as a function of what the sender sent. */
  function OutcomeOf(local: Bytes, size: nat, offset: nat, chunks: seq<Bytes>, checksum: string, t: Tools)
    : Result<(), TransferError>
  {
    var k := Stop(offset, size, chunks);
    if k < |chunks| then
      // too many chunks: the first one left over is read as the control frame
      Decided(t.decode(chunks[k]), t.hash(local))
    else if offset + |Concat(chunks)| < size then
      // too few: the control frame is written to the file
      Err(IoError)
    else if checksum == t.hash(local) then Ok(())
    else Err(Checksum)
  }

  /** The data loop was given too few bytes: it takes the control frame for data and is left with nothing. */
  predicate SwallowsControl(r: Received, landed: Disk, id: nat, bytes: nat, control: Bytes)
    requires id < |landed.rows|
  {
    (r.lost || r.rest == []) && r.disk == AfterChunk(landed, id, bytes, control)
  }

  /** What the data loop does once it has read all the chunks it takes for data. */
  lemma AfterStop(start: Disk, id: nat, size: nat, offset: nat, chunks: seq<Bytes>, control: Bytes)
    requires id < |start.rows| && control != []
    ensures var k := Stop(offset, size, chunks); var data := Concat(chunks[..k]);
      var landed := Landed(start, id, offset, data);
      var r := Receive(landed, id, offset + |data|, size, chunks[k..] + [control]);
      if k == |chunks| && offset + |Concat(chunks)| < size then SwallowsControl(r, landed, id, offset + |data|, control)
      else r == Received(landed, offset + |data|, chunks[k..] + [control], false)
  {
    var k := Stop(offset, size, chunks);
    StopIsFirst(offset, size, chunks, k);
    if k == |chunks| {
      assert chunks[..k] == chunks && chunks[k..] + [control] == [control];
      assert [control][1..] == [];
    }
  }

  /** What the data loop makes of a whole answer. */
  lemma AnswerReceived(start: Disk, id: nat, size: nat, offset: nat, chunks: seq<Bytes>, control: Bytes)
    requires id < |start.rows| && control != [] && forall c :: c in chunks ==> c != []
    ensures LoopResult(Receive(start, id, offset, size, chunks + [control]), start, id, size, offset, chunks, control)
  {
    ReceiveStops(start, id, offset, size, chunks, [control]);
    AfterStop(start, id, size, offset, chunks, control);
  }

  ghost predicate LoopResult(r: Received, start: Disk, id: nat, size: nat, offset: nat, chunks: seq<Bytes>,
                             control: Bytes)
    requires id < |start.rows|
  {
    var k := Stop(offset, size, chunks);
    var data := Concat(chunks[..k]);
    var landed := Landed(start, id, offset, data);
    if k == |chunks| && offset + |Concat(chunks)| < size then SwallowsControl(r, landed, id, offset + |data|, control)
    else r == Received(landed, offset + |data|, chunks[k..] + [control], false)
  }

  /** What is on disk after an attempt that ended this way, in terms of the file `local` when the data loop
      stopped and of the bytes counted by then. */
  predicate Leaves(a: Attempted, local: Bytes, bytes: nat, control: Bytes) {
    a.hist.Some? && a.hist.value < |a.disk.rows| &&
    var row := a.disk.rows[a.hist.value];
    match a.outcome
    case Ok(_) => FileOf(a.disk) == local && row == Row(bytes, Complete)
    case Err(Checksum) => a.disk.file == None && row == Row(0, RowStatus.Failed)
    case Err(IoError) =>
      FileOf(a.disk) == WriteAt(local, bytes, control) && row == Row(bytes + |control|, InProgress)
    case Err(_) => FileOf(a.disk) == local && row.status == InProgress
  }

  /** Every answer with nonempty chunks, whether or not they fit the announced size and the checksum: the
      outcome, the local file and the history row. */
  lemma AnswerOutcome(d: Disk, hist: Option<nat>, name: string, size: nat, offset: nat, chunks: seq<Bytes>,
                      checksum: string, t: Tools)
    requires t.Faithful() && (hist.Some? ==> hist.value < |d.rows|)
    requires t.encode(TransferComplete(checksum)) != [] && forall c :: c in chunks ==> c != []
    ensures var a := Attempt(d, hist, Some(Sent(name, size, offset, chunks, checksum, t)), t);
      var local := Local(d, size, offset, chunks);
      && a.outcome == OutcomeOf(local, size, offset, chunks, checksum, t)
      && Leaves(a, local, offset + |Concat(chunks[..Stop(offset, size, chunks)])|,
                t.encode(TransferComplete(checksum)))
  {
    var frames := Sent(name, size, offset, chunks, checksum, t);
    var control := t.encode(TransferComplete(checksum));
    var (id, rows) := UseRow(d.rows, hist, offset);
    var start := Open(d, offset).(rows := rows);
    assert frames[0] == t.encode(TransferStart(name, size, offset)) && frames[1..] == chunks + [control];
    AnswerReceived(start, id, size, offset, chunks, control);
    FinishOutcome(start, id, size, offset, chunks, checksum, Receive(start, id, offset, size, chunks + [control]), t);
  }

  lemma FinishSwallowed(r: Received, landed: Disk, id: nat, bytes: nat, control: Bytes, t: Tools)
    requires id < |landed.rows| && SwallowsControl(r, landed, id, bytes, control)
    ensures Finish(r, id, t).outcome == Err(IoError) && Leaves(Finish(r, id, t), FileOf(landed), bytes, control)
  {
  }

  lemma FinishDecided(landed: Disk, id: nat, bytes: nat, rest: seq<Bytes>, control: Bytes, t: Tools)
    requires id < |landed.rows| && landed.rows[id].status == InProgress && rest != []
    ensures var a := Finish(Received(landed, bytes, rest, false), id, t);
      && a.outcome == Decided(t.decode(rest[0]), t.hash(FileOf(landed)))
      && Leaves(a, FileOf(landed), bytes, control)
  {
  }

  lemma LandedInProgress(d: Disk, id: nat, bytes: nat, data: Bytes)
    requires id < |d.rows| && d.rows[id].status == InProgress
    ensures var landed := Landed(d, id, bytes, data); id < |landed.rows| && landed.rows[id].status == InProgress
  {
  }

  lemma FinishOutcome(start: Disk, id: nat, size: nat, offset: nat, chunks: seq<Bytes>, checksum: string, r: Received,
                      t: Tools)
    requires t.Faithful() && id < |start.rows| && id < |r.disk.rows| && start.rows[id].status == InProgress
    requires LoopResult(r, start, id, size, offset, chunks, t.encode(TransferComplete(checksum)))
    ensures var a := Finish(r, id, t);
      var data := Concat(chunks[..Stop(offset, size, chunks)]);
      var local := FileOf(Landed(start, id, offset, data));
      && a.outcome == OutcomeOf(local, size, offset, chunks, checksum, t)
      && Leaves(a, local, offset + |data|, t.encode(TransferComplete(checksum)))
  {
    var k, control := Stop(offset, size, chunks), t.encode(TransferComplete(checksum));
    var data := Concat(chunks[..k]);
    var landed := Landed(start, id, offset, data);
    LandedInProgress(start, id, offset, data);
    if k == |chunks| && offset + |Concat(chunks)| < size {
      FinishSwallowed(r, landed, id, offset + |data|, control, t);
    } else {
      var rest := chunks[k..] + [control];
      assert rest[0] == if k < |chunks| then chunks[k] else control;
      FinishDecided(landed, id, offset + |data|, rest, control, t);
    }
  }

  /** The chunks reach the announced size, and only the last one does. */
  predicate Aligned(offset: nat, size: nat, chunks: seq<Bytes>) {
    && offset + |Concat(chunks)| >= size
    && (chunks != [] ==> offset + |Concat(chunks[..|chunks| - 1])| < size)
  }

  /** The receiver stops exactly before the control frame if and only if the answer is aligned. */
  lemma ControlAlignedIff(d: Disk, id: nat, bytes: nat, size: nat, chunks: seq<Bytes>, control: Bytes)
    requires id < |d.rows| && control != [] && forall c :: c in chunks ==> c != []
    ensures var r := Receive(d, id, bytes, size, chunks + [control]);
      (!r.lost && r.rest == [control]) <==> Aligned(bytes, size, chunks)
  {
    AnswerReceived(d, id, size, bytes, chunks, control);
    SurplusIff(bytes, size, chunks);
    assert chunks[|chunks|..] + [control] == [control];
  }

  /** Then success means exactly that the local file has the sender's checksum. */
  lemma AlignedOutcome(d: Disk, hist: Option<nat>, name: string, size: nat, offset: nat, chunks: seq<Bytes>,
                       checksum: string, t: Tools)
    requires t.Faithful() && (hist.Some? ==> hist.value < |d.rows|)
    requires t.encode(TransferComplete(checksum)) != [] && forall c :: c in chunks ==> c != []
    requires Aligned(offset, size, chunks)
    ensures var a := Attempt(d, hist, Some(Sent(name, size, offset, chunks, checksum, t)), t);
      a.outcome.Ok? <==> t.hash(Local(d, size, offset, chunks)) == checksum
  {
    AnswerOutcome(d, hist, name, size, offset, chunks, checksum, t);
    SurplusIff(offset, size, chunks);
  }

  // ----- the same when the connection ends before the answer does

  lemma {:induction false} StopOfPart(offset: nat, size: nat, chunks: seq<Bytes>, n: nat)
    requires n <= |chunks|
    ensures var k := Stop(offset, size, chunks); Stop(offset, size, chunks[..n]) == if k < n then k else n
    decreases n
  {
    if n > 0 && chunks != [] {
      assert chunks[..n][1..] == chunks[1..][..n - 1];
      StopOfPart(offset + |chunks[0]|, size, chunks[1..], n - 1);
    }
  }

  /** The data loop on the first `n` chunks and nothing more. */
  ghost predicate PartResult(r: Received, start: Disk, id: nat, size: nat, offset: nat, chunks: seq<Bytes>, n: nat)
    requires id < |start.rows| && n <= |chunks|
  {
    var k := Stop(offset, size, chunks);
    var data := Concat(chunks[..k]);
    if k >= n then
      (r.lost || r.rest == []) && r.disk == Landed(start, id, offset, Concat(chunks[..n]))
    else r == Received(Landed(start, id, offset, data), offset + |data|, chunks[k..n], false)
  }

  lemma WholePartReceived(start: Disk, id: nat, size: nat, offset: nat, part: seq<Bytes>)
    requires id < |start.rows| && forall c :: c in part ==> c != []
    ensures PartResult(Receive(start, id, offset, size, part), start, id, size, offset, part, |part|)
  {
    var k := Stop(offset, size, part);
    ReceiveStops(start, id, offset, size, part, []);
    StopIsFirst(offset, size, part, k);
    assert part + [] == part && part[k..] + [] == part[k..] == part[k..|part|] && part[..|part|] == part;
  }

  lemma PartReceived(start: Disk, id: nat, size: nat, offset: nat, chunks: seq<Bytes>, n: nat)
    requires id < |start.rows| && n <= |chunks| && forall c :: c in chunks ==> c != []
    ensures PartResult(Receive(start, id, offset, size, chunks[..n]), start, id, size, offset, chunks, n)
  {
    var part, k := chunks[..n], Stop(offset, size, chunks);
    assert forall c :: c in part ==> c in chunks;
    WholePartReceived(start, id, size, offset, part);
    StopOfPart(offset, size, chunks, n);
    assert part[..n] == part;
    if k < n { assert part[..k] == chunks[..k] && part[k..n] == chunks[k..n]; }
  }

  lemma FinishPart(start: Disk, id: nat, size: nat, offset: nat, chunks: seq<Bytes>, checksum: string, n: nat,
                   r: Received, t: Tools)
    requires id < |start.rows| && id < |r.disk.rows| && n <= |chunks|
    requires PartResult(r, start, id, size, offset, chunks, n)
    ensures var a := Finish(r, id, t);
      var local := FileOf(Landed(start, id, offset, Concat(chunks[..Stop(offset, size, chunks)])));
      if Stop(offset, size, chunks) < n
      then
        a.outcome == OutcomeOf(local, size, offset, chunks, checksum, t)
        && (a.outcome.Ok? ==> FileOf(a.disk) == local)
      else a.outcome == Err(IoError)
  {
  }

  /** An answer cut off before its control frame: it fails with the connection, unless a surplus chunk has
      arrived; then that chunk decides, as it would have in the whole answer. */
  lemma CutOutcome(d: Disk, hist: Option<nat>, name: string, size: nat, offset: nat, chunks: seq<Bytes>,
                   checksum: string, n: nat, t: Tools)
    requires t.Faithful() && (hist.Some? ==> hist.value < |d.rows|) && forall c :: c in chunks ==> c != []
    requires n <= |chunks|
    ensures var a := Attempt(d, hist, Some(Sent(name, size, offset, chunks, checksum, t)[..n + 1]), t);
      var local := Local(d, size, offset, chunks);
      if Stop(offset, size, chunks) < n
      then
        a.outcome == OutcomeOf(local, size, offset, chunks, checksum, t)
        && (a.outcome.Ok? ==> FileOf(a.disk) == local)
      else a.outcome == Err(IoError)
  {
    var frames := Sent(name, size, offset, chunks, checksum, t)[..n + 1];
    assert frames[0] == t.encode(TransferStart(name, size, offset)) && frames[1..] == chunks[..n];
    var (id, rows) := UseRow(d.rows, hist, offset);
    var start := Open(d, offset).(rows := rows);
    PartReceived(start, id, size, offset, chunks, n);
    FinishPart(start, id, size, offset, chunks, checksum, n, Receive(start, id, offset, size, frames[1..]), t);
  }

  /** Success with another checksum than the sender's own happens in exactly one case, whether the answer is
      whole or cut off after `n` of its frames: a surplus chunk has arrived, and it happens to decode as a
      control message with the checksum of the local file. */
  lemma MisledIff(d: Disk, hist: Option<nat>, name: string, size: nat, offset: nat, chunks: seq<Bytes>,
                  checksum: string, n: nat, t: Tools)
    requires t.Faithful() && (hist.Some? ==> hist.value < |d.rows|)
    requires t.encode(TransferComplete(checksum)) != [] && forall c :: c in chunks ==> c != []
    requires n <= |chunks| + 2
    ensures var a := Attempt(d, hist, Some(Sent(name, size, offset, chunks, checksum, t)[..n]), t);
      var k, local := Stop(offset, size, chunks), t.hash(Local(d, size, offset, chunks));
      (a.outcome.Ok? && t.hash(FileOf(a.disk)) != checksum)
      <==> (k < |chunks| && k + 1 < n && local != checksum && t.decode(chunks[k]) == Some(TransferComplete(local)))
  {
    var frames := Sent(name, size, offset, chunks, checksum, t);
    if n == |chunks| + 2 {
      assert frames[..n] == frames;
      AnswerOutcome(d, hist, name, size, offset, chunks, checksum, t);
    } else if n > 0 {
      CutOutcome(d, hist, name, size, offset, chunks, checksum, n - 1, t);
    }
  }

  /** A file that was empty and grew: the first data frame is taken for the control frame, and an attempt
      whose data reads as a control message succeeds with an empty local file, whatever checksum the
      sender sent. */
  lemma GrownFileReadAsControl(name: string, t: Tools)
    requires t.Faithful()
    ensures var data := t.encode(TransferComplete(t.hash([])));
      var checksum := t.hash(data);
      var a := Attempt(Disk(None, []), None, Some(Sent(name, 0, 0, [data], checksum, t)), t);
      a.outcome.Ok? && FileOf(a.disk) == [] && (checksum != t.hash([]) ==> checksum != t.hash(FileOf(a.disk)))
  {
    var data := t.encode(TransferComplete(t.hash([])));
    assert Sent(name, 0, 0, [data], t.hash(data), t)[1..]
        == [data, t.encode(TransferComplete(t.hash(data)))];
  }

  /** A file that shrank after its size was announced: the control frame lands in the file. */
  lemma ShrunkFileSwallowsControl(control: Bytes, size: nat)
    requires 0 < |control| < size
    ensures var r := Receive(Disk(Some([]), [Row(0, InProgress)]), 0, 0, size, [control]);
      r.lost && FileOf(r.disk) == control
  {
    var d := AfterChunk(Disk(Some([]), [Row(0, InProgress)]), 0, 0, control);
    assert [control][1..] == [];
    assert Receive(d, 0, |control|, size, []) == Received(d, |control|, [], true);
  }

  // ----- whole calls

  /** The state in which the last attempt of a call starts. */
  datatype Try = Try(disk: Disk, hist: Option<nat>, offset: nat, attempt: nat)

  function LastTry(d: Disk, hist: Option<nat>, offset: nat, attempt: nat, server: Server, t: Tools): (last: Try)
    requires hist.Some? ==> hist.value < |d.rows|
    requires attempt <= |RETRY_DELAYS_SECS|
    ensures last.hist.Some? ==> last.hist.value < |last.disk.rows|
    decreases |RETRY_DELAYS_SECS| - attempt, d
  {
    AttemptRows(d, hist, server(attempt, offset), t);
    var a := Attempt(d, hist, server(attempt, offset), t);
    if a.outcome.Err? && attempt < |RETRY_DELAYS_SECS|
    then LastTry(Pause(a), a.hist, NextOffset(a, offset), attempt + 1, server, t)
    else Try(d, hist, offset, attempt)
  }

  /** A call ends as its last attempt ends. */
  lemma {:induction false} RunEndsAsLastTry(d: Disk, hist: Option<nat>, offset: nat, attempt: nat, server: Server,
                                            t: Tools)
    requires hist.Some? ==> hist.value < |d.rows|
    requires attempt <= |RETRY_DELAYS_SECS|
    ensures var run := Retry(d, hist, offset, attempt, server, t);
      var last := LastTry(d, hist, offset, attempt, server, t);
      var a := Attempt(last.disk, last.hist, server(last.attempt, last.offset), t);
      && last.attempt == attempt + run.attempts - 1 && run.outcome == a.outcome
      && (run.outcome.Ok? ==> run.disk == a.disk && run.hist == a.hist)
    decreases |RETRY_DELAYS_SECS| - attempt
  {
    AttemptRows(d, hist, server(attempt, offset), t);
    var a := Attempt(d, hist, server(attempt, offset), t);
    if a.outcome.Err? && attempt < |RETRY_DELAYS_SECS| {
      RunEndsAsLastTry(Pause(a), a.hist, NextOffset(a, offset), attempt + 1, server, t);
    }
  }

  /** The answer a sender gives is cut off somewhere, its chunks are not empty, and none of them comes
      after the announced size is reached. */
  ghost predicate InStep(conn: Option<seq<Bytes>>, t: Tools) {
    conn.Some? && conn.value != [] && t.decode(conn.value[0]).Some? && t.decode(conn.value[0]).value.TransferStart? ==>
      exists name, size, offset, chunks, checksum ::
        conn.value <= Sent(name, size, offset, chunks, checksum, t) && FitsSize(size, offset, chunks)
  }

  ghost predicate FitsSize(size: nat, offset: nat, chunks: seq<Bytes>) {
    (forall c :: c in chunks ==> c != []) && !Surplus(offset, size, chunks)
  }

  /** When no answer runs past its announced size, success means that the last attempt's answer came
      whole and that the local file has the checksum the sender ended it with. */
  lemma OkMeansSentChecksum(d: Disk, hist: Option<nat>, offset: nat, server: Server, t: Tools)
    requires t.Faithful() && (hist.Some? ==> hist.value < |d.rows|)
    requires forall checksum :: t.encode(TransferComplete(checksum)) != []
    requires forall n, o :: InStep(server(n, o), t)
    requires Retry(d, hist, offset, 0, server, t).outcome.Ok?
    ensures var run := Retry(d, hist, offset, 0, server, t);
      var last := LastTry(d, hist, offset, 0, server, t);
      var conn := server(last.attempt, last.offset);
      && last.attempt == run.attempts - 1
      && conn.Some? && |conn.value| > 1
      && t.decode(conn.value[|conn.value| - 1]) == Some(TransferComplete(t.hash(FileOf(run.disk))))
      && run.hist.Some? && run.hist.value < |run.disk.rows| && run.disk.rows[run.hist.value].status == Complete
  {
    RunEndsAsLastTry(d, hist, offset, 0, server, t);
    var last := LastTry(d, hist, offset, 0, server, t);
    var conn := server(last.attempt, last.offset);
    assert InStep(conn, t);
    OkInStep(last.disk, last.hist, conn, t);
  }

  /** The attempt ended with the control frame of its whole answer and a local file of that checksum. */
  ghost predicate EndsWithChecksum(a: Attempted, conn: Option<seq<Bytes>>, t: Tools) {
    && conn.Some? && |conn.value| > 1
    && t.decode(conn.value[|conn.value| - 1]) == Some(TransferComplete(t.hash(FileOf(a.disk))))
    && a.hist.Some? && a.hist.value < |a.disk.rows| && a.disk.rows[a.hist.value].status == Complete
  }

  lemma OkWhole(d: Disk, hist: Option<nat>, name: string, size: nat, offset: nat, chunks: seq<Bytes>, checksum: string,
                t: Tools)
    requires t.Faithful() && (hist.Some? ==> hist.value < |d.rows|) && FitsSize(size, offset, chunks)
    requires t.encode(TransferComplete(checksum)) != []
    requires Attempt(d, hist, Some(Sent(name, size, offset, chunks, checksum, t)), t).outcome.Ok?
    ensures var conn := Some(Sent(name, size, offset, chunks, checksum, t));
      EndsWithChecksum(Attempt(d, hist, conn, t), conn, t)
  {
    AnswerOutcome(d, hist, name, size, offset, chunks, checksum, t);
  }

  lemma OkInStep(d: Disk, hist: Option<nat>, conn: Option<seq<Bytes>>, t: Tools)
    requires t.Faithful() && (hist.Some? ==> hist.value < |d.rows|) && InStep(conn, t)
    requires forall checksum :: t.encode(TransferComplete(checksum)) != []
    requires Attempt(d, hist, conn, t).outcome.Ok?
    ensures EndsWithChecksum(Attempt(d, hist, conn, t), conn, t)
  {
    var name, size, offset, chunks, checksum :|
      conn.value <= Sent(name, size, offset, chunks, checksum, t) && FitsSize(size, offset, chunks);
    var all := Sent(name, size, offset, chunks, checksum, t);
    if |conn.value| < |all| {
      assert conn.value == all[..|conn.value|];
      CutOutcome(d, hist, name, size, offset, chunks, checksum, |conn.value| - 1, t);
    } else {
      assert conn.value == all;
      OkWhole(d, hist, name, size, offset, chunks, checksum, t);
    }
  }

  /** Without any assumption on the server: success means that some frame of the last attempt's answer
      reads as a control message with the checksum of the local file, and the row says complete. */
  lemma OkMeansHashed(d: Disk, hist: Option<nat>, offset: nat, server: Server, t: Tools) returns (i: nat)
    requires hist.Some? ==> hist.value < |d.rows|
    requires Retry(d, hist, offset, 0, server, t).outcome.Ok?
    ensures var run := Retry(d, hist, offset, 0, server, t);
      var last := LastTry(d, hist, offset, 0, server, t);
      var conn := server(last.attempt, last.offset);
      && last.attempt == run.attempts - 1
      && conn.Some? && 0 < i < |conn.value|
      && t.decode(conn.value[i]) == Some(TransferComplete(t.hash(FileOf(run.disk))))
      && run.hist.Some? && run.hist.value < |run.disk.rows| && run.disk.rows[run.hist.value].status == Complete
  {
    RunEndsAsLastTry(d, hist, offset, 0, server, t);
    var last := LastTry(d, hist, offset, 0, server, t);
    i := OkFrame(last.disk, last.hist, server(last.attempt, last.offset), t);
  }

  lemma OkFrame(d: Disk, hist: Option<nat>, conn: Option<seq<Bytes>>, t: Tools) returns (i: nat)
    requires hist.Some? ==> hist.value < |d.rows|
    requires Attempt(d, hist, conn, t).outcome.Ok?
    ensures conn.Some? && 0 < i < |conn.value|
    ensures t.decode(conn.value[i]) == Some(TransferComplete(t.hash(FileOf(Attempt(d, hist, conn, t).disk))))
    ensures var a := Attempt(d, hist, conn, t);
      a.hist.Some? && a.hist.value < |a.disk.rows| && a.disk.rows[a.hist.value].status == Complete
  {
    var start := t.decode(conn.value[0]).value;
    var (id, rows) := UseRow(d.rows, hist, start.resumeOffset);
    var at := start.resumeOffset;
    var k := ReceiveRest(Open(d, at).(rows := rows), id, at, start.size, conn.value[1..]);
    i := k + 1;
  }

  lemma {:induction false} ReceiveRest(d: Disk, id: nat, bytes: nat, size: nat, frames: seq<Bytes>) returns (k: nat)
    requires id < |d.rows|
    ensures k <= |frames| && Receive(d, id, bytes, size, frames).rest == frames[k..]
    decreases |frames|
  {
    if bytes >= size || frames == [] {
      k := 0;
    } else if frames[0] == [] {
      k := 1;
    } else {
      var j := ReceiveRest(AfterChunk(d, id, bytes, frames[0]), id, bytes + |frames[0]|, size, frames[1..]);
      k := j + 1;
      assert frames[1..][j..] == frames[k..];
    }
  }

  // ----- recovery: from any disk, against a file that stays as it is

  /** Every connection delivers the whole answer. */
  ghost predicate Whole(server: Server, remote: Bytes, name: string, t: Tools) {
    forall n, offset :: AnswersWhole(server(n, offset), remote, name, offset, t)
  }

  ghost predicate AnswersWhole(conn: Option<seq<Bytes>>, remote: Bytes, name: string, offset: nat, t: Tools) {
    exists chunks :: (offset <= |remote| ==> IsChunking(chunks, remote[offset..]))
                     && conn == Some(Served(remote, name, offset, chunks, t))
  }

  /** No other content has the checksum of this one. */
  ghost predicate Unmistakable(remote: Bytes, t: Tools) {
    t.encode(TransferComplete(t.hash(remote))) != [] && forall x :: t.hash(x) == t.hash(remote) ==> x == remote
  }

  /** The chunks of an unchanged file fit its size exactly. */
  lemma {:induction false} ChunkingFits(offset: nat, data: Bytes, chunks: seq<Bytes>)
    requires IsChunking(chunks, data)
    ensures Stop(offset, offset + |data|, chunks) == |chunks|
    decreases |chunks|
  {
    if chunks != [] {
      var c, rest := chunks[0], chunks[1..];
      assert c in chunks && data == c + Concat(rest);
      assert forall x :: x in rest ==> x in chunks;
      ChunkingFits(offset + |c|, Concat(rest), rest);
    }
  }

  /** One whole answer either completes the file or resets file and row. */
  lemma WholeAttempt(d: Disk, remote: Bytes, name: string, hist: Option<nat>, offset: nat, conn: Option<seq<Bytes>>,
                     t: Tools)
    requires t.Faithful() && Unmistakable(remote, t) && (hist.Some? ==> hist.value < |d.rows|)
    requires offset <= |remote| && AnswersWhole(conn, remote, name, offset, t)
    ensures var a := Attempt(d, hist, conn, t);
      && a.hist.Some? && a.hist.value < |a.disk.rows|
      && (a.outcome.Ok? ==> FileOf(a.disk) == remote && a.disk.rows[a.hist.value].status == Complete)
      && (a.outcome.Err? ==> offset > 0 && NextOffset(a, offset) == 0)
  {
    var chunks :| IsChunking(chunks, remote[offset..]) && conn == Some(Served(remote, name, offset, chunks, t));
    assert forall c :: c in chunks ==> c != [];
    AnswerOutcome(d, hist, name, |remote|, offset, chunks, t.hash(remote), t);
    UnchangedOutcome(d, remote, offset, chunks, t);
  }

  lemma UnchangedOutcome(d: Disk, remote: Bytes, offset: nat, chunks: seq<Bytes>, t: Tools)
    requires Unmistakable(remote, t) && offset <= |remote| && IsChunking(chunks, remote[offset..])
    ensures var local := Local(d, |remote|, offset, chunks);
      OutcomeOf(local, |remote|, offset, chunks, t.hash(remote), t)
        == (if local == remote then Ok(()) else Err(Checksum))
      && (offset == 0 ==> local == remote)
  {
    ChunkingFits(offset, remote[offset..], chunks);
    assert chunks[..|chunks|] == chunks;
    if offset == 0 {
      assert remote[0..] == remote;
      assert WriteAt([], 0, remote) == remote;
    }
  }

  /** From any disk: when the recorded offset lies inside the remote file, the call succeeds within two
      attempts, whatever the local file contains. */
  lemma RecoversWithinTwo(d: Disk, remote: Bytes, name: string, server: Server, t: Tools)
    requires t.Faithful() && Unmistakable(remote, t) && Whole(server, remote, name, t)
    requires StartOffset(d) <= |remote|
    ensures var run := Request(d, server, t);
      && run.outcome.Ok? && run.attempts <= 2 && FileOf(run.disk) == remote
      && run.hist.Some? && run.hist.value < |run.disk.rows| && run.disk.rows[run.hist.value].status == Complete
  {
    var hist, offset := FindPartial(d.rows), StartOffset(d);
    assert AnswersWhole(server(0, offset), remote, name, offset, t);
    WholeAttempt(d, remote, name, hist, offset, server(0, offset), t);
    var a := Attempt(d, hist, server(0, offset), t);
    if a.outcome.Err? {
      assert AnswersWhole(server(1, 0), remote, name, 0, t);
      WholeAttempt(Pause(a), remote, name, a.hist, 0, server(1, 0), t);
      OkAtOnce(Pause(a), a.hist, 0, 1, server, t);
    }
  }

  lemma OkAtOnce(d: Disk, hist: Option<nat>, offset: nat, attempt: nat, server: Server, t: Tools)
    requires (hist.Some? ==> hist.value < |d.rows|) && attempt <= |RETRY_DELAYS_SECS|
    requires Attempt(d, hist, server(attempt, offset), t).outcome.Ok?
    ensures var a := Attempt(d, hist, server(attempt, offset), t);
      Retry(d, hist, offset, attempt, server, t) == Run(a.disk, a.hist, a.outcome, 1, 0)
  {
  }

  /** A recorded offset past the end of the remote file is never corrected: all seven attempts are
      refused, the local file is left alone and the row ends failed with that offset still in it. */
  lemma OffsetPastEndNeverRecovers(d: Disk, remote: Bytes, name: string, server: Server, t: Tools)
    requires t.Faithful() && Whole(server, remote, name, t) && StartOffset(d) > |remote|
    ensures var run := Request(d, server, t);
      && run.outcome == Err(InvalidOffset) && run.attempts == 7 && run.disk.file == d.file
      && run.hist == FindPartial(d.rows) && run.hist.Some? && run.hist.value < |run.disk.rows|
      && run.disk.rows[run.hist.value] == Row(StartOffset(d), RowStatus.Failed)
  {
    RefusedOnAndOn(d, remote, name, FindPartial(d.rows).value, StartOffset(d), 0, server, t);
  }

  lemma {:induction false} RefusedOnAndOn(d: Disk, remote: Bytes, name: string, id: nat, offset: nat, attempt: nat,
                                          server: Server, t: Tools)
    requires t.Faithful() && Whole(server, remote, name, t)
    requires id < |d.rows| && d.rows[id].bytes == offset > |remote| && attempt <= |RETRY_DELAYS_SECS|
    ensures var run := Retry(d, Some(id), offset, attempt, server, t);
      && run.outcome == Err(InvalidOffset) && run.attempts == |RETRY_DELAYS_SECS| + 1 - attempt
      && run.disk.file == d.file && run.hist == Some(id)
      && id < |run.disk.rows| && run.disk.rows[id] == Row(offset, RowStatus.Failed)
    decreases |RETRY_DELAYS_SECS| - attempt
  {
    var conn := server(attempt, offset);
    assert AnswersWhole(conn, remote, name, offset, t);
    var a := Attempt(d, Some(id), conn, t);
    assert a == Attempted(d, Some(id), Err(InvalidOffset));
    if attempt < |RETRY_DELAYS_SECS| {
      RefusedOnAndOn(Pause(a), remote, name, id, offset, attempt + 1, server, t);
    }
  }
}
