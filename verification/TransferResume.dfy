/** What a pull leaves behind for the next one: the history row of a failed attempt is partial while the
    program sleeps, a call that is killed there is resumed through that row, and no second row is opened. */
module TransferResume {
  import opened Sequences
  import opened Wrappers
  import opened TransferModel
  import opened TransferChanges

  // ----- history rows

  /** All rows but one are as before. */
  ghost predicate OnlyRow(before: seq<Row>, after: seq<Row>, id: nat) {
    |after| == |before| && forall i :: 0 <= i < |before| && i != id ==> after[i] == before[i]
  }

  /** An attempt without a row touches nothing or opens one row at the end; one with a row touches that row. */
  ghost predicate Touches(d: Disk, hist: Option<nat>, a: Attempted) {
    if a.hist.None? then hist.None? && a.disk == d
    else if hist.Some? then a.hist == hist && hist.value < |d.rows| && OnlyRow(d.rows, a.disk.rows, hist.value)
    else a.hist.value == |d.rows| && |a.disk.rows| == |d.rows| + 1 && a.disk.rows[..|d.rows|] == d.rows
  }

  lemma {:induction false} ReceiveTouches(d: Disk, id: nat, bytes: nat, size: nat, frames: seq<Bytes>)
    requires id < |d.rows|
    ensures OnlyRow(d.rows, Receive(d, id, bytes, size, frames).disk.rows, id)
    decreases |frames|
  {
    if bytes < size && frames != [] && frames[0] != [] {
      ReceiveStep(d, id, bytes, size, frames);
      ReceiveTouches(AfterChunk(d, id, bytes, frames[0]), id, bytes + |frames[0]|, size, frames[1..]);
    }
  }

  lemma FinishTouches(r: Received, id: nat, t: Tools)
    requires id < |r.disk.rows|
    ensures OnlyRow(r.disk.rows, Finish(r, id, t).disk.rows, id) && Finish(r, id, t).hist == Some(id)
  {
  }

  lemma AttemptTouches(d: Disk, hist: Option<nat>, conn: Option<seq<Bytes>>, t: Tools) returns (a: Attempted)
    requires hist.Some? ==> hist.value < |d.rows|
    ensures a == Attempt(d, hist, conn, t) && Touches(d, hist, a)
  {
    a := Attempt(d, hist, conn, t);
    if Starts(conn, t) {
      var start := t.decode(conn.value[0]).value;
      var (id, rows) := UseRow(d.rows, hist, start.resumeOffset);
      var begun := Open(d, start.resumeOffset).(rows := rows);
      ReceiveTouches(begun, id, start.resumeOffset, start.size, conn.value[1..]);
      FinishTouches(Receive(begun, id, start.resumeOffset, start.size, conn.value[1..]), id, t);
    }
  }

  /** No row is partial after the one in use; without one, none is. */
  ghost predicate Latest(rows: seq<Row>, hist: Option<nat>) {
    && (hist.Some? ==> hist.value < |rows|)
    && (forall i :: (if hist.Some? then hist.value + 1 else 0) <= i < |rows| ==> rows[i].status != RowStatus.Partial)
  }

  lemma StartsLatest(d: Disk)
    ensures Latest(d.rows, FindPartial(d.rows))
  {
  }

  lemma LatestAfter(d: Disk, hist: Option<nat>, a: Attempted)
    requires Latest(d.rows, hist) && Touches(d, hist, a)
    ensures Latest(a.disk.rows, a.hist)
  {
    if a.hist.Some? && hist.None? {
      assert forall i :: 0 <= i < |d.rows| ==> a.disk.rows[..|d.rows|][i] == d.rows[i];
    }
  }

  /** The disk `d` with row `id` left partial, its bytes as they are. */
  ghost predicate LeftPartial(d: Disk, id: nat, after: Disk) {
    && id < |d.rows| && after.file == d.file && OnlyRow(d.rows, after.rows, id)
    && after.rows[id] == Row(d.rows[id].bytes, RowStatus.Partial)
  }

  /** Such a row is the one the next call finds, and its bytes are what it asks for. */
  lemma FoundAgain(d: Disk, id: nat, after: Disk)
    requires LeftPartial(d, id, after) && Latest(d.rows, Some(id))
    ensures FindPartial(after.rows) == Some(id) && StartOffset(after) == d.rows[id].bytes
    ensures Latest(after.rows, Some(id))
  {
    assert after.rows[id].status == RowStatus.Partial;
    assert forall i :: id < i < |after.rows| ==> after.rows[i] == d.rows[i];
  }

  // ----- the attempts of a call

  /** An attempt: what it starts from, the moments it passes through, and what it ends with. */
  datatype Round = Round(disk: Disk, hist: Option<nat>, offset: nat, moments: seq<Moment>, end: Attempted)

  ghost predicate IsRound(r: Round, n: nat, server: Server, t: Tools) {
    && (r.hist.Some? ==> r.hist.value < |r.disk.rows|)
    && r.moments == AttemptMoments(r.disk, r.hist, server(n, r.offset), t)
    && r.end == Attempt(r.disk, r.hist, server(n, r.offset), t)
  }

  /** How the next attempt follows a failed one: with a row, the row is left partial and its bytes are the
      next offset; without one, nothing changes. */
  ghost predicate Follows(r: Round, next: Round) {
    && r.end.outcome.Err? && next.hist == r.end.hist
    && (r.end.hist.None? ==> next.disk == r.end.disk && next.offset == r.offset)
    && (r.end.hist.Some? ==>
          LeftPartial(r.end.disk, r.end.hist.value, next.disk)
          && next.offset == r.end.disk.rows[r.end.hist.value].bytes)
  }

  /** The rounds of the loop from attempt `n` on. */
  ghost predicate AreRounds(rounds: seq<Round>, n: nat, server: Server, t: Tools) {
    && rounds != [] && n + |rounds| <= 7
    && (forall k :: 0 <= k < |rounds| ==> IsRound(rounds[k], n + k, server, t))
    && (forall k :: 0 <= k < |rounds| - 1 ==> Follows(rounds[k], rounds[k + 1]))
    && (rounds[|rounds| - 1].end.outcome.Err? ==> n + |rounds| == 7)
  }

  /** How a call ends: as its last attempt does, except that a row is marked failed when the call gives up. */
  ghost predicate EndsAs(run: Run, last: Attempted) {
    && run.outcome == last.outcome && run.hist == last.hist && run.disk.file == last.disk.file
    && (last.outcome.Ok? || last.hist.None? ==> run.disk == last.disk)
    && (last.outcome.Err? && last.hist.Some? ==>
          last.hist.value < |last.disk.rows| && OnlyRow(last.disk.rows, run.disk.rows, last.hist.value)
          && run.disk.rows[last.hist.value] == Row(last.disk.rows[last.hist.value].bytes, RowStatus.Failed))
  }

  /** The sleeps after `k` failed attempts, the first of them being attempt `n`. */
  function Slept(n: nat, k: nat): nat
    requires n + k <= 6
    decreases k
  {
    if k == 0 then 0 else RETRY_DELAYS_SECS[n] + Slept(n + 1, k - 1)
  }

  lemma RoundsAppend(first: Round, rounds: seq<Round>, n: nat, server: Server, t: Tools)
    requires n < 6 && IsRound(first, n, server, t) && AreRounds(rounds, n + 1, server, t)
    requires Follows(first, rounds[0])
    ensures AreRounds([first] + rounds, n, server, t)
  {
    var all := [first] + rounds;
    forall k | 0 <= k < |all| ensures IsRound(all[k], n + k, server, t) {
      if k > 0 { assert all[k] == rounds[k - 1]; }
    }
    forall k | 0 <= k < |all| - 1 ensures Follows(all[k], all[k + 1]) {
      if k > 0 { assert all[k] == rounds[k - 1] && all[k + 1] == rounds[k]; }
    }
  }

  // ----- the moments of a call

  /** From `from` on, the moments of a call are those of an attempt and, right after those of a failed one,
      the sleep, in which the disk is the one the next attempt starts from. */
  ghost predicate Passes(moments: seq<Moment>, from: nat, rounds: seq<Round>)
    requires rounds != []
    decreases |rounds|
  {
    var at := from + |rounds[0].moments|;
    && StandsAt(moments, rounds[0].moments, from)
    && (|rounds| > 1 ==> SleepsAt(moments, at, rounds[1]) && Passes(moments, at + 1, rounds[1..]))
  }

  predicate StandsAt(moments: seq<Moment>, part: seq<Moment>, from: nat) {
    from + |part| <= |moments| && moments[from..from + |part|] == part
  }

  predicate SleepsAt(moments: seq<Moment>, at: nat, next: Round) {
    at < |moments| && moments[at] == Moment(next.disk, next.hist)
  }

  lemma StandsLater(front: seq<Moment>, moments: seq<Moment>, part: seq<Moment>, from: nat)
    requires StandsAt(moments, part, from)
    ensures StandsAt(front + moments, part, |front| + from)
  {
    SliceOfSum(front, moments, from, from + |part|);
  }

  lemma {:induction false} PassesLater(front: seq<Moment>, moments: seq<Moment>, from: nat, rounds: seq<Round>)
    requires rounds != [] && Passes(moments, from, rounds)
    ensures Passes(front + moments, |front| + from, rounds)
    decreases |rounds|
  {
    StandsLater(front, moments, rounds[0].moments, from);
    if |rounds| > 1 {
      PassesLater(front, moments, from + |rounds[0].moments| + 1, rounds[1..]);
    }
  }

  lemma PassesMore(first: Round, moments: seq<Moment>, rounds: seq<Round>)
    requires rounds != [] && Passes(moments, 0, rounds)
    ensures Passes(first.moments + [Moment(rounds[0].disk, rounds[0].hist)] + moments, 0, [first] + rounds)
  {
    var front := first.moments + [Moment(rounds[0].disk, rounds[0].hist)];
    var all, more := front + moments, [first] + rounds;
    PassesLater(front, moments, 0, rounds);
    assert all[0..|first.moments|] == first.moments;
    assert more[1..] == rounds;
  }

  /** The sleep after the `k`th of these attempts. */
  lemma {:induction false} FindSleep(moments: seq<Moment>, from: nat, rounds: seq<Round>, k: nat) returns (at: nat)
    requires rounds != [] && Passes(moments, from, rounds) && k < |rounds| - 1
    ensures |rounds[k].moments| <= at && StandsAt(moments, rounds[k].moments, at - |rounds[k].moments|)
    ensures SleepsAt(moments, at, rounds[k + 1])
    decreases k
  {
    var next := from + |rounds[0].moments|;
    if k == 0 {
      at := next;
    } else {
      at := FindSleep(moments, next + 1, rounds[1..], k - 1);
    }
  }

  /** What is between a failed attempt and the next one. */
  lemma PauseFollows(r: Round, n: nat, server: Server, t: Tools) returns (disk: Disk, offset: nat)
    requires IsRound(r, n, server, t) && r.end.outcome.Err? && Latest(r.disk.rows, r.hist)
    ensures (r.end.hist.Some? ==> r.end.hist.value < |r.end.disk.rows|)
    ensures disk == Pause(r.end) && offset == NextOffset(r.end, r.offset)
    ensures Follows(r, Round(disk, r.end.hist, offset, [], r.end))
    ensures Latest(disk.rows, r.end.hist)
  {
    var a := AttemptTouches(r.disk, r.hist, server(n, r.offset), t);
    AttemptRows(r.disk, r.hist, server(n, r.offset), t);
    LatestAfter(r.disk, r.hist, a);
    disk, offset := Pause(a), NextOffset(a, r.offset);
    if a.hist.Some? {
      assert LeftPartial(a.disk, a.hist.value, disk);
      FoundAgain(a.disk, a.hist.value, disk);
    }
  }

  lemma FirstRound(d: Disk, hist: Option<nat>, offset: nat, n: nat, server: Server, t: Tools) returns (r: Round)
    requires hist.Some? ==> hist.value < |d.rows|
    ensures IsRound(r, n, server, t) && r.disk == d && r.hist == hist && r.offset == offset
    ensures r.end.hist.Some? ==> r.end.hist.value < |r.end.disk.rows|
  {
    AttemptRows(d, hist, server(n, offset), t);
    r := Round(d, hist, offset, AttemptMoments(d, hist, server(n, offset), t), Attempt(d, hist, server(n, offset), t));
  }

  /** The last round of the loop and of its moments. */
  lemma LoopEnds(r: Round, n: nat, server: Server, t: Tools) returns (run: Run, moments: seq<Moment>)
    requires n <= 6 && IsRound(r, n, server, t) && (r.end.outcome.Ok? || n == 6)
    requires r.end.hist.Some? ==> r.end.hist.value < |r.end.disk.rows|
    ensures run == Retry(r.disk, r.hist, r.offset, n, server, t)
    ensures run == Run(if r.end.outcome.Ok? then r.end.disk else GiveUp(r.end), r.end.hist, r.end.outcome, 1, 0)
    ensures moments == RetryMoments(r.disk, r.hist, r.offset, n, server, t)
    ensures moments == r.moments + (if r.end.outcome.Ok? then [] else [Moment(GiveUp(r.end), r.end.hist)])
  {
    RetryStep(r.end, r.disk, r.hist, r.offset, n, server, t);
    run := Retry(r.disk, r.hist, r.offset, n, server, t);
    moments := RetryMoments(r.disk, r.hist, r.offset, n, server, t);
  }

  /** A round that another one follows. */
  lemma LoopGoesOn(r: Round, n: nat, server: Server, t: Tools, disk: Disk, next: nat, rest: Run, more: seq<Moment>)
    returns (run: Run, moments: seq<Moment>)
    requires n < 6 && IsRound(r, n, server, t) && r.end.outcome.Err?
    requires r.end.hist.Some? ==> r.end.hist.value < |r.end.disk.rows|
    requires disk == Pause(r.end) && next == NextOffset(r.end, r.offset)
    requires rest == Retry(disk, r.end.hist, next, n + 1, server, t)
    requires more == RetryMoments(disk, r.end.hist, next, n + 1, server, t)
    ensures run == Retry(r.disk, r.hist, r.offset, n, server, t)
    ensures run == rest.(attempts := rest.attempts + 1, slept := rest.slept + RETRY_DELAYS_SECS[n])
    ensures moments == RetryMoments(r.disk, r.hist, r.offset, n, server, t)
    ensures moments == r.moments + ([Moment(disk, r.end.hist)] + more)
  {
    RetryStep(r.end, r.disk, r.hist, r.offset, n, server, t);
    run := Retry(r.disk, r.hist, r.offset, n, server, t);
    moments := RetryMoments(r.disk, r.hist, r.offset, n, server, t);
  }

  /** A call from attempt `n` on, told attempt by attempt. */
  datatype Story = Story(run: Run, moments: seq<Moment>, rounds: seq<Round>)

  ghost predicate AllLatest(rounds: seq<Round>) {
    forall k :: 0 <= k < |rounds| ==> Latest(rounds[k].disk.rows, rounds[k].hist)
  }

  /** The run ends as its last round does, and its counts are those of the rounds. */
  ghost predicate Ended(run: Run, rounds: seq<Round>, n: nat) {
    && rounds != [] && n + |rounds| <= 7 && EndsAs(run, rounds[|rounds| - 1].end)
    && run.attempts == |rounds| && run.slept == Slept(n, |rounds| - 1)
  }

  ghost predicate Told(s: Story, n: nat, server: Server, t: Tools) {
    && AreRounds(s.rounds, n, server, t) && AllLatest(s.rounds)
    && Passes(s.moments, 0, s.rounds)
    && Ended(s.run, s.rounds, n)
  }

  lemma LatestMore(first: Round, rounds: seq<Round>)
    requires Latest(first.disk.rows, first.hist) && AllLatest(rounds)
    ensures AllLatest([first] + rounds)
  {
  }

  lemma EndedMore(first: Round, run: Run, rounds: seq<Round>, n: nat) returns (more: Run)
    requires n < 6 && Ended(run, rounds, n + 1)
    ensures more == run.(attempts := run.attempts + 1, slept := run.slept + RETRY_DELAYS_SECS[n])
    ensures Ended(more, [first] + rounds, n)
  {
    more := run.(attempts := run.attempts + 1, slept := run.slept + RETRY_DELAYS_SECS[n]);
    assert ([first] + rounds)[|rounds|] == rounds[|rounds| - 1];
  }

  lemma ToldMore(first: Round, s: Story, n: nat, server: Server, t: Tools) returns (r: Story)
    requires n < 6 && IsRound(first, n, server, t) && Latest(first.disk.rows, first.hist)
    requires Told(s, n + 1, server, t) && Follows(first, s.rounds[0])
    ensures r.run == s.run.(attempts := s.run.attempts + 1, slept := s.run.slept + RETRY_DELAYS_SECS[n])
    ensures r.moments == first.moments + ([Moment(s.rounds[0].disk, s.rounds[0].hist)] + s.moments)
    ensures Told(r, n, server, t) && r.rounds[0] == first
  {
    RoundsAppend(first, s.rounds, n, server, t);
    PassesMore(first, s.moments, s.rounds);
    LatestMore(first, s.rounds);
    var run := EndedMore(first, s.run, s.rounds, n);
    Associative(first.moments, [Moment(s.rounds[0].disk, s.rounds[0].hist)], s.moments);
    r := Story(run, first.moments + [Moment(s.rounds[0].disk, s.rounds[0].hist)] + s.moments, [first] + s.rounds);
  }

  lemma ToldLast(last: Round, rest: seq<Moment>, run: Run, n: nat, server: Server, t: Tools) returns (r: Story)
    requires n <= 6 && IsRound(last, n, server, t) && Latest(last.disk.rows, last.hist)
    requires last.end.outcome.Err? ==> n == 6
    requires EndsAs(run, last.end) && run.attempts == 1 && run.slept == 0
    ensures r.run == run && r.moments == last.moments + rest && Told(r, n, server, t) && r.rounds == [last]
  {
    r := Story(run, last.moments + rest, [last]);
    assert r.moments[0..|last.moments|] == last.moments;
  }

  /** The end of a call, in terms of its last attempt. */
  lemma EndOfRun(a: Attempted) returns (run: Run)
    requires a.hist.Some? ==> a.hist.value < |a.disk.rows|
    ensures run == Run(if a.outcome.Ok? then a.disk else GiveUp(a), a.hist, a.outcome, 1, 0) && EndsAs(run, a)
  {
    run := Run(if a.outcome.Ok? then a.disk else GiveUp(a), a.hist, a.outcome, 1, 0);
  }

  /** `s` tells the call from attempt `n` on, which starts from this state. */
  ghost predicate Tells(s: Story, d: Disk, hist: Option<nat>, offset: nat, n: nat, server: Server, t: Tools) {
    && n <= 6 && (hist.Some? ==> hist.value < |d.rows|)
    && s.run == Retry(d, hist, offset, n, server, t) && s.moments == RetryMoments(d, hist, offset, n, server, t)
    && Told(s, n, server, t)
    && s.rounds[0].disk == d && s.rounds[0].hist == hist && s.rounds[0].offset == offset
  }

  lemma TellsMore(first: Round, n: nat, server: Server, t: Tools, rest: Story, disk: Disk, next: nat)
    returns (s: Story)
    requires n < 6 && Latest(first.disk.rows, first.hist) && IsRound(first, n, server, t) && first.end.outcome.Err?
    requires first.end.hist.Some? ==> first.end.hist.value < |first.end.disk.rows|
    requires disk == Pause(first.end) && next == NextOffset(first.end, first.offset)
    requires Tells(rest, disk, first.end.hist, next, n + 1, server, t) && Follows(first, rest.rounds[0])
    ensures Tells(s, first.disk, first.hist, first.offset, n, server, t)
  {
    var run, moments := LoopGoesOn(first, n, server, t, disk, next, rest.run, rest.moments);
    s := ToldMore(first, rest, n, server, t);
  }

  lemma TellsLast(last: Round, n: nat, server: Server, t: Tools) returns (s: Story)
    requires n <= 6 && Latest(last.disk.rows, last.hist) && IsRound(last, n, server, t)
    requires last.end.outcome.Ok? || n == 6
    requires last.end.hist.Some? ==> last.end.hist.value < |last.end.disk.rows|
    ensures Tells(s, last.disk, last.hist, last.offset, n, server, t)
  {
    var run, moments := LoopEnds(last, n, server, t);
    run := EndOfRun(last.end);
    s := ToldLast(last, if last.end.outcome.Ok? then [] else [Moment(GiveUp(last.end), last.end.hist)], run, n, server,
                  t);
  }

  lemma {:induction false} RetryTold(d: Disk, hist: Option<nat>, offset: nat, n: nat, server: Server, t: Tools)
    returns (s: Story)
    requires n <= 6 && Latest(d.rows, hist)
    ensures Tells(s, d, hist, offset, n, server, t)
    decreases 6 - n
  {
    var first := FirstRound(d, hist, offset, n, server, t);
    if first.end.outcome.Err? && n < 6 {
      var disk, next := PauseFollows(first, n, server, t);
      var rest := RetryTold(disk, first.end.hist, next, n + 1, server, t);
      s := TellsMore(first, n, server, t, rest, disk, next);
    } else {
      s := TellsLast(first, n, server, t);
    }
  }

  // ----- whole calls

  /** A call, told attempt by attempt: the first starts from the most recent row left partial and the bytes
      recorded there, or from nothing. */
  lemma CallTold(d: Disk, server: Server, t: Tools) returns (run: Run, moments: seq<Moment>, rounds: seq<Round>)
    ensures run == Request(d, server, t) && moments == Moments(d, server, t)
    ensures AreRounds(rounds, 0, server, t) && Passes(moments, 0, rounds)
    ensures rounds[0].disk == d && rounds[0].hist == FindPartial(d.rows)
    ensures rounds[0].offset == if rounds[0].hist.Some? then d.rows[rounds[0].hist.value].bytes else 0
    ensures forall k :: 0 <= k < |rounds| ==> Latest(rounds[k].disk.rows, rounds[k].hist)
    ensures EndsAs(run, rounds[|rounds| - 1].end)
    ensures run.attempts == |rounds| && run.slept == Slept(0, |rounds| - 1)
  {
    StartsLatest(d);
    var s := RetryTold(d, FindPartial(d.rows), StartOffset(d), 0, server, t);
    run, moments, rounds := s.run, s.moments, s.rounds;
  }

  /** A call that has a row keeps to it: every attempt uses that row and touches no other. */
  lemma {:induction false} KeepsRow(rounds: seq<Round>, server: Server, t: Tools, id: nat, k: nat)
    requires AreRounds(rounds, 0, server, t) && rounds[0].hist == Some(id) && k < |rounds|
    ensures rounds[k].hist == Some(id) && id < |rounds[k].disk.rows|
    ensures OnlyRow(rounds[0].disk.rows, rounds[k].disk.rows, id)
    ensures rounds[k].end.hist == Some(id) && OnlyRow(rounds[0].disk.rows, rounds[k].end.disk.rows, id)
  {
    if k > 0 {
      KeepsRow(rounds, server, t, id, k - 1);
      assert Follows(rounds[k - 1], rounds[k]);
    }
    assert IsRound(rounds[k], 0 + k, server, t);
    var a := AttemptTouches(rounds[k].disk, Some(id), server(k, rounds[k].offset), t);
  }

  lemma EndsOnRow(d: Disk, server: Server, t: Tools, id: nat) returns (run: Run, rounds: seq<Round>)
    requires FindPartial(d.rows) == Some(id)
    ensures run == Request(d, server, t) && AreRounds(rounds, 0, server, t)
    ensures rounds[0].disk == d && rounds[0].hist == Some(id) && rounds[0].offset == d.rows[id].bytes
    ensures run.hist == Some(id) && OnlyRow(d.rows, run.disk.rows, id)
  {
    var moments;
    run, moments, rounds := CallTold(d, server, t);
    KeepsRow(rounds, server, t, id, |rounds| - 1);
  }

  /** The disk of a call that was killed in the sleep after its `k`th attempt `a`. */
  ghost predicate LeftBy(left: Disk, a: Attempted) {
    && (a.hist.None? ==> left == a.disk)
    && (a.hist.Some? ==>
          && a.hist.value < |a.disk.rows| && left.file == a.disk.file && OnlyRow(a.disk.rows, left.rows, a.hist.value)
          && left.rows[a.hist.value] == Row(a.disk.rows[a.hist.value].bytes, RowStatus.Partial))
  }

  /** Any call, any server, any attempt but the last: during the sleep after it the row it used is partial
      with the bytes it recorded, the file is as it left it, and a process killed there leaves that disk. */
  lemma KilledAsleep(d: Disk, server: Server, t: Tools, k: nat)
    returns (rounds: seq<Round>, at: nat, left: Disk)
    requires k + 1 < Request(d, server, t).attempts
    ensures AreRounds(rounds, 0, server, t) && rounds[0].disk == d && rounds[0].hist == FindPartial(d.rows)
    ensures rounds[0].offset == StartOffset(d)
    ensures k + 1 < |rounds| && rounds[k].end.outcome.Err?
    ensures at < |Moments(d, server, t)| && Moments(d, server, t)[at] == Moment(left, rounds[k].end.hist)
    ensures |rounds[k].moments| <= at && StandsAt(Moments(d, server, t), rounds[k].moments, at - |rounds[k].moments|)
    ensures AfterEpisode(d, Episode(server, Some(at)), t) == left && LeftBy(left, rounds[k].end)
    ensures rounds[k].end.hist.Some? ==>
      FindPartial(left.rows) == rounds[k].end.hist
      && StartOffset(left) == rounds[k].end.disk.rows[rounds[k].end.hist.value].bytes
  {
    var run, moments;
    run, moments, rounds := CallTold(d, server, t);
    at := FindSleep(moments, 0, rounds, k);
    left := rounds[k + 1].disk;
    assert Follows(rounds[k], rounds[k + 1]) && IsRound(rounds[k], 0 + k, server, t);
    var a := AttemptTouches(rounds[k].disk, rounds[k].hist, server(k, rounds[k].offset), t);
    LatestAfter(rounds[k].disk, rounds[k].hist, a);
    if a.hist.Some? { FoundAgain(a.disk, a.hist.value, left); }
  }

  /** And the next call, against any server, resumes there: its first attempt uses that very row and asks
      for the bytes after those recorded, and no other row is opened or changed by it. */
  lemma ResumedAfterSleep(d: Disk, server: Server, next: Server, t: Tools, k: nat)
    returns (rounds: seq<Round>, at: nat, again: seq<Round>)
    requires k + 1 < Request(d, server, t).attempts
    ensures AreRounds(rounds, 0, server, t) && rounds[0].disk == d && rounds[0].hist == FindPartial(d.rows)
    ensures rounds[0].offset == StartOffset(d)
    ensures k + 1 < |rounds| && at < |Moments(d, server, t)|
    ensures var left, a := AfterEpisode(d, Episode(server, Some(at)), t), rounds[k].end;
      && LeftBy(left, a) && AreRounds(again, 0, next, t) && again[0].disk == left
      && (a.hist.Some? ==>
            && again[0].hist == a.hist && again[0].offset == a.disk.rows[a.hist.value].bytes
            && Request(left, next, t).hist == a.hist
            && OnlyRow(left.rows, Request(left, next, t).disk.rows, a.hist.value))
  {
    var left, run, moments;
    rounds, at, left := KilledAsleep(d, server, t, k);
    if rounds[k].end.hist.Some? {
      run, again := EndsOnRow(left, next, t, rounds[k].end.hist.value);
    } else {
      run, moments, again := CallTold(left, next, t);
    }
  }

  /** How a call ends: with the row complete and nothing more to resume from it, or after seven attempts
      with the row failed and the bytes it recorded; and how long it slept. */
  lemma CallEnds(d: Disk, server: Server, t: Tools) returns (run: Run)
    ensures run == Request(d, server, t) && 1 <= run.attempts <= 7
    ensures run.outcome.Err? ==> run.attempts == 7
    ensures run.slept == [0, 1, 3, 7, 15, 31, 61][run.attempts - 1]
    ensures run.hist.Some? ==>
      run.hist.value < |run.disk.rows|
      && run.disk.rows[run.hist.value].status == if run.outcome.Ok? then Complete else RowStatus.Failed
  {
    var moments, rounds;
    run, moments, rounds := CallTold(d, server, t);
    SleptTable(|rounds| - 1);
    var last := rounds[|rounds| - 1];
    assert IsRound(last, 0 + (|rounds| - 1), server, t);
    CompleteWhenOk(last.disk, last.hist, server(|rounds| - 1, last.offset), t);
  }

  lemma SleptTable(k: nat)
    requires k <= 6
    ensures Slept(0, k) == [0, 1, 3, 7, 15, 31, 61][k]
  {
    assert k >= 2 ==> Slept(0, k) == 3 + Slept(2, k - 2);
    assert k >= 4 ==> Slept(2, k - 2) == 12 + Slept(4, k - 4);
  }

  lemma CompleteWhenOk(d: Disk, hist: Option<nat>, conn: Option<seq<Bytes>>, t: Tools)
    requires hist.Some? ==> hist.value < |d.rows|
    ensures var a := Attempt(d, hist, conn, t);
      a.outcome.Ok? ==>
        a.hist.Some? && a.hist.value < |a.disk.rows| && a.disk.rows[a.hist.value].status == Complete
  {
  }

  // ----- what an attempt that is cut off records

  /** The start message and the first `n` chunks of an answer arrive, and then the connection ends before the
      announced size is reached: the file holds what arrived, from the offset on, and the row says how far. */
  lemma CutRecords(d: Disk, hist: Option<nat>, name: string, size: nat, offset: nat, chunks: seq<Bytes>,
                   checksum: string, n: nat, t: Tools) returns (a: Attempted, id: nat)
    requires t.Faithful() && (hist.Some? ==> hist.value < |d.rows|) && forall c :: c in chunks ==> c != []
    requires n <= |chunks| && offset + |Concat(chunks[..n])| < size
    ensures a == Attempt(d, hist, Some(Sent(name, size, offset, chunks, checksum, t)[..n + 1]), t)
    ensures a.outcome == Err(IoError) && a.hist == Some(id) && Touches(d, hist, a)
    ensures id == (if hist.Some? then hist.value else |d.rows|) && id < |a.disk.rows|
    ensures var data, start := Concat(chunks[..n]), if offset == 0 then [] else FileOf(d);
      && a.disk.file == Some(if data == [] then start else WriteAt(start, offset, data))
      && a.disk.rows[id].status == InProgress
      && a.disk.rows[id].bytes == if data == [] && hist.Some? then d.rows[id].bytes else offset + |data|
  {
    var frames := Sent(name, size, offset, chunks, checksum, t)[..n + 1];
    assert frames[0] == t.encode(TransferStart(name, size, offset)) && frames[1..] == chunks[..n];
    var used := UseRow(d.rows, hist, offset);
    id := used.0;
    var start := Open(d, offset).(rows := used.1);
    a := AttemptTouches(d, hist, Some(frames), t);
    StopsLater(offset, size, chunks, n);
    PartReceived(start, id, size, offset, chunks, n);
  }

  lemma StopsLater(offset: nat, size: nat, chunks: seq<Bytes>, n: nat)
    requires n <= |chunks| && offset + |Concat(chunks[..n])| < size && forall c :: c in chunks ==> c != []
    ensures n <= Stop(offset, size, chunks)
  {
    var k := Stop(offset, size, chunks);
    StopIsFirst(offset, size, chunks, k);
    if k < n {
      ConcatLonger(chunks, k, n);
    }
  }

  lemma FailsMoreThanOnce(d: Disk, server: Server, t: Tools)
    requires Attempt(d, FindPartial(d.rows), server(0, StartOffset(d)), t).outcome.Err?
    ensures Request(d, server, t).attempts > 1
  {
    var run, moments, rounds := CallTold(d, server, t);
    assert IsRound(rounds[0], 0 + 0, server, t);
  }

  /** The first attempt of a call, and what the sleep after it leaves. */
  lemma FirstSleep(d: Disk, a: Attempted, server: Server, t: Tools) returns (at: nat, left: Disk)
    requires a == Attempt(d, FindPartial(d.rows), server(0, StartOffset(d)), t) && a.outcome.Err?
    ensures at < |Moments(d, server, t)|
    ensures AfterEpisode(d, Episode(server, Some(at)), t) == left && LeftBy(left, a)
  {
    FailsMoreThanOnce(d, server, t);
    var rounds;
    rounds, at, left := KilledAsleep(d, server, t, 0);
    assert IsRound(rounds[0], 0 + 0, server, t);
  }

  lemma OneByteArrived(name: string, checksum: string, t: Tools) returns (a: Attempted)
    requires t.Faithful()
    ensures a == Attempt(Disk(None, []), None, Some(Sent(name, 10, 0, [[7]], checksum, t)[..2]), t)
    ensures a == Attempted(Disk(Some([7]), [Row(1, InProgress)]), Some(0), Err(IoError))
  {
    var chunks: seq<Bytes> := [[7]];
    assert chunks[..1] == chunks && Concat(chunks) == [7] + Concat(chunks[1..]) && chunks[1..] == [];
    var id;
    a, id := CutRecords(Disk(None, []), None, name, 10, 0, chunks, checksum, 1, t);
    assert WriteAt([], 0, [7]) == [7];
    assert a.disk.rows == [Row(1, InProgress)];
  }

  lemma PartialOfOne(left: Disk, a: Attempted)
    requires LeftBy(left, a) && a == Attempted(Disk(Some([7]), [Row(1, InProgress)]), Some(0), Err(IoError))
    ensures left == Disk(Some([7]), [Row(1, RowStatus.Partial)])
  {
    assert left.rows == [Row(1, RowStatus.Partial)];
  }

  /** The connection drops after one byte of a new pull and the program is killed in the sleep: the file has
      the byte, the row is partial with one byte, and the next call asks for what comes after it. */
  lemma DropAfterOneByte(name: string, checksum: string, server: Server, t: Tools) returns (at: nat)
    requires t.Faithful() && server(0, 0) == Some(Sent(name, 10, 0, [[7]], checksum, t)[..2])
    ensures at < |Moments(Disk(None, []), server, t)|
    ensures AfterEpisode(Disk(None, []), Episode(server, Some(at)), t)
         == Disk(Some([7]), [Row(1, RowStatus.Partial)])
    ensures StartOffset(Disk(Some([7]), [Row(1, RowStatus.Partial)])) == 1
  {
    var a := OneByteArrived(name, checksum, t);
    var left;
    at, left := FirstSleep(Disk(None, []), a, server, t);
    PartialOfOne(left, a);
  }

  // ----- one effect at a time

  /** From one moment to the next only the file changes or only the history rows do. */
  ghost predicate OneByOne(d: Disk, ms: seq<Moment>)
    decreases |ms|
  {
    ms == []
    || ((ms[0].disk.file == d.file || ms[0].disk.rows == d.rows) && OneByOne(ms[0].disk, ms[1..]))
  }

  function LastDisk(d: Disk, ms: seq<Moment>): Disk {
    if ms == [] then d else ms[|ms| - 1].disk
  }

  /** The moments lead from one disk to another, one effect at a time. */
  ghost predicate Leads(d: Disk, ms: seq<Moment>, e: Disk) {
    OneByOne(d, ms) && LastDisk(d, ms) == e
  }

  lemma {:induction false} LeadsOn(d: Disk, a: seq<Moment>, e: Disk, b: seq<Moment>, f: Disk)
    requires Leads(d, a, e) && Leads(e, b, f)
    ensures Leads(d, a + b, f)
    decreases |a|
  {
    if a == [] {
      assert a + b == b;
    } else {
      TailOfSum(a, b);
      assert a[1..] != [] ==> a[1..][|a| - 2] == a[|a| - 1];
      LeadsOn(a[0].disk, a[1..], e, b, f);
      assert b == [] || (a + b)[|a + b| - 1] == b[|b| - 1];
      assert b == [] ==> a + b == a;
    }
  }

  lemma OneStep(d: Disk, m: Moment)
    requires m.disk.file == d.file || m.disk.rows == d.rows
    ensures Leads(d, [m], m.disk)
  {
    assert [m][1..] == [];
  }

  lemma {:induction false} ReceiveLeads(d: Disk, id: nat, bytes: nat, size: nat, frames: seq<Bytes>)
    requires id < |d.rows|
    ensures Leads(d, ReceiveMoments(d, id, bytes, size, frames), Receive(d, id, bytes, size, frames).disk)
    decreases |frames|
  {
    if bytes < size && frames != [] && frames[0] != [] {
      var written, next := AfterWrite(d, bytes, frames[0]), AfterChunk(d, id, bytes, frames[0]);
      ReceiveStep(d, id, bytes, size, frames);
      ReceiveLeads(next, id, bytes + |frames[0]|, size, frames[1..]);
      OneStep(d, Moment(written, Some(id)));
      OneStep(written, Moment(next, Some(id)));
      LeadsOn(d, [Moment(written, Some(id))], written, [Moment(next, Some(id))], next);
      assert [Moment(written, Some(id))] + [Moment(next, Some(id))]
          == [Moment(written, Some(id)), Moment(next, Some(id))];
      LeadsOn(d, [Moment(written, Some(id)), Moment(next, Some(id))], next,
              ReceiveMoments(next, id, bytes + |frames[0]|, size, frames[1..]),
              Receive(d, id, bytes, size, frames).disk);
    }
  }

  lemma FinishLeads(r: Received, id: nat, t: Tools) returns (ms: seq<Moment>)
    requires id < |r.disk.rows|
    ensures var a := Finish(r, id, t);
      && ms == (if a.outcome == Err(Checksum) then [Moment(r.disk.(file := None), Some(id))] else [])
              + [Moment(a.disk, Some(id))]
      && Leads(r.disk, ms, a.disk)
  {
    var a := Finish(r, id, t);
    var last, removed := Moment(a.disk, Some(id)), Moment(r.disk.(file := None), Some(id));
    if a.outcome == Err(Checksum) {
      OneStep(r.disk, removed);
      OneStep(removed.disk, last);
      LeadsOn(r.disk, [removed], removed.disk, [last], a.disk);
      ms := [removed] + [last];
    } else {
      OneStep(r.disk, last);
      ms := [] + [last];
      assert ms == [last];
    }
  }

  lemma StartLeads(d: Disk, hist: Option<nat>, offset: nat) returns (ms: seq<Moment>, start: Disk, id: nat)
    requires hist.Some? ==> hist.value < |d.rows|
    ensures (id, start.rows) == UseRow(d.rows, hist, offset) && start == Open(d, offset).(rows := start.rows)
    ensures id < |start.rows| && ms == [Moment(Open(d, offset), hist), Moment(start, Some(id))] && Leads(d, ms, start)
  {
    var used, emptied := UseRow(d.rows, hist, offset), Open(d, offset);
    id, start := used.0, emptied.(rows := used.1);
    OneStep(d, Moment(emptied, hist));
    OneStep(emptied, Moment(start, Some(id)));
    LeadsOn(d, [Moment(emptied, hist)], emptied, [Moment(start, Some(id))], start);
    ms := [Moment(emptied, hist)] + [Moment(start, Some(id))];
    assert ms == [Moment(emptied, hist), Moment(start, Some(id))];
  }

  /** The moments of an attempt, in three parts. */
  lemma ThreeParts(d: Disk, hist: Option<nat>, conn: Option<seq<Bytes>>, t: Tools, begin: seq<Moment>, start: Disk,
                   id: nat, end: seq<Moment>)
    requires (hist.Some? ==> hist.value < |d.rows|) && Starts(conn, t)
    requires var m := t.decode(conn.value[0]).value;
      && (id, start.rows) == UseRow(d.rows, hist, m.resumeOffset)
      && start == Open(d, m.resumeOffset).(rows := start.rows)
      && id < |start.rows| && begin == [Moment(Open(d, m.resumeOffset), hist), Moment(start, Some(id))]
      && var r := Receive(start, id, m.resumeOffset, m.size, conn.value[1..]);
         var a := Finish(r, id, t);
         end == (if a.outcome == Err(Checksum) then [Moment(r.disk.(file := None), Some(id))] else [])
                + [Moment(a.disk, Some(id))]
    ensures var m := t.decode(conn.value[0]).value;
      var r := Receive(start, id, m.resumeOffset, m.size, conn.value[1..]);
      && Attempt(d, hist, conn, t) == Finish(r, id, t)
      && AttemptMoments(d, hist, conn, t)
         == begin + ReceiveMoments(start, id, m.resumeOffset, m.size, conn.value[1..]) + end
  {
    var m := t.decode(conn.value[0]).value;
    var r := Receive(start, id, m.resumeOffset, m.size, conn.value[1..]);
    var a := Finish(r, id, t);
    Associative(begin + ReceiveMoments(start, id, m.resumeOffset, m.size, conn.value[1..]),
                if a.outcome == Err(Checksum) then [Moment(r.disk.(file := None), Some(id))] else [],
                [Moment(a.disk, Some(id))]);
  }

  lemma AttemptLeads(d: Disk, hist: Option<nat>, conn: Option<seq<Bytes>>, t: Tools)
    requires hist.Some? ==> hist.value < |d.rows|
    ensures Leads(d, AttemptMoments(d, hist, conn, t), Attempt(d, hist, conn, t).disk)
  {
    if Starts(conn, t) {
      var m := t.decode(conn.value[0]).value;
      var begin, start, id := StartLeads(d, hist, m.resumeOffset);
      var r := Receive(start, id, m.resumeOffset, m.size, conn.value[1..]);
      var middle := ReceiveMoments(start, id, m.resumeOffset, m.size, conn.value[1..]);
      ReceiveLeads(start, id, m.resumeOffset, m.size, conn.value[1..]);
      var end := FinishLeads(r, id, t);
      ThreeParts(d, hist, conn, t, begin, start, id, end);
      LeadsOn(d, begin, start, middle, r.disk);
      LeadsOn(d, begin + middle, r.disk, end, Finish(r, id, t).disk);
    }
  }

  lemma {:induction false} RetryLeads(d: Disk, hist: Option<nat>, offset: nat, n: nat, server: Server, t: Tools)
    returns (run: Run, moments: seq<Moment>)
    requires n <= 6 && (hist.Some? ==> hist.value < |d.rows|)
    ensures run == Retry(d, hist, offset, n, server, t) && moments == RetryMoments(d, hist, offset, n, server, t)
    ensures Leads(d, moments, run.disk)
    decreases 6 - n
  {
    var r := FirstRound(d, hist, offset, n, server, t);
    AttemptLeads(d, hist, server(n, offset), t);
    if r.end.outcome.Err? && n < 6 {
      var disk, next := Pause(r.end), NextOffset(r.end, offset);
      run, moments := RetryLeads(disk, r.end.hist, next, n + 1, server, t);
      var sleep := Moment(disk, r.end.hist);
      OneStep(r.end.disk, sleep);
      LeadsOn(r.end.disk, [sleep], disk, moments, run.disk);
      LeadsOn(d, r.moments, r.end.disk, [sleep] + moments, run.disk);
      run, moments := LoopGoesOn(r, n, server, t, disk, next, run, moments);
    } else {
      run, moments := LoopEnds(r, n, server, t);
      if r.end.outcome.Err? {
        var last := Moment(GiveUp(r.end), r.end.hist);
        OneStep(r.end.disk, last);
        LeadsOn(d, r.moments, r.end.disk, [last], last.disk);
      } else {
        assert r.moments + [] == r.moments;
      }
    }
  }

  /** The moments at which a call can be killed are all there are: they lead from the disk it found to the
      disk it leaves, and from one to the next only the file changes or only the history rows do. */
  lemma MomentsAreAll(d: Disk, server: Server, t: Tools)
    ensures Leads(d, Moments(d, server, t), Request(d, server, t).disk)
  {
    var run, moments := RetryLeads(d, FindPartial(d.rows), StartOffset(d), 0, server, t);
  }

  // ----- answers that start nothing

  /** No connection, an unreadable or unexpected first frame, and every refusal: the error, and nothing
      changed on disk. */
  lemma NothingStarted(d: Disk, hist: Option<nat>, conn: Option<seq<Bytes>>, t: Tools)
    requires (hist.Some? ==> hist.value < |d.rows|) && !Starts(conn, t)
    ensures var a := Attempt(d, hist, conn, t);
      && a.disk == d && a.hist == hist && a.outcome.Err?
      && (conn.None? || conn.value == [] ==> a.outcome.error == IoError)
      && (conn.Some? && conn.value != [] ==>
            var m := t.decode(conn.value[0]);
            && (m == None ==> a.outcome.error == JsonError)
            && (m == Some(ErrorMsg("access_denied")) ==> a.outcome.error == AccessDenied)
            && (m == Some(ErrorMsg("invalid_offset")) ==> a.outcome.error == InvalidOffset)
            && (m != None && m != Some(ErrorMsg("access_denied")) && m != Some(ErrorMsg("invalid_offset")) ==>
                  a.outcome.error == Protocol))
  {
  }

  /** What a write leaves at each place: the new bytes, the old ones around them, and zeros in a gap. */
  lemma WriteAtEach(f: Bytes, pos: nat, data: Bytes, i: nat)
    ensures var g := WriteAt(f, pos, data);
      && |g| == (if pos + |data| < |f| then |f| else pos + |data|)
      && (i < |g| ==>
            g[i] == if pos <= i < pos + |data| then data[i - pos] else if i < |f| then f[i] else 0)
  {
  }
}
