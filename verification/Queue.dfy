/** The in-memory transfer queue of queue.rs, most recent entry first. */
module Queue {
  datatype QueueStatus = Queued | InProgress | Complete | Failed(reason: string) | Partial

  datatype QueueEntry = QueueEntry(transferId: string, filename: string, remotePath: string, peerName: string,
                                   status: QueueStatus, bytesReceived: nat, total: nat, startedAt: int)

  /** Position of the first entry with this id, or the length. */
  function Position(s: seq<QueueEntry>, id: string): (i: nat)
    ensures i <= |s|
    ensures i < |s| ==> s[i].transferId == id
    ensures forall j :: 0 <= j < i ==> s[j].transferId != id
  {
    if s == [] || s[0].transferId == id then 0 else 1 + Position(s[1..], id)
  }

  ghost predicate HasId(s: seq<QueueEntry>, id: string) {
    exists i :: 0 <= i < |s| && s[i].transferId == id
  }

  /** Ids are distinct and the history bound is kept. */
  ghost predicate Wf(s: seq<QueueEntry>, maxHistory: nat) {
    && |s| <= maxHistory
    && forall i, j :: 0 <= i < j < |s| ==> s[i].transferId != s[j].transferId
  }

  function PushSpec(s: seq<QueueEntry>, e: QueueEntry, maxHistory: nat): seq<QueueEntry> {
    var i := Position(s, e.transferId);
    if i < |s| then s[i := e]
    else if |s| + 1 <= maxHistory then [e] + s
    else ([e] + s)[..maxHistory]
  }

  function UpdateSpec(s: seq<QueueEntry>, id: string, status: QueueStatus, bytes: nat): seq<QueueEntry> {
    var i := Position(s, id);
    if i < |s| then s[i := s[i].(status := status, bytesReceived := bytes)] else s
  }

  /** What the queue shows for a transfer. */
  ghost predicate Shows(s: seq<QueueEntry>, id: string, status: QueueStatus, bytes: nat) {
    forall i :: 0 <= i < |s| && s[i].transferId == id ==> s[i].status == status && s[i].bytesReceived == bytes
  }

  /** A push keeps distinct ids and the bound. A listed id keeps its place and shows the pushed entry; any
      other entry comes first, the others follow in order, and only the oldest is dropped for it. */
  lemma PushKeeps(s: seq<QueueEntry>, e: QueueEntry, maxHistory: nat)
    requires Wf(s, maxHistory)
    ensures Wf(PushSpec(s, e, maxHistory), maxHistory)
    ensures HasId(s, e.transferId) ==>
      |PushSpec(s, e, maxHistory)| == |s|
      && forall i :: 0 <= i < |s| ==>
        PushSpec(s, e, maxHistory)[i] == if s[i].transferId == e.transferId then e else s[i]
    ensures !HasId(s, e.transferId) ==>
      |PushSpec(s, e, maxHistory)| == (if |s| < maxHistory then |s| + 1 else |s|)
      && forall i :: 0 <= i < |PushSpec(s, e, maxHistory)| ==>
        PushSpec(s, e, maxHistory)[i] == if i == 0 then e else s[i - 1]
  {
    var i := Position(s, e.transferId);
    if i < |s| {
      assert HasId(s, e.transferId);
    }
  }

  /** After a push the queue shows what was pushed. */
  lemma PushShows(s: seq<QueueEntry>, e: QueueEntry, maxHistory: nat)
    requires Wf(s, maxHistory)
    ensures Shows(PushSpec(s, e, maxHistory), e.transferId, e.status, e.bytesReceived)
  {
    PushKeeps(s, e, maxHistory);
    var r := PushSpec(s, e, maxHistory);
    if !HasId(s, e.transferId) {
      assert forall i :: 0 < i < |r| ==> r[i] == s[i - 1];
    }
  }

  /** An update touches one entry only, keeps order and bound, and is what the queue then shows. */
  lemma UpdateKeeps(s: seq<QueueEntry>, id: string, status: QueueStatus, bytes: nat, maxHistory: nat)
    requires Wf(s, maxHistory)
    ensures Wf(UpdateSpec(s, id, status, bytes), maxHistory)
    ensures Shows(UpdateSpec(s, id, status, bytes), id, status, bytes)
    ensures |UpdateSpec(s, id, status, bytes)| == |s|
    ensures forall i :: 0 <= i < |s| ==>
      UpdateSpec(s, id, status, bytes)[i] ==
        if s[i].transferId == id then s[i].(status := status, bytesReceived := bytes) else s[i]
  {
  }

  /** What the queue shows for one transfer does not change when another one is pushed or updated. */
  lemma PushElsewhere(s: seq<QueueEntry>, e: QueueEntry, maxHistory: nat, id: string)
    requires Wf(s, maxHistory) && e.transferId != id
    ensures forall status, bytes :: Shows(s, id, status, bytes) ==> Shows(PushSpec(s, e, maxHistory), id, status, bytes)
  {
    var r := PushSpec(s, e, maxHistory);
    forall i | 0 <= i < |r| && r[i].transferId == id ensures r[i] in s {
    }
  }

  lemma UpdateElsewhere(s: seq<QueueEntry>, other: string, status: QueueStatus, bytes: nat, id: string)
    requires other != id
    ensures forall st, n :: Shows(s, id, st, n) ==> Shows(UpdateSpec(s, other, status, bytes), id, st, n)
  {
  }

  class TransferQueue {
    const maxHistory: nat
    var entries: seq<QueueEntry>

    ghost predicate Valid()
      reads this
    {
      Wf(entries, maxHistory)
    }

    constructor (maxHistory: nat)
      ensures Valid() && entries == [] && this.maxHistory == maxHistory
    {
      this.maxHistory := maxHistory;
      entries := [];
    }

    method Push(e: QueueEntry)
      requires Valid()
      modifies this
      ensures Valid() && entries == PushSpec(old(entries), e, maxHistory)
    {
      PushKeeps(entries, e, maxHistory);
      var i := Position(entries, e.transferId);
      if i < |entries| {
        entries := entries[i := e];
        return;
      }
      entries := [e] + entries;
      while |entries| > maxHistory
        invariant |old(entries)| <= maxHistory
        invariant |entries| <= |old(entries)| + 1
        invariant entries == ([e] + old(entries))[..|entries|]
        invariant |entries| >= maxHistory || entries == [e] + old(entries)
      {
        entries := entries[..|entries| - 1];
      }
    }

    method Update(id: string, status: QueueStatus, bytes: nat)
      requires Valid()
      modifies this
      ensures Valid() && entries == UpdateSpec(old(entries), id, status, bytes)
    {
      UpdateKeeps(entries, id, status, bytes, maxHistory);
      var i := Position(entries, id);
      if i < |entries| {
        entries := entries[i := entries[i].(status := status, bytesReceived := bytes)];
      }
    }

    method List() returns (r: seq<QueueEntry>)
      ensures r == entries
    {
      r := entries;
    }
  }
}
