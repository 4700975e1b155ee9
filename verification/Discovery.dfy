/** The presence loop of discovery.rs: peer map, eviction after 20 s, and detection of trusted peers that
    came online. Times are milliseconds of a monotonic clock. */
module Discovery {
  import opened Wrappers

  const PEER_TIMEOUT := 20000

  datatype Packet = Packet(kind: string, deviceId: string, deviceName: string)

  /** What one `recv_from` gives: a decoded packet, something undecodable, or nothing in time. */
  datatype Recv = Got(packet: Packet) | Undecodable | TimedOut

  /** One round of the loop: what arrived, the trust set then, and the clock when the entry is stored
      and when entries are evicted. */
  datatype Round = Round(recv: Recv, trusted: set<string>, recvAt: nat, retainAt: nat)

  datatype Entry = Entry(deviceName: string, trusted: bool, lastSeen: nat)

  /** Own packets and foreign kinds restart the loop before eviction and detection. */
  predicate Skips(r: Round, me: string) {
    r.recv.Got? && (r.recv.packet.deviceId == me || r.recv.packet.kind != "presence")
  }


  function Stored(peers: map<string, Entry>, r: Round): map<string, Entry> {
    if r.recv.Got? then
      var p := r.recv.packet;
      peers[p.deviceId := Entry(p.deviceName, p.deviceId in r.trusted, r.recvAt)]
    else peers
  }

  function Retained(peers: map<string, Entry>, now: nat): map<string, Entry> {
    map id | id in peers && now < peers[id].lastSeen + PEER_TIMEOUT :: peers[id]
  }

  function PeersAfter(peers: map<string, Entry>, r: Round, me: string): map<string, Entry> {
    if Skips(r, me) then peers else Retained(Stored(peers, r), r.retainAt)
  }

  function OnlineTrusted(peers: map<string, Entry>): set<string> {
    set id | id in peers && peers[id].trusted
  }

  // ----- the run after `n` rounds

  function Peers(rounds: seq<Round>, me: string, n: nat): map<string, Entry>
    requires n <= |rounds|
  {
    if n == 0 then map[] else PeersAfter(Peers(rounds, me, n - 1), rounds[n - 1], me)
  }

  /** `last_online_trusted` */
  function LastOnline(rounds: seq<Round>, me: string, n: nat): set<string>
    requires n <= |rounds|
  {
    if n == 0 then {}
    else if Skips(rounds[n - 1], me) then LastOnline(rounds, me, n - 1)
    else OnlineTrusted(Peers(rounds, me, n))
  }

  /** The ids announced in round `k`. */
  function NewlyOnline(rounds: seq<Round>, me: string, k: nat): set<string>
    requires k < |rounds|
  {
    if Skips(rounds[k], me) then {} else OnlineTrusted(Peers(rounds, me, k + 1)) - LastOnline(rounds, me, k)
  }

  class PresenceLoop {
    const me: string
    var peers: map<string, Entry>
    var lastOnlineTrusted: set<string>

    constructor (me: string)
      ensures this.me == me && peers == map[] && lastOnlineTrusted == {}
    {
      this.me := me;
      peers, lastOnlineTrusted := map[], {};
    }

    /** The body of the loop. */
    method Once(r: Round) returns (newlyOnline: set<string>)
      modifies this
      ensures peers == PeersAfter(old(peers), r, me)
      ensures Skips(r, me) ==> newlyOnline == {} && lastOnlineTrusted == old(lastOnlineTrusted)
      ensures !Skips(r, me) ==>
        newlyOnline == OnlineTrusted(peers) - old(lastOnlineTrusted) && lastOnlineTrusted == OnlineTrusted(peers)
    {
      if r.recv.Got? {
        var p := r.recv.packet;
        if p.deviceId == me {
          return {};
        }
        if p.kind != "presence" {
          return {};
        }
        peers := peers[p.deviceId := Entry(p.deviceName, p.deviceId in r.trusted, r.recvAt)];
      }
      peers := Retained(peers, r.retainAt);
      var onlineTrusted := OnlineTrusted(peers);
      newlyOnline := onlineTrusted - lastOnlineTrusted;
      lastOnlineTrusted := onlineTrusted;
    }

    /** The loop, for as many rounds as happen; `log[k]` is what round `k` announced. */
    method Loop(rounds: seq<Round>) returns (log: seq<set<string>>)
      requires peers == map[] && lastOnlineTrusted == {}
      modifies this
      ensures peers == Peers(rounds, me, |rounds|)
      ensures |log| == |rounds| && forall k :: 0 <= k < |rounds| ==> log[k] == NewlyOnline(rounds, me, k)
    {
      log := [];
      for n := 0 to |rounds|
        invariant peers == Peers(rounds, me, n) && lastOnlineTrusted == LastOnline(rounds, me, n)
        invariant |log| == n && forall k :: 0 <= k < n ==> log[k] == NewlyOnline(rounds, me, k)
      {
        var appeared := Once(rounds[n]);
        log := log + [appeared];
      }
    }
  }

  // ----- rounds, as the properties speak of them

  /** A round in which nothing arrived, or a presence packet of another device. */
  predicate Full(r: Round, me: string) {
    r.recv.Got? ==> r.recv.packet.kind == "presence" && r.recv.packet.deviceId != me
  }

  /** A presence packet of this device arrived. */
  predicate Hears(r: Round, me: string, id: string) {
    r.recv.Got? && r.recv.packet.kind == "presence" && r.recv.packet.deviceId == id && id != me
  }

  // ----- one announcement per appearance

  lemma {:induction false} OnlineSince(rounds: seq<Round>, me: string, id: string, i: nat, j: nat)
    requires i < j <= |rounds| && Full(rounds[i], me) && id in OnlineTrusted(Peers(rounds, me, i + 1))
    requires forall k :: i < k < j && Full(rounds[k], me) ==> id in OnlineTrusted(Peers(rounds, me, k + 1))
    ensures id in LastOnline(rounds, me, j)
    decreases j
  {
    if i + 1 < j && !Full(rounds[j - 1], me) {
      OnlineSince(rounds, me, id, i, j - 1);
    }
  }

  /** Between two announcements of the same id there is a full round in which it was not online as a
      trusted peer. */
  lemma AnnouncedAgainOnlyAfterAbsence(rounds: seq<Round>, me: string, id: string, i: nat, j: nat)
    requires i < j < |rounds| && id in NewlyOnline(rounds, me, i) && id in NewlyOnline(rounds, me, j)
    ensures exists k :: i < k < j && Full(rounds[k], me) && id !in OnlineTrusted(Peers(rounds, me, k + 1))
  {
    if forall k :: i < k < j && Full(rounds[k], me) ==> id in OnlineTrusted(Peers(rounds, me, k + 1)) {
      OnlineSince(rounds, me, id, i, j);
    }
  }

  /** Round `j` is the last full round before round `k`. */
  ghost predicate PreviousFull(rounds: seq<Round>, me: string, k: nat, j: nat)
    requires k <= |rounds|
  {
    j < k && Full(rounds[j], me) && forall i :: j < i < k ==> !Full(rounds[i], me)
  }

  lemma {:induction false} LastOnlineIsPreviousFull(rounds: seq<Round>, me: string, k: nat) returns (j: Option<nat>)
    requires k <= |rounds|
    ensures j.Some? ==> PreviousFull(rounds, me, k, j.value)
    ensures j.Some? ==> LastOnline(rounds, me, k) == OnlineTrusted(Peers(rounds, me, j.value + 1))
    ensures j.None? ==> LastOnline(rounds, me, k) == {} && forall i :: 0 <= i < k ==> !Full(rounds[i], me)
  {
    if k == 0 {
      j := None;
    } else if !Full(rounds[k - 1], me) {
      j := LastOnlineIsPreviousFull(rounds, me, k - 1);
    } else {
      j := Some(k - 1);
    }
  }

  /** An id is announced in a round exactly when the round is a full one, the id is online and trusted
      there, and it was not in the full round before, if there was one. */
  lemma AnnouncedIff(rounds: seq<Round>, me: string, id: string, k: nat)
    requires k < |rounds|
    ensures id in NewlyOnline(rounds, me, k) <==>
      && Full(rounds[k], me) && id in OnlineTrusted(Peers(rounds, me, k + 1))
      && forall j: nat :: PreviousFull(rounds, me, k, j) ==> id !in OnlineTrusted(Peers(rounds, me, j + 1))
  {
    var p := LastOnlineIsPreviousFull(rounds, me, k);
    assert forall j: nat :: PreviousFull(rounds, me, k, j) ==> p == Some(j);
  }

  // ----- who is in the peer map

  /** The clock does not run backwards. */
  ghost predicate Monotonic(rounds: seq<Round>) {
    && (forall k :: 0 <= k < |rounds| ==> rounds[k].recvAt <= rounds[k].retainAt)
    && (forall k, l :: 0 <= k < l < |rounds| ==> rounds[k].retainAt <= rounds[l].recvAt)
  }

  lemma InOrder(rounds: seq<Round>, i: nat, j: nat)
    requires Monotonic(rounds) && i <= j < |rounds|
    ensures rounds[i].recvAt <= rounds[j].recvAt && rounds[i].retainAt <= rounds[j].retainAt
    ensures i < j ==> rounds[i].retainAt <= rounds[j].recvAt
  {
  }

  /** The latest of the first `n` rounds that heard this id. */
  ghost predicate LastHeard(rounds: seq<Round>, me: string, id: string, n: nat, p: nat)
    requires n <= |rounds|
  {
    p < n && Hears(rounds[p], me, id) && forall k :: p < k < n ==> !Hears(rounds[k], me, id)
  }

  lemma LastHeardUnique(rounds: seq<Round>, me: string, id: string, n: nat, p: nat, q: nat)
    requires n <= |rounds| && LastHeard(rounds, me, id, n, p) && LastHeard(rounds, me, id, n, q)
    ensures p == q
  {
  }

  lemma {:induction false} EntryIsLastHeard(rounds: seq<Round>, me: string, id: string, n: nat) returns (p: nat)
    requires n <= |rounds| && id in Peers(rounds, me, n)
    ensures LastHeard(rounds, me, id, n, p)
    ensures Peers(rounds, me, n)[id]
         == Entry(rounds[p].recv.packet.deviceName, id in rounds[p].trusted, rounds[p].recvAt)
  {
    if Hears(rounds[n - 1], me, id) {
      p := n - 1;
    } else {
      p := EntryIsLastHeard(rounds, me, id, n - 1);
    }
  }

  lemma {:induction false} HeardStays(rounds: seq<Round>, me: string, id: string, n: nat, p: nat)
    requires n <= |rounds| && Monotonic(rounds) && LastHeard(rounds, me, id, n, p)
    requires forall k :: p <= k < n && Full(rounds[k], me) ==> rounds[k].retainAt < rounds[p].recvAt + 20000
    ensures id in Peers(rounds, me, n)
    ensures Peers(rounds, me, n)[id].lastSeen == rounds[p].recvAt
    ensures Peers(rounds, me, n)[id].trusted == (id in rounds[p].trusted)
    decreases n
  {
    if p < n - 1 {
      HeardStays(rounds, me, id, n - 1, p);
    }
  }

  /** After a full round the peer map holds exactly the devices heard less than 20 s before, each with
      the name and trust of its last packet. */
  lemma PresentIffHeardRecently(rounds: seq<Round>, me: string, id: string, k: nat)
    requires k < |rounds| && Monotonic(rounds) && Full(rounds[k], me)
    ensures id in Peers(rounds, me, k + 1) <==>
      exists p: nat :: LastHeard(rounds, me, id, k + 1, p) && rounds[k].retainAt < rounds[p].recvAt + 20000
    ensures forall p: nat :: id in Peers(rounds, me, k + 1) && LastHeard(rounds, me, id, k + 1, p) ==>
      Peers(rounds, me, k + 1)[id]
      == Entry(rounds[p].recv.packet.deviceName, id in rounds[p].trusted, rounds[p].recvAt)
  {
    if id in Peers(rounds, me, k + 1) {
      var p := EntryIsLastHeard(rounds, me, id, k + 1);
      forall q: nat | LastHeard(rounds, me, id, k + 1, q) ensures rounds[q] == rounds[p] {
        LastHeardUnique(rounds, me, id, k + 1, p, q);
      }
    }
    if p: nat :| LastHeard(rounds, me, id, k + 1, p) && rounds[k].retainAt < rounds[p].recvAt + 20000 {
      forall l | p <= l < k + 1 ensures rounds[l].retainAt <= rounds[k].retainAt {
        InOrder(rounds, l, k);
      }
      HeardStays(rounds, me, id, k + 1, p);
    }
  }

  // ----- a steady trusted peer is announced once

  /** From round `first` to round `n` the peer is trusted and, at every eviction, was heard less than 20 s
      ago. */
  ghost predicate Steady(rounds: seq<Round>, me: string, id: string, first: nat, n: nat) {
    && first < |rounds| && n <= |rounds| && Hears(rounds[first], me, id)
    && (forall k :: 0 <= k < first ==> !Hears(rounds[k], me, id))
    && (forall k :: first <= k < n ==> id in rounds[k].trusted)
    && (forall k :: first <= k < n && Full(rounds[k], me) ==> HeardWithin(rounds, me, id, first, k))
  }

  ghost predicate HeardWithin(rounds: seq<Round>, me: string, id: string, first: nat, k: nat)
    requires k < |rounds|
  {
    exists p :: first <= p <= k && Hears(rounds[p], me, id) && rounds[k].retainAt < rounds[p].recvAt + 20000
  }

  /** From its first packet in round `first` to the one in round `last` the peer is trusted, and every
      packet before the last is followed by another less than 20 s later. */
  ghost predicate CloseTogether(rounds: seq<Round>, me: string, id: string, first: nat, last: nat) {
    && first <= last < |rounds| && Hears(rounds[first], me, id)
    && (forall k :: 0 <= k < first ==> !Hears(rounds[k], me, id))
    && (forall k :: first <= k < last ==> id in rounds[k].trusted)
    && (forall p :: first <= p < last && Hears(rounds[p], me, id) ==> FollowedWithin(rounds, me, id, p, last))
  }

  ghost predicate FollowedWithin(rounds: seq<Round>, me: string, id: string, p: nat, last: nat)
    requires p <= last < |rounds|
  {
    exists q :: p < q <= last && Hears(rounds[q], me, id) && rounds[q].recvAt < rounds[p].recvAt + 20000
  }

  /** Packets less than 20 s apart are enough: every eviction before the last of them comes in time. */
  lemma CloseTogetherIsSteady(rounds: seq<Round>, me: string, id: string, first: nat, last: nat)
    requires Monotonic(rounds) && CloseTogether(rounds, me, id, first, last)
    ensures Steady(rounds, me, id, first, last)
  {
    forall k | first <= k < last ensures HeardWithin(rounds, me, id, first, k) {
      var p := LatestHeard(rounds, me, id, first, k);
      assert FollowedWithin(rounds, me, id, p, last);
      var q :| p < q <= last && Hears(rounds[q], me, id) && rounds[q].recvAt < rounds[p].recvAt + 20000;
      assert q > k;
      assert rounds[k].retainAt <= rounds[q].recvAt;
    }
  }

  lemma {:induction false} LatestHeard(rounds: seq<Round>, me: string, id: string, first: nat, k: nat) returns (p: nat)
    requires first <= k < |rounds| && Hears(rounds[first], me, id)
    ensures first <= p <= k && Hears(rounds[p], me, id)
    ensures forall l :: p < l <= k ==> !Hears(rounds[l], me, id)
    decreases k
  {
    if Hears(rounds[k], me, id) {
      p := k;
    } else {
      p := LatestHeard(rounds, me, id, first, k - 1);
    }
  }

  /** Any packet heard in time makes the latest packet one heard in time. */
  lemma LatestIsInTime(rounds: seq<Round>, me: string, id: string, first: nat, k: nat) returns (p: nat)
    requires Monotonic(rounds) && k < |rounds| && HeardWithin(rounds, me, id, first, k)
    ensures first <= p && LastHeard(rounds, me, id, k + 1, p) && rounds[k].retainAt < rounds[p].recvAt + 20000
  {
    var w: nat :| first <= w <= k && Hears(rounds[w], me, id) && rounds[k].retainAt < rounds[w].recvAt + 20000;
    p := LatestHeard(rounds, me, id, w, k);
    InOrder(rounds, w, p);
  }

  lemma SteadyIsOnline(rounds: seq<Round>, me: string, id: string, first: nat, n: nat, k: nat)
    requires Monotonic(rounds) && Steady(rounds, me, id, first, n) && first <= k < n && Full(rounds[k], me)
    ensures id in OnlineTrusted(Peers(rounds, me, k + 1))
  {
    var p := LatestIsInTime(rounds, me, id, first, k);
    PresentIffHeardRecently(rounds, me, id, k);
  }

  lemma {:induction false} NotOnlineBefore(rounds: seq<Round>, me: string, id: string, n: nat)
    requires n <= |rounds| && forall k :: 0 <= k < n ==> !Hears(rounds[k], me, id)
    ensures id !in Peers(rounds, me, n) && id !in LastOnline(rounds, me, n)
  {
    if n > 0 {
      NotOnlineBefore(rounds, me, id, n - 1);
    }
  }

  /** A steady trusted peer is announced in the round of its first packet and never again. */
  lemma SteadyPeerAnnouncedOnce(rounds: seq<Round>, me: string, id: string, first: nat, n: nat, k: nat)
    requires Monotonic(rounds) && Steady(rounds, me, id, first, n) && k < n
    ensures id in NewlyOnline(rounds, me, k) <==> k == first
  {
    if k < first {
      NotOnlineBefore(rounds, me, id, k + 1);
    } else {
      SteadyIsOnline(rounds, me, id, first, n, first);
      NotOnlineBefore(rounds, me, id, first);
      if k > first {
        forall l | first < l < k && Full(rounds[l], me) ensures id in OnlineTrusted(Peers(rounds, me, l + 1)) {
          SteadyIsOnline(rounds, me, id, first, n, l);
        }
        OnlineSince(rounds, me, id, first, k);
      }
    }
  }

  /** A trusted peer whose packets arrive less than 20 s apart is announced exactly once: in the round of
      its first packet and in no other round before its last. */
  lemma CloseTogetherAnnouncedOnce(rounds: seq<Round>, me: string, id: string, first: nat, last: nat, k: nat)
    requires Monotonic(rounds) && CloseTogether(rounds, me, id, first, last) && k < last
    ensures id in NewlyOnline(rounds, me, k) <==> k == first
  {
    CloseTogetherIsSteady(rounds, me, id, first, last);
    SteadyPeerAnnouncedOnce(rounds, me, id, first, last, k);
  }
}
