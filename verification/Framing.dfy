/** Length-prefixed frames: `write_frame` and `read_frame_len` of crypto.rs, and the stream methods
    `write_plain`, `read_plain`, `write_enc`, `read_enc` of network/mod.rs. */
module Framing {
  import opened Wrappers

  type byte = x: int | 0 <= x < 256

  const MAX_FRAME_BYTES := 64 * 1024 * 1024

  datatype FrameError = Io | FrameTooLarge(len: nat) | Decrypt

  // ----- one frame

  function ToLe32(n: nat): (b: seq<byte>)
    requires n < 0x1_0000_0000
    ensures |b| == 4
  {
    [n % 256, n / 256 % 256, n / 65536 % 256, n / 16777216]
  }

  /** `read_frame_len` */
  function FromLe32(b: seq<byte>): nat
    requires |b| == 4
  {
    var b0: int, b1: int, b2: int, b3: int := b[0], b[1], b[2], b[3];
    b0 + 256 * b1 + 65536 * b2 + 16777216 * b3
  }

  lemma BytesSum(n: nat)
    ensures n == n % 256 + 256 * (n / 256 % 256) + 65536 * (n / 65536 % 256) + 16777216 * (n / 16777216)
  {
    var q: nat, r: nat := n / 256, n / 65536;
    assert r == q / 256 && n / 16777216 == r / 256;
    assert n == n % 256 + 256 * q;
    assert q == q % 256 + 256 * r;
    assert r == r % 256 + 256 * (r / 256);
  }

  /** The length prefix round-trips for every 32-bit length, and nothing else encodes it. */
  lemma Le32RoundTrip(n: nat, b: seq<byte>)
    requires n < 0x1_0000_0000 && |b| == 4
    ensures FromLe32(ToLe32(n)) == n
    ensures FromLe32(b) < 0x1_0000_0000 && ToLe32(FromLe32(b)) == b
  {
    BytesSum(n);
    LeBytes(b[0], b[1], b[2], b[3]);
    assert ToLe32(FromLe32(b)) == [b[0], b[1], b[2], b[3]] == b;
  }

  lemma LeBytes(a: int, b: int, c: int, d: int)
    requires 0 <= a < 256 && 0 <= b < 256 && 0 <= c < 256 && 0 <= d < 256
    ensures var m := a + 256 * b + 65536 * c + 16777216 * d;
      m < 0x1_0000_0000 && m % 256 == a && m / 256 % 256 == b && m / 65536 % 256 == c && m / 16777216 == d
  {
    var m := a + 256 * b + 65536 * c + 16777216 * d;
    assert m / 256 == b + 256 * c + 65536 * d;
    assert m / 65536 == c + 256 * d;
  }

  /** `write_frame` */
  function WriteFrame(payload: seq<byte>): Result<seq<byte>, FrameError> {
    if |payload| > MAX_FRAME_BYTES then Err(FrameTooLarge(|payload|))
    else Ok(ToLe32(|payload|) + payload)
  }

  /** The bytes on the wire after writing all these payloads. */
  function Wire(payloads: seq<seq<byte>>): seq<byte>
    requires forall p :: p in payloads ==> |p| <= MAX_FRAME_BYTES
  {
    if payloads == [] then [] else
      assert payloads[0] in payloads;
      WriteFrame(payloads[0]).value + Wire(payloads[1..])
  }

  // ----- reading

  datatype ReadResult = Got(payload: seq<byte>, rest: seq<byte>) | Failed(error: FrameError)

  /** `read_plain` on what the peer sent before the stream ended. */
  function ReadFrame(s: seq<byte>): ReadResult {
    if |s| < 4 then Failed(Io)
    else
      var len := FromLe32(s[..4]);
      if len > MAX_FRAME_BYTES then Failed(FrameTooLarge(len))
      else if |s| < 4 + len then Failed(Io)
      else Got(s[4..4 + len], s[4 + len..])
  }

  function ReadAll(s: seq<byte>): seq<seq<byte>>
    decreases |s|
  {
    match ReadFrame(s)
    case Failed(_) => []
    case Got(p, rest) => [p] + ReadAll(rest)
  }

  /** A cut frame is never read, a whole one is read exactly. */
  lemma ReadFirst(payload: seq<byte>, tail: seq<byte>, n: nat)
    requires |payload| <= MAX_FRAME_BYTES && n <= 4 + |payload| + |tail|
    ensures var s := (WriteFrame(payload).value + tail)[..n];
      ReadFrame(s) == if n < 4 + |payload| then Failed(Io) else Got(payload, tail[..n - 4 - |payload|])
  {
    var frame := WriteFrame(payload).value;
    var s := (frame + tail)[..n];
    Le32RoundTrip(|payload|, [0, 0, 0, 0]);
    assert frame[..4] == ToLe32(|payload|) && frame[4..] == payload;
    if n >= 4 {
      assert s[..4] == frame[..4];
    }
    if n >= |frame| {
      assert s == frame + tail[..n - |frame|];
    }
  }

  lemma ReadWire(payloads: seq<seq<byte>>, n: nat)
    requires payloads != [] && (forall p :: p in payloads ==> |p| <= MAX_FRAME_BYTES) && n <= |Wire(payloads)|
    ensures |Wire(payloads)| == 4 + |payloads[0]| + |Wire(payloads[1..])|
    ensures ReadAll(Wire(payloads)[..n])
         == if n < 4 + |payloads[0]| then []
            else [payloads[0]] + ReadAll(Wire(payloads[1..])[..n - 4 - |payloads[0]|])
  {
    ReadFirst(payloads[0], Wire(payloads[1..]), n);
  }

  /** How many payloads are whole in the first `n` bytes of the wire. */
  function WholeIn(payloads: seq<seq<byte>>, n: nat): (k: nat)
    ensures k <= |payloads|
  {
    if payloads == [] || n < 4 + |payloads[0]| then 0 else 1 + WholeIn(payloads[1..], n - 4 - |payloads[0]|)
  }

  lemma TakeStep(payloads: seq<seq<byte>>, k: nat)
    requires k < |payloads|
    ensures payloads[..k + 1] == [payloads[0]] + payloads[1..][..k]
  {
  }

  lemma {:induction false} CutReads(payloads: seq<seq<byte>>, n: nat)
    requires (forall p :: p in payloads ==> |p| <= MAX_FRAME_BYTES) && n <= |Wire(payloads)|
    ensures ReadAll(Wire(payloads)[..n]) == payloads[..WholeIn(payloads, n)]
  {
    if payloads != [] {
      var p, rest := payloads[0], payloads[1..];
      ReadWire(payloads, n);
      if 4 + |p| <= n {
        var m := n - 4 - |p|;
        CutReads(rest, m);
        TakeStep(payloads, WholeIn(rest, m));
      }
    }
  }

  /** The bytes that the first `k` payloads take on the wire. */
  function SizeOf(payloads: seq<seq<byte>>, k: nat): nat
    requires k <= |payloads|
  {
    if k == 0 then 0 else 4 + |payloads[0]| + SizeOf(payloads[1..], k - 1)
  }

  lemma {:induction false} WireSize(payloads: seq<seq<byte>>, k: nat)
    requires (forall p :: p in payloads ==> |p| <= MAX_FRAME_BYTES) && k <= |payloads|
    ensures |Wire(payloads[..k])| == SizeOf(payloads, k)
  {
    if k == 0 {
      assert payloads[..0] == [];
    } else {
      TakeStep(payloads, k - 1);
      WireSize(payloads[1..], k - 1);
    }
  }

  lemma {:induction false} CutIsLongest(payloads: seq<seq<byte>>, n: nat)
    requires n <= SizeOf(payloads, |payloads|)
    ensures var k := WholeIn(payloads, n);
      && SizeOf(payloads, k) <= n && (k < |payloads| ==> n < SizeOf(payloads, k + 1))
      && (n == SizeOf(payloads, |payloads|) ==> k == |payloads|)
  {
    if payloads != [] && 4 + |payloads[0]| <= n {
      CutIsLongest(payloads[1..], n - 4 - |payloads[0]|);
    }
  }

  /** Cutting the wire at any byte loses whole payloads from the end and nothing else: what is read
      is the longest list of payloads that still fits. */
  lemma CutReadsPrefix(payloads: seq<seq<byte>>, n: nat) returns (k: nat)
    requires forall p :: p in payloads ==> |p| <= MAX_FRAME_BYTES
    requires n <= |Wire(payloads)|
    ensures k <= |payloads| && ReadAll(Wire(payloads)[..n]) == payloads[..k]
    ensures |Wire(payloads[..k])| <= n
    ensures k < |payloads| ==> n < |Wire(payloads[..k + 1])|
    ensures n == |Wire(payloads)| ==> k == |payloads|
  {
    k := WholeIn(payloads, n);
    CutReads(payloads, n);
    assert payloads[..|payloads|] == payloads;
    WireSize(payloads, |payloads|);
    CutIsLongest(payloads, n);
    WireSize(payloads, k);
    if k < |payloads| { WireSize(payloads, k + 1); }
  }

  /** A frame, spelled out: up to 64 MB it is its length, lowest byte first, and the payload; and what is
      read back starts with those four bytes. */
  lemma FrameLayout(payload: seq<byte>, s: seq<byte>)
    ensures |payload| > 67108864 ==> WriteFrame(payload) == Err(FrameTooLarge(|payload|))
    ensures |payload| <= 67108864 ==>
      var n := |payload|;
      WriteFrame(payload) == Ok([n % 256, n / 256 % 256, n / 65536 % 256, n / 16777216] + payload)
    ensures |s| < 4 ==> ReadFrame(s) == Failed(Io)
    ensures |s| >= 4 ==>
      var b0: int, b1: int, b2: int, b3: int := s[0], s[1], s[2], s[3];
      var n := b0 + 256 * b1 + 65536 * b2 + 16777216 * b3;
      ReadFrame(s) == if n > 67108864 then Failed(FrameTooLarge(n))
                      else if |s| < 4 + n then Failed(Io) else Got(s[4..4 + n], s[4 + n..])
  {
    if |s| >= 4 {
      var head := s[..4];
      assert head[0] == s[0] && head[1] == s[1] && head[2] == s[2] && head[3] == s[3];
    }
  }

  // ----- encryption as an invertible wrapper

  /** One session key: a nonce and a plaintext give a ciphertext. */
  datatype Cipher = Cipher(seal: (nat, seq<byte>) -> seq<byte>, open: seq<byte> -> Option<seq<byte>>)
  {
    ghost predicate Sound() {
      forall nonce, p :: |seal(nonce, p)| == |p| + 28 && open(seal(nonce, p)) == Some(p)
    }
  }

  function SealAll(c: Cipher, nonce: nat, plain: seq<seq<byte>>): (r: seq<seq<byte>>)
    ensures |r| == |plain|
    ensures forall i :: 0 <= i < |plain| ==> r[i] == c.seal(nonce + i, plain[i])
    decreases |plain|
  {
    if plain == [] then [] else [c.seal(nonce, plain[0])] + SealAll(c, nonce + 1, plain[1..])
  }

  /** Reading and decrypting until the first failure. */
  function OpenAll(c: Cipher, s: seq<byte>): seq<seq<byte>>
    decreases |s|
  {
    match ReadFrame(s)
    case Failed(_) => []
    case Got(p, rest) => if c.open(p).None? then [] else [c.open(p).value] + OpenAll(c, rest)
  }

  /** Decrypting these frames until the first failure. */
  function OpenEach(c: Cipher, frames: seq<seq<byte>>): seq<seq<byte>> {
    if frames == [] || c.open(frames[0]).None? then []
    else [c.open(frames[0]).value] + OpenEach(c, frames[1..])
  }

  lemma OpenEachFirst(c: Cipher, p: seq<byte>, rest: seq<seq<byte>>)
    ensures OpenEach(c, [p] + rest) == if c.open(p).None? then [] else [c.open(p).value] + OpenEach(c, rest)
  {
    assert ([p] + rest)[1..] == rest;
  }

  /** Reading and decrypting is reading, then decrypting. */
  lemma {:induction false} OpenAllIsOpenEach(c: Cipher, s: seq<byte>)
    ensures OpenAll(c, s) == OpenEach(c, ReadAll(s))
    decreases |s|
  {
    match ReadFrame(s)
    case Failed(_) =>
    case Got(p, rest) =>
      OpenAllIsOpenEach(c, rest);
      OpenEachFirst(c, p, ReadAll(rest));
  }

  lemma SealFirst(c: Cipher, nonce: nat, plain: seq<seq<byte>>, k: nat)
    requires 0 < k <= |plain|
    ensures SealAll(c, nonce, plain)[..k] == [c.seal(nonce, plain[0])] + SealAll(c, nonce + 1, plain[1..])[..k - 1]
  {
  }

  lemma {:induction false} OpenSealed(c: Cipher, nonce: nat, plain: seq<seq<byte>>, k: nat)
    requires c.Sound() && k <= |plain|
    ensures OpenEach(c, SealAll(c, nonce, plain)[..k]) == plain[..k]
    decreases k
  {
    if k > 0 {
      SealFirst(c, nonce, plain, k);
      OpenEachFirst(c, c.seal(nonce, plain[0]), SealAll(c, nonce + 1, plain[1..])[..k - 1]);
      OpenSealed(c, nonce + 1, plain[1..], k - 1);
      TakeStep(plain, k - 1);
    }
  }

  /** An encrypted session cut anywhere delivers a prefix of the plaintext messages, never a wrong one. */
  lemma CutSessionDeliversPrefix(c: Cipher, nonce: nat, plain: seq<seq<byte>>, n: nat) returns (k: nat)
    requires c.Sound() && forall p :: p in plain ==> |p| + 28 <= MAX_FRAME_BYTES
    requires (forall p :: p in SealAll(c, nonce, plain) ==> |p| <= MAX_FRAME_BYTES) ==>
      n <= |Wire(SealAll(c, nonce, plain))|
    ensures forall p :: p in SealAll(c, nonce, plain) ==> |p| <= MAX_FRAME_BYTES
    ensures k <= |plain| && OpenAll(c, Wire(SealAll(c, nonce, plain))[..n]) == plain[..k]
    ensures n == |Wire(SealAll(c, nonce, plain))| ==> k == |plain|
  {
    var sealed := SealAll(c, nonce, plain);
    forall p | p in sealed ensures |p| <= MAX_FRAME_BYTES {
      var i :| 0 <= i < |sealed| && sealed[i] == p;
      assert plain[i] in plain;
    }
    k := CutReadsPrefix(sealed, n);
    OpenAllIsOpenEach(c, Wire(sealed)[..n]);
    OpenSealed(c, nonce, plain, k);
  }

  // ----- the program: a stream that writes extend and reads consume

  class Stream {
    var bytes: seq<byte>

    constructor ()
      ensures bytes == []
    {
      bytes := [];
    }

    method WritePlain(payload: seq<byte>) returns (r: Result<(), FrameError>)
      modifies this
      ensures match WriteFrame(payload)
        case Ok(frame) => r == Ok(()) && bytes == old(bytes) + frame
        case Err(e) => r == Err(e) && bytes == old(bytes)
    {
      var frame := WriteFrame(payload);
      if frame.Err? {
        return Err(frame.error);
      }
      bytes := bytes + frame.value;
      r := Ok(());
    }

    /** `read_exact`: all `n` bytes or an error, the bytes being consumed either way. */
    method ReadExact(n: nat) returns (r: Option<seq<byte>>)
      modifies this
      ensures if n <= |old(bytes)| then r == Some(old(bytes)[..n]) && bytes == old(bytes)[n..]
              else r == None && bytes == []
    {
      if n <= |bytes| {
        r := Some(bytes[..n]);
        bytes := bytes[n..];
      } else {
        r := None;
        bytes := [];
      }
    }

    method ReadPlain() returns (r: Result<seq<byte>, FrameError>)
      modifies this
      ensures match ReadFrame(old(bytes))
        case Got(p, rest) => r == Ok(p) && bytes == rest
        case Failed(e) => r == Err(e)
    {
      var lenBuf := ReadExact(4);
      if lenBuf.None? {
        return Err(Io);
      }
      var len := FromLe32(lenBuf.value);
      if len > MAX_FRAME_BYTES {
        return Err(FrameTooLarge(len));
      }
      var buf := ReadExact(len);
      if buf.None? {
        return Err(Io);
      }
      assert old(bytes)[4..][..len] == old(bytes)[4..4 + len];
      r := Ok(buf.value);
    }

    method WriteEnc(c: Cipher, nonce: nat, plaintext: seq<byte>) returns (r: Result<(), FrameError>)
      modifies this
      ensures match WriteFrame(c.seal(nonce, plaintext))
        case Ok(frame) => r == Ok(()) && bytes == old(bytes) + frame
        case Err(e) => r == Err(e) && bytes == old(bytes)
    {
      r := WritePlain(c.seal(nonce, plaintext));
    }

    /** Pops the next plaintext; in terms of the whole stream, the head of `OpenAll`. */
    method ReadEnc(c: Cipher) returns (r: Result<seq<byte>, FrameError>)
      modifies this
      ensures r.Ok? <==> OpenAll(c, old(bytes)) != []
      ensures r.Ok? ==> OpenAll(c, old(bytes)) == [r.value] + OpenAll(c, bytes)
    {
      var ct := ReadPlain();
      if ct.Err? {
        return Err(ct.error);
      }
      var plain := c.open(ct.value);
      if plain.None? {
        return Err(Decrypt);
      }
      r := Ok(plain.value);
    }
  }
}
