/**
 Length-prefixed framing of the IPC stream. A payload is the serialised form of an
 envelope or server message; its size is the size serialisation reports.
 */
module Framing {
  import opened Wrappers

  type Byte = b: int | 0 <= b < 256

  type Bytes = seq<Byte>

  const MAX_MESSAGE_SIZE: nat := 10 * 1024 * 1024

  const U32: nat := 0x1_0000_0000

  // ----- encoding

  function ToBigEndian(n: nat): (r: Bytes)
    requires n < U32
    ensures |r| == 4
  {
    [n / 0x100_0000, n / 0x1_0000 % 256, n / 0x100 % 256, n % 256]
  }

  function FromBigEndian(b: Bytes): (r: nat)
    requires |b| == 4
    ensures r < U32
  {
    var d: seq<int> := b;
    d[0] * 0x100_0000 + d[1] * 0x1_0000 + d[2] * 0x100 + d[3]
  }

  lemma BigEndianRoundTrip(n: nat)
    requires n < U32
    ensures FromBigEndian(ToBigEndian(n)) == n
  {
    assert n / 0x100 / 256 == n / 0x1_0000 && n / 0x1_0000 / 256 == n / 0x100_0000;
  }

  /** `encode_server_message`: no size limit, the length cast to 32 bits. */
  function EncodeServerMessage(payload: Bytes): Bytes {
    ToBigEndian(|payload| % U32) + payload
  }

  /** `encode_envelope`: refuses what the server would refuse. */
  function EncodeEnvelope(payload: Bytes): Result<Bytes, ()> {
    if |payload| > MAX_MESSAGE_SIZE then Err(()) else Ok(EncodeServerMessage(payload))
  }

  // ----- reading

  /** How a reader loop ended: between frames, inside one, or on a length over its limit. */
  datatype End = Eof | CutShort | TooLarge

  datatype Reading = Reading(payloads: seq<Bytes>, end: End)

  /** What a reader makes of a byte stream; the server has a size limit, the client none. */
  function ReadAll(bytes: Bytes, limit: Option<nat>): Reading {
    if |bytes| < 4 then Reading([], Eof)
    else
      var len := FromBigEndian(bytes[..4]);
      if limit.Some? && len > limit.value then Reading([], TooLarge)
      else if |bytes| < 4 + len then Reading([], CutShort)
      else
        var rest := ReadAll(bytes[4 + len..], limit);
        Reading([bytes[4..4 + len]] + rest.payloads, rest.end)
  }

  function Concat(parts: seq<Bytes>): Bytes {
    if parts == [] then [] else parts[0] + Concat(parts[1..])
  }

  lemma TakePiece(got: Bytes, rest: seq<Bytes>)
    requires rest != []
    ensures got + Concat(rest) == (got + rest[0]) + Concat(rest[1..])
  {
    assert got + (rest[0] + Concat(rest[1..])) == (got + rest[0]) + Concat(rest[1..]);
  }

  lemma PutPiece(piece: Bytes, rest: seq<Bytes>)
    ensures Concat([piece] + rest) == piece + Concat(rest)
  {
    assert ([piece] + rest)[1..] == rest;
  }

  lemma CutPiece(rest: seq<Bytes>, want: nat)
    requires rest != [] && want <= |rest[0]|
    ensures Concat(rest) == Concat([rest[0][..want]] + ([rest[0][want..]] + rest[1..]))
  {
    var x, y, later := rest[0][..want], rest[0][want..], Concat(rest[1..]);
    PutPiece(y, rest[1..]);
    PutPiece(x, [y] + rest[1..]);
    Associate(x, y, later);
    assert x + y == rest[0];
  }

  lemma Associate(x: Bytes, y: Bytes, z: Bytes)
    ensures x + (y + z) == (x + y) + z
  {
  }

  /** `read_exact` on a stream that arrives in pieces of any size. */
  method ReadExact(pieces: seq<Bytes>, n: nat) returns (data: Option<Bytes>, rest: seq<Bytes>)
    ensures data.Some? <==> |Concat(pieces)| >= n
    ensures data.Some? ==> data.value == Concat(pieces)[..n] && Concat(rest) == Concat(pieces)[n..]
  {
    var got: Bytes := [];
    rest := pieces;
    assert got + Concat(rest) == Concat(pieces);
    while |got| < n
      invariant got + Concat(rest) == Concat(pieces)
      invariant |got| <= n
      decreases |Concat(rest)| + |rest|
    {
      if rest == [] {
        return None, rest;
      }
      var want := n - |got|;
      if |rest[0]| > want {
        CutPiece(rest, want);
        rest := [rest[0][..want]] + ([rest[0][want..]] + rest[1..]);
      }
      TakePiece(got, rest);
      assert Concat(rest) == rest[0] + Concat(rest[1..]);
      got, rest := got + rest[0], rest[1..];
    }
    return Some(got), rest;
  }

  lemma ReadFrame(bytes: Bytes, limit: Option<nat>, len: nat)
    requires |bytes| >= 4 + len && len == FromBigEndian(bytes[..4]) && (limit.None? || len <= limit.value)
    ensures ReadAll(bytes, limit) == Following([bytes[4..][..len]], ReadAll(bytes[4..][len..], limit))
  {
    assert bytes[4..][..len] == bytes[4..4 + len] && bytes[4..][len..] == bytes[4 + len..];
  }

  /** The reader loop: how the stream was split in transit does not show. */
  method ReadFrames(pieces: seq<Bytes>, limit: Option<nat>) returns (reading: Reading)
    ensures reading == ReadAll(Concat(pieces), limit)
  {
    var payloads: seq<Bytes> := [];
    var rest := pieces;
    AfterPayloads([], ReadAll(Concat(pieces), limit));
    while true
      invariant ReadAll(Concat(pieces), limit) == Following(payloads, ReadAll(Concat(rest), limit))
      decreases |Concat(rest)|
    {
      ghost var before := Concat(rest);
      var header, payload;
      header, rest := ReadExact(rest, 4);
      AfterPayloads(payloads, Reading([], Eof));
      if header.None? {
        return Reading(payloads, Eof);
      }
      var len := FromBigEndian(header.value);
      if limit.Some? && len > limit.value {
        return Reading(payloads, TooLarge);
      }
      payload, rest := ReadExact(rest, len);
      if payload.None? {
        return Reading(payloads, CutShort);
      }
      ReadFrame(before, limit, len);
      FollowingAssociates(payloads, [payload.value], ReadAll(Concat(rest), limit));
      payloads := payloads + [payload.value];
    }
  }

  function Following(payloads: seq<Bytes>, later: Reading): Reading {
    Reading(payloads + later.payloads, later.end)
  }

  lemma AfterPayloads(payloads: seq<Bytes>, later: Reading)
    ensures Following([], later) == later
    ensures later.payloads == [] ==> Following(payloads, later) == Reading(payloads, later.end)
  {
    assert [] + later.payloads == later.payloads && payloads + [] == payloads;
  }

  lemma FollowingAssociates(a: seq<Bytes>, b: seq<Bytes>, later: Reading)
    ensures Following(a, Following(b, later)) == Following(a + b, later)
  {
    assert a + (b + later.payloads) == a + b + later.payloads;
  }

  // ----- correctness

  function Frames(payloads: seq<Bytes>): seq<Bytes> {
    if payloads == [] then [] else [EncodeServerMessage(payloads[0])] + Frames(payloads[1..])
  }

  ghost predicate Sendable(payload: Bytes, limit: Option<nat>) {
    |payload| < U32 && (limit.Some? ==> |payload| <= limit.value)
  }

  /** What a reader sees first in a frame that fits its length field. */
  lemma FrameHeader(payload: Bytes, rest: Bytes)
    requires |payload| < U32
    ensures var bytes := EncodeServerMessage(payload) + rest;
            && FromBigEndian(bytes[..4]) == |payload|
            && bytes[4..4 + |payload|] == payload && bytes[4 + |payload|..] == rest
  {
    var bytes := EncodeServerMessage(payload) + rest;
    BigEndianRoundTrip(|payload|);
    assert bytes[..4] == ToBigEndian(|payload|);
  }

  lemma FrameReadsBack(payload: Bytes, rest: Bytes, limit: Option<nat>)
    requires Sendable(payload, limit)
    ensures ReadAll(EncodeServerMessage(payload) + rest, limit) == Following([payload], ReadAll(rest, limit))
  {
    FrameHeader(payload, rest);
  }

  /** A sequence of frames is read back as the payloads that were sent. */
  lemma {:induction false} FramesReadBack(payloads: seq<Bytes>, limit: Option<nat>)
    requires forall i :: 0 <= i < |payloads| ==> Sendable(payloads[i], limit)
    ensures ReadAll(Concat(Frames(payloads)), limit) == Reading(payloads, Eof)
  {
    if payloads != [] {
      FrameReadsBack(payloads[0], Concat(Frames(payloads[1..])), limit);
      FramesReadBack(payloads[1..], limit);
      assert Frames(payloads)[1..] == Frames(payloads[1..]);
      assert payloads == [payloads[0]] + payloads[1..];
    }
  }

  lemma PartialFrame(payload: Bytes, rest: Bytes, limit: Option<nat>, cut: nat)
    requires Sendable(payload, limit) && cut < |EncodeServerMessage(payload)|
    ensures ReadAll((EncodeServerMessage(payload) + rest)[..cut], limit) == Reading([], if cut < 4 then Eof else CutShort)
  {
    var whole := EncodeServerMessage(payload) + rest;
    FrameHeader(payload, rest);
    if cut >= 4 {
      assert whole[..cut][..4] == whole[..4];
    }
  }

  lemma WholeFrame(payload: Bytes, rest: Bytes, limit: Option<nat>, cut: nat)
    requires Sendable(payload, limit) && |EncodeServerMessage(payload)| <= cut <= |EncodeServerMessage(payload)| + |rest|
    ensures var frame := EncodeServerMessage(payload);
            ReadAll((frame + rest)[..cut], limit) == Following([payload], ReadAll(rest[..cut - |frame|], limit))
  {
    var frame := EncodeServerMessage(payload);
    assert (frame + rest)[..cut] == frame + rest[..cut - |frame|];
    FrameReadsBack(payload, rest[..cut - |frame|], limit);
  }

  lemma FirstFrame(payloads: seq<Bytes>)
    requires payloads != []
    ensures Concat(Frames(payloads)) == EncodeServerMessage(payloads[0]) + Concat(Frames(payloads[1..]))
  {
    assert Frames(payloads)[1..] == Frames(payloads[1..]);
  }

  /** Exactly `m` of the frames lie wholly before the cut, and `left` bytes of the next one. */
  ghost predicate WholeBefore(payloads: seq<Bytes>, cut: nat, m: nat, left: nat) {
    && m <= |payloads| && cut == |Concat(Frames(payloads[..m]))| + left
    && (if m == |payloads| then left == 0 else left < |EncodeServerMessage(payloads[m])|)
  }

  lemma OneMoreFrame(payloads: seq<Bytes>, cut: nat, m: nat, left: nat)
    requires payloads != [] && WholeBefore(payloads[1..], cut, m, left)
    ensures WholeBefore(payloads, |EncodeServerMessage(payloads[0])| + cut, m + 1, left)
  {
    var some := payloads[..m + 1];
    assert some[1..] == payloads[1..][..m] && Frames(some)[1..] == Frames(some[1..]);
  }

  lemma OneMorePayload(payloads: seq<Bytes>, m: nat, end: End)
    requires m < |payloads|
    ensures Following([payloads[0]], Reading(payloads[1..][..m], end)) == Reading(payloads[..m + 1], end)
  {
    assert payloads[..m + 1] == [payloads[0]] + payloads[1..][..m];
  }

  /** What a reader makes of the frames of these payloads, broken off at `cut`. */
  ghost function ReadBroken(payloads: seq<Bytes>, limit: Option<nat>, cut: nat): Reading
    requires cut <= |Concat(Frames(payloads))|
  {
    ReadAll(Concat(Frames(payloads))[..cut], limit)
  }

  lemma BrokenBehindFirst(payloads: seq<Bytes>, limit: Option<nat>, cut: nat)
    requires payloads != [] && Sendable(payloads[0], limit) && cut <= |Concat(Frames(payloads))|
    ensures var frame, rest := EncodeServerMessage(payloads[0]), Concat(Frames(payloads[1..]));
            && |Concat(Frames(payloads))| == |frame| + |rest|
            && ReadBroken(payloads, limit, cut) ==
                 if cut < |frame| then Reading([], if cut < 4 then Eof else CutShort)
                 else Following([payloads[0]], ReadBroken(payloads[1..], limit, cut - |frame|))
  {
    FirstFrame(payloads);
    var frame, rest := EncodeServerMessage(payloads[0]), Concat(Frames(payloads[1..]));
    if cut < |frame| {
      PartialFrame(payloads[0], rest, limit, cut);
    } else {
      WholeFrame(payloads[0], rest, limit, cut);
    }
  }

  /**
   A stream that breaks off anywhere delivers exactly the payloads whose frames arrived
   whole, in order; it ends as if closed if not even the next length had arrived.
   */
  lemma {:induction false} BrokenStreamIsPrefix(payloads: seq<Bytes>, limit: Option<nat>, cut: nat) returns (m: nat, left: nat)
    requires forall i :: 0 <= i < |payloads| ==> Sendable(payloads[i], limit)
    requires cut <= |Concat(Frames(payloads))|
    ensures WholeBefore(payloads, cut, m, left)
    ensures ReadBroken(payloads, limit, cut) == Reading(payloads[..m], if left < 4 then Eof else CutShort)
  {
    m, left := 0, cut;
    if payloads != [] {
      var frame := EncodeServerMessage(payloads[0]);
      BrokenBehindFirst(payloads, limit, cut);
      if cut >= |frame| {
        m, left := BrokenStreamIsPrefix(payloads[1..], limit, cut - |frame|);
        OneMoreFrame(payloads, cut - |frame|, m, left);
        OneMorePayload(payloads, m, if left < 4 then Eof else CutShort);
        m := m + 1;
      }
    }
  }

  /** The 32-bit length is right exactly for payloads below 2^32: larger ones are misread. */
  lemma MisreadIffTooWide(payload: Bytes, rest: Bytes)
    ensures [payload] <= ReadAll(EncodeServerMessage(payload) + rest, None).payloads <==> |payload| < U32
  {
    if |payload| < U32 {
      FrameReadsBack(payload, rest, None);
    } else {
      var bytes := EncodeServerMessage(payload) + rest;
      BigEndianRoundTrip(|payload| % U32);
      assert bytes[..4] == ToBigEndian(|payload| % U32);
      var read := ReadAll(bytes, None).payloads;
      assert |read[0]| == |payload| % U32 < |payload|;
    }
  }

  /** Whatever the client manages to encode, the server reads back. */
  lemma EnvelopeAccepted(payload: Bytes)
    ensures EncodeEnvelope(payload).Ok? <==> |payload| <= MAX_MESSAGE_SIZE
    ensures EncodeEnvelope(payload).Ok? ==>
              ReadAll(EncodeEnvelope(payload).value, Some(MAX_MESSAGE_SIZE)) == Reading([payload], Eof)
  {
    if |payload| <= MAX_MESSAGE_SIZE {
      FrameReadsBack(payload, [], Some(MAX_MESSAGE_SIZE));
      assert EncodeServerMessage(payload) + [] == EncodeServerMessage(payload);
      AfterPayloads([payload], ReadAll([], Some(MAX_MESSAGE_SIZE)));
    }
  }

  /** What it refuses, the server would have refused. */
  lemma RefusalJustified(payload: Bytes)
    requires EncodeEnvelope(payload).Err? && |payload| < U32
    ensures ReadAll(EncodeServerMessage(payload), Some(MAX_MESSAGE_SIZE)) == Reading([], TooLarge)
  {
    FrameHeader(payload, []);
    assert EncodeServerMessage(payload) + [] == EncodeServerMessage(payload);
  }
}
