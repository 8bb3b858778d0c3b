/**
 * Chat wire frames (edge/src/chat-frames.ts): one type byte, a little-endian header length, the header's JSON
 * text and an opaque payload; and the length-prefixed body that carries many frames over plain HTTP.
 */
module ChatFrames {
  import opened Options
  import opened Bytes

  const HELLO: byte := 0x01
  const STATE: byte := 0x02
  const ROWS_REQ: byte := 0x03
  const ROW: byte := 0x04
  const ROWS_DONE: byte := 0x05
  const PUSH: byte := 0x06
  const ACK: byte := 0x07
  const PRESENCE: byte := 0x08
  const PROBE: byte := 0x09
  const PROBE_OK: byte := 0x0a
  const ERROR: byte := 0x0b

  const MAX_HEADER_BYTES: nat := 4096

  predicate KnownType(t: byte) {
    0x01 <= t <= 0x0b
  }

  /** A decoded frame; the header is kept as its JSON text. */
  datatype Frame = Frame(kind: byte, header: Bytes, payload: Bytes)

  function Encode(kind: byte, header: Bytes, payload: Bytes): (frame: Bytes)
    ensures |frame| == 5 + |header| + |payload|
  {
    [kind] + LittleEndian(|header|) + header + payload
  }

  /** `decodeFrame`; `isObject` stands for JSON.parse yielding a plain object. */
  function Decode(b: Bytes, isObject: Bytes -> bool): Option<Frame> {
    if |b| < 5 then None
    else if !KnownType(b[0]) then None
    else
      var headerLen := FromLittleEndian(b[1..5]);
      if headerLen > MAX_HEADER_BYTES || 5 + headerLen > |b| then None
      else if !isObject(b[5..5 + headerLen]) then None
      else Some(Frame(b[0], b[5..5 + headerLen], b[5 + headerLen..]))
  }

  predicate Sendable(f: Frame, isObject: Bytes -> bool) {
    KnownType(f.kind) && |f.header| <= MAX_HEADER_BYTES && isObject(f.header)
  }

  lemma EncodeParts(kind: byte, header: Bytes, payload: Bytes)
    ensures var b := Encode(kind, header, payload);
            && b[0] == kind && b[1..5] == LittleEndian(|header|)
            && b[5..5 + |header|] == header && b[5 + |header|..] == payload
  {
    var b := Encode(kind, header, payload);
    assert b[1..5] == LittleEndian(|header|);
    assert b[5..5 + |header|] == header;
    assert b[5 + |header|..] == payload;
  }

  lemma DecodeEncoded(f: Frame, isObject: Bytes -> bool)
    requires |f.header| < U32
    ensures Decode(Encode(f.kind, f.header, f.payload), isObject) == if Sendable(f, isObject) then Some(f) else None
  {
    EncodeParts(f.kind, f.header, f.payload);
    LittleEndianRoundTrips(|f.header|);
  }

  lemma EncodeDecoded(b: Bytes, isObject: Bytes -> bool)
    ensures var f := Decode(b, isObject);
            f.Some? ==> Sendable(f.value, isObject) && b == Encode(f.value.kind, f.value.header, f.value.payload)
  {
    if Decode(b, isObject).Some? {
      var f := Decode(b, isObject).value;
      LittleEndianIsOnto(b[1..5]);
      assert |f.header| == FromLittleEndian(b[1..5]);
      assert b == [b[0]] + b[1..5] + f.header + f.payload;
    }
  }

  /**
   * Encoding and decoding are inverse: bytes decode to a frame exactly when they are that sendable frame's encoding.
   */
  lemma FramesRoundTrip(f: Frame, b: Bytes, isObject: Bytes -> bool)
    requires |f.header| < U32
    ensures Decode(b, isObject) == Some(f) <==> Sendable(f, isObject) && b == Encode(f.kind, f.header, f.payload)
  {
    DecodeEncoded(f, isObject);
    EncodeDecoded(b, isObject);
  }

  /** Byte by byte: the kind, the header's length with its lowest byte first, the header, the payload. */
  lemma EncodedLayout(kind: byte, header: Bytes, payload: Bytes)
    requires |header| < U32
    ensures var b := Encode(kind, header, payload);
            && b[0] == kind
            && b[1] as int + 0x100 * b[2] as int + 0x1_0000 * b[3] as int + 0x100_0000 * b[4] as int == |header|
            && (forall i :: 0 <= i < |header| ==> b[5 + i] == header[i])
            && (forall i :: 0 <= i < |payload| ==> b[5 + |header| + i] == payload[i])
  {
    LittleEndianRoundTrips(|header|);
    EncodeParts(kind, header, payload);
    var b := Encode(kind, header, payload);
    assert b[1..5][0] == b[1] && b[1..5][1] == b[2] && b[1..5][2] == b[3] && b[1..5][3] == b[4];
  }

  /** `encodeFrame`: the buffer is allocated once and filled part by part. */
  method EncodeFrame(kind: byte, header: Bytes, payload: Bytes) returns (out: array<byte>)
    ensures fresh(out) && out[..] == Encode(kind, header, payload)
  {
    out := new byte[5 + |header| + |payload|];
    out[0] := kind;
    var length := LittleEndian(|header|);
    forall i | 0 <= i < 4 { out[1 + i] := length[i]; }
    forall i | 0 <= i < |header| { out[5 + i] := header[i]; }
    forall i | 0 <= i < |payload| { out[5 + |header| + i] := payload[i]; }
  }

  // ---------- the body of a pull ----------

  /** Each frame behind its length. */
  function Body(frames: seq<Bytes>): Bytes {
    if frames == [] then [] else LittleEndian(|frames[0]|) + frames[0] + Body(frames[1..])
  }

  /** The client's loop over a body (crates/sync/src/chat_client.rs:1533-1545), which stops at a cut-off frame. */
  function ParseBody(body: Bytes): seq<Bytes> {
    if |body| < 4 then []
    else
      var length := FromLittleEndian(body[..4]);
      if 4 + length > |body| then []
      else [body[4..4 + length]] + ParseBody(body[4 + length..])
  }

  lemma ParseFirst(f: Bytes, tail: Bytes)
    requires |f| < U32
    ensures ParseBody(LittleEndian(|f|) + f + tail) == [f] + ParseBody(tail)
  {
    var body := LittleEndian(|f|) + f + tail;
    assert body[..4] == LittleEndian(|f|) && body[4..4 + |f|] == f && body[4 + |f|..] == tail;
    LittleEndianRoundTrips(|f|);
  }

  lemma ParseCutFrame(f: Bytes, cut: Bytes)
    requires |f| < U32 && |cut| < 4 + |f| && cut <= LittleEndian(|f|) + f
    ensures ParseBody(cut) == []
  {
    LittleEndianRoundTrips(|f|);
    if |cut| >= 4 {
      assert cut[..4] == (LittleEndian(|f|) + f)[..4] == LittleEndian(|f|);
    }
  }

  /** A body parses back to the frames it was built from. */
  lemma {:induction false} BodyParsesBack(frames: seq<Bytes>)
    requires forall f :: f in frames ==> |f| < U32
    ensures ParseBody(Body(frames)) == frames
  {
    if frames != [] {
      assert frames[0] in frames && forall g :: g in frames[1..] ==> g in frames;
      ParseFirst(frames[0], Body(frames[1..]));
      BodyParsesBack(frames[1..]);
    }
  }

  /** A body cut anywhere parses to a prefix of its frames: a dropped connection never yields a wrong frame. */
  lemma {:induction false} CutBodyParsesToAPrefix(frames: seq<Bytes>, n: nat)
    requires n <= |Body(frames)| && forall f :: f in frames ==> |f| < U32
    ensures ParseBody(Body(frames)[..n]) <= frames
    decreases frames
  {
    if frames != [] {
      var f, rest := frames[0], Body(frames[1..]);
      assert f in frames && forall g :: g in frames[1..] ==> g in frames;
      var whole := LittleEndian(|f|) + f;
      if n < 4 + |f| {
        assert Body(frames)[..n] == whole[..n];
        ParseCutFrame(f, whole[..n]);
      } else {
        var m := n - 4 - |f|;
        assert Body(frames)[..n] == whole + rest[..m];
        ParseFirst(f, rest[..m]);
        CutBodyParsesToAPrefix(frames[1..], m);
      }
    }
  }

  function BodyLength(frames: seq<Bytes>): nat {
    if frames == [] then 0 else 4 + |frames[0]| + BodyLength(frames[1..])
  }

  lemma {:induction false} BodySnoc(frames: seq<Bytes>, f: Bytes)
    ensures Body(frames + [f]) == Body(frames) + (LittleEndian(|f|) + f)
    ensures |Body(frames)| == BodyLength(frames) && BodyLength(frames + [f]) == BodyLength(frames) + 4 + |f|
  {
    if frames == [] {
      assert [f][1..] == [] && [] + [f] == [f];
      assert Body([f]) == LittleEndian(|f|) + f + [];
    } else {
      assert (frames + [f])[1..] == frames[1..] + [f];
      BodySnoc(frames[1..], f);
    }
  }

  lemma {:induction false} BodyLengthMonotone(frames: seq<Bytes>, n: nat)
    requires n <= |frames|
    ensures BodyLength(frames[..n]) <= BodyLength(frames)
  {
    if n > 0 {
      assert frames[..n][1..] == frames[1..][..n - 1];
      BodyLengthMonotone(frames[1..], n - 1);
    }
  }

  /** The last loop of the pull handler (edge/src/chat-room.ts:227-235): one buffer, filled at a moving offset. */
  method BuildBody(frames: seq<Bytes>) returns (body: Bytes)
    ensures body == Body(frames)
  {
    var total := 0;
    for i := 0 to |frames|
      invariant total == BodyLength(frames[..i])
    {
      assert frames[..i + 1] == frames[..i] + [frames[i]];
      BodySnoc(frames[..i], frames[i]);
      total := total + 4 + |frames[i]|;
    }
    assert frames[..|frames|] == frames;
    var out := new byte[total];
    var off := 0;
    for i := 0 to |frames|
      invariant off == BodyLength(frames[..i]) <= total
      invariant out[..off] == Body(frames[..i])
    {
      var f := frames[i];
      assert frames[..i + 1] == frames[..i] + [f];
      BodySnoc(frames[..i], f);
      BodyLengthMonotone(frames, i + 1);
      PutFrame(out, off, f);
      off := off + 4 + |f|;
    }
    assert out[..total] == out[..];
    body := out[..];
  }

  method PutFrame(out: array<byte>, off: nat, f: Bytes)
    requires off + 4 + |f| <= out.Length
    modifies out
    ensures out[..off + 4 + |f|] == old(out[..off]) + (LittleEndian(|f|) + f)
  {
    var prefix := LittleEndian(|f|);
    forall i | 0 <= i < 4 { out[off + i] := prefix[i]; }
    forall i | 0 <= i < |f| { out[off + 4 + i] := f[i]; }
    ghost var want := old(out[..off]) + (prefix + f);
    forall i | 0 <= i < off + 4 + |f| ensures out[i] == want[i] {
    }
  }
}
