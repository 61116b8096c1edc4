/** gRPC Length-Prefixed-Message framing: the encoder of src/core/forward.rs and
    the length decoder of src/control_plane/forward.rs. */
module Grpc {
  import opened Options

  type Byte = n: int | 0 <= n < 256
  type Bytes = seq<Byte>

  const U32_LIMIT := 0x1_0000_0000

  /** The last `k` digits of a number to the base 256, most significant first. */
  function Digits(n: nat, k: nat): (b: Bytes)
    ensures |b| == k
    decreases k
  {
    if k == 0 then [] else Digits(n / 256, k - 1) + [n % 256]
  }

  /** The number that the digits stand for. */
  function Value(b: Bytes): nat {
    if b == [] then 0 else 256 * Value(b[..|b| - 1]) + b[|b| - 1]
  }

  /** `u32::to_be_bytes` */
  function BigEndian(n: nat): (b: Bytes)
    requires n < U32_LIMIT
    ensures |b| == 4
  {
    Digits(n, 4)
  }

  /** `u32::from_be_bytes` */
  function FromBigEndian(a: Byte, b: Byte, c: Byte, d: Byte): nat { Value([a, b, c, d]) }

  ghost function Power(k: nat): nat { if k == 0 then 1 else 256 * Power(k - 1) }

  lemma FourDigits()
    ensures Power(4) == U32_LIMIT
  {
    assert Power(2) == 256 * Power(1) == 65536;
    assert Power(4) == 256 * Power(3) && Power(3) == 256 * Power(2);
  }

  lemma {:induction false} ValueBelow(b: Bytes)
    ensures Value(b) < Power(|b|)
  {
    if b != [] { ValueBelow(b[..|b| - 1]); }
  }

  lemma {:induction false} ValueOfDigits(n: nat, k: nat)
    requires n < Power(k)
    ensures Value(Digits(n, k)) == n
    decreases k
  {
    if k > 0 {
      ValueOfDigits(n / 256, k - 1);
      assert Digits(n, k)[..k - 1] == Digits(n / 256, k - 1);
    }
  }

  lemma Shift(high: nat, low: Byte)
    ensures (256 * high + low) / 256 == high && (256 * high + low) % 256 == low
  {}

  lemma {:induction false} DigitsOfValue(b: Bytes)
    ensures Digits(Value(b), |b|) == b
  {
    if b != [] {
      DigitsOfValue(b[..|b| - 1]);
      Shift(Value(b[..|b| - 1]), b[|b| - 1]);
    }
  }

  /** A frame with any flag byte; the specification only gives 0 and 1 a meaning. */
  datatype Frame = Frame(flag: Byte, payload: Bytes)

  function EncodeRaw(f: Frame): Bytes {
    Framed(f.flag, BigEndian(|f.payload| % U32_LIMIT), f.payload)
  }

  function Framed(flag: Byte, length: Bytes, payload: Bytes): Bytes { [flag] + length + payload }

  /** `encode_grpc_frame`; the length is cast to `u32`. */
  method EncodeGrpcFrame(compressed: bool, payload: Bytes) returns (frame: Bytes)
    ensures |payload| < U32_LIMIT ==> Decode(frame) == [(compressed, |payload|)]
    ensures |frame| == 5 + |payload| && frame[5..] == payload
    ensures frame == EncodeRaw(Frame(if compressed then 1 else 0, payload))
  {
    frame := [if compressed then 1 else 0];
    frame := frame + BigEndian(|payload| % U32_LIMIT);
    frame := frame + payload;
    ghost var f := Frame(if compressed then 1 else 0, payload);
    FramedParts(f.flag, BigEndian(|payload| % U32_LIMIT), payload, []);
    FrameReadsBackExactlyWhenItFits(f);
    assert EncodeRaw(f) + [] == EncodeRaw(f);
  }

  function EncodeAll(frames: seq<Frame>): Bytes {
    if frames == [] then [] else EncodeRaw(frames[0]) + EncodeAll(frames[1..])
  }

  /** What the decoder reports of each frame. */
  function Headers(frames: seq<Frame>): seq<(bool, nat)> {
    if frames == [] then [] else [(frames[0].flag != 0, |frames[0].payload|)] + Headers(frames[1..])
  }

  function LengthAt(bytes: Bytes): nat
    requires |bytes| >= 5
  {
    Value(bytes[1..5])
  }

  /** Too short for a header, or for the payload its header announces. */
  predicate Incomplete(bytes: Bytes) {
    |bytes| < 5 || |bytes| - 5 < LengthAt(bytes)
  }

  function Decode(bytes: Bytes): seq<(bool, nat)> {
    if Incomplete(bytes) then []
    else [(bytes[0] != 0, LengthAt(bytes))] + Decode(bytes[5 + LengthAt(bytes)..])
  }

  function SaturatingAdd(a: nat, b: nat): nat {
    if a + b <= U64_MAX then a + b else U64_MAX
  }

  lemma LengthFrom(bytes: Bytes, i: nat)
    requires i + 5 <= |bytes|
    ensures LengthAt(bytes[i..]) == FromBigEndian(bytes[i + 1], bytes[i + 2], bytes[i + 3], bytes[i + 4])
  {
    assert bytes[i..][1..5] == [bytes[i + 1], bytes[i + 2], bytes[i + 3], bytes[i + 4]];
  }

  lemma DropTwice(bytes: Bytes, i: nat, n: nat)
    requires i + n <= |bytes|
    ensures bytes[i..][n..] == bytes[i + n..]
  {}

  /** With `out` read so far, reading from `i` on completes `whole`. */
  ghost predicate Remains(bytes: Bytes, i: nat, out: seq<(bool, nat)>, whole: seq<(bool, nat)>) {
    i <= |bytes| && out + Decode(bytes[i..]) == whole
  }

  lemma ReadOne(bytes: Bytes, i: nat, len: nat, out: seq<(bool, nat)>, whole: seq<(bool, nat)>)
    requires i + 5 + len <= |bytes| && len == LengthAt(bytes[i..]) && Remains(bytes, i, out, whole)
    ensures Remains(bytes, i + 5 + len, out + [(bytes[i] != 0, len)], whole)
  {
    StepFrom(bytes, i, len);
    Reassociate(out, [(bytes[i] != 0, len)], Decode(bytes[i + 5 + len..]));
  }

  lemma StepFrom(bytes: Bytes, i: nat, len: nat)
    requires i + 5 + len <= |bytes| && len == LengthAt(bytes[i..])
    ensures Decode(bytes[i..]) == [(bytes[i] != 0, len)] + Decode(bytes[i + 5 + len..])
  {
    DropTwice(bytes, i, 5 + len);
    DecodeStep(bytes[i..], len);
  }

  lemma ReadAll(bytes: Bytes, i: nat, out: seq<(bool, nat)>, whole: seq<(bool, nat)>)
    requires Remains(bytes, i, out, whole) && Incomplete(bytes[i..])
    ensures out == whole
  {}

  lemma CutShort(bytes: Bytes, i: nat, len: nat)
    requires i + 5 <= |bytes| < i + 5 + len && len == LengthAt(bytes[i..])
    ensures Incomplete(bytes[i..])
  {}

  /** `decode_grpc_message_lengths` on a buffer that fits in memory. */
  method DecodeGrpcMessageLengths(bytes: Bytes) returns (out: seq<(bool, nat)>)
    requires |bytes| < U64_MAX
    ensures out == Decode(bytes)
  {
    out := [];
    var i: nat := 0;
    ghost var whole := Decode(bytes);
    assert bytes[0..] == bytes;
    while i + 5 <= |bytes|
      invariant Remains(bytes, i, out, whole)
      decreases |bytes| - i
    {
      var compressed := bytes[i] != 0;
      var len := FromBigEndian(bytes[i + 1], bytes[i + 2], bytes[i + 3], bytes[i + 4]);
      LengthFrom(bytes, i);
      var end := SaturatingAdd(i + 5, len);
      if end > |bytes| {
        CutShort(bytes, i, len);
        ReadAll(bytes, i, out, whole);
        return;
      }
      ReadOne(bytes, i, len, out, whole);
      out := out + [(compressed, len)];
      i := end;
    }
    assert Incomplete(bytes[i..]);
    ReadAll(bytes, i, out, whole);
  }

  // ----- framing theorems -----

  lemma HeaderValue(n: nat)
    requires n < U32_LIMIT
    ensures Value(BigEndian(n)) == n
  {
    FourDigits();
    ValueOfDigits(n, 4);
  }

  lemma FramedParts(flag: Byte, header: Bytes, payload: Bytes, rest: Bytes)
    requires |header| == 4
    ensures var bytes := Framed(flag, header, payload) + rest;
            |bytes| >= 5 + |payload| && bytes[0] == flag && bytes[1..5] == header && bytes[5 + |payload|..] == rest
  {}

  lemma DecodeFramed(flag: Byte, header: Bytes, payload: Bytes, rest: Bytes)
    requires |header| == 4 && Value(header) == |payload|
    ensures Decode(Framed(flag, header, payload) + rest) == [(flag != 0, |payload|)] + Decode(rest)
  {
    FramedParts(flag, header, payload, rest);
    DecodeStep(Framed(flag, header, payload) + rest, |payload|);
  }

  lemma FrameOfHeader(flag: Byte, header: Bytes, payload: Bytes)
    requires |payload| < U32_LIMIT && BigEndian(|payload|) == header
    ensures EncodeRaw(Frame(flag, payload)) == Framed(flag, header, payload)
  {
    assert |payload| % U32_LIMIT == |payload|;
  }

  lemma DecodeOne(f: Frame, rest: Bytes)
    requires |f.payload| < U32_LIMIT
    ensures Decode(EncodeRaw(f) + rest) == [(f.flag != 0, |f.payload|)] + Decode(rest)
  {
    HeaderValue(|f.payload|);
    FrameOfHeader(f.flag, BigEndian(|f.payload|), f.payload);
    DecodeFramed(f.flag, BigEndian(|f.payload|), f.payload, rest);
  }

  /** The decoder recovers exactly the frames sent, whatever incomplete frame follows. */
  lemma {:induction false} DecodeInvertsEncode(frames: seq<Frame>, tail: Bytes)
    requires forall f :: f in frames ==> |f.payload| < U32_LIMIT
    requires Incomplete(tail)
    ensures Decode(EncodeAll(frames) + tail) == Headers(frames)
  {
    if frames == [] {
      assert EncodeAll(frames) + tail == tail;
    } else {
      var rest := EncodeAll(frames[1..]) + tail;
      assert EncodeAll(frames) + tail == EncodeRaw(frames[0]) + rest;
      DecodeOne(frames[0], rest);
      DecodeInvertsEncode(frames[1..], tail);
    }
  }

  lemma HeaderBytes(bytes: Bytes)
    requires |bytes| >= 5
    ensures LengthAt(bytes) < U32_LIMIT && BigEndian(LengthAt(bytes)) == bytes[1..5]
  {
    FourDigits();
    ValueBelow(bytes[1..5]);
    DigitsOfValue(bytes[1..5]);
  }

  lemma CutFrame(bytes: Bytes, n: nat)
    requires 5 + n <= |bytes|
    ensures bytes == Framed(bytes[0], bytes[1..5], bytes[5..5 + n]) + bytes[5 + n..]
  {}

  /** A complete buffer starts with the frame that its header describes. */
  lemma FirstFrame(bytes: Bytes)
    requires !Incomplete(bytes)
    ensures bytes == EncodeRaw(Frame(bytes[0], bytes[5..5 + LengthAt(bytes)])) + bytes[5 + LengthAt(bytes)..]
    ensures LengthAt(bytes) < U32_LIMIT
  {
    var n := LengthAt(bytes);
    HeaderBytes(bytes);
    CutFrame(bytes, n);
    FrameOfHeader(bytes[0], bytes[1..5], bytes[5..5 + n]);
  }

  /** Every byte string is a run of whole frames and one incomplete frame. */
  lemma {:induction false} EveryInputIsFrames(bytes: Bytes) returns (frames: seq<Frame>, tail: Bytes)
    ensures bytes == EncodeAll(frames) + tail && Incomplete(tail)
    ensures forall f :: f in frames ==> |f.payload| < U32_LIMIT
    ensures Decode(bytes) == Headers(frames)
  {
    if Incomplete(bytes) {
      frames, tail := [], bytes;
      assert bytes == EncodeAll(frames) + tail;
    } else {
      var n := LengthAt(bytes);
      var f := Frame(bytes[0], bytes[5..5 + n]);
      FirstFrame(bytes);
      var rest: seq<Frame>;
      rest, tail := EveryInputIsFrames(bytes[5 + n..]);
      frames := [f] + rest;
      assert frames[1..] == rest;
      assert bytes == EncodeRaw(f) + (EncodeAll(rest) + tail) == EncodeAll(frames) + tail;
    }
  }

  lemma LengthOfPrefix(bytes: Bytes, n: nat)
    requires 5 <= n <= |bytes|
    ensures LengthAt(bytes[..n]) == LengthAt(bytes)
  {
    assert bytes[..n][1..5] == bytes[1..5];
  }

  lemma DecodeStep(bytes: Bytes, len: nat)
    requires 5 + len <= |bytes| && len == LengthAt(bytes)
    ensures Decode(bytes) == [(bytes[0] != 0, len)] + Decode(bytes[5 + len..])
  {}

  lemma CutBehind(bytes: Bytes, n: nat, k: nat)
    requires k <= n <= |bytes|
    ensures bytes[..n][k..] == bytes[k..][..n - k]
  {}

  lemma PrefixStep(bytes: Bytes, n: nat, len: nat)
    requires 5 + len <= n <= |bytes| && len == LengthAt(bytes)
    requires Decode(bytes[5 + len..][..n - (5 + len)]) <= Decode(bytes[5 + len..])
    ensures Decode(bytes[..n]) <= Decode(bytes)
  {
    StepOfPrefix(bytes, n, len);
    DecodeStep(bytes, len);
    SameHead((bytes[0] != 0, len), Decode(bytes[5 + len..][..n - (5 + len)]), Decode(bytes[5 + len..]));
  }

  lemma StepOfPrefix(bytes: Bytes, n: nat, len: nat)
    requires 5 + len <= n <= |bytes| && len == LengthAt(bytes)
    ensures Decode(bytes[..n]) == [(bytes[0] != 0, len)] + Decode(bytes[5 + len..][..n - (5 + len)])
  {
    LengthOfPrefix(bytes, n);
    CutBehind(bytes, n, 5 + len);
    DecodeStep(bytes[..n], len);
  }

  lemma SameHead(x: (bool, nat), a: seq<(bool, nat)>, b: seq<(bool, nat)>)
    requires a <= b
    ensures [x] + a <= [x] + b
  {}

  lemma PrefixCutShort(bytes: Bytes, n: nat)
    requires n <= |bytes| && (n < 5 || n < 5 + LengthAt(bytes))
    ensures Decode(bytes[..n]) == []
  {
    if n >= 5 { LengthOfPrefix(bytes, n); }
  }

  /** Reading a prefix of a stream yields a prefix of the messages. */
  lemma {:induction false} PrefixDecodesToPrefix(bytes: Bytes, n: nat)
    requires n <= |bytes|
    ensures Decode(bytes[..n]) <= Decode(bytes)
    decreases |bytes|
  {
    if n < 5 || n < 5 + LengthAt(bytes) {
      PrefixCutShort(bytes, n);
    } else {
      var len := LengthAt(bytes);
      PrefixDecodesToPrefix(bytes[5 + len..], n - (5 + len));
      PrefixStep(bytes, n, len);
    }
  }

  lemma {:induction false} DecodedLengthsFit(bytes: Bytes)
    ensures forall h :: h in Decode(bytes) ==> h.1 < U32_LIMIT
  {
    if !Incomplete(bytes) {
      HeaderBytes(bytes);
      DecodedLengthsFit(bytes[5 + LengthAt(bytes)..]);
    }
  }

  /** One encoded frame reads back as itself exactly when its length fits in `u32`. */
  lemma FrameReadsBackExactlyWhenItFits(f: Frame)
    ensures Decode(EncodeRaw(f)) == [(f.flag != 0, |f.payload|)] <==> |f.payload| < U32_LIMIT
  {
    DecodedLengthsFit(EncodeRaw(f));
    if |f.payload| < U32_LIMIT {
      DecodeOne(f, []);
      assert EncodeRaw(f) + [] == EncodeRaw(f);
    } else if Decode(EncodeRaw(f)) == [(f.flag != 0, |f.payload|)] {
      assert Decode(EncodeRaw(f))[0] in Decode(EncodeRaw(f));
    }
  }
}
