/**
 The WebSocket wire format as the codec reads and writes it (sections 5.2 to 5.4 of RFC 6455),
 and the two laws of the codec: decoding does not depend on how the stream is cut into chunks,
 and it undoes encoding.
 */
module WebSocketFrames {
  import opened Words
  import opened Bytes
  import Utf8

  const CONTINUATION: opcode := 0x0
  const TEXT: opcode := 0x1
  const BINARY: opcode := 0x2
  const CLOSE: opcode := 0x8
  const PING: opcode := 0x9
  const PONG: opcode := 0xA

  type opcode = o: int | 0 <= o < 16

  type key = k: bytes | |k| == 4 witness [0, 0, 0, 0]

  const NoKey: key := [0, 0, 0, 0]

  datatype WebSocketFrame = WebSocketFrame(opcode: opcode, fin: bool, mask: bool, maskingKey: key, payload: bytes)

  // ---- One frame on the wire ----

  function Masked(payload: bytes, k: key): (r: bytes)
    ensures |r| == |payload|
  {
    seq(|payload|, i requires 0 <= i < |payload| => Xor(payload[i], k[i % 4]))
  }

  /** The bytes of extended payload length that a 7-bit length announces. */
  function Extension(len7: nat): nat {
    if len7 == 126 then 2 else if len7 == 127 then 8 else 0
  }

  datatype Parsed =
    | NeedMore
    | Throws  // header and payload length exceed 64 bits: building the payload string throws
    | Parsed(fin: bool, opcode: opcode, masked: bool, payload: bytes, consumed: nat)

  datatype Header =
    | Incomplete
    | Header(masked: bool, headerLen: nat, payloadLen: nat)

  function HeaderOf(s: bytes): (h: Header)
    ensures h.Header? ==> 2 <= h.headerLen <= 14 && h.headerLen <= |s| && (h.masked ==> 6 <= h.headerLen)
  {
    if |s| < 2 then Incomplete
    else
      var ext := Extension(s[1] % 128);
      if |s| < 2 + ext then Incomplete
      else
        var payloadLen := if ext == 0 then s[1] % 128 else Number(s[2..2 + ext]);
        var masked := s[1] >= 128;
        var headerLen := 2 + ext + if masked then 4 else 0;
        if |s| < headerLen then Incomplete else Header(masked, headerLen, payloadLen)
  }

  /** The frame at the start of `s`. */
  function Parse(s: bytes): (p: Parsed)
    ensures p.Parsed? ==> 0 < p.consumed <= |s|
  {
    match HeaderOf(s)
    case Incomplete => NeedMore
    case Header(masked, h, n) =>
      if h + n >= TWO_64 then Throws
      else if |s| < h + n then NeedMore
      else Parsed(s[0] >= 128, s[0] % 16, masked, Unmasked(s, masked, h, n), h + n)
  }

  function Unmasked(s: bytes, masked: bool, h: nat, n: nat): bytes
    requires h + n <= |s| && (masked ==> 4 <= h)
  {
    if masked then Masked(s[h..h + n], s[h - 4..h]) else s[h..h + n]
  }

  lemma HeaderOfPrefix(a: bytes, b: bytes)
    requires HeaderOf(a).Header?
    ensures HeaderOf(a + b) == HeaderOf(a)
  {
    var s := a + b;
    assert s[1] == a[1];
    var ext := Extension(a[1] % 128);
    assert s[2..2 + ext] == a[2..2 + ext];
  }

  /** Once a frame is complete, what follows it in the buffer does not matter. */
  lemma ParseOfPrefix(a: bytes, b: bytes)
    requires !Parse(a).NeedMore?
    ensures Parse(a + b) == Parse(a)
  {
    HeaderOfPrefix(a, b);
    hide HeaderOf, Masked;
    var Header(masked, h, n) := HeaderOf(a);
    assert (a + b)[0] == a[0];
    if h + n < TWO_64 {
      SliceOfPrefix(a, b, h, h + n);
      SliceOfPrefix(a, b, if masked then h - 4 else h, h);
    }
  }

  lemma SliceOfPrefix(a: bytes, b: bytes, i: nat, j: nat)
    requires i <= j <= |a|
    ensures (a + b)[i..j] == a[i..j]
  {
  }

  function LengthBytes(n: nat, mask: bool): bytes {
    var bit := if mask then 128 else 0;
    if n < 126 then [n + bit]
    else if n <= 0xFFFF then [126 + bit] + BigEndian(n, 2)
    else [127 + bit] + BigEndian(n, 8)
  }

  /** Header and payload length fit 64 bits together. */
  predicate Encodable(f: WebSocketFrame) {
    14 + |f.payload| < TWO_64
  }

  function FirstByte(f: WebSocketFrame): byte {
    (if f.fin then 128 else 0) + f.opcode
  }

  /** What follows the length: the masking key and the masked payload, or the payload. */
  function Body(f: WebSocketFrame): bytes {
    if f.mask then f.maskingKey + Masked(f.payload, f.maskingKey) else f.payload
  }

  function Encode(f: WebSocketFrame): bytes {
    [FirstByte(f)] + LengthBytes(|f.payload|, f.mask) + Body(f)
  }

  lemma MaskedTwice(payload: bytes, k: key)
    ensures Masked(Masked(payload, k), k) == payload
  {
    forall i | 0 <= i < |payload|
      ensures Masked(Masked(payload, k), k)[i] == payload[i]
    {
      XorTwice(payload[i], k[i % 4]);
    }
  }

  /** The header of an encoded frame, whatever follows it. */
  lemma HeaderOfEncode(b0: byte, n: nat, mask: bool, tail: bytes)
    requires n < TWO_64 && (mask ==> 4 <= |tail|)
    ensures HeaderOf([b0] + LengthBytes(n, mask) + tail)
         == Header(mask, 1 + |LengthBytes(n, mask)| + (if mask then 4 else 0), n)
  {
    var lb := LengthBytes(n, mask);
    var s := [b0] + lb + tail;
    var ext := |lb| - 1;
    assert s[1] == lb[0];
    assert Extension(s[1] % 128) == ext;
    assert s[2..2 + ext] == lb[1..];
    if ext > 0 {
      Pow256Values();
      NumberOfBigEndian(n, ext);
      assert lb[1..] == BigEndian(n, ext);
    }
  }

  /** Behind the header, unmasking gives the payload back. */
  lemma UnmaskedOfEncode(front: bytes, f: WebSocketFrame, rest: bytes)
    ensures var h := |front| + if f.mask then 4 else 0;
            Unmasked(front + Body(f) + rest, f.mask, h, |f.payload|) == f.payload
  {
    var s := front + Body(f) + rest;
    var n := |f.payload|;
    if f.mask {
      var h := |front| + 4;
      assert s[h - 4..h] == f.maskingKey;
      assert s[h..h + n] == Masked(f.payload, f.maskingKey);
      MaskedTwice(f.payload, f.maskingKey);
    } else {
      assert s[|front|..|front| + n] == f.payload;
    }
  }

  /** Parsing undoes encoding, for every frame and whatever follows it. */
  lemma ParseOfEncode(f: WebSocketFrame, rest: bytes)
    requires Encodable(f)
    ensures Parse(Encode(f) + rest) == Parsed(f.fin, f.opcode, f.mask, f.payload, |Encode(f)|)
  {
    var lb := LengthBytes(|f.payload|, f.mask);
    var b0 := FirstByte(f);
    var s := Encode(f) + rest;
    HeaderOfEncode(b0, |f.payload|, f.mask, Body(f) + rest);
    assert s == [b0] + lb + (Body(f) + rest);
    UnmaskedOfEncode([b0] + lb, f, rest);
    assert s == ([b0] + lb) + Body(f) + rest;
    assert s[0] == b0;
  }

  // ---- What is on the wire, by position and bit (section 5.2 of RFC 6455) ----

  /** The payload length that the second byte and the bytes after it announce. */
  predicate AnnouncesLength(s: bytes, n: nat)
    requires |s| >= 2
  {
    if s[1] % 128 < 126 then n == s[1] % 128
    else if s[1] % 128 == 126 then |s| >= 4 && n == s[2] as nat * 256 + s[3]
    else
      |s| >= 10
      && n == s[2] as nat * 0x100_0000_0000_0000 + s[3] as nat * 0x1_0000_0000_0000 + s[4] as nat * 0x100_0000_0000
              + s[5] as nat * 0x1_0000_0000 + s[6] as nat * 0x100_0000 + s[7] as nat * 0x1_0000
              + s[8] as nat * 0x100 + s[9]
  }

  /** Where the payload starts. */
  function PayloadOffset(s: bytes): nat
    requires |s| >= 2
  {
    (if s[1] % 128 < 126 then 2 else if s[1] % 128 == 126 then 4 else 10) + (if s[1] >= 128 then 4 else 0)
  }

  /** Byte `i` of the payload, in terms of the bytes on the wire: masked with byte `i % 4` of the key in front of it. */
  predicate CarriesByte(s: bytes, i: nat, b: byte)
    requires |s| >= 2 && PayloadOffset(s) + i < |s|
  {
    var h := PayloadOffset(s);
    if s[1] >= 128 then forall j | 0 <= j < 8 :: Bit(b, j) == 0 <==> Bit(s[h + i], j) == Bit(s[h - 4 + i % 4], j)
    else b == s[h + i]
  }

  lemma FirstByteBits(b: byte)
    ensures b >= 128 <==> Bit(b, 7) == 1
    ensures forall j | 0 <= j < 4 :: Bit(b % 16, j) == Bit(b, j)
  {
    Pow2Of8();
    assert Pow2(8) == 2 * Pow2(7);
    BitIsQuotient(b, 7);
    forall j | 0 <= j < 4
      ensures Bit(b % 16, j) == Bit(b, j)
    {
      LowBits(b, 4, j);
    }
  }

  /** The header of a frame as it lies in the buffer. */
  lemma HeaderOnWire(s: bytes)
    requires HeaderOf(s).Header?
    ensures |s| >= 2 && AnnouncesLength(s, HeaderOf(s).payloadLen) && HeaderOf(s).headerLen == PayloadOffset(s)
    ensures HeaderOf(s).masked <==> s[1] >= 128
  {
    if s[1] % 128 == 126 {
      NumberOfTwo(s[2..4]);
    } else if s[1] % 128 == 127 {
      NumberOfEight(s[2..10]);
    }
    hide Number;
  }

  /** Every frame that is read is what the wire says: its bits, its length, and each bit of its payload. */
  lemma ReadOnWire(s: bytes)
    requires Parse(s).Parsed?
    ensures var p := Parse(s);
            && |s| >= 2
            && (p.fin <==> Bit(s[0], 7) == 1)
            && (forall j | 0 <= j < 4 :: Bit(p.opcode, j) == Bit(s[0], j))
            && (p.masked <==> Bit(s[1], 7) == 1)
            && AnnouncesLength(s, |p.payload|)
            && p.consumed == PayloadOffset(s) + |p.payload| <= |s|
            && forall i | 0 <= i < |p.payload| :: CarriesByte(s, i, p.payload[i])
  {
    HeaderOnWire(s);
    FirstByteBits(s[0]);
    FirstByteBits(s[1]);
    var p := Parse(s);
    var h, n := PayloadOffset(s), |p.payload|;
    hide HeaderOf, AnnouncesLength, PayloadOffset, Bit;
    forall i | 0 <= i < n
      ensures CarriesByte(s, i, p.payload[i])
    {
      if p.masked {
        assert s[h..h + n][i] == s[h + i] && s[h - 4..h][i % 4] == s[h - 4 + i % 4];
        XorIsExclusive(s[h + i], s[h - 4 + i % 4]);
      }
    }
  }

  /** The key lies in front of the payload, and the length takes the shortest of its three forms. */
  lemma HeaderWritten(f: WebSocketFrame)
    ensures var s := Encode(f);
            && |s| >= 2 && PayloadOffset(s) <= |s|
            && (s[1] % 128 == 126 ==> |f.payload| >= 126) && (s[1] % 128 == 127 ==> |f.payload| > 0xFFFF)
            && (f.mask ==> s[PayloadOffset(s) - 4..PayloadOffset(s)] == f.maskingKey)
  {
    var s, lb := Encode(f), LengthBytes(|f.payload|, f.mask);
    assert s[1] == lb[0];
    assert PayloadOffset(s) == 1 + |lb| + if f.mask then 4 else 0;
    hide LengthBytes, PayloadOffset, Masked, BigEndian;
    if f.mask {
      KeyAt([FirstByte(f)] + lb, f.maskingKey, Masked(f.payload, f.maskingKey));
      assert s == [FirstByte(f)] + lb + (f.maskingKey + Masked(f.payload, f.maskingKey));
    }
  }

  lemma KeyAt(front: bytes, k: key, rest: bytes)
    ensures (front + (k + rest))[|front|..|front| + 4] == k
  {
  }

  /**
   So is every frame that is written, in the shortest of the three forms of its length, with its key before
   its payload.
   */
  lemma WrittenOnWire(f: WebSocketFrame)
    requires Encodable(f)
    ensures var s := Encode(f);
            && |s| >= 2
            && (f.fin <==> Bit(s[0], 7) == 1)
            && (forall j | 0 <= j < 4 :: Bit(f.opcode, j) == Bit(s[0], j))
            && (f.mask <==> Bit(s[1], 7) == 1)
            && AnnouncesLength(s, |f.payload|)
            && (s[1] % 128 == 126 ==> |f.payload| >= 126) && (s[1] % 128 == 127 ==> |f.payload| > 0xFFFF)
            && |s| == PayloadOffset(s) + |f.payload|
            && (f.mask ==> s[PayloadOffset(s) - 4..PayloadOffset(s)] == f.maskingKey)
            && forall i | 0 <= i < |f.payload| :: CarriesByte(s, i, f.payload[i])
  {
    var s := Encode(f);
    hide AnnouncesLength, CarriesByte, Bit, Encode, Parse;
    ParseOfEncode(f, []);
    assert s + [] == s;
    ReadOnWire(s);
    HeaderWritten(f);
  }

  // ---- The decoder ----

  /** The message being put together from fragments. */
  datatype Fragments = Fragments(opcode: opcode, payload: bytes)

  datatype Action =
    | Abandon                                     // the rest of the buffer is dropped
    | Absorb(next: Fragments)                     // a fragment that completes nothing
    | Deliver(frame: WebSocketFrame, after: Fragments)

  function Delivered(opcode: opcode, masked: bool, payload: bytes): WebSocketFrame {
    WebSocketFrame(opcode, true, masked, NoKey, payload)
  }

  /** What one complete frame does. */
  function Handle(frag: Fragments, fin: bool, opcode: opcode, masked: bool, payload: bytes): Action {
    if opcode >= CLOSE && !fin then Abandon
    else if opcode == TEXT && !Utf8.Valid(payload) then Abandon
    else if opcode == CONTINUATION then
      if fin then Deliver(Delivered(frag.opcode, masked, frag.payload + payload), Fragments(frag.opcode, []))
      else Absorb(Fragments(frag.opcode, frag.payload + payload))
    else if !fin then Absorb(Fragments(opcode, payload))
    else Deliver(Delivered(opcode, masked, payload), frag)
  }

  datatype Outcome = Outcome(frames: seq<WebSocketFrame>, frag: Fragments, rest: bytes, abandoned: bool)
  {
    function Before(earlier: seq<WebSocketFrame>): Outcome {
      this.(frames := earlier + frames)
    }
  }

  /** One buffer, from its first byte until it is used up, incomplete or abandoned. */
  function Drain(frag: Fragments, s: bytes): (o: Outcome)
    ensures o.abandoned ==> o.rest == []
    decreases |s|
  {
    if s == [] then Outcome([], frag, [], false)
    else
      match Parse(s)
      case NeedMore => Outcome([], frag, s, false)
      case Throws => Outcome([], frag, [], true)
      case Parsed(fin, opcode, masked, payload, consumed) =>
        match Handle(frag, fin, opcode, masked, payload)
        case Abandon => Outcome([], frag, [], true)
        case Absorb(next) => Drain(next, s[consumed..])
        case Deliver(f, after) =>
          if f.opcode == CLOSE then Outcome([f], after, [], true)
          else Drain(after, s[consumed..]).Before([f])
  }

  lemma DrainEnds(frag: Fragments, s: bytes)
    ensures s == [] || Parse(s).NeedMore? ==> Drain(frag, s) == Outcome([], frag, s, false)
    ensures s != [] && Parse(s).Throws? ==> Drain(frag, s) == Outcome([], frag, [], true)
  {
  }

  /** One complete frame: what it hands on, whether it ends the reading, and the fragments after it. */
  lemma DrainStep(frag: Fragments, s: bytes, frames: seq<WebSocketFrame>, stop: bool, next: Fragments)
    requires s != [] && Parse(s).Parsed?
    requires var p := Parse(s);
             match Handle(frag, p.fin, p.opcode, p.masked, p.payload)
             case Abandon => frames == [] && stop && next == frag
             case Absorb(after) => frames == [] && !stop && next == after
             case Deliver(f, after) => frames == [f] && stop == (f.opcode == CLOSE) && next == after
    ensures Drain(frag, s)
         == if stop then Outcome(frames, next, [], true) else Drain(next, s[Parse(s).consumed..]).Before(frames)
  {
  }

  datatype Decoder = Decoder(leftover: bytes, frag: Fragments)

  const InitialDecoder := Decoder([], Fragments(TEXT, []))

  /** One `channelRead`. */
  function Read(st: Decoder, chunk: bytes): Outcome {
    if chunk == [] then Outcome([], st.frag, st.leftover, false)
    else Drain(st.frag, st.leftover + chunk)
  }

  function After(o: Outcome): Decoder {
    Decoder(o.rest, o.frag)
  }

  /** Everything delivered for a run of chunks. */
  function ReadAll(st: Decoder, chunks: seq<bytes>): seq<WebSocketFrame>
    decreases |chunks|
  {
    if chunks == [] then []
    else Read(st, chunks[0]).frames + ReadAll(After(Read(st, chunks[0])), chunks[1..])
  }

  /** The same run, stopped at the first chunk whose rest is abandoned. */
  function ReadUntilAbandoned(st: Decoder, chunks: seq<bytes>): Outcome
    decreases |chunks|
  {
    if chunks == [] then Outcome([], st.frag, st.leftover, false)
    else
      var o := Read(st, chunks[0]);
      if o.abandoned then o else ReadUntilAbandoned(After(o), chunks[1..]).Before(o.frames)
  }

  function Concat(chunks: seq<bytes>): bytes {
    if chunks == [] then [] else chunks[0] + Concat(chunks[1..])
  }

  /** Draining in two steps is draining at once. */
  lemma {:induction false} DrainOfConcat(frag: Fragments, a: bytes, b: bytes)
    ensures Drain(frag, a + b)
         == var o := Drain(frag, a);
            if o.abandoned then o else Drain(o.frag, o.rest + b).Before(o.frames)
    decreases |a|
  {
    hide Parse, Handle;
    if a == [] || Parse(a).NeedMore? {
      assert a == [] ==> a + b == b;
      BeforeNothing(Drain(frag, a + b));
      assert Drain(frag, a).rest == a;
    } else {
      ParseOfPrefix(a, b);
      var p := Parse(a);
      if p.Parsed? {
        assert (a + b)[p.consumed..] == a[p.consumed..] + b;
        match Handle(frag, p.fin, p.opcode, p.masked, p.payload)
        case Abandon =>
        case Absorb(next) => DrainOfConcat(next, a[p.consumed..], b);
        case Deliver(f, after) =>
          if f.opcode != CLOSE {
            DrainOfConcat(after, a[p.consumed..], b);
            var o := Drain(after, a[p.consumed..]);
            BeforeTwice(Drain(o.frag, o.rest + b), o.frames, [f]);
          }
      }
    }
  }

  lemma {:induction false} ReadAllExtends(st: Decoder, chunks: seq<bytes>)
    ensures ReadUntilAbandoned(st, chunks).frames <= ReadAll(st, chunks)
    ensures !ReadUntilAbandoned(st, chunks).abandoned ==> ReadUntilAbandoned(st, chunks).frames == ReadAll(st, chunks)
    decreases |chunks|
  {
    if chunks != [] {
      ReadAllExtends(After(Read(st, chunks[0])), chunks[1..]);
    }
  }

  lemma ReadOfConcat(st: Decoder, chunk: bytes, rest: bytes)
    ensures Read(st, chunk + rest)
         == var o := Read(st, chunk);
            if o.abandoned then o else Read(After(o), rest).Before(o.frames)
  {
    hide Drain;
    if chunk == [] {
      assert chunk + rest == rest;
      BeforeNothing(Read(st, rest));
    } else if rest == [] {
      assert chunk + rest == chunk;
      NothingAfter(Read(st, chunk));
    } else {
      DrainOfConcat(st.frag, st.leftover + chunk, rest);
      assert st.leftover + chunk + rest == st.leftover + (chunk + rest);
    }
  }

  lemma BeforeNothing(o: Outcome)
    ensures o.Before([]) == o
  {
  }

  lemma BeforeTwice(o: Outcome, late: seq<WebSocketFrame>, early: seq<WebSocketFrame>)
    ensures o.Before(late).Before(early) == o.Before(early + late)
  {
  }

  lemma NothingAfter(o: Outcome)
    ensures !o.abandoned ==> Read(After(o), []).Before(o.frames) == o
  {
  }

  /**
   Chunking independence. Cut a stream into chunks in any way, from any decoder state: up to and
   including the first frame that makes the codec abandon its buffer, the chunks deliver what the
   whole stream delivers; and if no frame does, everything is delivered and the leftover bytes and
   the fragments are the same in the end.
   */
  lemma {:induction false} ChunkingIndependence(st: Decoder, chunks: seq<bytes>)
    ensures ReadUntilAbandoned(st, chunks) == Read(st, Concat(chunks))
    ensures Read(st, Concat(chunks)).frames <= ReadAll(st, chunks)
    ensures !Read(st, Concat(chunks)).abandoned ==> ReadAll(st, chunks) == Read(st, Concat(chunks)).frames
    decreases |chunks|
  {
    ReadAllExtends(st, chunks);
    if chunks != [] {
      ReadOfConcat(st, chunks[0], Concat(chunks[1..]));
      ChunkingIndependence(After(Read(st, chunks[0])), chunks[1..]);
    }
  }

  // ---- Encode, then decode ----

  function EncodeAll(fs: seq<WebSocketFrame>): bytes {
    if fs == [] then [] else Encode(fs[0]) + EncodeAll(fs[1..])
  }

  /** The decoder on frames instead of bytes. */
  function Receive(frag: Fragments, fs: seq<WebSocketFrame>): Outcome
    decreases |fs|
  {
    if fs == [] then Outcome([], frag, [], false)
    else
      match Handle(frag, fs[0].fin, fs[0].opcode, fs[0].mask, fs[0].payload)
      case Abandon => Outcome([], frag, [], true)
      case Absorb(next) => Receive(next, fs[1..])
      case Deliver(f, after) =>
        if f.opcode == CLOSE then Outcome([f], after, [], true)
        else Receive(after, fs[1..]).Before([f])
  }

  /** The bytes of encoded frames are decoded as those frames. */
  lemma {:induction false} DrainOfEncoded(frag: Fragments, fs: seq<WebSocketFrame>)
    requires forall i | 0 <= i < |fs| :: Encodable(fs[i])
    ensures Drain(frag, EncodeAll(fs)) == Receive(frag, fs)
    decreases |fs|
  {
    hide Parse, Encode, Handle;
    if fs != [] {
      var s := EncodeAll(fs);
      ParseOfEncode(fs[0], EncodeAll(fs[1..]));
      assert s[|Encode(fs[0])|..] == EncodeAll(fs[1..]);
      match Handle(frag, fs[0].fin, fs[0].opcode, fs[0].mask, fs[0].payload)
      case Abandon =>
      case Absorb(next) => DrainOfEncoded(next, fs[1..]);
      case Deliver(f, after) => DrainOfEncoded(after, fs[1..]);
    }
  }

  lemma {:induction false} ReceiveOfConcat(frag: Fragments, a: seq<WebSocketFrame>, b: seq<WebSocketFrame>)
    ensures Receive(frag, a + b)
         == var o := Receive(frag, a);
            if o.abandoned then o else Receive(o.frag, b).Before(o.frames)
    decreases |a|
  {
    hide Handle;
    if a == [] {
      assert a + b == b;
      BeforeNothing(Receive(frag, b));
    } else {
      assert (a + b)[1..] == a[1..] + b;
      match Handle(frag, a[0].fin, a[0].opcode, a[0].mask, a[0].payload)
      case Abandon =>
      case Absorb(next) => ReceiveOfConcat(next, a[1..], b);
      case Deliver(f, after) =>
        ReceiveOfConcat(after, a[1..], b);
        var o := Receive(after, a[1..]);
        BeforeTwice(Receive(o.frag, b), o.frames, [f]);
    }
  }

  // ---- Any frames whatever ----

  /** A frame after which the rest of the buffer is dropped, whatever came before. */
  ghost predicate Stops(f: WebSocketFrame) {
    || f.opcode == CLOSE
    || (f.opcode > CLOSE && !f.fin)
    || (f.opcode == TEXT && !Utf8.Splits(f.payload))
  }

  /** How many of the first `n` frames are final. */
  function Finals(fs: seq<WebSocketFrame>, n: nat): nat
    requires n <= |fs|
  {
    if n == 0 then 0 else Finals(fs, n - 1) + if fs[n - 1].fin then 1 else 0
  }

  lemma {:induction false} FinalsOfTail(fs: seq<WebSocketFrame>, n: nat)
    requires 0 < n <= |fs|
    ensures Finals(fs, n) == (if fs[0].fin then 1 else 0) + Finals(fs[1..], n - 1)
  {
    if n > 1 {
      FinalsOfTail(fs, n - 1);
    }
  }

  lemma HandleStopsIff(frag: Fragments, f: WebSocketFrame)
    requires frag.opcode < CLOSE
    ensures var a := Handle(frag, f.fin, f.opcode, f.mask, f.payload);
            && (Stops(f) <==> a.Abandon? || (a.Deliver? && a.frame.opcode == CLOSE))
            && (!Stops(f) ==> (f.fin <==> a.Deliver?))
            && (!Stops(f) && f.fin && f.opcode != CONTINUATION ==> a.frame == Seen(f.opcode, f.mask, f.payload))
            && (a.Absorb? ==> a.next.opcode < CLOSE) && (a.Deliver? ==> a.after.opcode < CLOSE)
  {
    Utf8.ValidIffSplits(f.payload);
  }

  /**
   The reading stops exactly at a CLOSE, at a control frame that is not final, and at a TEXT frame that
   is not UTF-8.
   */
  lemma {:induction false} StopsIff(frag: Fragments, fs: seq<WebSocketFrame>)
    requires frag.opcode < CLOSE
    ensures Receive(frag, fs).abandoned <==> exists i :: 0 <= i < |fs| && Stops(fs[i])
    decreases |fs|
  {
    hide Handle, Stops;
    if fs != [] {
      assert forall i | 0 <= i < |fs| - 1 :: fs[1..][i] == fs[i + 1];
      HandleStopsIff(frag, fs[0]);
      match Handle(frag, fs[0].fin, fs[0].opcode, fs[0].mask, fs[0].payload)
      case Abandon =>
      case Absorb(next) => StopsIff(next, fs[1..]);
      case Deliver(f, after) =>
        if f.opcode != CLOSE {
          StopsIff(after, fs[1..]);
        }
    }
  }

  /**
   If none stops the reading, every final frame is delivered, in order and one for one, whatever its
   opcode, and as it came unless it is a continuation.
   */
  lemma {:induction false} FinalFramesAreDelivered(frag: Fragments, fs: seq<WebSocketFrame>, i: nat)
    requires frag.opcode < CLOSE && forall j | 0 <= j < |fs| :: !Stops(fs[j])
    requires i < |fs| && fs[i].fin
    ensures |Receive(frag, fs).frames| == Finals(fs, |fs|) && Finals(fs, i) < Finals(fs, |fs|)
    ensures fs[i].opcode != CONTINUATION ==>
              Receive(frag, fs).frames[Finals(fs, i)] == Seen(fs[i].opcode, fs[i].mask, fs[i].payload)
    decreases |fs|
  {
    hide Handle, Stops;
    DeliveredCount(frag, fs);
    FinalsGrow(fs, i, |fs|);
    HandleStopsIff(frag, fs[0]);
    var a := Handle(frag, fs[0].fin, fs[0].opcode, fs[0].mask, fs[0].payload);
    if i > 0 {
      assert fs[1..][i - 1] == fs[i];
      FinalsOfTail(fs, i);
      FinalFramesAreDelivered(if a.Absorb? then a.next else a.after, fs[1..], i - 1);
    }
  }

  lemma {:induction false} FinalsGrow(fs: seq<WebSocketFrame>, i: nat, n: nat)
    requires i < n <= |fs| && fs[i].fin
    ensures Finals(fs, i) < Finals(fs, n)
    decreases n
  {
    if n > i + 1 {
      FinalsGrow(fs, i, n - 1);
    }
  }

  lemma {:induction false} DeliveredCount(frag: Fragments, fs: seq<WebSocketFrame>)
    requires frag.opcode < CLOSE && forall j | 0 <= j < |fs| :: !Stops(fs[j])
    ensures |Receive(frag, fs).frames| == Finals(fs, |fs|)
    decreases |fs|
  {
    hide Handle, Stops;
    if fs != [] {
      HandleStopsIff(frag, fs[0]);
      FinalsOfTail(fs, |fs|);
      var a := Handle(frag, fs[0].fin, fs[0].opcode, fs[0].mask, fs[0].payload);
      DeliveredCount(if a.Absorb? then a.next else a.after, fs[1..]);
    }
  }

  // ---- Messages ----

  /** A payload with the mask its sender puts on it, if any. */
  datatype Part = Part(payload: bytes, mask: bool, maskingKey: key)

  datatype Control = Control(opcode: opcode, part: Part)

  /** A later fragment of a message, with the control frames sent in front of it. */
  datatype Later = Later(controls: seq<Control>, part: Part)

  datatype Message =
    | Whole(opcode: opcode, part: Part)
    | Fragmented(opcode: opcode, first: Part, middle: seq<Later>, last: Later)

  function Frame(opcode: opcode, fin: bool, p: Part): WebSocketFrame {
    WebSocketFrame(opcode, fin, p.mask, p.maskingKey, p.payload)
  }

  predicate Sendable(p: Part) {
    14 + |p.payload| < TWO_64
  }

  predicate ValidControl(c: Control) {
    (c.opcode == PING || c.opcode == PONG) && Sendable(c.part)
  }

  predicate ValidLater(l: Later) {
    (forall i | 0 <= i < |l.controls| :: ValidControl(l.controls[i])) && Sendable(l.part)
  }

  /** The payload the codec checks is that of the frame that opens the message. */
  function Opening(m: Message): Part {
    if m.Whole? then m.part else m.first
  }

  predicate ValidMessage(m: Message) {
    && Sendable(Opening(m))
    && (m.Whole? ==> m.opcode == TEXT || m.opcode == BINARY || m.opcode == PING || m.opcode == PONG)
    && (m.Fragmented? ==>
          && (m.opcode == TEXT || m.opcode == BINARY)
          && (forall i | 0 <= i < |m.middle| :: ValidLater(m.middle[i]))
          && ValidLater(m.last))
  }

  /** The text check passes on the opening frame. */
  predicate Checked(m: Message) {
    m.opcode == TEXT ==> Utf8.Valid(Opening(m).payload)
  }

  function ControlFrames(cs: seq<Control>): seq<WebSocketFrame> {
    seq(|cs|, i requires 0 <= i < |cs| => Frame(cs[i].opcode, true, cs[i].part))
  }

  function LaterFrames(l: Later, fin: bool): seq<WebSocketFrame> {
    ControlFrames(l.controls) + [Frame(CONTINUATION, fin, l.part)]
  }

  function MiddleFrames(ls: seq<Later>): seq<WebSocketFrame> {
    if ls == [] then [] else LaterFrames(ls[0], false) + MiddleFrames(ls[1..])
  }

  /** The frames a sender puts on the wire for a message (section 5.4 of RFC 6455). */
  function SentFrames(m: Message): seq<WebSocketFrame> {
    match m
    case Whole(opcode, part) => [Frame(opcode, true, part)]
    case Fragmented(opcode, first, middle, last) =>
      [Frame(opcode, false, first)] + (MiddleFrames(middle) + LaterFrames(last, true))
  }

  function AllSent(ms: seq<Message>): seq<WebSocketFrame> {
    if ms == [] then [] else SentFrames(ms[0]) + AllSent(ms[1..])
  }

  /** A frame as the application should see it: complete, and without a key. */
  function Seen(opcode: opcode, mask: bool, payload: bytes): WebSocketFrame {
    WebSocketFrame(opcode, true, mask, [0, 0, 0, 0], payload)
  }

  function ControlsReceived(cs: seq<Control>): seq<WebSocketFrame> {
    seq(|cs|, i requires 0 <= i < |cs| => Seen(cs[i].opcode, cs[i].part.mask, cs[i].part.payload))
  }

  function MiddleReceived(ls: seq<Later>): seq<WebSocketFrame> {
    if ls == [] then [] else ControlsReceived(ls[0].controls) + MiddleReceived(ls[1..])
  }

  function MiddlePayload(ls: seq<Later>): bytes {
    if ls == [] then [] else ls[0].part.payload + MiddlePayload(ls[1..])
  }

  /** The message as one payload. */
  function Payload(m: Message): bytes {
    match m
    case Whole(_, part) => part.payload
    case Fragmented(_, first, middle, last) => first.payload + MiddlePayload(middle) + last.part.payload
  }

  /** What the receiver should see: the control frames in order, then the message in one piece. */
  function Expected(m: Message): seq<WebSocketFrame> {
    match m
    case Whole(opcode, part) => [Seen(opcode, part.mask, part.payload)]
    case Fragmented(opcode, first, middle, last) =>
      MiddleReceived(middle) + ControlsReceived(last.controls) + [Seen(opcode, last.part.mask, Payload(m))]
  }

  function AllExpected(ms: seq<Message>): seq<WebSocketFrame> {
    if ms == [] then [] else Expected(ms[0]) + AllExpected(ms[1..])
  }

  lemma {:induction false} ReceiveControls(frag: Fragments, cs: seq<Control>)
    requires forall i | 0 <= i < |cs| :: ValidControl(cs[i])
    ensures Receive(frag, ControlFrames(cs)) == Outcome(ControlsReceived(cs), frag, [], false)
    decreases |cs|
  {
    if cs != [] {
      assert ControlFrames(cs)[1..] == ControlFrames(cs[1..]);
      ReceiveControls(frag, cs[1..]);
      assert ControlsReceived(cs) == [ControlsReceived(cs)[0]] + ControlsReceived(cs[1..]);
    }
  }

  lemma ReceiveLater(frag: Fragments, l: Later, fin: bool)
    requires ValidLater(l) && frag.opcode != CLOSE
    ensures Receive(frag, LaterFrames(l, fin))
         == var whole := frag.payload + l.part.payload;
            if fin
            then Outcome(ControlsReceived(l.controls) + [Delivered(frag.opcode, l.part.mask, whole)],
                         Fragments(frag.opcode, []), [], false)
            else Outcome(ControlsReceived(l.controls), Fragments(frag.opcode, whole), [], false)
  {
    ReceiveControls(frag, l.controls);
    var c := [Frame(CONTINUATION, fin, l.part)];
    ReceiveOfConcat(frag, ControlFrames(l.controls), c);
    assert c[1..] == [];
    assert ControlsReceived(l.controls) + [] == ControlsReceived(l.controls);
    assert [Delivered(frag.opcode, l.part.mask, frag.payload + l.part.payload)] + []
        == [Delivered(frag.opcode, l.part.mask, frag.payload + l.part.payload)];
  }

  lemma {:induction false} ReceiveMiddle(frag: Fragments, ls: seq<Later>)
    requires (forall i | 0 <= i < |ls| :: ValidLater(ls[i])) && frag.opcode != CLOSE
    ensures Receive(frag, MiddleFrames(ls))
         == Outcome(MiddleReceived(ls), Fragments(frag.opcode, frag.payload + MiddlePayload(ls)), [], false)
    decreases |ls|
  {
    if ls == [] {
      assert frag.payload + [] == frag.payload;
    } else {
      var next := Fragments(frag.opcode, frag.payload + ls[0].part.payload);
      ReceiveLater(frag, ls[0], false);
      ReceiveMiddle(next, ls[1..]);
      ReceiveOfConcat(frag, LaterFrames(ls[0], false), MiddleFrames(ls[1..]));
      assert next.payload + MiddlePayload(ls[1..]) == frag.payload + MiddlePayload(ls);
    }
  }

  /**
   One message, from any state of the fragments: it is delivered if and only if its opening frame passes
   the text check.
   */
  lemma ReceiveMessage(frag: Fragments, m: Message)
    requires ValidMessage(m)
    ensures Checked(m) ==> Receive(frag, SentFrames(m)).frames == Expected(m)
    ensures Receive(frag, SentFrames(m)).abandoned <==> !Checked(m)
    ensures !Checked(m) ==> Receive(frag, SentFrames(m)).frames == []
  {
    var fs := SentFrames(m);
    if Checked(m) {
      match m
      case Whole(opcode, part) =>
        assert fs[1..] == [];
        assert Receive(frag, fs).frames == Expected(m) + [];
      case Fragmented(opcode, first, middle, last) =>
        var f0 := Fragments(opcode, first.payload);
        var f1 := Fragments(opcode, first.payload + MiddlePayload(middle));
        assert fs[1..] == MiddleFrames(middle) + LaterFrames(last, true);
        ReceiveMiddle(f0, middle);
        ReceiveLater(f1, last, true);
        ReceiveOfConcat(f0, MiddleFrames(middle), LaterFrames(last, true));
        assert Receive(frag, fs).frames
            == MiddleReceived(middle)
               + (ControlsReceived(last.controls) + [Delivered(opcode, last.part.mask, Payload(m))]);
    }
  }

  /**
   The text check sees the opening frame alone. A text cut inside a character is refused although
   the message is valid UTF-8, and a message that is not UTF-8 passes if its opening frame is.
   */
  lemma TextCheckIsNotTheMessages()
    ensures exists m :: ValidMessage(m) && m.opcode == TEXT && Utf8.Valid(Payload(m)) && !Checked(m)
    ensures exists m :: ValidMessage(m) && m.opcode == TEXT && !Utf8.Valid(Payload(m)) && Checked(m)
  {
    var cut := CutText();
    var bad := BadText();
    assert ValidMessage(cut) && ValidMessage(bad);
  }

  lemma CutText() returns (cut: Message)
    ensures ValidMessage(cut) && cut.opcode == TEXT && Utf8.Valid(Payload(cut)) && !Checked(cut)
  {
    var euro: seq<bytes> := [[0xE2, 0x82, 0xAC]];
    Utf8.ValidOfChars(euro);
    cut := Fragmented(TEXT, Part([0xE2], false, NoKey), [], Later([], Part([0x82, 0xAC], false, NoKey)));
    assert Payload(cut) == Utf8.Flatten(euro);
  }

  lemma BadText() returns (bad: Message)
    ensures ValidMessage(bad) && bad.opcode == TEXT && !Utf8.Valid(Payload(bad)) && Checked(bad)
  {
    bad := Fragmented(TEXT, Part([], false, NoKey), [], Later([], Part([0xFF], false, NoKey)));
    assert Payload(bad) == [0xFF];
  }

  /** What a message carries after its opening frame. */
  function RestOf(m: Message): bytes {
    if m.Whole? then [] else MiddlePayload(m.middle) + m.last.part.payload
  }

  lemma OpeningAndRest(m: Message)
    ensures Payload(m) == Opening(m).payload + RestOf(m)
    ensures m.Whole? ==> Payload(m) == Opening(m).payload
  {
  }

  /**
   When the text check is the message's. Of the three, that a text message is delivered, that it is valid
   UTF-8, and that what follows its opening frame is valid UTF-8, any two imply the third. So a delivered
   text is valid exactly if its later fragments are, a valid text is delivered exactly if they are, and
   for a message in one frame the check is the message's.
   */
  lemma TextCheckIsTheMessagesIff(frag: Fragments, m: Message)
    requires ValidMessage(m) && m.opcode == TEXT
    ensures Checked(m) <==> !Receive(frag, SentFrames(m)).abandoned
    ensures Checked(m) ==> (Utf8.Valid(Payload(m)) <==> Utf8.Valid(RestOf(m)))
    ensures Utf8.Valid(Payload(m)) ==> (Checked(m) <==> Utf8.Valid(RestOf(m)))
    ensures m.Whole? ==> (Checked(m) <==> Utf8.Valid(Payload(m)))
  {
    var a, b := Opening(m).payload, RestOf(m);
    ReceiveMessage(frag, m);
    OpeningAndRest(m);
    hide Payload, RestOf, Receive, SentFrames, Utf8.Valid, ValidMessage;
    if Utf8.Valid(a) {
      Utf8.ValidOfConcat(a, b);
    }
    if Utf8.Valid(a + b) && Utf8.Valid(b) {
      Utf8.ValidBefore(a, b);
    }
  }

  lemma {:induction false} ReceiveMessages(frag: Fragments, ms: seq<Message>)
    requires forall i | 0 <= i < |ms| :: ValidMessage(ms[i]) && Checked(ms[i])
    ensures Receive(frag, AllSent(ms)).frames == AllExpected(ms)
    ensures !Receive(frag, AllSent(ms)).abandoned
    decreases |ms|
  {
    if ms != [] {
      ReceiveMessage(frag, ms[0]);
      ReceiveOfConcat(frag, SentFrames(ms[0]), AllSent(ms[1..]));
      ReceiveMessages(Receive(frag, SentFrames(ms[0])).frag, ms[1..]);
    }
  }

  lemma {:induction false} SentAreEncodable(ms: seq<Message>)
    requires forall i | 0 <= i < |ms| :: ValidMessage(ms[i])
    ensures forall i | 0 <= i < |AllSent(ms)| :: Encodable(AllSent(ms)[i])
    decreases |ms|
  {
    if ms != [] {
      if ms[0].Fragmented? {
        MiddleAreEncodable(ms[0].middle);
      }
      SentAreEncodable(ms[1..]);
    }
  }

  lemma {:induction false} MiddleAreEncodable(ls: seq<Later>)
    requires forall i | 0 <= i < |ls| :: ValidLater(ls[i])
    ensures forall i | 0 <= i < |MiddleFrames(ls)| :: Encodable(MiddleFrames(ls)[i])
    decreases |ls|
  {
    if ls != [] {
      MiddleAreEncodable(ls[1..]);
    }
  }

  /**
   Encode, then decode: any messages, whole or in any number of fragments with PING and PONG frames
   between them, masked or not, followed or not by a CLOSE, and cut into chunks in any way, come out
   as the same opcodes and payloads in the same order.
   */
  lemma EncodeThenDecode(st: Decoder, ms: seq<Message>, closing: seq<Part>, chunks: seq<bytes>)
    requires st.leftover == []
    requires forall i | 0 <= i < |ms| :: ValidMessage(ms[i]) && Checked(ms[i])
    requires |closing| <= 1 && forall i | 0 <= i < |closing| :: Sendable(closing[i])
    requires chunks != [] && forall i | 0 <= i < |chunks| :: chunks[i] != []
    requires Concat(chunks) == EncodeAll(AllSent(ms) + Closing(closing))
    ensures ReadAll(st, chunks) == AllExpected(ms) + Closed(closing)
  {
    SentAreEncodable(ms);
    ReceiveMessages(st.frag, ms);
    StreamIsReceived(st, AllSent(ms), Closing(closing), chunks);
    ReceiveOfConcat(st.frag, AllSent(ms), Closing(closing));
    ReceiveClosing(Receive(st.frag, AllSent(ms)).frag, closing);
  }

  /** A stream of encoded frames, of which only the last may end the reading, is received frame by frame. */
  lemma StreamIsReceived(st: Decoder, fs: seq<WebSocketFrame>, end: seq<WebSocketFrame>, chunks: seq<bytes>)
    requires st.leftover == [] && |end| <= 1 && !Receive(st.frag, fs).abandoned
    requires forall i | 0 <= i < |fs + end| :: Encodable((fs + end)[i])
    requires chunks != [] && forall i | 0 <= i < |chunks| :: chunks[i] != []
    requires Concat(chunks) == EncodeAll(fs + end)
    ensures ReadAll(st, chunks) == Receive(st.frag, fs + end).frames
  {
    DrainOfEncoded(st.frag, fs + end);
    ChunkingIndependence(st, chunks);
    assert st.leftover + Concat(chunks) == Concat(chunks);
    var init := chunks[..|chunks| - 1];
    ConcatOfInit(chunks);
    if init != [] {
      PrefixNotAbandoned(st.frag, fs, end, Concat(init));
      ChunkingIndependence(st, init);
      assert st.leftover + Concat(init) == Concat(init);
    }
    OnlyLastAbandons(st, chunks);
  }

  lemma {:induction false} ConcatOfInit(chunks: seq<bytes>)
    requires chunks != [] && forall i | 0 <= i < |chunks| :: chunks[i] != []
    ensures Concat(chunks) == Concat(chunks[..|chunks| - 1]) + chunks[|chunks| - 1]
    decreases |chunks|
  {
    if |chunks| > 1 {
      ConcatOfInit(chunks[1..]);
      assert chunks[1..][..|chunks| - 2] == chunks[..|chunks| - 1][1..];
    }
  }

  lemma {:induction false} OnlyLastAbandons(st: Decoder, chunks: seq<bytes>)
    requires chunks != [] && !ReadUntilAbandoned(st, chunks[..|chunks| - 1]).abandoned
    ensures ReadAll(st, chunks) == ReadUntilAbandoned(st, chunks).frames
    decreases |chunks|
  {
    if |chunks| > 1 {
      assert chunks[1..][..|chunks| - 2] == chunks[..|chunks| - 1][1..];
      OnlyLastAbandons(After(Read(st, chunks[0])), chunks[1..]);
    }
  }

  /** A proper prefix of a stream holds its first frame completely, or not at all. */
  lemma ParseOfProperPrefix(f: WebSocketFrame, rest: bytes, a: bytes)
    requires Encodable(f) && a < Encode(f) + rest
    ensures Parse(a).NeedMore?
         || (&& |Encode(f)| <= |a|
             && Parse(a) == Parsed(f.fin, f.opcode, f.mask, f.payload, |Encode(f)|)
             && a[|Encode(f)|..] < rest)
  {
    var s := Encode(f) + rest;
    ParseOfEncode(f, rest);
    assert a + s[|a|..] == s;
    if !Parse(a).NeedMore? {
      ParseOfPrefix(a, s[|a|..]);
      var n := |Encode(f)|;
      assert a[n..] == s[n..|a|] == rest[..|a| - n];
    }
  }

  lemma {:induction false} PrefixNotAbandoned(frag: Fragments, fs: seq<WebSocketFrame>, end: seq<WebSocketFrame>,
                                              a: bytes)
    requires |end| <= 1 && !Receive(frag, fs).abandoned
    requires forall i | 0 <= i < |fs + end| :: Encodable((fs + end)[i])
    requires a < EncodeAll(fs + end)
    ensures !Drain(frag, a).abandoned
    decreases |fs|
  {
    var f := (fs + end)[0];
    ParseOfProperPrefix(f, EncodeAll((fs + end)[1..]), a);
    if Parse(a).Parsed? {
      assert fs != [];
      assert (fs + end)[1..] == fs[1..] + end;
      var tail := a[|Encode(f)|..];
      match Handle(frag, f.fin, f.opcode, f.mask, f.payload)
      case Abandon =>
      case Absorb(next) => PrefixNotAbandoned(next, fs[1..], end, tail);
      case Deliver(_, after) => PrefixNotAbandoned(after, fs[1..], end, tail);
    }
  }

  lemma ReceiveClosing(frag: Fragments, closing: seq<Part>)
    requires |closing| <= 1
    ensures Receive(frag, Closing(closing)).frames == Closed(closing)
  {
  }

  function Closing(closing: seq<Part>): seq<WebSocketFrame> {
    seq(|closing|, i requires 0 <= i < |closing| => Frame(CLOSE, true, closing[i]))
  }

  function Closed(closing: seq<Part>): seq<WebSocketFrame> {
    seq(|closing|, i requires 0 <= i < |closing| => Seen(CLOSE, closing[i].mask, closing[i].payload))
  }
}
