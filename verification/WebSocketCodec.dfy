/**
 The codec itself: `channelRead` over a `ByteBuf` it discards from, and `encodeFrame`, each proved
 against the wire format of `WebSocketFrames`.
 */
module WebSocketCodecs {
  import opened Words
  import opened Bytes
  import opened ByteBuffers
  import opened WebSocketFrames
  import Utf8

  class WebSocketCodec {
    const leftover: ByteBuf
    var fragmentPayload: bytes
    var fragmentOpcode: opcode

    ghost predicate Valid()
      reads this, leftover
    {
      leftover.Valid()
    }

    ghost function Frag(): Fragments
      reads this
    {
      Fragments(fragmentOpcode, fragmentPayload)
    }

    ghost function State(): Decoder
      reads this, leftover, leftover.data
      requires Valid()
    {
      Decoder(leftover.Contents(), Frag())
    }

    constructor ()
      ensures Valid() && fresh(leftover) && fresh(leftover.data) && State() == InitialDecoder
    {
      leftover := new ByteBuf(0);
      fragmentPayload := [];
      fragmentOpcode := TEXT;
    }

    method SetAside(buf: ByteBuf, raw: bytes)
      requires Valid() && buf.Valid() && buf != leftover && buf.data != leftover.data
      requires leftover.Contents() == []
      modifies leftover, leftover.data, buf`readerIndex, buf`writerIndex
      ensures Valid() && buf.Valid() && (leftover.data == old(leftover.data) || fresh(leftover.data))
      ensures leftover.Contents() == raw && buf.Contents() == []
    {
      leftover.WriteBytes(raw);
      buf.Clear();
    }

    /** What a complete frame does: it may be handed on (`fired`), and may end the reading of this buffer (`stop`). */
    method HandleFrame(buf: ByteBuf, p: Parsed) returns (fired: seq<WebSocketFrame>, stop: bool)
      requires buf.Valid() && p.Parsed? && p.consumed <= |buf.Contents()|
      modifies this, buf`readerIndex
      ensures buf.Valid()
      ensures match Handle(old(Frag()), p.fin, p.opcode, p.masked, p.payload)
              case Abandon => fired == [] && stop && Frag() == old(Frag())
              case Absorb(next) => fired == [] && !stop && Frag() == next
              case Deliver(f, after) => fired == [f] && stop == (f.opcode == CLOSE) && Frag() == after
      ensures !stop ==> buf.Contents() == old(buf.Contents())[p.consumed..]
    {
      fired := [];
      stop := false;
      var opcode, payload := p.opcode, p.payload;
      if opcode >= CLOSE && !p.fin {
        return [], true;
      }
      if opcode == TEXT {
        Utf8.ValidIffSplits(payload);
        var ok := Utf8.IsValidUtf8(payload);
        if !ok {
          return [], true;
        }
      }
      if opcode == CONTINUATION {
        fragmentPayload := fragmentPayload + payload;
        if p.fin {
          opcode := fragmentOpcode;
          payload := fragmentPayload;
          fragmentPayload := [];
        } else {
          buf.Discard(p.consumed);
          return;
        }
      } else if !p.fin {
        fragmentOpcode := opcode;
        fragmentPayload := payload;
        buf.Discard(p.consumed);
        return;
      }
      fired := [WebSocketFrame(opcode, true, p.masked, NoKey, payload)];
      if opcode == CLOSE {
        return fired, true;
      }
      buf.Discard(p.consumed);
    }

    /** Puts the bytes left over from the previous buffer in front of the new ones. */
    method PrependLeftover(buf: ByteBuf)
      requires Valid() && buf.Valid() && buf != leftover && buf.data != leftover.data
      modifies leftover, leftover.data, buf, buf.data
      ensures Valid() && buf.Valid() && buf.data != leftover.data
      ensures leftover.data == old(leftover.data) || fresh(leftover.data)
      ensures buf.data == old(buf.data) || fresh(buf.data)
      ensures leftover.Contents() == []
      ensures buf.Contents() == old(leftover.Contents()) + old(buf.Contents())
    {
      if leftover.writerIndex > leftover.readerIndex {
        leftover.WriteBytes(buf.data[buf.readerIndex..buf.writerIndex]);
        buf.Clear();
        buf.WriteBytes(leftover.data[leftover.readerIndex..leftover.writerIndex]);
        var _ := buf.SetReaderIndex(0);
        leftover.Clear();
      }
    }

    /**
     One turn of the loop: the frame at the start of the buffer is handled, or the bytes are set aside;
     `done` ends the reading.
     */
    method ReadFrame(buf: ByteBuf) returns (frames: seq<WebSocketFrame>, done: bool)
      requires Valid() && buf.Valid() && buf != leftover && buf.data != leftover.data
      requires leftover.Contents() == [] && buf.Contents() != []
      modifies this, leftover, leftover.data, buf`readerIndex, buf`writerIndex
      ensures Valid() && buf.Valid() && (leftover.data == old(leftover.data) || fresh(leftover.data))
      ensures var o := Drain(old(Frag()), old(buf.Contents()));
              if done then o.frames == frames && State() == After(o)
              else o == Drain(Frag(), buf.Contents()).Before(frames)
      ensures !done ==> leftover.Contents() == [] && |buf.Contents()| < |old(buf.Contents())|
    {
      hide Drain, Parse, Handle;
      frames := [];
      var raw := buf.data[buf.readerIndex..buf.writerIndex];
      DrainEnds(Frag(), raw);
      var parsed := ParseFrame(raw);
      if parsed.NeedMore? {
        SetAside(buf, raw);
        return frames, true;
      }
      if parsed.Throws? {
        return frames, true;
      }
      frames, done := HandleFrame(buf, parsed);
      DrainStep(old(Frag()), raw, frames, done, Frag());
    }

    /** `fired` is what is handed to the next inbound handler; an empty buffer is handed on as it is. */
    method ChannelRead(buf: ByteBuf) returns (fired: seq<WebSocketFrame>, passedOn: bool)
      requires Valid() && buf.Valid() && buf != leftover && buf.data != leftover.data
      modifies this, leftover, leftover.data, buf, buf.data
      ensures Valid() && buf.Valid() && buf.data != leftover.data
      ensures passedOn == (old(buf.Contents()) == [])
      ensures fired == Read(old(State()), old(buf.Contents())).frames
      ensures State() == After(Read(old(State()), old(buf.Contents())))
    {
      fired := [];
      passedOn := buf.writerIndex == buf.readerIndex;
      if passedOn {
        return;
      }
      ghost var outcome := Read(State(), buf.Contents());
      PrependLeftover(buf);
      BeforeNothing(outcome);
      hide Drain;
      while buf.writerIndex > buf.readerIndex
        invariant Valid() && buf.Valid() && buf.data != leftover.data
        invariant leftover.data == old(leftover.data) || fresh(leftover.data)
        invariant buf.data == old(buf.data) || fresh(buf.data)
        invariant leftover.Contents() == []
        invariant outcome == Drain(Frag(), buf.Contents()).Before(fired)
        decreases |buf.Contents()|
      {
        var frames, done := ReadFrame(buf);
        BeforeTwice(Drain(Frag(), buf.Contents()), frames, fired);
        fired := fired + frames;
        if done {
          return;
        }
      }
      DrainEnds(Frag(), buf.Contents());
      buf.Clear();
    }
  }

  /** The frame at the start of `raw`, read field by field. */
  method ParseFrame(raw: bytes) returns (p: Parsed)
    ensures p == Parse(raw)
  {
    var len := |raw|;
    if len < 2 {
      return NeedMore;
    }
    var masked := raw[1] >= 0x80;
    var payloadLen: nat := raw[1] % 128;
    var headerLen := 2;
    if payloadLen == 126 {
      if len < 4 {
        return NeedMore;
      }
      payloadLen := raw[2] as nat * 256 + raw[3];
      headerLen := 4;
      NumberOfTwo(raw[2..4]);
    } else if payloadLen == 127 {
      if len < 10 {
        return NeedMore;
      }
      payloadLen := ReadLength64(raw);
      headerLen := 10;
    }
    if masked {
      if len < headerLen + 4 {
        return NeedMore;
      }
      headerLen := headerLen + 4;
    }
    assert HeaderOf(raw) == Header(masked, headerLen, payloadLen);
    if headerLen + payloadLen >= TWO_64 {
      return Throws;  // the 64-bit sum wraps below `len`, and the string constructor throws
    }
    if len < headerLen + payloadLen {
      return NeedMore;
    }
    var payload := raw[headerLen..headerLen + payloadLen];
    if masked {
      payload := Unmask(payload, raw[headerLen - 4..headerLen]);
    }
    p := Parsed(raw[0] >= 0x80, raw[0] % 16, masked, payload, headerLen + payloadLen);
  }

  method ReadLength64(raw: bytes) returns (n: nat)
    requires |raw| >= 10
    ensures n == Number(raw[2..10])
  {
    n := 0;
    for i := 0 to 8
      invariant n == Number(raw[2..2 + i])
    {
      assert raw[2..2 + i + 1][..i] == raw[2..2 + i];
      n := n * 256 + raw[2 + i];
    }
  }

  method Unmask(payload: bytes, k: key) returns (r: bytes)
    ensures r == Masked(payload, k)
  {
    r := payload;
    for i := 0 to |payload|
      invariant |r| == |payload|
      invariant r[..i] == Masked(payload, k)[..i] && r[i..] == payload[i..]
    {
      r := r[i := Xor(r[i], k[i % 4])];
    }
  }

  method EncodeFrame(frame: WebSocketFrame) returns (buf: ByteBuf)
    requires |frame.payload| < TWO_64
    ensures fresh(buf) && fresh(buf.data) && buf.Valid()
    ensures buf.Contents() == Encode(frame)
  {
    var payloadSize := |frame.payload|;
    var headerSize := 2;
    if 126 <= payloadSize <= 0xFFFF {
      headerSize := headerSize + 2;
    } else if payloadSize > 0xFFFF {
      headerSize := headerSize + 10;
    }
    if frame.mask {
      headerSize := headerSize + 4;
    }
    buf := new ByteBuf(headerSize + payloadSize);
    buf.WriteByte((if frame.fin then 0x80 else 0) + frame.opcode);
    WriteLength(buf, payloadSize, frame.mask);
    WriteBody(buf, frame);
  }

  /** The 7-bit length with the mask bit, and the extended length it announces. */
  method WriteLength(buf: ByteBuf, payloadSize: nat, mask: bool)
    requires buf.Valid() && payloadSize < TWO_64
    modifies buf, buf.data
    ensures buf.Valid() && (buf.data == old(buf.data) || fresh(buf.data))
    ensures buf.Contents() == old(buf.Contents()) + LengthBytes(payloadSize, mask)
  {
    var bit := if mask then 0x80 else 0;
    if payloadSize < 126 {
      buf.WriteByte(payloadSize + bit);
    } else if payloadSize <= 0xFFFF {
      buf.WriteByte(126 + bit);
      WriteLength16(buf, payloadSize);
    } else {
      buf.WriteByte(127 + bit);
      WriteLength64(buf, payloadSize);
    }
  }

  method WriteBody(buf: ByteBuf, frame: WebSocketFrame)
    requires buf.Valid()
    modifies buf, buf.data
    ensures buf.Valid() && (buf.data == old(buf.data) || fresh(buf.data))
    ensures buf.Contents() == old(buf.Contents()) + Body(frame)
  {
    if frame.mask {
      buf.WriteBytes(frame.maskingKey);
    }
    if frame.payload != [] {
      if frame.mask {
        WriteMasked(buf, frame.payload, frame.maskingKey);
      } else {
        buf.WriteBytes(frame.payload);
      }
    }
  }

  method WriteLength16(buf: ByteBuf, n: nat)
    requires buf.Valid()
    modifies buf, buf.data
    ensures buf.Valid() && (buf.data == old(buf.data) || fresh(buf.data))
    ensures buf.Contents() == old(buf.Contents()) + BigEndian(n, 2)
  {
    buf.WriteByte(n / 256 % 256);
    buf.WriteByte(n % 256);
    BigEndianOfTwo(n);
  }

  lemma BigEndianOfTwo(n: nat)
    ensures BigEndian(n, 2) == [n / 256 % 256, n % 256]
  {
  }

  method WriteLength64(buf: ByteBuf, n: nat)
    requires buf.Valid()
    modifies buf, buf.data
    ensures buf.Valid() && (buf.data == old(buf.data) || fresh(buf.data))
    ensures buf.Contents() == old(buf.Contents()) + BigEndian(n, 8)
  {
    var i := 8;
    while i > 0
      invariant 0 <= i <= 8
      invariant buf.Valid() && (buf.data == old(buf.data) || fresh(buf.data))
      invariant buf.Contents() == old(buf.Contents()) + BigEndian(Shifted(n, i), 8 - i)
    {
      i := i - 1;
      buf.WriteByte(Shifted(n, i) % 256);
    }
  }

  method WriteMasked(buf: ByteBuf, payload: bytes, k: key)
    requires buf.Valid()
    modifies buf, buf.data
    ensures buf.Valid() && (buf.data == old(buf.data) || fresh(buf.data))
    ensures buf.Contents() == old(buf.Contents()) + Masked(payload, k)
  {
    for i := 0 to |payload|
      invariant buf.Valid() && (buf.data == old(buf.data) || fresh(buf.data))
      invariant buf.Contents() == old(buf.Contents()) + Masked(payload, k)[..i]
    {
      buf.WriteByte(Xor(payload[i], k[i % 4]));
    }
  }
}
