/** The example frames of section 5.7 of RFC 6455. */
module WebSocketExamples {
  import opened Words
  import opened Bytes
  import opened WebSocketFrames
  import Utf8

  const HELLO: bytes := [0x48, 0x65, 0x6C, 0x6C, 0x6F]
  const KEY: key := [0x37, 0xFA, 0x21, 0x3D]
  const MASKED_HELLO: bytes := [0x7F, 0x9F, 0x4D, 0x51, 0x58]

  lemma {:induction false} AsciiIsValid(s: bytes)
    requires forall i | 0 <= i < |s| :: s[i] < 0x80
    ensures Utf8.Valid(s)
    decreases |s|
  {
    if s != [] {
      AsciiIsValid(s[1..]);
    }
  }

  function Differ(a: nat, b: nat): nat {
    if a % 2 == b % 2 then 0 else 1
  }

  function Nibble(a: nat, b: nat): nat {
    Differ(a, b) + 2 * Differ(a / 2, b / 2) + 4 * Differ(a / 2 / 2, b / 2 / 2)
    + 8 * Differ(a / 2 / 2 / 2, b / 2 / 2 / 2)
  }

  lemma XorStep(a: nat, b: nat, n: nat)
    ensures XorBits(a, b, n + 1) == Differ(a, b) + 2 * XorBits(a / 2, b / 2, n)
  {
  }

  lemma Sixteenth(a: nat)
    ensures a / 2 / 2 / 2 / 2 == a / 16
  {
  }

  lemma XorOfFour(a: nat, b: nat, n: nat)
    ensures XorBits(a, b, n + 4) == Nibble(a, b) + 16 * XorBits(a / 16, b / 16, n)
  {
    hide XorBits, Differ;
    XorStep(a, b, n + 3);
    XorStep(a / 2, b / 2, n + 2);
    XorStep(a / 2 / 2, b / 2 / 2, n + 1);
    XorStep(a / 2 / 2 / 2, b / 2 / 2 / 2, n);
    Sixteenth(a);
    Sixteenth(b);
  }

  lemma XorOfByte(a: byte, b: byte)
    ensures Xor(a, b) == Nibble(a, b) + 16 * Nibble(a / 16, b / 16)
  {
    hide Nibble;
    XorOfFour(a, b, 4);
    XorOfFour(a / 16, b / 16, 0);
    assert XorBits(a / 16 / 16, b / 16 / 16, 0) == 0;
    hide XorBits;
  }

  /** The exclusive or from the values of its two halves. */
  lemma XorFromNibbles(a: byte, b: byte, low: nat, high: nat)
    requires Nibble(a, b) == low && Nibble(a / 16, b / 16) == high
    ensures Xor(a, b) == low + 16 * high
  {
    XorOfByte(a, b);
  }

  lemma Xor0()
    ensures Xor(0x48, 0x37) == 0x7F
  {
    hide Xor;
    assert Nibble(0x48, 0x37) == 15 && Nibble(4, 3) == 7;
    hide Nibble;
    XorFromNibbles(0x48, 0x37, 15, 7);
  }

  lemma Xor1()
    ensures Xor(0x65, 0xFA) == 0x9F
  {
    hide Xor;
    assert Nibble(0x65, 0xFA) == 15 && Nibble(6, 15) == 9;
    hide Nibble;
    XorFromNibbles(0x65, 0xFA, 15, 9);
  }

  lemma Xor2()
    ensures Xor(0x6C, 0x21) == 0x4D
  {
    hide Xor;
    assert Nibble(0x6C, 0x21) == 13 && Nibble(6, 2) == 4;
    hide Nibble;
    XorFromNibbles(0x6C, 0x21, 13, 4);
  }

  lemma Xor3()
    ensures Xor(0x6C, 0x3D) == 0x51
  {
    hide Xor;
    assert Nibble(0x6C, 0x3D) == 1 && Nibble(6, 3) == 5;
    hide Nibble;
    XorFromNibbles(0x6C, 0x3D, 1, 5);
  }

  lemma Xor4()
    ensures Xor(0x6F, 0x37) == 0x58
  {
    hide Xor;
    assert Nibble(0x6F, 0x37) == 8 && Nibble(6, 3) == 5;
    hide Nibble;
    XorFromNibbles(0x6F, 0x37, 8, 5);
  }

  lemma MaskedHello()
    ensures Masked(HELLO, KEY) == MASKED_HELLO
  {
    Xor0();
    Xor1();
    Xor2();
    Xor3();
    Xor4();
    hide Xor;
  }

  lemma FramesOfHello()
    ensures Encode(WebSocketFrame(TEXT, true, false, NoKey, HELLO)) == [0x81, 0x05] + HELLO
    ensures Encode(WebSocketFrame(TEXT, true, true, KEY, HELLO)) == [0x81, 0x85] + KEY + MASKED_HELLO
    ensures Encode(WebSocketFrame(PING, true, false, NoKey, HELLO)) == [0x89, 0x05] + HELLO
    ensures Encode(WebSocketFrame(PONG, true, true, KEY, HELLO)) == [0x8A, 0x85] + KEY + MASKED_HELLO
  {
    MaskedHello();
    hide Masked;
  }

  lemma Fragments()
    ensures Encode(WebSocketFrame(TEXT, false, false, NoKey, HELLO[..3])) == [0x01, 0x03, 0x48, 0x65, 0x6C]
    ensures Encode(WebSocketFrame(CONTINUATION, true, false, NoKey, HELLO[3..])) == [0x80, 0x02, 0x6C, 0x6F]
  {
  }

  /** The two longer forms of the length. */
  lemma LongFrames(data: bytes)
    ensures |data| == 256 ==>
              Encode(WebSocketFrame(BINARY, true, false, NoKey, data)) == [0x82, 0x7E, 0x01, 0x00] + data
    ensures |data| == 65536 ==>
              Encode(WebSocketFrame(BINARY, true, false, NoKey, data))
              == [0x82, 0x7F, 0, 0, 0, 0, 0, 1, 0, 0] + data
  {
    LongLengths();
    hide BigEndian;
  }

  lemma LongLengths()
    ensures BigEndian(256, 2) == [1, 0] && BigEndian(65536, 8) == [0, 0, 0, 0, 0, 1, 0, 0]
  {
  }

  /** One frame in a buffer of its own, none of it left over. */
  lemma ReadOne(f: WebSocketFrame)
    requires Encodable(f)
    ensures Read(InitialDecoder, Encode(f)).frames == Receive(InitialDecoder.frag, [f]).frames
  {
    assert EncodeAll([f]) == Encode(f) + [] == Encode(f);
    DrainOfEncoded(InitialDecoder.frag, [f]);
    hide Drain, Receive;
    assert [] + Encode(f) == Encode(f);
  }

  lemma ReadTwo(f: WebSocketFrame, g: WebSocketFrame)
    requires Encodable(f) && Encodable(g)
    ensures Read(InitialDecoder, Encode(f) + Encode(g)).frames == Receive(InitialDecoder.frag, [f, g]).frames
  {
    assert [f, g][1..] == [g] && EncodeAll([g]) == Encode(g) + [] == Encode(g);
    assert EncodeAll([f, g]) == Encode(f) + Encode(g);
    DrainOfEncoded(InitialDecoder.frag, [f, g]);
    hide Drain, Receive;
    assert [] + (Encode(f) + Encode(g)) == Encode(f) + Encode(g);
  }

  /** The masked text arrives as it was meant. */
  lemma MaskedHelloIsRead()
    ensures Read(InitialDecoder, [0x81, 0x85] + KEY + MASKED_HELLO).frames
         == [WebSocketFrame(TEXT, true, true, NoKey, HELLO)]
  {
    var f := WebSocketFrame(TEXT, true, true, KEY, HELLO);
    FramesOfHello();
    AsciiIsValid(HELLO);
    HelloIsReceived(f);
    hide Encode, Utf8.Valid, Read, Receive;
    ReadOne(f);
  }

  lemma HelloIsReceived(f: WebSocketFrame)
    requires f.opcode == TEXT && f.fin && Utf8.Valid(f.payload)
    ensures Receive(InitialDecoder.frag, [f]).frames == [WebSocketFrame(TEXT, true, f.mask, NoKey, f.payload)]
  {
  }

  /** So does the text in two fragments. */
  lemma FragmentsAreRead()
    ensures Read(InitialDecoder, [0x01, 0x03, 0x48, 0x65, 0x6C] + [0x80, 0x02, 0x6C, 0x6F]).frames
         == [WebSocketFrame(TEXT, true, false, NoKey, HELLO)]
  {
    var f := WebSocketFrame(TEXT, false, false, NoKey, HELLO[..3]);
    var g := WebSocketFrame(CONTINUATION, true, false, NoKey, HELLO[3..]);
    Fragments();
    AsciiIsValid(HELLO[..3]);
    FragmentsAreReceived(f, g);
    assert HELLO[..3] + HELLO[3..] == HELLO;
    hide Encode, Utf8.Valid, Read, Receive;
    ReadTwo(f, g);
  }

  lemma FragmentsAreReceived(f: WebSocketFrame, g: WebSocketFrame)
    requires f.opcode == TEXT && !f.fin && Utf8.Valid(f.payload) && g.opcode == CONTINUATION && g.fin
    ensures Receive(InitialDecoder.frag, [f, g]).frames
         == [WebSocketFrame(TEXT, true, g.mask, NoKey, f.payload + g.payload)]
  {
    assert [f, g][1..] == [g] && [g][1..] == [];
    assert Receive(WebSocketFrames.Fragments(TEXT, f.payload), [g]).frames
        == [WebSocketFrame(TEXT, true, g.mask, NoKey, f.payload + g.payload)];
  }
}
