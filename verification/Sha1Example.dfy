/** The first example of section 7.3 of RFC 3174: the digest of "abc", computed word by word and round by round. */
module Sha1Example {
  import opened Bytes
  import opened Sha1

  const ABC: bytes := [0x61, 0x62, 0x63]

  /** The padded message is one block. */
  const BLOCK: block :=
    seq(64, i => if i == 0 then 0x61 else if i == 1 then 0x62 else if i == 2 then 0x63 else if i == 3 then 0x80
                 else if i == 63 then 24 else 0)

  lemma LengthOfAbc()
    ensures LengthField(3) == [0, 0, 0, 0, 0, 0, 0, 24]
  {
  }

  lemma PadOfAbc()
    ensures Pad(ABC) == BLOCK
  {
    LengthOfAbc();
    hide LengthField;
    assert PadLength(3) == 52;
    assert Pad(ABC) == ABC + [0x80] + Zeros(52) + [0, 0, 0, 0, 0, 0, 0, 24];
  }

  lemma OctetsOfAbc()
    ensures Octets(0x61, 0x62, 0x63, 0x80) == 0x61626380 && Octets(0, 0, 0, 0) == 0 && Octets(0, 0, 0, 24) == 0x18
  {
  }

  lemma WordOfBlock(t: nat)
    requires t < 16
    ensures W(BLOCK, t) == if t == 0 then 0x61626380 else if t == 15 then 0x18 else 0
  {
    OctetsOfAbc();
    ScheduleStep(BLOCK, t);
    hide W, Octets;
    assert Word(BLOCK, t) == Octets(BLOCK[4 * t], BLOCK[4 * t + 1], BLOCK[4 * t + 2], BLOCK[4 * t + 3]);
  }

  lemma Words0()
    ensures W(BLOCK, 0) == 0x61626380 && W(BLOCK, 1) == 0x00000000
    ensures W(BLOCK, 2) == 0x00000000 && W(BLOCK, 3) == 0x00000000
    ensures W(BLOCK, 4) == 0x00000000 && W(BLOCK, 5) == 0x00000000
    ensures W(BLOCK, 6) == 0x00000000 && W(BLOCK, 7) == 0x00000000
    ensures W(BLOCK, 8) == 0x00000000 && W(BLOCK, 9) == 0x00000000
    ensures W(BLOCK, 10) == 0x00000000 && W(BLOCK, 11) == 0x00000000
    ensures W(BLOCK, 12) == 0x00000000 && W(BLOCK, 13) == 0x00000000
    ensures W(BLOCK, 14) == 0x00000000 && W(BLOCK, 15) == 0x00000018
  {
    hide W;
    WordOfBlock(0);
    WordOfBlock(1);
    WordOfBlock(2);
    WordOfBlock(3);
    WordOfBlock(4);
    WordOfBlock(5);
    WordOfBlock(6);
    WordOfBlock(7);
    WordOfBlock(8);
    WordOfBlock(9);
    WordOfBlock(10);
    WordOfBlock(11);
    WordOfBlock(12);
    WordOfBlock(13);
    WordOfBlock(14);
    WordOfBlock(15);
  }

  lemma Words16()
    ensures W(BLOCK, 16) == 0xC2C4C700 && W(BLOCK, 17) == 0x00000000
    ensures W(BLOCK, 18) == 0x00000030 && W(BLOCK, 19) == 0x85898E01
    ensures W(BLOCK, 20) == 0x00000000 && W(BLOCK, 21) == 0x00000060
    ensures W(BLOCK, 22) == 0x0B131C03 && W(BLOCK, 23) == 0x00000030
    ensures W(BLOCK, 24) == 0x85898EC1 && W(BLOCK, 25) == 0x16263806
    ensures W(BLOCK, 26) == 0x00000000 && W(BLOCK, 27) == 0x00000180
    ensures W(BLOCK, 28) == 0x2C4C700C && W(BLOCK, 29) == 0x000000F0
    ensures W(BLOCK, 30) == 0x93AFB507 && W(BLOCK, 31) == 0x5898E048
  {
    hide W;
    Words0();
    ScheduleStep(BLOCK, 16);
    ScheduleStep(BLOCK, 17);
    ScheduleStep(BLOCK, 18);
    ScheduleStep(BLOCK, 19);
    ScheduleStep(BLOCK, 20);
    ScheduleStep(BLOCK, 21);
    ScheduleStep(BLOCK, 22);
    ScheduleStep(BLOCK, 23);
    ScheduleStep(BLOCK, 24);
    ScheduleStep(BLOCK, 25);
    ScheduleStep(BLOCK, 26);
    ScheduleStep(BLOCK, 27);
    ScheduleStep(BLOCK, 28);
    ScheduleStep(BLOCK, 29);
    ScheduleStep(BLOCK, 30);
    ScheduleStep(BLOCK, 31);
  }

  lemma Words32()
    ensures W(BLOCK, 32) == 0x8E9A9202 && W(BLOCK, 33) == 0x00000600
    ensures W(BLOCK, 34) == 0xB131C0F0 && W(BLOCK, 35) == 0x16263BC6
    ensures W(BLOCK, 36) == 0x4EBED41E && W(BLOCK, 37) == 0x626380A1
    ensures W(BLOCK, 38) == 0x16263806 && W(BLOCK, 39) == 0x000018C0
    ensures W(BLOCK, 40) == 0xD2E138C4 && W(BLOCK, 41) == 0x00000F00
    ensures W(BLOCK, 42) == 0x3AFB5079 && W(BLOCK, 43) == 0x898E04E5
    ensures W(BLOCK, 44) == 0xE2BA3C2B && W(BLOCK, 45) == 0x000060C0
    ensures W(BLOCK, 46) == 0x053A37CD && W(BLOCK, 47) == 0x74458547
  {
    hide W;
    Words16();
    ScheduleStep(BLOCK, 32);
    ScheduleStep(BLOCK, 33);
    ScheduleStep(BLOCK, 34);
    ScheduleStep(BLOCK, 35);
    ScheduleStep(BLOCK, 36);
    ScheduleStep(BLOCK, 37);
    ScheduleStep(BLOCK, 38);
    ScheduleStep(BLOCK, 39);
    ScheduleStep(BLOCK, 40);
    ScheduleStep(BLOCK, 41);
    ScheduleStep(BLOCK, 42);
    ScheduleStep(BLOCK, 43);
    ScheduleStep(BLOCK, 44);
    ScheduleStep(BLOCK, 45);
    ScheduleStep(BLOCK, 46);
    ScheduleStep(BLOCK, 47);
  }

  lemma Words48()
    ensures W(BLOCK, 48) == 0xDA9415ED && W(BLOCK, 49) == 0x26380A16
    ensures W(BLOCK, 50) == 0x626383A1 && W(BLOCK, 51) == 0x4EBF54DE
    ensures W(BLOCK, 52) == 0x3835B44B && W(BLOCK, 53) == 0x0000F600
    ensures W(BLOCK, 54) == 0x1E84C7A3 && W(BLOCK, 55) == 0x98E04D98
    ensures W(BLOCK, 56) == 0x651D16A0 && W(BLOCK, 57) == 0x62658CA1
    ensures W(BLOCK, 58) == 0x458544D6 && W(BLOCK, 59) == 0x44584CB7
    ensures W(BLOCK, 60) == 0x7BA06619 && W(BLOCK, 61) == 0x6380AEA2
    ensures W(BLOCK, 62) == 0x0AE55269 && W(BLOCK, 63) == 0x627B49A1
  {
    hide W;
    Words32();
    ScheduleStep(BLOCK, 48);
    ScheduleStep(BLOCK, 49);
    ScheduleStep(BLOCK, 50);
    ScheduleStep(BLOCK, 51);
    ScheduleStep(BLOCK, 52);
    ScheduleStep(BLOCK, 53);
    ScheduleStep(BLOCK, 54);
    ScheduleStep(BLOCK, 55);
    ScheduleStep(BLOCK, 56);
    ScheduleStep(BLOCK, 57);
    ScheduleStep(BLOCK, 58);
    ScheduleStep(BLOCK, 59);
    ScheduleStep(BLOCK, 60);
    ScheduleStep(BLOCK, 61);
    ScheduleStep(BLOCK, 62);
    ScheduleStep(BLOCK, 63);
  }

  lemma Words64()
    ensures W(BLOCK, 64) == 0x7CD45C9D && W(BLOCK, 65) == 0x000F0000
    ensures W(BLOCK, 66) == 0xFB50753A && W(BLOCK, 67) == 0xEC6765E8
    ensures W(BLOCK, 68) == 0xBA3C2BE2 && W(BLOCK, 69) == 0x0060C000
    ensures W(BLOCK, 70) == 0x3A37CD05 && W(BLOCK, 71) == 0x458546F4
    ensures W(BLOCK, 72) == 0xB8599DD6 && W(BLOCK, 73) == 0x380A1A26
    ensures W(BLOCK, 74) == 0x01E02203 && W(BLOCK, 75) == 0xE7CC3456
    ensures W(BLOCK, 76) == 0xE6E60B69 && W(BLOCK, 77) == 0x00F60A00
    ensures W(BLOCK, 78) == 0x5795EF4F && W(BLOCK, 79) == 0x822E0879
  {
    hide W;
    Words48();
    ScheduleStep(BLOCK, 64);
    ScheduleStep(BLOCK, 65);
    ScheduleStep(BLOCK, 66);
    ScheduleStep(BLOCK, 67);
    ScheduleStep(BLOCK, 68);
    ScheduleStep(BLOCK, 69);
    ScheduleStep(BLOCK, 70);
    ScheduleStep(BLOCK, 71);
    ScheduleStep(BLOCK, 72);
    ScheduleStep(BLOCK, 73);
    ScheduleStep(BLOCK, 74);
    ScheduleStep(BLOCK, 75);
    ScheduleStep(BLOCK, 76);
    ScheduleStep(BLOCK, 77);
    ScheduleStep(BLOCK, 78);
    ScheduleStep(BLOCK, 79);
  }

  lemma Rounds8()
    ensures Rounds(H0, BLOCK, 8) == Five(0x9E8C07D4, 0x993E30C1, 0x0FF1F290, 0xB3F52677, 0xF3763846)
  {
    hide W, Rounds;
    Words0();
    RoundsStep(H0, BLOCK, 0);
    RoundsStep(H0, BLOCK, 1);
    RoundsStep(H0, BLOCK, 2);
    RoundsStep(H0, BLOCK, 3);
    RoundsStep(H0, BLOCK, 4);
    RoundsStep(H0, BLOCK, 5);
    RoundsStep(H0, BLOCK, 6);
    RoundsStep(H0, BLOCK, 7);
  }

  lemma Rounds16()
    ensures Rounds(H0, BLOCK, 16) == Five(0x20BDD62F, 0x196BEE77, 0x644A3DA5, 0x1181ED99, 0x18C623F9)
  {
    hide W, Rounds;
    Words0();
    Rounds8();
    RoundsStep(H0, BLOCK, 8);
    RoundsStep(H0, BLOCK, 9);
    RoundsStep(H0, BLOCK, 10);
    RoundsStep(H0, BLOCK, 11);
    RoundsStep(H0, BLOCK, 12);
    RoundsStep(H0, BLOCK, 13);
    RoundsStep(H0, BLOCK, 14);
    RoundsStep(H0, BLOCK, 15);
  }

  lemma Rounds24()
    ensures Rounds(H0, BLOCK, 24) == Five(0xD541F12D, 0x21283486, 0x0CE88EFF, 0x868DEC32, 0x7F67875F)
  {
    hide W, Rounds;
    Words16();
    Rounds16();
    RoundsStep(H0, BLOCK, 16);
    RoundsStep(H0, BLOCK, 17);
    RoundsStep(H0, BLOCK, 18);
    RoundsStep(H0, BLOCK, 19);
    RoundsStep(H0, BLOCK, 20);
    RoundsStep(H0, BLOCK, 21);
    RoundsStep(H0, BLOCK, 22);
    RoundsStep(H0, BLOCK, 23);
  }

  lemma Rounds32()
    ensures Rounds(H0, BLOCK, 32) == Five(0x3B845D33, 0x1267B407, 0x717EEBD7, 0xA0DC2D4B, 0xD2AA1365)
  {
    hide W, Rounds;
    Words16();
    Rounds24();
    RoundsStep(H0, BLOCK, 24);
    RoundsStep(H0, BLOCK, 25);
    RoundsStep(H0, BLOCK, 26);
    RoundsStep(H0, BLOCK, 27);
    RoundsStep(H0, BLOCK, 28);
    RoundsStep(H0, BLOCK, 29);
    RoundsStep(H0, BLOCK, 30);
    RoundsStep(H0, BLOCK, 31);
  }

  lemma Rounds40()
    ensures Rounds(H0, BLOCK, 40) == Five(0x32DE1CBA, 0x4C986405, 0xF718E5CF, 0x03D447F6, 0xF72EEC32)
  {
    hide W, Rounds;
    Words32();
    Rounds32();
    RoundsStep(H0, BLOCK, 32);
    RoundsStep(H0, BLOCK, 33);
    RoundsStep(H0, BLOCK, 34);
    RoundsStep(H0, BLOCK, 35);
    RoundsStep(H0, BLOCK, 36);
    RoundsStep(H0, BLOCK, 37);
    RoundsStep(H0, BLOCK, 38);
    RoundsStep(H0, BLOCK, 39);
  }

  lemma Rounds48()
    ensures Rounds(H0, BLOCK, 48) == Five(0xBEAD02CA, 0xA01B846C, 0x8714787C, 0x503CA382, 0xFB86C6AB)
  {
    hide W, Rounds;
    Words32();
    Rounds40();
    RoundsStep(H0, BLOCK, 40);
    RoundsStep(H0, BLOCK, 41);
    RoundsStep(H0, BLOCK, 42);
    RoundsStep(H0, BLOCK, 43);
    RoundsStep(H0, BLOCK, 44);
    RoundsStep(H0, BLOCK, 45);
    RoundsStep(H0, BLOCK, 46);
    RoundsStep(H0, BLOCK, 47);
  }

  lemma Rounds56()
    ensures Rounds(H0, BLOCK, 56) == Five(0x5E6456AF, 0x7B71F76D, 0x09FA7C76, 0x792410DB, 0x8E11EB59)
  {
    hide W, Rounds;
    Words48();
    Rounds48();
    RoundsStep(H0, BLOCK, 48);
    RoundsStep(H0, BLOCK, 49);
    RoundsStep(H0, BLOCK, 50);
    RoundsStep(H0, BLOCK, 51);
    RoundsStep(H0, BLOCK, 52);
    RoundsStep(H0, BLOCK, 53);
    RoundsStep(H0, BLOCK, 54);
    RoundsStep(H0, BLOCK, 55);
  }

  lemma Rounds64()
    ensures Rounds(H0, BLOCK, 64) == Five(0x6B61C9E1, 0xB66C020B, 0x9523272C, 0xF5D5B051, 0x8FD4B796)
  {
    hide W, Rounds;
    Words48();
    Rounds56();
    RoundsStep(H0, BLOCK, 56);
    RoundsStep(H0, BLOCK, 57);
    RoundsStep(H0, BLOCK, 58);
    RoundsStep(H0, BLOCK, 59);
    RoundsStep(H0, BLOCK, 60);
    RoundsStep(H0, BLOCK, 61);
    RoundsStep(H0, BLOCK, 62);
    RoundsStep(H0, BLOCK, 63);
  }

  lemma Rounds72()
    ensures Rounds(H0, BLOCK, 72) == Five(0x39859DE7, 0xC199F8C7, 0x8FC96230, 0x125C24F0, 0xDE37534A)
  {
    hide W, Rounds;
    Words64();
    Rounds64();
    RoundsStep(H0, BLOCK, 64);
    RoundsStep(H0, BLOCK, 65);
    RoundsStep(H0, BLOCK, 66);
    RoundsStep(H0, BLOCK, 67);
    RoundsStep(H0, BLOCK, 68);
    RoundsStep(H0, BLOCK, 69);
    RoundsStep(H0, BLOCK, 70);
    RoundsStep(H0, BLOCK, 71);
  }

  lemma Rounds80()
    ensures Rounds(H0, BLOCK, 80) == Five(0x42541B35, 0x5738D5E1, 0x21834873, 0x681E6DF6, 0xD8FDF6AD)
  {
    hide W, Rounds;
    Words64();
    Rounds72();
    RoundsStep(H0, BLOCK, 72);
    RoundsStep(H0, BLOCK, 73);
    RoundsStep(H0, BLOCK, 74);
    RoundsStep(H0, BLOCK, 75);
    RoundsStep(H0, BLOCK, 76);
    RoundsStep(H0, BLOCK, 77);
    RoundsStep(H0, BLOCK, 78);
    RoundsStep(H0, BLOCK, 79);
  }

  lemma DigestOfAbc()
    ensures Digest(ABC) == [
              0xA9, 0x99, 0x3E, 0x36, 0x47, 0x06, 0x81, 0x6A, 0xBA, 0x3E,
              0x25, 0x71, 0x78, 0x50, 0xC2, 0x6C, 0x9C, 0xD0, 0xD8, 0x9D]
  {
    PadOfAbc();
    FoldOfBlock(H0, BLOCK);
    Rounds80();
    hide Rounds, Fold, Pad;
    assert Compress(H0, BLOCK) == Five(0xA9993E36, 0x4706816A, 0xBA3E2571, 0x7850C26C, 0x9CD0D89D);
  }
}
