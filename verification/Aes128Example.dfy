/** The worked example of appendix B of FIPS 197, with a key of 16 bytes: every round, the last one
    included, and the block in bytes. By it the definitions of the transformations and of the key
    expansion can be told from others that would invert as well. */
module Aes128Example {
  import opened RijndaelTables
  import opened Gf256
  import opened RijndaelCipher
  import opened RijndaelBlocks
  import opened RijndaelSteps

  const KEY0: State := [0x2b7e1516, 0x28aed2a6, 0xabf71588, 0x09cf4f3c]
  const KEY1: State := [0xa0fafe17, 0x88542cb1, 0x23a33939, 0x2a6c7605]
  const KEY2: State := [0xf2c295f2, 0x7a96b943, 0x5935807a, 0x7359f67f]
  const KEY3: State := [0x3d80477d, 0x4716fe3e, 0x1e237e44, 0x6d7a883b]
  const KEY4: State := [0xef44a541, 0xa8525b7f, 0xb671253b, 0xdb0bad00]
  const KEY5: State := [0xd4d1c6f8, 0x7c839d87, 0xcaf2b8bc, 0x11f915bc]
  const KEY6: State := [0x6d88a37a, 0x110b3efd, 0xdbf98641, 0xca0093fd]
  const KEY7: State := [0x4e54f70e, 0x5f5fc9f3, 0x84a64fb2, 0x4ea6dc4f]
  const KEY8: State := [0xead27321, 0xb58dbad2, 0x312bf560, 0x7f8d292f]
  const KEY9: State := [0xac7766f3, 0x19fadc21, 0x28d12941, 0x575c006e]
  const KEY10: State := [0xd014f9a8, 0xc9ee2589, 0xe13f0cc8, 0xb6630ca6]

  const INPUT: State := [0x3243f6a8, 0x885a308d, 0x313198a2, 0xe0370734]
  const STATE0: State := [0x193de3be, 0xa0f4e22b, 0x9ac68d2a, 0xe9f84808]
  const STATE1: State := [0xa49c7ff2, 0x689f352b, 0x6b5bea43, 0x026a5049]
  const STATE2: State := [0xaa8f5f03, 0x61dde3ef, 0x82d24ad2, 0x6832469a]
  const STATE3: State := [0x486c4eee, 0x671d9d0d, 0x4de3b138, 0xd65f58e7]
  const STATE4: State := [0xe0927fe8, 0xc86363c0, 0xd9b13550, 0x85b8be01]
  const STATE5: State := [0xf1006f55, 0xc1924cef, 0x7cc88b32, 0x5db5d50c]
  const STATE6: State := [0x260e2e17, 0x3d41b77d, 0xe86472a9, 0xfdd28b25]
  const STATE7: State := [0x5a4142b1, 0x1949dc1f, 0xa3e01965, 0x7a8c040c]
  const STATE8: State := [0xea835cf0, 0x0445332d, 0x655d98ad, 0x8596b0c5]
  const STATE9: State := [0xeb40f21e, 0x592e3884, 0x8ba113e7, 0x1bc342d2]
  const OUTPUT: State := [0x3925841d, 0x02dc09fb, 0xdc118597, 0x196a0b32]

  const PLAIN: Bytes := [0x32, 0x43, 0xf6, 0xa8, 0x88, 0x5a, 0x30, 0x8d, 0x31, 0x31, 0x98, 0xa2, 0xe0, 0x37, 0x07, 0x34]
  const SEALED: Bytes := [0x39, 0x25, 0x84, 0x1d, 0x02, 0xdc, 0x09, 0xfb, 0xdc, 0x11, 0x85, 0x97, 0x19, 0x6a, 0x0b, 0x32]

  lemma Window1()
    ensures WindowFollows(KEY0, KEY1, 0)
  {}

  lemma Window2()
    ensures WindowFollows(KEY1, KEY2, 1)
  {}

  lemma Window3()
    ensures WindowFollows(KEY2, KEY3, 2)
  {}

  lemma Window4()
    ensures WindowFollows(KEY3, KEY4, 3)
  {}

  lemma Window5()
    ensures WindowFollows(KEY4, KEY5, 4)
  {}

  lemma Window6()
    ensures WindowFollows(KEY5, KEY6, 5)
  {}

  lemma Window7()
    ensures WindowFollows(KEY6, KEY7, 6)
  {}

  lemma Window8()
    ensures WindowFollows(KEY7, KEY8, 7)
  {}

  lemma Window9()
    ensures WindowFollows(KEY8, KEY9, 8)
  {}

  lemma Window10()
    ensures WindowFollows(KEY9, KEY10, 9)
  {}

  lemma Windows()
    ensures IsWindow(KEY0, KEY0, 0, 0)
    ensures IsWindow(KEY0, KEY1, 1, 0)
    ensures IsWindow(KEY0, KEY2, 2, 0)
    ensures IsWindow(KEY0, KEY3, 3, 0)
    ensures IsWindow(KEY0, KEY4, 4, 0)
    ensures IsWindow(KEY0, KEY5, 5, 0)
    ensures IsWindow(KEY0, KEY6, 6, 0)
    ensures IsWindow(KEY0, KEY7, 7, 0)
    ensures IsWindow(KEY0, KEY8, 8, 0)
    ensures IsWindow(KEY0, KEY9, 9, 0)
    ensures IsWindow(KEY0, KEY10, 10, 0)
  {
    hide IsWindow, WindowFollows;
    assert IsWindow(KEY0, KEY0, 0, 0) by { FirstWindow(KEY0, KEY0); }
    Window1();
    NextWindow(KEY0, KEY0, KEY1, 0);
    Window2();
    NextWindow(KEY0, KEY1, KEY2, 1);
    Window3();
    NextWindow(KEY0, KEY2, KEY3, 2);
    Window4();
    NextWindow(KEY0, KEY3, KEY4, 3);
    Window5();
    NextWindow(KEY0, KEY4, KEY5, 4);
    Window6();
    NextWindow(KEY0, KEY5, KEY6, 5);
    Window7();
    NextWindow(KEY0, KEY6, KEY7, 6);
    Window8();
    NextWindow(KEY0, KEY7, KEY8, 7);
    Window9();
    NextWindow(KEY0, KEY8, KEY9, 8);
    Window10();
    NextWindow(KEY0, KEY9, KEY10, 9);
  }

  lemma EarlyKeys()
    ensures RoundKey(KEY0, 4, 0) == KEY0
    ensures RoundKey(KEY0, 4, 1) == KEY1
    ensures RoundKey(KEY0, 4, 2) == KEY2
    ensures RoundKey(KEY0, 4, 3) == KEY3
    ensures RoundKey(KEY0, 4, 4) == KEY4
  {
    hide IsWindow, RoundKey;
    Windows();
    RoundKeyOfWindows(KEY0, KEY0, [], 0, 0, KEY0);
    RoundKeyOfWindows(KEY0, KEY1, [], 1, 1, KEY1);
    RoundKeyOfWindows(KEY0, KEY2, [], 2, 2, KEY2);
    RoundKeyOfWindows(KEY0, KEY3, [], 3, 3, KEY3);
    RoundKeyOfWindows(KEY0, KEY4, [], 4, 4, KEY4);
  }

  lemma LateKeys()
    ensures RoundKey(KEY0, 4, 5) == KEY5
    ensures RoundKey(KEY0, 4, 6) == KEY6
    ensures RoundKey(KEY0, 4, 7) == KEY7
    ensures RoundKey(KEY0, 4, 8) == KEY8
    ensures RoundKey(KEY0, 4, 9) == KEY9
    ensures RoundKey(KEY0, 4, 10) == KEY10
  {
    hide IsWindow, RoundKey;
    Windows();
    RoundKeyOfWindows(KEY0, KEY5, [], 5, 5, KEY5);
    RoundKeyOfWindows(KEY0, KEY6, [], 6, 6, KEY6);
    RoundKeyOfWindows(KEY0, KEY7, [], 7, 7, KEY7);
    RoundKeyOfWindows(KEY0, KEY8, [], 8, 8, KEY8);
    RoundKeyOfWindows(KEY0, KEY9, [], 9, 9, KEY9);
    RoundKeyOfWindows(KEY0, KEY10, [], 10, 10, KEY10);
  }

  lemma Front1()
    ensures HalfRound(0x193de3be, 0xa0f4e22b, 0x9ac68d2a, 0xe9f84808, 0xa0fafe17, 0x88542cb1, 0xa49c7ff2, 0x689f352b)
  {}

  lemma Back1()
    ensures HalfRound(0x9ac68d2a, 0xe9f84808, 0x193de3be, 0xa0f4e22b, 0x23a33939, 0x2a6c7605, 0x6b5bea43, 0x026a5049)
  {}

  lemma Front2()
    ensures HalfRound(0xa49c7ff2, 0x689f352b, 0x6b5bea43, 0x026a5049, 0xf2c295f2, 0x7a96b943, 0xaa8f5f03, 0x61dde3ef)
  {}

  lemma Back2()
    ensures HalfRound(0x6b5bea43, 0x026a5049, 0xa49c7ff2, 0x689f352b, 0x5935807a, 0x7359f67f, 0x82d24ad2, 0x6832469a)
  {}

  lemma Front3()
    ensures HalfRound(0xaa8f5f03, 0x61dde3ef, 0x82d24ad2, 0x6832469a, 0x3d80477d, 0x4716fe3e, 0x486c4eee, 0x671d9d0d)
  {}

  lemma Back3()
    ensures HalfRound(0x82d24ad2, 0x6832469a, 0xaa8f5f03, 0x61dde3ef, 0x1e237e44, 0x6d7a883b, 0x4de3b138, 0xd65f58e7)
  {}

  lemma Front4()
    ensures HalfRound(0x486c4eee, 0x671d9d0d, 0x4de3b138, 0xd65f58e7, 0xef44a541, 0xa8525b7f, 0xe0927fe8, 0xc86363c0)
  {}

  lemma Back4()
    ensures HalfRound(0x4de3b138, 0xd65f58e7, 0x486c4eee, 0x671d9d0d, 0xb671253b, 0xdb0bad00, 0xd9b13550, 0x85b8be01)
  {}

  lemma Front5()
    ensures HalfRound(0xe0927fe8, 0xc86363c0, 0xd9b13550, 0x85b8be01, 0xd4d1c6f8, 0x7c839d87, 0xf1006f55, 0xc1924cef)
  {}

  lemma Back5()
    ensures HalfRound(0xd9b13550, 0x85b8be01, 0xe0927fe8, 0xc86363c0, 0xcaf2b8bc, 0x11f915bc, 0x7cc88b32, 0x5db5d50c)
  {}

  lemma Front6()
    ensures HalfRound(0xf1006f55, 0xc1924cef, 0x7cc88b32, 0x5db5d50c, 0x6d88a37a, 0x110b3efd, 0x260e2e17, 0x3d41b77d)
  {}

  lemma Back6()
    ensures HalfRound(0x7cc88b32, 0x5db5d50c, 0xf1006f55, 0xc1924cef, 0xdbf98641, 0xca0093fd, 0xe86472a9, 0xfdd28b25)
  {}

  lemma Front7()
    ensures HalfRound(0x260e2e17, 0x3d41b77d, 0xe86472a9, 0xfdd28b25, 0x4e54f70e, 0x5f5fc9f3, 0x5a4142b1, 0x1949dc1f)
  {}

  lemma Back7()
    ensures HalfRound(0xe86472a9, 0xfdd28b25, 0x260e2e17, 0x3d41b77d, 0x84a64fb2, 0x4ea6dc4f, 0xa3e01965, 0x7a8c040c)
  {}

  lemma Front8()
    ensures HalfRound(0x5a4142b1, 0x1949dc1f, 0xa3e01965, 0x7a8c040c, 0xead27321, 0xb58dbad2, 0xea835cf0, 0x0445332d)
  {}

  lemma Back8()
    ensures HalfRound(0xa3e01965, 0x7a8c040c, 0x5a4142b1, 0x1949dc1f, 0x312bf560, 0x7f8d292f, 0x655d98ad, 0x8596b0c5)
  {}

  lemma Front9()
    ensures HalfRound(0xea835cf0, 0x0445332d, 0x655d98ad, 0x8596b0c5, 0xac7766f3, 0x19fadc21, 0xeb40f21e, 0x592e3884)
  {}

  lemma Back9()
    ensures HalfRound(0x655d98ad, 0x8596b0c5, 0xea835cf0, 0x0445332d, 0x28d12941, 0x575c006e, 0x8ba113e7, 0x1bc342d2)
  {}

  lemma Start()
    ensures EncState(KEY0, 4, INPUT, 0) == STATE0
  {
    hide RoundKey;
    EarlyKeys();
    assert AddW(0x3243f6a8, 0x2b7e1516) == 0x193de3be;
    assert AddW(0x885a308d, 0x28aed2a6) == 0xa0f4e22b;
    assert AddW(0x313198a2, 0xabf71588) == 0x9ac68d2a;
    assert AddW(0xe0370734, 0x09cf4f3c) == 0xe9f84808;
  }

  lemma EarlyStates()
    ensures EncState(KEY0, 4, INPUT, 4) == STATE4
  {
    hide EncState, RoundKey, HalfRound;
    Start();
    EarlyKeys();
    Front1();
    Back1();
    NextState(KEY0, INPUT, 1, STATE0, KEY1, STATE1);
    Front2();
    Back2();
    NextState(KEY0, INPUT, 2, STATE1, KEY2, STATE2);
    Front3();
    Back3();
    NextState(KEY0, INPUT, 3, STATE2, KEY3, STATE3);
    Front4();
    Back4();
    NextState(KEY0, INPUT, 4, STATE3, KEY4, STATE4);
  }

  lemma LateStates()
    ensures EncState(KEY0, 4, INPUT, 9) == STATE9
  {
    hide EncState, RoundKey, HalfRound;
    EarlyStates();
    LateKeys();
    Front5();
    Back5();
    NextState(KEY0, INPUT, 5, STATE4, KEY5, STATE5);
    Front6();
    Back6();
    NextState(KEY0, INPUT, 6, STATE5, KEY6, STATE6);
    Front7();
    Back7();
    NextState(KEY0, INPUT, 7, STATE6, KEY7, STATE7);
    Front8();
    Back8();
    NextState(KEY0, INPUT, 8, STATE7, KEY8, STATE8);
    Front9();
    Back9();
    NextState(KEY0, INPUT, 9, STATE8, KEY9, STATE9);
  }

  lemma LastFront()
    ensures LastWord(0xeb40f21e, 0x592e3884, 0x8ba113e7, 0x1bc342d2, 0xd014f9a8) == 0x3925841d
    ensures LastWord(0x592e3884, 0x8ba113e7, 0x1bc342d2, 0xeb40f21e, 0xc9ee2589) == 0x02dc09fb
  {}

  lemma LastBack()
    ensures LastWord(0x8ba113e7, 0x1bc342d2, 0xeb40f21e, 0x592e3884, 0xe13f0cc8) == 0xdc118597
    ensures LastWord(0x1bc342d2, 0xeb40f21e, 0x592e3884, 0x8ba113e7, 0xb6630ca6) == 0x196a0b32
  {}

  lemma InputPacked()
    ensures Pack(0x32, 0x43, 0xf6, 0xa8) == 0x3243f6a8 &&
            Pack(0x88, 0x5a, 0x30, 0x8d) == 0x885a308d &&
            Pack(0x31, 0x31, 0x98, 0xa2) == 0x313198a2 &&
            Pack(0xe0, 0x37, 0x07, 0x34) == 0xe0370734
  {}

  lemma OutputPacked()
    ensures Pack(0x39, 0x25, 0x84, 0x1d) == 0x3925841d &&
            Pack(0x02, 0xdc, 0x09, 0xfb) == 0x02dc09fb &&
            Pack(0xdc, 0x11, 0x85, 0x97) == 0xdc118597 &&
            Pack(0x19, 0x6a, 0x0b, 0x32) == 0x196a0b32
  {}

  lemma Words()
    ensures ToWords(PLAIN, 4) == INPUT && ToWords(SEALED, 4) == OUTPUT
  {
    hide Pack;
    InputPacked();
    OutputPacked();
  }

  /** The example of appendix B of FIPS 197. */
  lemma Example()
    ensures EncryptedBlock(KEY0, 4, PLAIN) == SEALED && DecryptedBlock(KEY0, 4, SEALED) == PLAIN
  {
    hide EncState, RoundKey, LastWord, Cipher, ToWords, EncryptedBlock, DecryptedBlock;
    LateStates();
    LateKeys();
    LastFront();
    LastBack();
    LastState(KEY0, INPUT, STATE9, KEY10, OUTPUT);
    Words();
    OnBytes(KEY0, INPUT, OUTPUT, PLAIN, SEALED);
  }
}
