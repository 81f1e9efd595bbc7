/** The worked example of appendix C.2 of FIPS 197, with a key of 24 bytes: every round, the last one
    included, and the block in bytes. By it the definitions of the transformations and of the key
    expansion can be told from others that would invert as well. */
module Aes192Example {
  import opened RijndaelTables
  import opened Gf256
  import opened RijndaelCipher
  import opened RijndaelBlocks
  import opened RijndaelSteps

  const KEY0: State := [0x00010203, 0x04050607, 0x08090a0b, 0x0c0d0e0f, 0x10111213, 0x14151617]
  const KEY1: State := [0x5846f2f9, 0x5c43f4fe, 0x544afef5, 0x5847f0fa, 0x4856e2e9, 0x5c43f4fe]
  const KEY2: State := [0x40f949b3, 0x1cbabd4d, 0x48f043b8, 0x10b7b342, 0x58e151ab, 0x04a2a555]
  const KEY3: State := [0x7effb541, 0x6245080c, 0x2ab54bb4, 0x3a02f8f6, 0x62e3a95d, 0x66410c08]
  const KEY4: State := [0xf5018572, 0x97448d7e, 0xbdf1c6ca, 0x87f33e3c, 0xe5109761, 0x83519b69]
  const KEY5: State := [0x34157c9e, 0xa351f1e0, 0x1ea0372a, 0x99530916, 0x7c439e77, 0xff12051e]
  const KEY6: State := [0xdd7e0e88, 0x7e2fff68, 0x608fc842, 0xf9dcc154, 0x859f5f23, 0x7a8d5a3d]
  const KEY7: State := [0xc0c02952, 0xbeefd63a, 0xde601e78, 0x27bcdf2c, 0xa223800f, 0xd8aeda32]
  const KEY8: State := [0xa4970a33, 0x1a78dc09, 0xc418c271, 0xe3a41d5d, 0x41879d52, 0x99294760]

  const INPUT: State := [0x00112233, 0x44556677, 0x8899aabb, 0xccddeeff]
  const STATE0: State := [0x00102030, 0x40506070, 0x8090a0b0, 0xc0d0e0f0]
  const STATE1: State := [0x4f637606, 0x43e0aa85, 0xaff8c9d0, 0x41fa0de4]
  const STATE2: State := [0xcb02818c, 0x17d2af9c, 0x62aa6442, 0x8bb25fd7]
  const STATE3: State := [0xf75c7778, 0xa327c8ed, 0x8cfebfc1, 0xa6c37f53]
  const STATE4: State := [0x22ffc916, 0xa8147441, 0x6496f19c, 0x64ae2532]
  const STATE5: State := [0x80121e07, 0x76fd1d8a, 0x8d8c31bc, 0x965d1fee]
  const STATE6: State := [0x671ef1fd, 0x4e2a1e03, 0xdfdcb1ef, 0x3d789b30]
  const STATE7: State := [0x0c0370d0, 0x0c01e622, 0x166b8acc, 0xd6db3a2c]
  const STATE8: State := [0x7255dad3, 0x0fb80310, 0xe00d6c6b, 0x40d0527c]
  const STATE9: State := [0xa906b254, 0x968af4e9, 0xb4bdb2d2, 0xf0c44336]
  const STATE10: State := [0x88ec930e, 0xf5e7e4b6, 0xcc32f4c9, 0x06d29414]
  const STATE11: State := [0xafb73eeb, 0x1cd1b851, 0x62280f27, 0xfb20d585]
  const OUTPUT: State := [0xdda97ca4, 0x864cdfe0, 0x6eaf70a0, 0xec0d7191]

  const PLAIN: Bytes := [0x00, 0x11, 0x22, 0x33, 0x44, 0x55, 0x66, 0x77, 0x88, 0x99, 0xaa, 0xbb, 0xcc, 0xdd, 0xee, 0xff]
  const SEALED: Bytes := [0xdd, 0xa9, 0x7c, 0xa4, 0x86, 0x4c, 0xdf, 0xe0, 0x6e, 0xaf, 0x70, 0xa0, 0xec, 0x0d, 0x71, 0x91]

  lemma Window1()
    ensures WindowFollows(KEY0, KEY1, 0)
  {}

  lemma Window2()
    ensures WindowFollows(KEY1, KEY2, 1)
  {}

  lemma Window3()
    ensures WindowFollows(KEY2, KEY3, 2)
  {}

  lemma Window4()
    ensures WindowFollows(KEY3, KEY4, 3)
  {}

  lemma Window5()
    ensures WindowFollows(KEY4, KEY5, 4)
  {}

  lemma Window6()
    ensures WindowFollows(KEY5, KEY6, 5)
  {}

  lemma Window7()
    ensures WindowFollows(KEY6, KEY7, 6)
  {}

  lemma Window8()
    ensures WindowFollows(KEY7, KEY8, 7)
  {}

  lemma Windows()
    ensures IsWindow(KEY0, KEY0, 0, 0)
    ensures IsWindow(KEY0, KEY1, 1, 0)
    ensures IsWindow(KEY0, KEY2, 2, 0)
    ensures IsWindow(KEY0, KEY3, 3, 0)
    ensures IsWindow(KEY0, KEY4, 4, 0)
    ensures IsWindow(KEY0, KEY5, 5, 0)
    ensures IsWindow(KEY0, KEY6, 6, 0)
    ensures IsWindow(KEY0, KEY7, 7, 0)
    ensures IsWindow(KEY0, KEY8, 8, 0)
  {
    hide IsWindow, WindowFollows;
    assert IsWindow(KEY0, KEY0, 0, 0) by { FirstWindow(KEY0, KEY0); }
    Window1();
    NextWindow(KEY0, KEY0, KEY1, 0);
    Window2();
    NextWindow(KEY0, KEY1, KEY2, 1);
    Window3();
    NextWindow(KEY0, KEY2, KEY3, 2);
    Window4();
    NextWindow(KEY0, KEY3, KEY4, 3);
    Window5();
    NextWindow(KEY0, KEY4, KEY5, 4);
    Window6();
    NextWindow(KEY0, KEY5, KEY6, 5);
    Window7();
    NextWindow(KEY0, KEY6, KEY7, 6);
    Window8();
    NextWindow(KEY0, KEY7, KEY8, 7);
  }

  lemma EarlyKeys()
    ensures RoundKey(KEY0, 4, 0) == [KEY0[0], KEY0[1], KEY0[2], KEY0[3]]
    ensures RoundKey(KEY0, 4, 1) == [KEY0[4], KEY0[5], KEY1[0], KEY1[1]]
    ensures RoundKey(KEY0, 4, 2) == [KEY1[2], KEY1[3], KEY1[4], KEY1[5]]
    ensures RoundKey(KEY0, 4, 3) == [KEY2[0], KEY2[1], KEY2[2], KEY2[3]]
    ensures RoundKey(KEY0, 4, 4) == [KEY2[4], KEY2[5], KEY3[0], KEY3[1]]
    ensures RoundKey(KEY0, 4, 5) == [KEY3[2], KEY3[3], KEY3[4], KEY3[5]]
  {
    hide IsWindow, RoundKey;
    Windows();
    RoundKeyOfWindows(KEY0, KEY0, [], 0, 0, [KEY0[0], KEY0[1], KEY0[2], KEY0[3]]);
    RoundKeyOfWindows(KEY0, KEY0, KEY1, 0, 1, [KEY0[4], KEY0[5], KEY1[0], KEY1[1]]);
    RoundKeyOfWindows(KEY0, KEY1, [], 1, 2, [KEY1[2], KEY1[3], KEY1[4], KEY1[5]]);
    RoundKeyOfWindows(KEY0, KEY2, [], 2, 3, [KEY2[0], KEY2[1], KEY2[2], KEY2[3]]);
    RoundKeyOfWindows(KEY0, KEY2, KEY3, 2, 4, [KEY2[4], KEY2[5], KEY3[0], KEY3[1]]);
    RoundKeyOfWindows(KEY0, KEY3, [], 3, 5, [KEY3[2], KEY3[3], KEY3[4], KEY3[5]]);
  }

  lemma LateKeys()
    ensures RoundKey(KEY0, 4, 6) == [KEY4[0], KEY4[1], KEY4[2], KEY4[3]]
    ensures RoundKey(KEY0, 4, 7) == [KEY4[4], KEY4[5], KEY5[0], KEY5[1]]
    ensures RoundKey(KEY0, 4, 8) == [KEY5[2], KEY5[3], KEY5[4], KEY5[5]]
    ensures RoundKey(KEY0, 4, 9) == [KEY6[0], KEY6[1], KEY6[2], KEY6[3]]
    ensures RoundKey(KEY0, 4, 10) == [KEY6[4], KEY6[5], KEY7[0], KEY7[1]]
    ensures RoundKey(KEY0, 4, 11) == [KEY7[2], KEY7[3], KEY7[4], KEY7[5]]
    ensures RoundKey(KEY0, 4, 12) == [KEY8[0], KEY8[1], KEY8[2], KEY8[3]]
  {
    hide IsWindow, RoundKey;
    Windows();
    RoundKeyOfWindows(KEY0, KEY4, [], 4, 6, [KEY4[0], KEY4[1], KEY4[2], KEY4[3]]);
    RoundKeyOfWindows(KEY0, KEY4, KEY5, 4, 7, [KEY4[4], KEY4[5], KEY5[0], KEY5[1]]);
    RoundKeyOfWindows(KEY0, KEY5, [], 5, 8, [KEY5[2], KEY5[3], KEY5[4], KEY5[5]]);
    RoundKeyOfWindows(KEY0, KEY6, [], 6, 9, [KEY6[0], KEY6[1], KEY6[2], KEY6[3]]);
    RoundKeyOfWindows(KEY0, KEY6, KEY7, 6, 10, [KEY6[4], KEY6[5], KEY7[0], KEY7[1]]);
    RoundKeyOfWindows(KEY0, KEY7, [], 7, 11, [KEY7[2], KEY7[3], KEY7[4], KEY7[5]]);
    RoundKeyOfWindows(KEY0, KEY8, [], 8, 12, [KEY8[0], KEY8[1], KEY8[2], KEY8[3]]);
  }

  lemma Front1()
    ensures HalfRound(0x00102030, 0x40506070, 0x8090a0b0, 0xc0d0e0f0, 0x10111213, 0x14151617, 0x4f637606, 0x43e0aa85)
  {}

  lemma Back1()
    ensures HalfRound(0x8090a0b0, 0xc0d0e0f0, 0x00102030, 0x40506070, 0x5846f2f9, 0x5c43f4fe, 0xaff8c9d0, 0x41fa0de4)
  {}

  lemma Front2()
    ensures HalfRound(0x4f637606, 0x43e0aa85, 0xaff8c9d0, 0x41fa0de4, 0x544afef5, 0x5847f0fa, 0xcb02818c, 0x17d2af9c)
  {}

  lemma Back2()
    ensures HalfRound(0xaff8c9d0, 0x41fa0de4, 0x4f637606, 0x43e0aa85, 0x4856e2e9, 0x5c43f4fe, 0x62aa6442, 0x8bb25fd7)
  {}

  lemma Front3()
    ensures HalfRound(0xcb02818c, 0x17d2af9c, 0x62aa6442, 0x8bb25fd7, 0x40f949b3, 0x1cbabd4d, 0xf75c7778, 0xa327c8ed)
  {}

  lemma Back3()
    ensures HalfRound(0x62aa6442, 0x8bb25fd7, 0xcb02818c, 0x17d2af9c, 0x48f043b8, 0x10b7b342, 0x8cfebfc1, 0xa6c37f53)
  {}

  lemma Front4()
    ensures HalfRound(0xf75c7778, 0xa327c8ed, 0x8cfebfc1, 0xa6c37f53, 0x58e151ab, 0x04a2a555, 0x22ffc916, 0xa8147441)
  {}

  lemma Back4()
    ensures HalfRound(0x8cfebfc1, 0xa6c37f53, 0xf75c7778, 0xa327c8ed, 0x7effb541, 0x6245080c, 0x6496f19c, 0x64ae2532)
  {}

  lemma Front5()
    ensures HalfRound(0x22ffc916, 0xa8147441, 0x6496f19c, 0x64ae2532, 0x2ab54bb4, 0x3a02f8f6, 0x80121e07, 0x76fd1d8a)
  {}

  lemma Back5()
    ensures HalfRound(0x6496f19c, 0x64ae2532, 0x22ffc916, 0xa8147441, 0x62e3a95d, 0x66410c08, 0x8d8c31bc, 0x965d1fee)
  {}

  lemma Front6()
    ensures HalfRound(0x80121e07, 0x76fd1d8a, 0x8d8c31bc, 0x965d1fee, 0xf5018572, 0x97448d7e, 0x671ef1fd, 0x4e2a1e03)
  {}

  lemma Back6()
    ensures HalfRound(0x8d8c31bc, 0x965d1fee, 0x80121e07, 0x76fd1d8a, 0xbdf1c6ca, 0x87f33e3c, 0xdfdcb1ef, 0x3d789b30)
  {}

  lemma Front7()
    ensures HalfRound(0x671ef1fd, 0x4e2a1e03, 0xdfdcb1ef, 0x3d789b30, 0xe5109761, 0x83519b69, 0x0c0370d0, 0x0c01e622)
  {}

  lemma Back7()
    ensures HalfRound(0xdfdcb1ef, 0x3d789b30, 0x671ef1fd, 0x4e2a1e03, 0x34157c9e, 0xa351f1e0, 0x166b8acc, 0xd6db3a2c)
  {}

  lemma Front8()
    ensures HalfRound(0x0c0370d0, 0x0c01e622, 0x166b8acc, 0xd6db3a2c, 0x1ea0372a, 0x99530916, 0x7255dad3, 0x0fb80310)
  {}

  lemma Back8()
    ensures HalfRound(0x166b8acc, 0xd6db3a2c, 0x0c0370d0, 0x0c01e622, 0x7c439e77, 0xff12051e, 0xe00d6c6b, 0x40d0527c)
  {}

  lemma Front9()
    ensures HalfRound(0x7255dad3, 0x0fb80310, 0xe00d6c6b, 0x40d0527c, 0xdd7e0e88, 0x7e2fff68, 0xa906b254, 0x968af4e9)
  {}

  lemma Back9()
    ensures HalfRound(0xe00d6c6b, 0x40d0527c, 0x7255dad3, 0x0fb80310, 0x608fc842, 0xf9dcc154, 0xb4bdb2d2, 0xf0c44336)
  {}

  lemma Front10()
    ensures HalfRound(0xa906b254, 0x968af4e9, 0xb4bdb2d2, 0xf0c44336, 0x859f5f23, 0x7a8d5a3d, 0x88ec930e, 0xf5e7e4b6)
  {}

  lemma Back10()
    ensures HalfRound(0xb4bdb2d2, 0xf0c44336, 0xa906b254, 0x968af4e9, 0xc0c02952, 0xbeefd63a, 0xcc32f4c9, 0x06d29414)
  {}

  lemma Front11()
    ensures HalfRound(0x88ec930e, 0xf5e7e4b6, 0xcc32f4c9, 0x06d29414, 0xde601e78, 0x27bcdf2c, 0xafb73eeb, 0x1cd1b851)
  {}

  lemma Back11()
    ensures HalfRound(0xcc32f4c9, 0x06d29414, 0x88ec930e, 0xf5e7e4b6, 0xa223800f, 0xd8aeda32, 0x62280f27, 0xfb20d585)
  {}

  lemma Start()
    ensures EncState(KEY0, 4, INPUT, 0) == STATE0
  {
    hide RoundKey;
    EarlyKeys();
    assert AddW(0x00112233, 0x00010203) == 0x00102030;
    assert AddW(0x44556677, 0x04050607) == 0x40506070;
    assert AddW(0x8899aabb, 0x08090a0b) == 0x8090a0b0;
    assert AddW(0xccddeeff, 0x0c0d0e0f) == 0xc0d0e0f0;
  }

  lemma EarlyStates()
    ensures EncState(KEY0, 4, INPUT, 5) == STATE5
  {
    hide EncState, RoundKey, HalfRound;
    Start();
    EarlyKeys();
    Front1();
    Back1();
    NextState(KEY0, INPUT, 1, STATE0, [KEY0[4], KEY0[5], KEY1[0], KEY1[1]], STATE1);
    Front2();
    Back2();
    NextState(KEY0, INPUT, 2, STATE1, [KEY1[2], KEY1[3], KEY1[4], KEY1[5]], STATE2);
    Front3();
    Back3();
    NextState(KEY0, INPUT, 3, STATE2, [KEY2[0], KEY2[1], KEY2[2], KEY2[3]], STATE3);
    Front4();
    Back4();
    NextState(KEY0, INPUT, 4, STATE3, [KEY2[4], KEY2[5], KEY3[0], KEY3[1]], STATE4);
    Front5();
    Back5();
    NextState(KEY0, INPUT, 5, STATE4, [KEY3[2], KEY3[3], KEY3[4], KEY3[5]], STATE5);
  }

  lemma LateStates()
    ensures EncState(KEY0, 4, INPUT, 11) == STATE11
  {
    hide EncState, RoundKey, HalfRound;
    EarlyStates();
    LateKeys();
    Front6();
    Back6();
    NextState(KEY0, INPUT, 6, STATE5, [KEY4[0], KEY4[1], KEY4[2], KEY4[3]], STATE6);
    Front7();
    Back7();
    NextState(KEY0, INPUT, 7, STATE6, [KEY4[4], KEY4[5], KEY5[0], KEY5[1]], STATE7);
    Front8();
    Back8();
    NextState(KEY0, INPUT, 8, STATE7, [KEY5[2], KEY5[3], KEY5[4], KEY5[5]], STATE8);
    Front9();
    Back9();
    NextState(KEY0, INPUT, 9, STATE8, [KEY6[0], KEY6[1], KEY6[2], KEY6[3]], STATE9);
    Front10();
    Back10();
    NextState(KEY0, INPUT, 10, STATE9, [KEY6[4], KEY6[5], KEY7[0], KEY7[1]], STATE10);
    Front11();
    Back11();
    NextState(KEY0, INPUT, 11, STATE10, [KEY7[2], KEY7[3], KEY7[4], KEY7[5]], STATE11);
  }

  lemma LastFront()
    ensures LastWord(0xafb73eeb, 0x1cd1b851, 0x62280f27, 0xfb20d585, 0xa4970a33) == 0xdda97ca4
    ensures LastWord(0x1cd1b851, 0x62280f27, 0xfb20d585, 0xafb73eeb, 0x1a78dc09) == 0x864cdfe0
  {}

  lemma LastBack()
    ensures LastWord(0x62280f27, 0xfb20d585, 0xafb73eeb, 0x1cd1b851, 0xc418c271) == 0x6eaf70a0
    ensures LastWord(0xfb20d585, 0xafb73eeb, 0x1cd1b851, 0x62280f27, 0xe3a41d5d) == 0xec0d7191
  {}

  lemma InputPacked()
    ensures Pack(0x00, 0x11, 0x22, 0x33) == 0x00112233 &&
            Pack(0x44, 0x55, 0x66, 0x77) == 0x44556677 &&
            Pack(0x88, 0x99, 0xaa, 0xbb) == 0x8899aabb &&
            Pack(0xcc, 0xdd, 0xee, 0xff) == 0xccddeeff
  {}

  lemma OutputPacked()
    ensures Pack(0xdd, 0xa9, 0x7c, 0xa4) == 0xdda97ca4 &&
            Pack(0x86, 0x4c, 0xdf, 0xe0) == 0x864cdfe0 &&
            Pack(0x6e, 0xaf, 0x70, 0xa0) == 0x6eaf70a0 &&
            Pack(0xec, 0x0d, 0x71, 0x91) == 0xec0d7191
  {}

  lemma Words()
    ensures ToWords(PLAIN, 4) == INPUT && ToWords(SEALED, 4) == OUTPUT
  {
    hide Pack;
    InputPacked();
    OutputPacked();
  }

  /** The example of appendix C.2 of FIPS 197. */
  lemma Example()
    ensures EncryptedBlock(KEY0, 4, PLAIN) == SEALED && DecryptedBlock(KEY0, 4, SEALED) == PLAIN
  {
    hide EncState, RoundKey, LastWord, Cipher, ToWords, EncryptedBlock, DecryptedBlock;
    LateStates();
    LateKeys();
    LastFront();
    LastBack();
    LastState(KEY0, INPUT, STATE11, [KEY8[0], KEY8[1], KEY8[2], KEY8[3]], OUTPUT);
    Words();
    OnBytes(KEY0, INPUT, OUTPUT, PLAIN, SEALED);
  }
}
