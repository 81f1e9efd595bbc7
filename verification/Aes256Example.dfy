/** The worked example of appendix C.3 of FIPS 197, with a key of 32 bytes: every round, the last one
    included, and the block in bytes. By it the definitions of the transformations and of the key
    expansion can be told from others that would invert as well. */
module Aes256Example {
  import opened RijndaelTables
  import opened Gf256
  import opened RijndaelCipher
  import opened RijndaelBlocks
  import opened RijndaelSteps

  const KEY0: State := [0x00010203, 0x04050607, 0x08090a0b, 0x0c0d0e0f, 0x10111213, 0x14151617, 0x18191a1b, 0x1c1d1e1f]
  const KEY1: State := [0xa573c29f, 0xa176c498, 0xa97fce93, 0xa572c09c, 0x1651a8cd, 0x0244beda, 0x1a5da4c1, 0x0640bade]
  const KEY2: State := [0xae87dff0, 0x0ff11b68, 0xa68ed5fb, 0x03fc1567, 0x6de1f148, 0x6fa54f92, 0x75f8eb53, 0x73b8518d]
  const KEY3: State := [0xc656827f, 0xc9a79917, 0x6f294cec, 0x6cd5598b, 0x3de23a75, 0x524775e7, 0x27bf9eb4, 0x5407cf39]
  const KEY4: State := [0x0bdc905f, 0xc27b0948, 0xad5245a4, 0xc1871c2f, 0x45f5a660, 0x17b2d387, 0x300d4d33, 0x640a820a]
  const KEY5: State := [0x7ccff71c, 0xbeb4fe54, 0x13e6bbf0, 0xd261a7df, 0xf01afafe, 0xe7a82979, 0xd7a5644a, 0xb3afe640]
  const KEY6: State := [0x2541fe71, 0x9bf50025, 0x8813bbd5, 0x5a721c0a, 0x4e5a6699, 0xa9f24fe0, 0x7e572baa, 0xcdf8cdea]
  const KEY7: State := [0x24fc79cc, 0xbf0979e9, 0x371ac23c, 0x6d68de36, 0x721f7b9c, 0xdbed347c, 0xa5ba1fd6, 0x6842d23c]

  const INPUT: State := [0x00112233, 0x44556677, 0x8899aabb, 0xccddeeff]
  const STATE0: State := [0x00102030, 0x40506070, 0x8090a0b0, 0xc0d0e0f0]
  const STATE1: State := [0x4f637606, 0x43e0aa85, 0xefa72132, 0x01a4e705]
  const STATE2: State := [0x1859fbc2, 0x8a1c00a0, 0x78ed8aad, 0xc42f6109]
  const STATE3: State := [0x975c66c1, 0xcb9f3fa8, 0xa93a28df, 0x8ee10f63]
  const STATE4: State := [0x1c05f271, 0xa417e04f, 0xf921c5c1, 0x04701554]
  const STATE5: State := [0xc357aae1, 0x1b45b7b0, 0xa2c7bd28, 0xa8dc99fa]
  const STATE6: State := [0x7f074143, 0xcb4e243e, 0xc10c815d, 0x8375d54c]
  const STATE7: State := [0xd653a469, 0x6ca0bc0f, 0x5acaab5d, 0xb96c5e7d]
  const STATE8: State := [0x5aa85839, 0x5fd28d7d, 0x05e1a388, 0x68f3b9c5]
  const STATE9: State := [0x4a824851, 0xc57e7e47, 0x643de50c, 0x2af3e8c9]
  const STATE10: State := [0xc14907f6, 0xca3b3aa0, 0x70e9aa31, 0x3b52b5ec]
  const STATE11: State := [0x5f9c6abf, 0xbac634aa, 0x50409fa7, 0x66677653]
  const STATE12: State := [0x51660495, 0x43539503, 0x14fb86e4, 0x01922521]
  const STATE13: State := [0x627bceb9, 0x999d5aaa, 0xc945ecf4, 0x23f56da5]
  const OUTPUT: State := [0x8ea2b7ca, 0x516745bf, 0xeafc4990, 0x4b496089]

  const PLAIN: Bytes := [0x00, 0x11, 0x22, 0x33, 0x44, 0x55, 0x66, 0x77, 0x88, 0x99, 0xaa, 0xbb, 0xcc, 0xdd, 0xee, 0xff]
  const SEALED: Bytes := [0x8e, 0xa2, 0xb7, 0xca, 0x51, 0x67, 0x45, 0xbf, 0xea, 0xfc, 0x49, 0x90, 0x4b, 0x49, 0x60, 0x89]

  lemma Window1()
    ensures WindowFollows(KEY0, KEY1, 0)
  {}

  lemma Window2()
    ensures WindowFollows(KEY1, KEY2, 1)
  {}

  lemma Window3()
    ensures WindowFollows(KEY2, KEY3, 2)
  {}

  lemma Window4()
    ensures WindowFollows(KEY3, KEY4, 3)
  {}

  lemma Window5()
    ensures WindowFollows(KEY4, KEY5, 4)
  {}

  lemma Window6()
    ensures WindowFollows(KEY5, KEY6, 5)
  {}

  lemma Window7()
    ensures WindowFollows(KEY6, KEY7, 6)
  {}

  lemma Windows()
    ensures IsWindow(KEY0, KEY0, 0, 0)
    ensures IsWindow(KEY0, KEY1, 1, 0)
    ensures IsWindow(KEY0, KEY2, 2, 0)
    ensures IsWindow(KEY0, KEY3, 3, 0)
    ensures IsWindow(KEY0, KEY4, 4, 0)
    ensures IsWindow(KEY0, KEY5, 5, 0)
    ensures IsWindow(KEY0, KEY6, 6, 0)
    ensures IsWindow(KEY0, KEY7, 7, 0)
  {
    hide IsWindow, WindowFollows;
    assert IsWindow(KEY0, KEY0, 0, 0) by { FirstWindow(KEY0, KEY0); }
    Window1();
    NextWindow(KEY0, KEY0, KEY1, 0);
    Window2();
    NextWindow(KEY0, KEY1, KEY2, 1);
    Window3();
    NextWindow(KEY0, KEY2, KEY3, 2);
    Window4();
    NextWindow(KEY0, KEY3, KEY4, 3);
    Window5();
    NextWindow(KEY0, KEY4, KEY5, 4);
    Window6();
    NextWindow(KEY0, KEY5, KEY6, 5);
    Window7();
    NextWindow(KEY0, KEY6, KEY7, 6);
  }

  lemma EarlyKeys()
    ensures RoundKey(KEY0, 4, 0) == [KEY0[0], KEY0[1], KEY0[2], KEY0[3]]
    ensures RoundKey(KEY0, 4, 1) == [KEY0[4], KEY0[5], KEY0[6], KEY0[7]]
    ensures RoundKey(KEY0, 4, 2) == [KEY1[0], KEY1[1], KEY1[2], KEY1[3]]
    ensures RoundKey(KEY0, 4, 3) == [KEY1[4], KEY1[5], KEY1[6], KEY1[7]]
    ensures RoundKey(KEY0, 4, 4) == [KEY2[0], KEY2[1], KEY2[2], KEY2[3]]
    ensures RoundKey(KEY0, 4, 5) == [KEY2[4], KEY2[5], KEY2[6], KEY2[7]]
    ensures RoundKey(KEY0, 4, 6) == [KEY3[0], KEY3[1], KEY3[2], KEY3[3]]
  {
    hide IsWindow, RoundKey;
    Windows();
    RoundKeyOfWindows(KEY0, KEY0, [], 0, 0, [KEY0[0], KEY0[1], KEY0[2], KEY0[3]]);
    RoundKeyOfWindows(KEY0, KEY0, [], 0, 1, [KEY0[4], KEY0[5], KEY0[6], KEY0[7]]);
    RoundKeyOfWindows(KEY0, KEY1, [], 1, 2, [KEY1[0], KEY1[1], KEY1[2], KEY1[3]]);
    RoundKeyOfWindows(KEY0, KEY1, [], 1, 3, [KEY1[4], KEY1[5], KEY1[6], KEY1[7]]);
    RoundKeyOfWindows(KEY0, KEY2, [], 2, 4, [KEY2[0], KEY2[1], KEY2[2], KEY2[3]]);
    RoundKeyOfWindows(KEY0, KEY2, [], 2, 5, [KEY2[4], KEY2[5], KEY2[6], KEY2[7]]);
    RoundKeyOfWindows(KEY0, KEY3, [], 3, 6, [KEY3[0], KEY3[1], KEY3[2], KEY3[3]]);
  }

  lemma LateKeys()
    ensures RoundKey(KEY0, 4, 7) == [KEY3[4], KEY3[5], KEY3[6], KEY3[7]]
    ensures RoundKey(KEY0, 4, 8) == [KEY4[0], KEY4[1], KEY4[2], KEY4[3]]
    ensures RoundKey(KEY0, 4, 9) == [KEY4[4], KEY4[5], KEY4[6], KEY4[7]]
    ensures RoundKey(KEY0, 4, 10) == [KEY5[0], KEY5[1], KEY5[2], KEY5[3]]
    ensures RoundKey(KEY0, 4, 11) == [KEY5[4], KEY5[5], KEY5[6], KEY5[7]]
    ensures RoundKey(KEY0, 4, 12) == [KEY6[0], KEY6[1], KEY6[2], KEY6[3]]
    ensures RoundKey(KEY0, 4, 13) == [KEY6[4], KEY6[5], KEY6[6], KEY6[7]]
    ensures RoundKey(KEY0, 4, 14) == [KEY7[0], KEY7[1], KEY7[2], KEY7[3]]
  {
    hide IsWindow, RoundKey;
    Windows();
    RoundKeyOfWindows(KEY0, KEY3, [], 3, 7, [KEY3[4], KEY3[5], KEY3[6], KEY3[7]]);
    RoundKeyOfWindows(KEY0, KEY4, [], 4, 8, [KEY4[0], KEY4[1], KEY4[2], KEY4[3]]);
    RoundKeyOfWindows(KEY0, KEY4, [], 4, 9, [KEY4[4], KEY4[5], KEY4[6], KEY4[7]]);
    RoundKeyOfWindows(KEY0, KEY5, [], 5, 10, [KEY5[0], KEY5[1], KEY5[2], KEY5[3]]);
    RoundKeyOfWindows(KEY0, KEY5, [], 5, 11, [KEY5[4], KEY5[5], KEY5[6], KEY5[7]]);
    RoundKeyOfWindows(KEY0, KEY6, [], 6, 12, [KEY6[0], KEY6[1], KEY6[2], KEY6[3]]);
    RoundKeyOfWindows(KEY0, KEY6, [], 6, 13, [KEY6[4], KEY6[5], KEY6[6], KEY6[7]]);
    RoundKeyOfWindows(KEY0, KEY7, [], 7, 14, [KEY7[0], KEY7[1], KEY7[2], KEY7[3]]);
  }

  lemma Front1()
    ensures HalfRound(0x00102030, 0x40506070, 0x8090a0b0, 0xc0d0e0f0, 0x10111213, 0x14151617, 0x4f637606, 0x43e0aa85)
  {}

  lemma Back1()
    ensures HalfRound(0x8090a0b0, 0xc0d0e0f0, 0x00102030, 0x40506070, 0x18191a1b, 0x1c1d1e1f, 0xefa72132, 0x01a4e705)
  {}

  lemma Front2()
    ensures HalfRound(0x4f637606, 0x43e0aa85, 0xefa72132, 0x01a4e705, 0xa573c29f, 0xa176c498, 0x1859fbc2, 0x8a1c00a0)
  {}

  lemma Back2()
    ensures HalfRound(0xefa72132, 0x01a4e705, 0x4f637606, 0x43e0aa85, 0xa97fce93, 0xa572c09c, 0x78ed8aad, 0xc42f6109)
  {}

  lemma Front3()
    ensures HalfRound(0x1859fbc2, 0x8a1c00a0, 0x78ed8aad, 0xc42f6109, 0x1651a8cd, 0x0244beda, 0x975c66c1, 0xcb9f3fa8)
  {}

  lemma Back3()
    ensures HalfRound(0x78ed8aad, 0xc42f6109, 0x1859fbc2, 0x8a1c00a0, 0x1a5da4c1, 0x0640bade, 0xa93a28df, 0x8ee10f63)
  {}

  lemma Front4()
    ensures HalfRound(0x975c66c1, 0xcb9f3fa8, 0xa93a28df, 0x8ee10f63, 0xae87dff0, 0x0ff11b68, 0x1c05f271, 0xa417e04f)
  {}

  lemma Back4()
    ensures HalfRound(0xa93a28df, 0x8ee10f63, 0x975c66c1, 0xcb9f3fa8, 0xa68ed5fb, 0x03fc1567, 0xf921c5c1, 0x04701554)
  {}

  lemma Front5()
    ensures HalfRound(0x1c05f271, 0xa417e04f, 0xf921c5c1, 0x04701554, 0x6de1f148, 0x6fa54f92, 0xc357aae1, 0x1b45b7b0)
  {}

  lemma Back5()
    ensures HalfRound(0xf921c5c1, 0x04701554, 0x1c05f271, 0xa417e04f, 0x75f8eb53, 0x73b8518d, 0xa2c7bd28, 0xa8dc99fa)
  {}

  lemma Front6()
    ensures HalfRound(0xc357aae1, 0x1b45b7b0, 0xa2c7bd28, 0xa8dc99fa, 0xc656827f, 0xc9a79917, 0x7f074143, 0xcb4e243e)
  {}

  lemma Back6()
    ensures HalfRound(0xa2c7bd28, 0xa8dc99fa, 0xc357aae1, 0x1b45b7b0, 0x6f294cec, 0x6cd5598b, 0xc10c815d, 0x8375d54c)
  {}

  lemma Front7()
    ensures HalfRound(0x7f074143, 0xcb4e243e, 0xc10c815d, 0x8375d54c, 0x3de23a75, 0x524775e7, 0xd653a469, 0x6ca0bc0f)
  {}

  lemma Back7()
    ensures HalfRound(0xc10c815d, 0x8375d54c, 0x7f074143, 0xcb4e243e, 0x27bf9eb4, 0x5407cf39, 0x5acaab5d, 0xb96c5e7d)
  {}

  lemma Front8()
    ensures HalfRound(0xd653a469, 0x6ca0bc0f, 0x5acaab5d, 0xb96c5e7d, 0x0bdc905f, 0xc27b0948, 0x5aa85839, 0x5fd28d7d)
  {}

  lemma Back8()
    ensures HalfRound(0x5acaab5d, 0xb96c5e7d, 0xd653a469, 0x6ca0bc0f, 0xad5245a4, 0xc1871c2f, 0x05e1a388, 0x68f3b9c5)
  {}

  lemma Front9()
    ensures HalfRound(0x5aa85839, 0x5fd28d7d, 0x05e1a388, 0x68f3b9c5, 0x45f5a660, 0x17b2d387, 0x4a824851, 0xc57e7e47)
  {}

  lemma Back9()
    ensures HalfRound(0x05e1a388, 0x68f3b9c5, 0x5aa85839, 0x5fd28d7d, 0x300d4d33, 0x640a820a, 0x643de50c, 0x2af3e8c9)
  {}

  lemma Front10()
    ensures HalfRound(0x4a824851, 0xc57e7e47, 0x643de50c, 0x2af3e8c9, 0x7ccff71c, 0xbeb4fe54, 0xc14907f6, 0xca3b3aa0)
  {}

  lemma Back10()
    ensures HalfRound(0x643de50c, 0x2af3e8c9, 0x4a824851, 0xc57e7e47, 0x13e6bbf0, 0xd261a7df, 0x70e9aa31, 0x3b52b5ec)
  {}

  lemma Front11()
    ensures HalfRound(0xc14907f6, 0xca3b3aa0, 0x70e9aa31, 0x3b52b5ec, 0xf01afafe, 0xe7a82979, 0x5f9c6abf, 0xbac634aa)
  {}

  lemma Back11()
    ensures HalfRound(0x70e9aa31, 0x3b52b5ec, 0xc14907f6, 0xca3b3aa0, 0xd7a5644a, 0xb3afe640, 0x50409fa7, 0x66677653)
  {}

  lemma Front12()
    ensures HalfRound(0x5f9c6abf, 0xbac634aa, 0x50409fa7, 0x66677653, 0x2541fe71, 0x9bf50025, 0x51660495, 0x43539503)
  {}

  lemma Back12()
    ensures HalfRound(0x50409fa7, 0x66677653, 0x5f9c6abf, 0xbac634aa, 0x8813bbd5, 0x5a721c0a, 0x14fb86e4, 0x01922521)
  {}

  lemma Front13()
    ensures HalfRound(0x51660495, 0x43539503, 0x14fb86e4, 0x01922521, 0x4e5a6699, 0xa9f24fe0, 0x627bceb9, 0x999d5aaa)
  {}

  lemma Back13()
    ensures HalfRound(0x14fb86e4, 0x01922521, 0x51660495, 0x43539503, 0x7e572baa, 0xcdf8cdea, 0xc945ecf4, 0x23f56da5)
  {}

  lemma Start()
    ensures EncState(KEY0, 4, INPUT, 0) == STATE0
  {
    hide RoundKey;
    EarlyKeys();
    assert AddW(0x00112233, 0x00010203) == 0x00102030;
    assert AddW(0x44556677, 0x04050607) == 0x40506070;
    assert AddW(0x8899aabb, 0x08090a0b) == 0x8090a0b0;
    assert AddW(0xccddeeff, 0x0c0d0e0f) == 0xc0d0e0f0;
  }

  lemma EarlyStates()
    ensures EncState(KEY0, 4, INPUT, 6) == STATE6
  {
    hide EncState, RoundKey, HalfRound;
    Start();
    EarlyKeys();
    Front1();
    Back1();
    NextState(KEY0, INPUT, 1, STATE0, [KEY0[4], KEY0[5], KEY0[6], KEY0[7]], STATE1);
    Front2();
    Back2();
    NextState(KEY0, INPUT, 2, STATE1, [KEY1[0], KEY1[1], KEY1[2], KEY1[3]], STATE2);
    Front3();
    Back3();
    NextState(KEY0, INPUT, 3, STATE2, [KEY1[4], KEY1[5], KEY1[6], KEY1[7]], STATE3);
    Front4();
    Back4();
    NextState(KEY0, INPUT, 4, STATE3, [KEY2[0], KEY2[1], KEY2[2], KEY2[3]], STATE4);
    Front5();
    Back5();
    NextState(KEY0, INPUT, 5, STATE4, [KEY2[4], KEY2[5], KEY2[6], KEY2[7]], STATE5);
    Front6();
    Back6();
    NextState(KEY0, INPUT, 6, STATE5, [KEY3[0], KEY3[1], KEY3[2], KEY3[3]], STATE6);
  }

  lemma LateStates()
    ensures EncState(KEY0, 4, INPUT, 13) == STATE13
  {
    hide EncState, RoundKey, HalfRound;
    EarlyStates();
    LateKeys();
    Front7();
    Back7();
    NextState(KEY0, INPUT, 7, STATE6, [KEY3[4], KEY3[5], KEY3[6], KEY3[7]], STATE7);
    Front8();
    Back8();
    NextState(KEY0, INPUT, 8, STATE7, [KEY4[0], KEY4[1], KEY4[2], KEY4[3]], STATE8);
    Front9();
    Back9();
    NextState(KEY0, INPUT, 9, STATE8, [KEY4[4], KEY4[5], KEY4[6], KEY4[7]], STATE9);
    Front10();
    Back10();
    NextState(KEY0, INPUT, 10, STATE9, [KEY5[0], KEY5[1], KEY5[2], KEY5[3]], STATE10);
    Front11();
    Back11();
    NextState(KEY0, INPUT, 11, STATE10, [KEY5[4], KEY5[5], KEY5[6], KEY5[7]], STATE11);
    Front12();
    Back12();
    NextState(KEY0, INPUT, 12, STATE11, [KEY6[0], KEY6[1], KEY6[2], KEY6[3]], STATE12);
    Front13();
    Back13();
    NextState(KEY0, INPUT, 13, STATE12, [KEY6[4], KEY6[5], KEY6[6], KEY6[7]], STATE13);
  }

  lemma LastFront()
    ensures LastWord(0x627bceb9, 0x999d5aaa, 0xc945ecf4, 0x23f56da5, 0x24fc79cc) == 0x8ea2b7ca
    ensures LastWord(0x999d5aaa, 0xc945ecf4, 0x23f56da5, 0x627bceb9, 0xbf0979e9) == 0x516745bf
  {}

  lemma LastBack()
    ensures LastWord(0xc945ecf4, 0x23f56da5, 0x627bceb9, 0x999d5aaa, 0x371ac23c) == 0xeafc4990
    ensures LastWord(0x23f56da5, 0x627bceb9, 0x999d5aaa, 0xc945ecf4, 0x6d68de36) == 0x4b496089
  {}

  lemma InputPacked()
    ensures Pack(0x00, 0x11, 0x22, 0x33) == 0x00112233 &&
            Pack(0x44, 0x55, 0x66, 0x77) == 0x44556677 &&
            Pack(0x88, 0x99, 0xaa, 0xbb) == 0x8899aabb &&
            Pack(0xcc, 0xdd, 0xee, 0xff) == 0xccddeeff
  {}

  lemma OutputPacked()
    ensures Pack(0x8e, 0xa2, 0xb7, 0xca) == 0x8ea2b7ca &&
            Pack(0x51, 0x67, 0x45, 0xbf) == 0x516745bf &&
            Pack(0xea, 0xfc, 0x49, 0x90) == 0xeafc4990 &&
            Pack(0x4b, 0x49, 0x60, 0x89) == 0x4b496089
  {}

  lemma Words()
    ensures ToWords(PLAIN, 4) == INPUT && ToWords(SEALED, 4) == OUTPUT
  {
    hide Pack;
    InputPacked();
    OutputPacked();
  }

  /** The example of appendix C.3 of FIPS 197. */
  lemma Example()
    ensures EncryptedBlock(KEY0, 4, PLAIN) == SEALED && DecryptedBlock(KEY0, 4, SEALED) == PLAIN
  {
    hide EncState, RoundKey, LastWord, Cipher, ToWords, EncryptedBlock, DecryptedBlock;
    LateStates();
    LateKeys();
    LastFront();
    LastBack();
    LastState(KEY0, INPUT, STATE13, [KEY7[0], KEY7[1], KEY7[2], KEY7[3]], OUTPUT);
    Words();
    OnBytes(KEY0, INPUT, OUTPUT, PLAIN, SEALED);
  }
}
