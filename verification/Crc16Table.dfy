/** The table that `lib/crc.c` is compiled with is the table of x^16 + x^12 + x^5 + 1. */
module Crc16Table {
  import opened Bits
  import opened Crc16

  const CCITT: bv16 := 0x1021

  /** Four quarters of eight rows of eight entries. */
  const CRC16TAB: seq<seq<seq<bv16>>> := [
    [
      [0x0000, 0x1021, 0x2042, 0x3063, 0x4084, 0x50a5, 0x60c6, 0x70e7],
      [0x8108, 0x9129, 0xa14a, 0xb16b, 0xc18c, 0xd1ad, 0xe1ce, 0xf1ef],
      [0x1231, 0x0210, 0x3273, 0x2252, 0x52b5, 0x4294, 0x72f7, 0x62d6],
      [0x9339, 0x8318, 0xb37b, 0xa35a, 0xd3bd, 0xc39c, 0xf3ff, 0xe3de],
      [0x2462, 0x3443, 0x0420, 0x1401, 0x64e6, 0x74c7, 0x44a4, 0x5485],
      [0xa56a, 0xb54b, 0x8528, 0x9509, 0xe5ee, 0xf5cf, 0xc5ac, 0xd58d],
      [0x3653, 0x2672, 0x1611, 0x0630, 0x76d7, 0x66f6, 0x5695, 0x46b4],
      [0xb75b, 0xa77a, 0x9719, 0x8738, 0xf7df, 0xe7fe, 0xd79d, 0xc7bc]
    ],
    [
      [0x48c4, 0x58e5, 0x6886, 0x78a7, 0x0840, 0x1861, 0x2802, 0x3823],
      [0xc9cc, 0xd9ed, 0xe98e, 0xf9af, 0x8948, 0x9969, 0xa90a, 0xb92b],
      [0x5af5, 0x4ad4, 0x7ab7, 0x6a96, 0x1a71, 0x0a50, 0x3a33, 0x2a12],
      [0xdbfd, 0xcbdc, 0xfbbf, 0xeb9e, 0x9b79, 0x8b58, 0xbb3b, 0xab1a],
      [0x6ca6, 0x7c87, 0x4ce4, 0x5cc5, 0x2c22, 0x3c03, 0x0c60, 0x1c41],
      [0xedae, 0xfd8f, 0xcdec, 0xddcd, 0xad2a, 0xbd0b, 0x8d68, 0x9d49],
      [0x7e97, 0x6eb6, 0x5ed5, 0x4ef4, 0x3e13, 0x2e32, 0x1e51, 0x0e70],
      [0xff9f, 0xefbe, 0xdfdd, 0xcffc, 0xbf1b, 0xaf3a, 0x9f59, 0x8f78]
    ],
    [
      [0x9188, 0x81a9, 0xb1ca, 0xa1eb, 0xd10c, 0xc12d, 0xf14e, 0xe16f],
      [0x1080, 0x00a1, 0x30c2, 0x20e3, 0x5004, 0x4025, 0x7046, 0x6067],
      [0x83b9, 0x9398, 0xa3fb, 0xb3da, 0xc33d, 0xd31c, 0xe37f, 0xf35e],
      [0x02b1, 0x1290, 0x22f3, 0x32d2, 0x4235, 0x5214, 0x6277, 0x7256],
      [0xb5ea, 0xa5cb, 0x95a8, 0x8589, 0xf56e, 0xe54f, 0xd52c, 0xc50d],
      [0x34e2, 0x24c3, 0x14a0, 0x0481, 0x7466, 0x6447, 0x5424, 0x4405],
      [0xa7db, 0xb7fa, 0x8799, 0x97b8, 0xe75f, 0xf77e, 0xc71d, 0xd73c],
      [0x26d3, 0x36f2, 0x0691, 0x16b0, 0x6657, 0x7676, 0x4615, 0x5634]
    ],
    [
      [0xd94c, 0xc96d, 0xf90e, 0xe92f, 0x99c8, 0x89e9, 0xb98a, 0xa9ab],
      [0x5844, 0x4865, 0x7806, 0x6827, 0x18c0, 0x08e1, 0x3882, 0x28a3],
      [0xcb7d, 0xdb5c, 0xeb3f, 0xfb1e, 0x8bf9, 0x9bd8, 0xabbb, 0xbb9a],
      [0x4a75, 0x5a54, 0x6a37, 0x7a16, 0x0af1, 0x1ad0, 0x2ab3, 0x3a92],
      [0xfd2e, 0xed0f, 0xdd6c, 0xcd4d, 0xbdaa, 0xad8b, 0x9de8, 0x8dc9],
      [0x7c26, 0x6c07, 0x5c64, 0x4c45, 0x3ca2, 0x2c83, 0x1ce0, 0x0cc1],
      [0xef1f, 0xff3e, 0xcf5d, 0xdf7c, 0xaf9b, 0xbfba, 0x8fd9, 0x9ff8],
      [0x6e17, 0x7e36, 0x4e55, 0x5e74, 0x2e93, 0x3eb2, 0x0ed1, 0x1ef0]
    ]
  ]

  function TableRow(r: nat): (row: seq<bv16>)
    requires r < 32
    ensures |row| == 8
  {
    CRC16TAB[r / 8][r % 8]
  }

  /** The table as crc16 reads it. */
  function StaticTable(): (r: seq<bv16>)
    ensures |r| == 256
  {
    seq(256, i requires 0 <= i < 256 => TableRow(i / 8)[i % 8])
  }

  /** Eight zero bits into the register, without recursion. */
  function FeedEight(c: bv16): bv16 {
    Feed(Feed(Feed(Feed(Feed(Feed(Feed(Feed(c))))))))
  }

  function Feed(c: bv16): bv16 { if c & 0x8000 != 0 then (c << 1) ^ 0x1021 else c << 1 }

  function Entry(x: bv8): bv16 { FeedEight((x as bv16) << 8) }

  function EntryAt(i: nat): bv16
    requires i < 256
  {
    Entry(AsByte(i))
  }

  lemma FeedIsStep(c: bv16)
    ensures Feed(c) == StepBit(CCITT, c, false)
  {
    assert Xor(Shl(c), CCITT) == (c << 1) ^ 0x1021;
  }

  lemma EntryOnTop(x: bv8)
    ensures Entry(x) == FeedEight(OnTop(x))
  {
    hide FeedEight;
  }

  lemma EntryMeaning(x: bv8)
    ensures Entry(x) == RunBits(CCITT, 0, BitsOf(x))
  {
    EntryOnTop(x);
    hide OnTop, Xor, StepBit, RunBits, TestBit, Feed, Entry;
    var bits, none := BitsOf(x), XorBits(BitsOf(x), BitsOf(x));
    RunLinear(CCITT, OnTop(x), 0, bits, bits);
    XorSelf(OnTop(x));
    OnTopCancels(CCITT, x);
    XorComm(0, RunBits(CCITT, 0, bits));
    XorSelf(RunBits(CCITT, 0, bits));
    RunEight(CCITT, OnTop(x), none);
    forall c ensures Feed(c) == StepBit(CCITT, c, false) {
      FeedIsStep(c);
    }
  }

  lemma Rows0()
    ensures TableRow(0) == [Entry(0), Entry(1), Entry(2), Entry(3), Entry(4), Entry(5), Entry(6), Entry(7)]
    ensures TableRow(1) == [Entry(8), Entry(9), Entry(10), Entry(11), Entry(12), Entry(13), Entry(14), Entry(15)]
    ensures TableRow(2) == [Entry(16), Entry(17), Entry(18), Entry(19), Entry(20), Entry(21), Entry(22), Entry(23)]
    ensures TableRow(3) == [Entry(24), Entry(25), Entry(26), Entry(27), Entry(28), Entry(29), Entry(30), Entry(31)]
  {
  }

  lemma Rows1()
    ensures TableRow(4) == [Entry(32), Entry(33), Entry(34), Entry(35), Entry(36), Entry(37), Entry(38), Entry(39)]
    ensures TableRow(5) == [Entry(40), Entry(41), Entry(42), Entry(43), Entry(44), Entry(45), Entry(46), Entry(47)]
    ensures TableRow(6) == [Entry(48), Entry(49), Entry(50), Entry(51), Entry(52), Entry(53), Entry(54), Entry(55)]
    ensures TableRow(7) == [Entry(56), Entry(57), Entry(58), Entry(59), Entry(60), Entry(61), Entry(62), Entry(63)]
  {
  }

  lemma Rows2()
    ensures TableRow(8) == [Entry(64), Entry(65), Entry(66), Entry(67), Entry(68), Entry(69), Entry(70), Entry(71)]
    ensures TableRow(9) == [Entry(72), Entry(73), Entry(74), Entry(75), Entry(76), Entry(77), Entry(78), Entry(79)]
    ensures TableRow(10) == [Entry(80), Entry(81), Entry(82), Entry(83), Entry(84), Entry(85), Entry(86), Entry(87)]
    ensures TableRow(11) == [Entry(88), Entry(89), Entry(90), Entry(91), Entry(92), Entry(93), Entry(94), Entry(95)]
  {
  }

  lemma Rows3()
    ensures TableRow(12) == [Entry(96), Entry(97), Entry(98), Entry(99), Entry(100), Entry(101), Entry(102), Entry(103)]
    ensures TableRow(13) == [Entry(104), Entry(105), Entry(106), Entry(107), Entry(108), Entry(109), Entry(110), Entry(111)]
    ensures TableRow(14) == [Entry(112), Entry(113), Entry(114), Entry(115), Entry(116), Entry(117), Entry(118), Entry(119)]
    ensures TableRow(15) == [Entry(120), Entry(121), Entry(122), Entry(123), Entry(124), Entry(125), Entry(126), Entry(127)]
  {
  }

  lemma Rows4()
    ensures TableRow(16) == [Entry(128), Entry(129), Entry(130), Entry(131), Entry(132), Entry(133), Entry(134), Entry(135)]
    ensures TableRow(17) == [Entry(136), Entry(137), Entry(138), Entry(139), Entry(140), Entry(141), Entry(142), Entry(143)]
    ensures TableRow(18) == [Entry(144), Entry(145), Entry(146), Entry(147), Entry(148), Entry(149), Entry(150), Entry(151)]
    ensures TableRow(19) == [Entry(152), Entry(153), Entry(154), Entry(155), Entry(156), Entry(157), Entry(158), Entry(159)]
  {
  }

  lemma Rows5()
    ensures TableRow(20) == [Entry(160), Entry(161), Entry(162), Entry(163), Entry(164), Entry(165), Entry(166), Entry(167)]
    ensures TableRow(21) == [Entry(168), Entry(169), Entry(170), Entry(171), Entry(172), Entry(173), Entry(174), Entry(175)]
    ensures TableRow(22) == [Entry(176), Entry(177), Entry(178), Entry(179), Entry(180), Entry(181), Entry(182), Entry(183)]
    ensures TableRow(23) == [Entry(184), Entry(185), Entry(186), Entry(187), Entry(188), Entry(189), Entry(190), Entry(191)]
  {
  }

  lemma Rows6()
    ensures TableRow(24) == [Entry(192), Entry(193), Entry(194), Entry(195), Entry(196), Entry(197), Entry(198), Entry(199)]
    ensures TableRow(25) == [Entry(200), Entry(201), Entry(202), Entry(203), Entry(204), Entry(205), Entry(206), Entry(207)]
    ensures TableRow(26) == [Entry(208), Entry(209), Entry(210), Entry(211), Entry(212), Entry(213), Entry(214), Entry(215)]
    ensures TableRow(27) == [Entry(216), Entry(217), Entry(218), Entry(219), Entry(220), Entry(221), Entry(222), Entry(223)]
  {
  }

  lemma Rows7()
    ensures TableRow(28) == [Entry(224), Entry(225), Entry(226), Entry(227), Entry(228), Entry(229), Entry(230), Entry(231)]
    ensures TableRow(29) == [Entry(232), Entry(233), Entry(234), Entry(235), Entry(236), Entry(237), Entry(238), Entry(239)]
    ensures TableRow(30) == [Entry(240), Entry(241), Entry(242), Entry(243), Entry(244), Entry(245), Entry(246), Entry(247)]
    ensures TableRow(31) == [Entry(248), Entry(249), Entry(250), Entry(251), Entry(252), Entry(253), Entry(254), Entry(255)]
  {
  }

  /** Row r, entry by entry. */
  ghost predicate RowRight(r: nat)
    requires r < 32
  {
    forall i | 8 * r <= i < 8 * r + 8 :: TableRow(r)[i - 8 * r] == EntryAt(i)
  }

  lemma InRow(r: nat)
    requires r < 32
    requires TableRow(r) == [EntryAt(8 * r), EntryAt(8 * r + 1), EntryAt(8 * r + 2), EntryAt(8 * r + 3),
                             EntryAt(8 * r + 4), EntryAt(8 * r + 5), EntryAt(8 * r + 6), EntryAt(8 * r + 7)]
    ensures RowRight(r)
  {
    hide EntryAt, TableRow;
  }

  lemma Bytes0()
    ensures AsByte(0) == 0 && AsByte(1) == 1 && AsByte(2) == 2 && AsByte(3) == 3 && AsByte(4) == 4 && AsByte(5) == 5 && AsByte(6) == 6 && AsByte(7) == 7
    ensures AsByte(8) == 8 && AsByte(9) == 9 && AsByte(10) == 10 && AsByte(11) == 11 && AsByte(12) == 12 && AsByte(13) == 13 && AsByte(14) == 14 && AsByte(15) == 15
    ensures AsByte(16) == 16 && AsByte(17) == 17 && AsByte(18) == 18 && AsByte(19) == 19 && AsByte(20) == 20 && AsByte(21) == 21 && AsByte(22) == 22 && AsByte(23) == 23
    ensures AsByte(24) == 24 && AsByte(25) == 25 && AsByte(26) == 26 && AsByte(27) == 27 && AsByte(28) == 28 && AsByte(29) == 29 && AsByte(30) == 30 && AsByte(31) == 31
  {
  }

  lemma Bytes1()
    ensures AsByte(32) == 32 && AsByte(33) == 33 && AsByte(34) == 34 && AsByte(35) == 35 && AsByte(36) == 36 && AsByte(37) == 37 && AsByte(38) == 38 && AsByte(39) == 39
    ensures AsByte(40) == 40 && AsByte(41) == 41 && AsByte(42) == 42 && AsByte(43) == 43 && AsByte(44) == 44 && AsByte(45) == 45 && AsByte(46) == 46 && AsByte(47) == 47
    ensures AsByte(48) == 48 && AsByte(49) == 49 && AsByte(50) == 50 && AsByte(51) == 51 && AsByte(52) == 52 && AsByte(53) == 53 && AsByte(54) == 54 && AsByte(55) == 55
    ensures AsByte(56) == 56 && AsByte(57) == 57 && AsByte(58) == 58 && AsByte(59) == 59 && AsByte(60) == 60 && AsByte(61) == 61 && AsByte(62) == 62 && AsByte(63) == 63
  {
  }

  lemma Bytes2()
    ensures AsByte(64) == 64 && AsByte(65) == 65 && AsByte(66) == 66 && AsByte(67) == 67 && AsByte(68) == 68 && AsByte(69) == 69 && AsByte(70) == 70 && AsByte(71) == 71
    ensures AsByte(72) == 72 && AsByte(73) == 73 && AsByte(74) == 74 && AsByte(75) == 75 && AsByte(76) == 76 && AsByte(77) == 77 && AsByte(78) == 78 && AsByte(79) == 79
    ensures AsByte(80) == 80 && AsByte(81) == 81 && AsByte(82) == 82 && AsByte(83) == 83 && AsByte(84) == 84 && AsByte(85) == 85 && AsByte(86) == 86 && AsByte(87) == 87
    ensures AsByte(88) == 88 && AsByte(89) == 89 && AsByte(90) == 90 && AsByte(91) == 91 && AsByte(92) == 92 && AsByte(93) == 93 && AsByte(94) == 94 && AsByte(95) == 95
  {
  }

  lemma Bytes3()
    ensures AsByte(96) == 96 && AsByte(97) == 97 && AsByte(98) == 98 && AsByte(99) == 99 && AsByte(100) == 100 && AsByte(101) == 101 && AsByte(102) == 102 && AsByte(103) == 103
    ensures AsByte(104) == 104 && AsByte(105) == 105 && AsByte(106) == 106 && AsByte(107) == 107 && AsByte(108) == 108 && AsByte(109) == 109 && AsByte(110) == 110 && AsByte(111) == 111
    ensures AsByte(112) == 112 && AsByte(113) == 113 && AsByte(114) == 114 && AsByte(115) == 115 && AsByte(116) == 116 && AsByte(117) == 117 && AsByte(118) == 118 && AsByte(119) == 119
    ensures AsByte(120) == 120 && AsByte(121) == 121 && AsByte(122) == 122 && AsByte(123) == 123 && AsByte(124) == 124 && AsByte(125) == 125 && AsByte(126) == 126 && AsByte(127) == 127
  {
  }

  lemma Bytes4()
    ensures AsByte(128) == 128 && AsByte(129) == 129 && AsByte(130) == 130 && AsByte(131) == 131 && AsByte(132) == 132 && AsByte(133) == 133 && AsByte(134) == 134 && AsByte(135) == 135
    ensures AsByte(136) == 136 && AsByte(137) == 137 && AsByte(138) == 138 && AsByte(139) == 139 && AsByte(140) == 140 && AsByte(141) == 141 && AsByte(142) == 142 && AsByte(143) == 143
    ensures AsByte(144) == 144 && AsByte(145) == 145 && AsByte(146) == 146 && AsByte(147) == 147 && AsByte(148) == 148 && AsByte(149) == 149 && AsByte(150) == 150 && AsByte(151) == 151
    ensures AsByte(152) == 152 && AsByte(153) == 153 && AsByte(154) == 154 && AsByte(155) == 155 && AsByte(156) == 156 && AsByte(157) == 157 && AsByte(158) == 158 && AsByte(159) == 159
  {
  }

  lemma Bytes5()
    ensures AsByte(160) == 160 && AsByte(161) == 161 && AsByte(162) == 162 && AsByte(163) == 163 && AsByte(164) == 164 && AsByte(165) == 165 && AsByte(166) == 166 && AsByte(167) == 167
    ensures AsByte(168) == 168 && AsByte(169) == 169 && AsByte(170) == 170 && AsByte(171) == 171 && AsByte(172) == 172 && AsByte(173) == 173 && AsByte(174) == 174 && AsByte(175) == 175
    ensures AsByte(176) == 176 && AsByte(177) == 177 && AsByte(178) == 178 && AsByte(179) == 179 && AsByte(180) == 180 && AsByte(181) == 181 && AsByte(182) == 182 && AsByte(183) == 183
    ensures AsByte(184) == 184 && AsByte(185) == 185 && AsByte(186) == 186 && AsByte(187) == 187 && AsByte(188) == 188 && AsByte(189) == 189 && AsByte(190) == 190 && AsByte(191) == 191
  {
  }

  lemma Bytes6()
    ensures AsByte(192) == 192 && AsByte(193) == 193 && AsByte(194) == 194 && AsByte(195) == 195 && AsByte(196) == 196 && AsByte(197) == 197 && AsByte(198) == 198 && AsByte(199) == 199
    ensures AsByte(200) == 200 && AsByte(201) == 201 && AsByte(202) == 202 && AsByte(203) == 203 && AsByte(204) == 204 && AsByte(205) == 205 && AsByte(206) == 206 && AsByte(207) == 207
    ensures AsByte(208) == 208 && AsByte(209) == 209 && AsByte(210) == 210 && AsByte(211) == 211 && AsByte(212) == 212 && AsByte(213) == 213 && AsByte(214) == 214 && AsByte(215) == 215
    ensures AsByte(216) == 216 && AsByte(217) == 217 && AsByte(218) == 218 && AsByte(219) == 219 && AsByte(220) == 220 && AsByte(221) == 221 && AsByte(222) == 222 && AsByte(223) == 223
  {
  }

  lemma Bytes7()
    ensures AsByte(224) == 224 && AsByte(225) == 225 && AsByte(226) == 226 && AsByte(227) == 227 && AsByte(228) == 228 && AsByte(229) == 229 && AsByte(230) == 230 && AsByte(231) == 231
    ensures AsByte(232) == 232 && AsByte(233) == 233 && AsByte(234) == 234 && AsByte(235) == 235 && AsByte(236) == 236 && AsByte(237) == 237 && AsByte(238) == 238 && AsByte(239) == 239
    ensures AsByte(240) == 240 && AsByte(241) == 241 && AsByte(242) == 242 && AsByte(243) == 243 && AsByte(244) == 244 && AsByte(245) == 245 && AsByte(246) == 246 && AsByte(247) == 247
    ensures AsByte(248) == 248 && AsByte(249) == 249 && AsByte(250) == 250 && AsByte(251) == 251 && AsByte(252) == 252 && AsByte(253) == 253 && AsByte(254) == 254 && AsByte(255) == 255
  {
  }

  lemma RowsRight0()
    ensures RowRight(0) && RowRight(1) && RowRight(2) && RowRight(3)
  {
    hide Entry, AsByte, TableRow, RowRight;
    Rows0();
    Bytes0();
    InRow(0);
    InRow(1);
    InRow(2);
    InRow(3);
  }

  lemma RowsRight1()
    ensures RowRight(4) && RowRight(5) && RowRight(6) && RowRight(7)
  {
    hide Entry, AsByte, TableRow, RowRight;
    Rows1();
    Bytes1();
    InRow(4);
    InRow(5);
    InRow(6);
    InRow(7);
  }

  lemma RowsRight2()
    ensures RowRight(8) && RowRight(9) && RowRight(10) && RowRight(11)
  {
    hide Entry, AsByte, TableRow, RowRight;
    Rows2();
    Bytes2();
    InRow(8);
    InRow(9);
    InRow(10);
    InRow(11);
  }

  lemma RowsRight3()
    ensures RowRight(12) && RowRight(13) && RowRight(14) && RowRight(15)
  {
    hide Entry, AsByte, TableRow, RowRight;
    Rows3();
    Bytes3();
    InRow(12);
    InRow(13);
    InRow(14);
    InRow(15);
  }

  lemma RowsRight4()
    ensures RowRight(16) && RowRight(17) && RowRight(18) && RowRight(19)
  {
    hide Entry, AsByte, TableRow, RowRight;
    Rows4();
    Bytes4();
    InRow(16);
    InRow(17);
    InRow(18);
    InRow(19);
  }

  lemma RowsRight5()
    ensures RowRight(20) && RowRight(21) && RowRight(22) && RowRight(23)
  {
    hide Entry, AsByte, TableRow, RowRight;
    Rows5();
    Bytes5();
    InRow(20);
    InRow(21);
    InRow(22);
    InRow(23);
  }

  lemma RowsRight6()
    ensures RowRight(24) && RowRight(25) && RowRight(26) && RowRight(27)
  {
    hide Entry, AsByte, TableRow, RowRight;
    Rows6();
    Bytes6();
    InRow(24);
    InRow(25);
    InRow(26);
    InRow(27);
  }

  lemma RowsRight7()
    ensures RowRight(28) && RowRight(29) && RowRight(30) && RowRight(31)
  {
    hide Entry, AsByte, TableRow, RowRight;
    Rows7();
    Bytes7();
    InRow(28);
    InRow(29);
    InRow(30);
    InRow(31);
  }

  lemma AnyRowRight(r: nat)
    requires r < 32
    ensures RowRight(r)
  {
    hide *;
    if r < 4 { RowsRight0(); }
    else if r < 8 { RowsRight1(); }
    else if r < 12 { RowsRight2(); }
    else if r < 16 { RowsRight3(); }
    else if r < 20 { RowsRight4(); }
    else if r < 24 { RowsRight5(); }
    else if r < 28 { RowsRight6(); }
    else { RowsRight7(); }
  }

  lemma StaticTableIsTable()
    ensures IsTable(StaticTable(), CCITT)
  {
    hide Entry, RunBits, BitsOf, TableRow, Index;
    forall x: bv8 ensures StaticTable()[Index(x)] == RunBits(CCITT, 0, BitsOf(x)) {
      var i := Index(x);
      AnyRowRight(i / 8);
      assert TableRow(i / 8)[i - 8 * (i / 8)] == EntryAt(i);
      ByteRoundTrip(x);
      EntryMeaning(x);
    }
  }
}
