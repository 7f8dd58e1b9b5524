/** Arithmetic in GF(2^8) as the Reed–Solomon codec performs it: the shift-and-
    reduce multiplication modulo the primitive polynomial 0x11D, the exponent
    and logarithm tables built from it, and the table-driven operations.

    Field elements are `bv8`; addition is XOR. The table-driven operations
    take the codec's tables as a parameter and require them `Valid`, which
    `InitTablesCorrect` shows `init_tables` establishes. */
module GaloisField {
  import opened Outcomes

  /** x^8 + x^4 + x^3 + x^2 + 1 */
  const PRIMITIVE: bv16 := 0x11D

  /** The reduction step of `gf_mult_noLUT` on the source's wide integer:
      when the shift has set bit 8, clear it by XOR with the polynomial. */
  function Reduce(x: bv16): bv16
  {
    if x & 0x100 != 0 then x ^ PRIMITIVE else x
  }

  /** Multiplication by alpha = 2 on eight bits: shift left, and when bit 7
      was set (bit 8 after the shift), XOR with the low byte 0x1D of the
      polynomial. `XTimeIsReduce` shows this is the source's 16-bit step. */
  function XTime(x: bv8): bv8
  {
    (x << 1) ^ ((0 - (x >> 7)) & 0x1D)
  }

  lemma XTimeIsReduce(x: bv8)
    ensures XTime(x) as bv16 == Reduce((x as bv16) << 1)
  {
  }

  /** `gf_mult_noLUT`: carry-less multiplication of `x` by `y` reduced modulo
      `PRIMITIVE`, one bit of `y` per step, lowest first. */
  function MultNoLut(x: bv8, y: bv8): bv8
    decreases y
  {
    if y == 0 then 0
    else
      (if y & 1 == 1 then x else 0) ^ MultNoLut(XTime(x), y >> 1)
  }

  /** The no-table multiply by 2, the step `init_tables` takes between
      consecutive table entries, is `XTime`. */
  lemma DoubleIsXTime(x: bv8)
    ensures MultNoLut(x, 2) == XTime(x)
  {
    assert MultNoLut(XTime(x), 1) == XTime(x);
  }

  lemma XTimeNonZero(x: bv8)
    ensures XTime(x) == 0 <==> x == 0
  {
  }

  lemma XTimeLinear(a: bv8, b: bv8)
    ensures XTime(a ^ b) == XTime(a) ^ XTime(b)
  {
  }

  /** `z` multiplied by alpha^n, computed by n doublings. */
  function TimesAlpha(z: bv8, n: nat): bv8
  {
    if n == 0 then z else XTime(TimesAlpha(z, n - 1))
  }

  /** alpha^n */
  function AlphaPow(n: nat): bv8
  {
    TimesAlpha(1, n)
  }

  ghost predicate IsPower(x: bv8)
  {
    exists i: nat :: i < 255 && AlphaPow(i) == x
  }

  /* The powers of alpha = 2, listed sixteen at a time; each group is proved
     from the previous one by evaluating `XTime` on literals. */

  lemma AlphaPowers0()
    ensures AlphaPow(1) == 2
    ensures AlphaPow(2) == 4
    ensures AlphaPow(3) == 8
    ensures AlphaPow(4) == 16
    ensures AlphaPow(5) == 32
    ensures AlphaPow(6) == 64
    ensures AlphaPow(7) == 128
    ensures AlphaPow(8) == 29
    ensures AlphaPow(9) == 58
    ensures AlphaPow(10) == 116
    ensures AlphaPow(11) == 232
    ensures AlphaPow(12) == 205
    ensures AlphaPow(13) == 135
    ensures AlphaPow(14) == 19
    ensures AlphaPow(15) == 38
    ensures AlphaPow(16) == 76
  {
  }

  lemma AlphaPowers1()
    ensures AlphaPow(17) == 152
    ensures AlphaPow(18) == 45
    ensures AlphaPow(19) == 90
    ensures AlphaPow(20) == 180
    ensures AlphaPow(21) == 117
    ensures AlphaPow(22) == 234
    ensures AlphaPow(23) == 201
    ensures AlphaPow(24) == 143
    ensures AlphaPow(25) == 3
    ensures AlphaPow(26) == 6
    ensures AlphaPow(27) == 12
    ensures AlphaPow(28) == 24
    ensures AlphaPow(29) == 48
    ensures AlphaPow(30) == 96
    ensures AlphaPow(31) == 192
    ensures AlphaPow(32) == 157
  {
    AlphaPowers0();
  }

  lemma AlphaPowers2()
    ensures AlphaPow(33) == 39
    ensures AlphaPow(34) == 78
    ensures AlphaPow(35) == 156
    ensures AlphaPow(36) == 37
    ensures AlphaPow(37) == 74
    ensures AlphaPow(38) == 148
    ensures AlphaPow(39) == 53
    ensures AlphaPow(40) == 106
    ensures AlphaPow(41) == 212
    ensures AlphaPow(42) == 181
    ensures AlphaPow(43) == 119
    ensures AlphaPow(44) == 238
    ensures AlphaPow(45) == 193
    ensures AlphaPow(46) == 159
    ensures AlphaPow(47) == 35
    ensures AlphaPow(48) == 70
  {
    AlphaPowers1();
  }

  lemma AlphaPowers3()
    ensures AlphaPow(49) == 140
    ensures AlphaPow(50) == 5
    ensures AlphaPow(51) == 10
    ensures AlphaPow(52) == 20
    ensures AlphaPow(53) == 40
    ensures AlphaPow(54) == 80
    ensures AlphaPow(55) == 160
    ensures AlphaPow(56) == 93
    ensures AlphaPow(57) == 186
    ensures AlphaPow(58) == 105
    ensures AlphaPow(59) == 210
    ensures AlphaPow(60) == 185
    ensures AlphaPow(61) == 111
    ensures AlphaPow(62) == 222
    ensures AlphaPow(63) == 161
    ensures AlphaPow(64) == 95
  {
    AlphaPowers2();
  }

  lemma AlphaPowers4()
    ensures AlphaPow(65) == 190
    ensures AlphaPow(66) == 97
    ensures AlphaPow(67) == 194
    ensures AlphaPow(68) == 153
    ensures AlphaPow(69) == 47
    ensures AlphaPow(70) == 94
    ensures AlphaPow(71) == 188
    ensures AlphaPow(72) == 101
    ensures AlphaPow(73) == 202
    ensures AlphaPow(74) == 137
    ensures AlphaPow(75) == 15
    ensures AlphaPow(76) == 30
    ensures AlphaPow(77) == 60
    ensures AlphaPow(78) == 120
    ensures AlphaPow(79) == 240
    ensures AlphaPow(80) == 253
  {
    AlphaPowers3();
  }

  lemma AlphaPowers5()
    ensures AlphaPow(81) == 231
    ensures AlphaPow(82) == 211
    ensures AlphaPow(83) == 187
    ensures AlphaPow(84) == 107
    ensures AlphaPow(85) == 214
    ensures AlphaPow(86) == 177
    ensures AlphaPow(87) == 127
    ensures AlphaPow(88) == 254
    ensures AlphaPow(89) == 225
    ensures AlphaPow(90) == 223
    ensures AlphaPow(91) == 163
    ensures AlphaPow(92) == 91
    ensures AlphaPow(93) == 182
    ensures AlphaPow(94) == 113
    ensures AlphaPow(95) == 226
    ensures AlphaPow(96) == 217
  {
    AlphaPowers4();
  }

  lemma AlphaPowers6()
    ensures AlphaPow(97) == 175
    ensures AlphaPow(98) == 67
    ensures AlphaPow(99) == 134
    ensures AlphaPow(100) == 17
    ensures AlphaPow(101) == 34
    ensures AlphaPow(102) == 68
    ensures AlphaPow(103) == 136
    ensures AlphaPow(104) == 13
    ensures AlphaPow(105) == 26
    ensures AlphaPow(106) == 52
    ensures AlphaPow(107) == 104
    ensures AlphaPow(108) == 208
    ensures AlphaPow(109) == 189
    ensures AlphaPow(110) == 103
    ensures AlphaPow(111) == 206
    ensures AlphaPow(112) == 129
  {
    AlphaPowers5();
  }

  lemma AlphaPowers7()
    ensures AlphaPow(113) == 31
    ensures AlphaPow(114) == 62
    ensures AlphaPow(115) == 124
    ensures AlphaPow(116) == 248
    ensures AlphaPow(117) == 237
    ensures AlphaPow(118) == 199
    ensures AlphaPow(119) == 147
    ensures AlphaPow(120) == 59
    ensures AlphaPow(121) == 118
    ensures AlphaPow(122) == 236
    ensures AlphaPow(123) == 197
    ensures AlphaPow(124) == 151
    ensures AlphaPow(125) == 51
    ensures AlphaPow(126) == 102
    ensures AlphaPow(127) == 204
    ensures AlphaPow(128) == 133
  {
    AlphaPowers6();
  }

  lemma AlphaPowers8()
    ensures AlphaPow(129) == 23
    ensures AlphaPow(130) == 46
    ensures AlphaPow(131) == 92
    ensures AlphaPow(132) == 184
    ensures AlphaPow(133) == 109
    ensures AlphaPow(134) == 218
    ensures AlphaPow(135) == 169
    ensures AlphaPow(136) == 79
    ensures AlphaPow(137) == 158
    ensures AlphaPow(138) == 33
    ensures AlphaPow(139) == 66
    ensures AlphaPow(140) == 132
    ensures AlphaPow(141) == 21
    ensures AlphaPow(142) == 42
    ensures AlphaPow(143) == 84
    ensures AlphaPow(144) == 168
  {
    AlphaPowers7();
  }

  lemma AlphaPowers9()
    ensures AlphaPow(145) == 77
    ensures AlphaPow(146) == 154
    ensures AlphaPow(147) == 41
    ensures AlphaPow(148) == 82
    ensures AlphaPow(149) == 164
    ensures AlphaPow(150) == 85
    ensures AlphaPow(151) == 170
    ensures AlphaPow(152) == 73
    ensures AlphaPow(153) == 146
    ensures AlphaPow(154) == 57
    ensures AlphaPow(155) == 114
    ensures AlphaPow(156) == 228
    ensures AlphaPow(157) == 213
    ensures AlphaPow(158) == 183
    ensures AlphaPow(159) == 115
    ensures AlphaPow(160) == 230
  {
    AlphaPowers8();
  }

  lemma AlphaPowers10()
    ensures AlphaPow(161) == 209
    ensures AlphaPow(162) == 191
    ensures AlphaPow(163) == 99
    ensures AlphaPow(164) == 198
    ensures AlphaPow(165) == 145
    ensures AlphaPow(166) == 63
    ensures AlphaPow(167) == 126
    ensures AlphaPow(168) == 252
    ensures AlphaPow(169) == 229
    ensures AlphaPow(170) == 215
    ensures AlphaPow(171) == 179
    ensures AlphaPow(172) == 123
    ensures AlphaPow(173) == 246
    ensures AlphaPow(174) == 241
    ensures AlphaPow(175) == 255
    ensures AlphaPow(176) == 227
  {
    AlphaPowers9();
  }

  lemma AlphaPowers11()
    ensures AlphaPow(177) == 219
    ensures AlphaPow(178) == 171
    ensures AlphaPow(179) == 75
    ensures AlphaPow(180) == 150
    ensures AlphaPow(181) == 49
    ensures AlphaPow(182) == 98
    ensures AlphaPow(183) == 196
    ensures AlphaPow(184) == 149
    ensures AlphaPow(185) == 55
    ensures AlphaPow(186) == 110
    ensures AlphaPow(187) == 220
    ensures AlphaPow(188) == 165
    ensures AlphaPow(189) == 87
    ensures AlphaPow(190) == 174
    ensures AlphaPow(191) == 65
    ensures AlphaPow(192) == 130
  {
    AlphaPowers10();
  }

  lemma AlphaPowers12()
    ensures AlphaPow(193) == 25
    ensures AlphaPow(194) == 50
    ensures AlphaPow(195) == 100
    ensures AlphaPow(196) == 200
    ensures AlphaPow(197) == 141
    ensures AlphaPow(198) == 7
    ensures AlphaPow(199) == 14
    ensures AlphaPow(200) == 28
    ensures AlphaPow(201) == 56
    ensures AlphaPow(202) == 112
    ensures AlphaPow(203) == 224
    ensures AlphaPow(204) == 221
    ensures AlphaPow(205) == 167
    ensures AlphaPow(206) == 83
    ensures AlphaPow(207) == 166
    ensures AlphaPow(208) == 81
  {
    AlphaPowers11();
  }

  lemma AlphaPowers13()
    ensures AlphaPow(209) == 162
    ensures AlphaPow(210) == 89
    ensures AlphaPow(211) == 178
    ensures AlphaPow(212) == 121
    ensures AlphaPow(213) == 242
    ensures AlphaPow(214) == 249
    ensures AlphaPow(215) == 239
    ensures AlphaPow(216) == 195
    ensures AlphaPow(217) == 155
    ensures AlphaPow(218) == 43
    ensures AlphaPow(219) == 86
    ensures AlphaPow(220) == 172
    ensures AlphaPow(221) == 69
    ensures AlphaPow(222) == 138
    ensures AlphaPow(223) == 9
    ensures AlphaPow(224) == 18
  {
    AlphaPowers12();
  }

  lemma AlphaPowers14()
    ensures AlphaPow(225) == 36
    ensures AlphaPow(226) == 72
    ensures AlphaPow(227) == 144
    ensures AlphaPow(228) == 61
    ensures AlphaPow(229) == 122
    ensures AlphaPow(230) == 244
    ensures AlphaPow(231) == 245
    ensures AlphaPow(232) == 247
    ensures AlphaPow(233) == 243
    ensures AlphaPow(234) == 251
    ensures AlphaPow(235) == 235
    ensures AlphaPow(236) == 203
    ensures AlphaPow(237) == 139
    ensures AlphaPow(238) == 11
    ensures AlphaPow(239) == 22
    ensures AlphaPow(240) == 44
  {
    AlphaPowers13();
  }

  lemma AlphaPowers15()
    ensures AlphaPow(241) == 88
    ensures AlphaPow(242) == 176
    ensures AlphaPow(243) == 125
    ensures AlphaPow(244) == 250
    ensures AlphaPow(245) == 233
    ensures AlphaPow(246) == 207
    ensures AlphaPow(247) == 131
    ensures AlphaPow(248) == 27
    ensures AlphaPow(249) == 54
    ensures AlphaPow(250) == 108
    ensures AlphaPow(251) == 216
    ensures AlphaPow(252) == 173
    ensures AlphaPow(253) == 71
    ensures AlphaPow(254) == 142
    ensures AlphaPow(255) == 1
  {
    AlphaPowers14();
  }

  lemma PowersCover0(x: bv8)
    requires 1 <= x <= 16
    ensures IsPower(x)
  {
    AlphaPowers0();
    AlphaPowers1();
    AlphaPowers3();
    AlphaPowers4();
    AlphaPowers6();
    AlphaPowers12();
    AlphaPowers13();
    AlphaPowers14();
    if x == 1 {
      assert AlphaPow(0) == 1;
    } else if x == 2 {
      assert AlphaPow(1) == 2;
    } else if x == 3 {
      assert AlphaPow(25) == 3;
    } else if x == 4 {
      assert AlphaPow(2) == 4;
    } else if x == 5 {
      assert AlphaPow(50) == 5;
    } else if x == 6 {
      assert AlphaPow(26) == 6;
    } else if x == 7 {
      assert AlphaPow(198) == 7;
    } else if x == 8 {
      assert AlphaPow(3) == 8;
    } else if x == 9 {
      assert AlphaPow(223) == 9;
    } else if x == 10 {
      assert AlphaPow(51) == 10;
    } else if x == 11 {
      assert AlphaPow(238) == 11;
    } else if x == 12 {
      assert AlphaPow(27) == 12;
    } else if x == 13 {
      assert AlphaPow(104) == 13;
    } else if x == 14 {
      assert AlphaPow(199) == 14;
    } else if x == 15 {
      assert AlphaPow(75) == 15;
    } else {
      assert x == 16 && AlphaPow(4) == 16;
    }
  }

  lemma PowersCover1(x: bv8)
    requires 17 <= x <= 32
    ensures IsPower(x)
  {
    AlphaPowers0();
    AlphaPowers1();
    AlphaPowers3();
    AlphaPowers4();
    AlphaPowers6();
    AlphaPowers7();
    AlphaPowers8();
    AlphaPowers12();
    AlphaPowers13();
    AlphaPowers14();
    AlphaPowers15();
    if x == 17 {
      assert AlphaPow(100) == 17;
    } else if x == 18 {
      assert AlphaPow(224) == 18;
    } else if x == 19 {
      assert AlphaPow(14) == 19;
    } else if x == 20 {
      assert AlphaPow(52) == 20;
    } else if x == 21 {
      assert AlphaPow(141) == 21;
    } else if x == 22 {
      assert AlphaPow(239) == 22;
    } else if x == 23 {
      assert AlphaPow(129) == 23;
    } else if x == 24 {
      assert AlphaPow(28) == 24;
    } else if x == 25 {
      assert AlphaPow(193) == 25;
    } else if x == 26 {
      assert AlphaPow(105) == 26;
    } else if x == 27 {
      assert AlphaPow(248) == 27;
    } else if x == 28 {
      assert AlphaPow(200) == 28;
    } else if x == 29 {
      assert AlphaPow(8) == 29;
    } else if x == 30 {
      assert AlphaPow(76) == 30;
    } else if x == 31 {
      assert AlphaPow(113) == 31;
    } else {
      assert x == 32 && AlphaPow(5) == 32;
    }
  }

  lemma PowersCover2(x: bv8)
    requires 33 <= x <= 48
    ensures IsPower(x)
  {
    AlphaPowers0();
    AlphaPowers1();
    AlphaPowers2();
    AlphaPowers3();
    AlphaPowers4();
    AlphaPowers6();
    AlphaPowers8();
    AlphaPowers9();
    AlphaPowers13();
    AlphaPowers14();
    if x == 33 {
      assert AlphaPow(138) == 33;
    } else if x == 34 {
      assert AlphaPow(101) == 34;
    } else if x == 35 {
      assert AlphaPow(47) == 35;
    } else if x == 36 {
      assert AlphaPow(225) == 36;
    } else if x == 37 {
      assert AlphaPow(36) == 37;
    } else if x == 38 {
      assert AlphaPow(15) == 38;
    } else if x == 39 {
      assert AlphaPow(33) == 39;
    } else if x == 40 {
      assert AlphaPow(53) == 40;
    } else if x == 41 {
      assert AlphaPow(147) == 41;
    } else if x == 42 {
      assert AlphaPow(142) == 42;
    } else if x == 43 {
      assert AlphaPow(218) == 43;
    } else if x == 44 {
      assert AlphaPow(240) == 44;
    } else if x == 45 {
      assert AlphaPow(18) == 45;
    } else if x == 46 {
      assert AlphaPow(130) == 46;
    } else if x == 47 {
      assert AlphaPow(69) == 47;
    } else {
      assert x == 48 && AlphaPow(29) == 48;
    }
  }

  lemma PowersCover3(x: bv8)
    requires 49 <= x <= 64
    ensures IsPower(x)
  {
    AlphaPowers0();
    AlphaPowers2();
    AlphaPowers4();
    AlphaPowers6();
    AlphaPowers7();
    AlphaPowers9();
    AlphaPowers10();
    AlphaPowers11();
    AlphaPowers12();
    AlphaPowers14();
    AlphaPowers15();
    if x == 49 {
      assert AlphaPow(181) == 49;
    } else if x == 50 {
      assert AlphaPow(194) == 50;
    } else if x == 51 {
      assert AlphaPow(125) == 51;
    } else if x == 52 {
      assert AlphaPow(106) == 52;
    } else if x == 53 {
      assert AlphaPow(39) == 53;
    } else if x == 54 {
      assert AlphaPow(249) == 54;
    } else if x == 55 {
      assert AlphaPow(185) == 55;
    } else if x == 56 {
      assert AlphaPow(201) == 56;
    } else if x == 57 {
      assert AlphaPow(154) == 57;
    } else if x == 58 {
      assert AlphaPow(9) == 58;
    } else if x == 59 {
      assert AlphaPow(120) == 59;
    } else if x == 60 {
      assert AlphaPow(77) == 60;
    } else if x == 61 {
      assert AlphaPow(228) == 61;
    } else if x == 62 {
      assert AlphaPow(114) == 62;
    } else if x == 63 {
      assert AlphaPow(166) == 63;
    } else {
      assert x == 64 && AlphaPow(6) == 64;
    }
  }

  lemma PowersCover4(x: bv8)
    requires 65 <= x <= 80
    ensures IsPower(x)
  {
    AlphaPowers0();
    AlphaPowers2();
    AlphaPowers3();
    AlphaPowers6();
    AlphaPowers8();
    AlphaPowers9();
    AlphaPowers11();
    AlphaPowers13();
    AlphaPowers14();
    AlphaPowers15();
    if x == 65 {
      assert AlphaPow(191) == 65;
    } else if x == 66 {
      assert AlphaPow(139) == 66;
    } else if x == 67 {
      assert AlphaPow(98) == 67;
    } else if x == 68 {
      assert AlphaPow(102) == 68;
    } else if x == 69 {
      assert AlphaPow(221) == 69;
    } else if x == 70 {
      assert AlphaPow(48) == 70;
    } else if x == 71 {
      assert AlphaPow(253) == 71;
    } else if x == 72 {
      assert AlphaPow(226) == 72;
    } else if x == 73 {
      assert AlphaPow(152) == 73;
    } else if x == 74 {
      assert AlphaPow(37) == 74;
    } else if x == 75 {
      assert AlphaPow(179) == 75;
    } else if x == 76 {
      assert AlphaPow(16) == 76;
    } else if x == 77 {
      assert AlphaPow(145) == 77;
    } else if x == 78 {
      assert AlphaPow(34) == 78;
    } else if x == 79 {
      assert AlphaPow(136) == 79;
    } else {
      assert x == 80 && AlphaPow(54) == 80;
    }
  }

  lemma PowersCover5(x: bv8)
    requires 81 <= x <= 96
    ensures IsPower(x)
  {
    AlphaPowers1();
    AlphaPowers3();
    AlphaPowers4();
    AlphaPowers5();
    AlphaPowers8();
    AlphaPowers9();
    AlphaPowers11();
    AlphaPowers12();
    AlphaPowers13();
    AlphaPowers15();
    if x == 81 {
      assert AlphaPow(208) == 81;
    } else if x == 82 {
      assert AlphaPow(148) == 82;
    } else if x == 83 {
      assert AlphaPow(206) == 83;
    } else if x == 84 {
      assert AlphaPow(143) == 84;
    } else if x == 85 {
      assert AlphaPow(150) == 85;
    } else if x == 86 {
      assert AlphaPow(219) == 86;
    } else if x == 87 {
      assert AlphaPow(189) == 87;
    } else if x == 88 {
      assert AlphaPow(241) == 88;
    } else if x == 89 {
      assert AlphaPow(210) == 89;
    } else if x == 90 {
      assert AlphaPow(19) == 90;
    } else if x == 91 {
      assert AlphaPow(92) == 91;
    } else if x == 92 {
      assert AlphaPow(131) == 92;
    } else if x == 93 {
      assert AlphaPow(56) == 93;
    } else if x == 94 {
      assert AlphaPow(70) == 94;
    } else if x == 95 {
      assert AlphaPow(64) == 95;
    } else {
      assert x == 96 && AlphaPow(30) == 96;
    }
  }

  lemma PowersCover6(x: bv8)
    requires 97 <= x <= 112
    ensures IsPower(x)
  {
    AlphaPowers2();
    AlphaPowers3();
    AlphaPowers4();
    AlphaPowers5();
    AlphaPowers6();
    AlphaPowers7();
    AlphaPowers8();
    AlphaPowers10();
    AlphaPowers11();
    AlphaPowers12();
    AlphaPowers15();
    if x == 97 {
      assert AlphaPow(66) == 97;
    } else if x == 98 {
      assert AlphaPow(182) == 98;
    } else if x == 99 {
      assert AlphaPow(163) == 99;
    } else if x == 100 {
      assert AlphaPow(195) == 100;
    } else if x == 101 {
      assert AlphaPow(72) == 101;
    } else if x == 102 {
      assert AlphaPow(126) == 102;
    } else if x == 103 {
      assert AlphaPow(110) == 103;
    } else if x == 104 {
      assert AlphaPow(107) == 104;
    } else if x == 105 {
      assert AlphaPow(58) == 105;
    } else if x == 106 {
      assert AlphaPow(40) == 106;
    } else if x == 107 {
      assert AlphaPow(84) == 107;
    } else if x == 108 {
      assert AlphaPow(250) == 108;
    } else if x == 109 {
      assert AlphaPow(133) == 109;
    } else if x == 110 {
      assert AlphaPow(186) == 110;
    } else if x == 111 {
      assert AlphaPow(61) == 111;
    } else {
      assert x == 112 && AlphaPow(202) == 112;
    }
  }

  lemma PowersCover7(x: bv8)
    requires 113 <= x <= 128
    ensures IsPower(x)
  {
    AlphaPowers0();
    AlphaPowers1();
    AlphaPowers2();
    AlphaPowers4();
    AlphaPowers5();
    AlphaPowers7();
    AlphaPowers9();
    AlphaPowers10();
    AlphaPowers13();
    AlphaPowers14();
    AlphaPowers15();
    if x == 113 {
      assert AlphaPow(94) == 113;
    } else if x == 114 {
      assert AlphaPow(155) == 114;
    } else if x == 115 {
      assert AlphaPow(159) == 115;
    } else if x == 116 {
      assert AlphaPow(10) == 116;
    } else if x == 117 {
      assert AlphaPow(21) == 117;
    } else if x == 118 {
      assert AlphaPow(121) == 118;
    } else if x == 119 {
      assert AlphaPow(43) == 119;
    } else if x == 120 {
      assert AlphaPow(78) == 120;
    } else if x == 121 {
      assert AlphaPow(212) == 121;
    } else if x == 122 {
      assert AlphaPow(229) == 122;
    } else if x == 123 {
      assert AlphaPow(172) == 123;
    } else if x == 124 {
      assert AlphaPow(115) == 124;
    } else if x == 125 {
      assert AlphaPow(243) == 125;
    } else if x == 126 {
      assert AlphaPow(167) == 126;
    } else if x == 127 {
      assert AlphaPow(87) == 127;
    } else {
      assert x == 128 && AlphaPow(7) == 128;
    }
  }

  lemma PowersCover8(x: bv8)
    requires 129 <= x <= 144
    ensures IsPower(x)
  {
    AlphaPowers0();
    AlphaPowers1();
    AlphaPowers3();
    AlphaPowers4();
    AlphaPowers6();
    AlphaPowers7();
    AlphaPowers8();
    AlphaPowers11();
    AlphaPowers12();
    AlphaPowers13();
    AlphaPowers14();
    AlphaPowers15();
    if x == 129 {
      assert AlphaPow(112) == 129;
    } else if x == 130 {
      assert AlphaPow(192) == 130;
    } else if x == 131 {
      assert AlphaPow(247) == 131;
    } else if x == 132 {
      assert AlphaPow(140) == 132;
    } else if x == 133 {
      assert AlphaPow(128) == 133;
    } else if x == 134 {
      assert AlphaPow(99) == 134;
    } else if x == 135 {
      assert AlphaPow(13) == 135;
    } else if x == 136 {
      assert AlphaPow(103) == 136;
    } else if x == 137 {
      assert AlphaPow(74) == 137;
    } else if x == 138 {
      assert AlphaPow(222) == 138;
    } else if x == 139 {
      assert AlphaPow(237) == 139;
    } else if x == 140 {
      assert AlphaPow(49) == 140;
    } else if x == 141 {
      assert AlphaPow(197) == 141;
    } else if x == 142 {
      assert AlphaPow(254) == 142;
    } else if x == 143 {
      assert AlphaPow(24) == 143;
    } else {
      assert x == 144 && AlphaPow(227) == 144;
    }
  }

  lemma PowersCover9(x: bv8)
    requires 145 <= x <= 160
    ensures IsPower(x)
  {
    AlphaPowers1();
    AlphaPowers2();
    AlphaPowers3();
    AlphaPowers4();
    AlphaPowers7();
    AlphaPowers8();
    AlphaPowers9();
    AlphaPowers10();
    AlphaPowers11();
    AlphaPowers13();
    if x == 145 {
      assert AlphaPow(165) == 145;
    } else if x == 146 {
      assert AlphaPow(153) == 146;
    } else if x == 147 {
      assert AlphaPow(119) == 147;
    } else if x == 148 {
      assert AlphaPow(38) == 148;
    } else if x == 149 {
      assert AlphaPow(184) == 149;
    } else if x == 150 {
      assert AlphaPow(180) == 150;
    } else if x == 151 {
      assert AlphaPow(124) == 151;
    } else if x == 152 {
      assert AlphaPow(17) == 152;
    } else if x == 153 {
      assert AlphaPow(68) == 153;
    } else if x == 154 {
      assert AlphaPow(146) == 154;
    } else if x == 155 {
      assert AlphaPow(217) == 155;
    } else if x == 156 {
      assert AlphaPow(35) == 156;
    } else if x == 157 {
      assert AlphaPow(32) == 157;
    } else if x == 158 {
      assert AlphaPow(137) == 158;
    } else if x == 159 {
      assert AlphaPow(46) == 159;
    } else {
      assert x == 160 && AlphaPow(55) == 160;
    }
  }

  lemma PowersCover10(x: bv8)
    requires 161 <= x <= 176
    ensures IsPower(x)
  {
    AlphaPowers3();
    AlphaPowers5();
    AlphaPowers6();
    AlphaPowers8();
    AlphaPowers9();
    AlphaPowers11();
    AlphaPowers12();
    AlphaPowers13();
    AlphaPowers15();
    if x == 161 {
      assert AlphaPow(63) == 161;
    } else if x == 162 {
      assert AlphaPow(209) == 162;
    } else if x == 163 {
      assert AlphaPow(91) == 163;
    } else if x == 164 {
      assert AlphaPow(149) == 164;
    } else if x == 165 {
      assert AlphaPow(188) == 165;
    } else if x == 166 {
      assert AlphaPow(207) == 166;
    } else if x == 167 {
      assert AlphaPow(205) == 167;
    } else if x == 168 {
      assert AlphaPow(144) == 168;
    } else if x == 169 {
      assert AlphaPow(135) == 169;
    } else if x == 170 {
      assert AlphaPow(151) == 170;
    } else if x == 171 {
      assert AlphaPow(178) == 171;
    } else if x == 172 {
      assert AlphaPow(220) == 172;
    } else if x == 173 {
      assert AlphaPow(252) == 173;
    } else if x == 174 {
      assert AlphaPow(190) == 174;
    } else if x == 175 {
      assert AlphaPow(97) == 175;
    } else {
      assert x == 176 && AlphaPow(242) == 176;
    }
  }

  lemma PowersCover11(x: bv8)
    requires 177 <= x <= 192
    ensures IsPower(x)
  {
    AlphaPowers1();
    AlphaPowers2();
    AlphaPowers3();
    AlphaPowers4();
    AlphaPowers5();
    AlphaPowers6();
    AlphaPowers8();
    AlphaPowers9();
    AlphaPowers10();
    AlphaPowers13();
    if x == 177 {
      assert AlphaPow(86) == 177;
    } else if x == 178 {
      assert AlphaPow(211) == 178;
    } else if x == 179 {
      assert AlphaPow(171) == 179;
    } else if x == 180 {
      assert AlphaPow(20) == 180;
    } else if x == 181 {
      assert AlphaPow(42) == 181;
    } else if x == 182 {
      assert AlphaPow(93) == 182;
    } else if x == 183 {
      assert AlphaPow(158) == 183;
    } else if x == 184 {
      assert AlphaPow(132) == 184;
    } else if x == 185 {
      assert AlphaPow(60) == 185;
    } else if x == 186 {
      assert AlphaPow(57) == 186;
    } else if x == 187 {
      assert AlphaPow(83) == 187;
    } else if x == 188 {
      assert AlphaPow(71) == 188;
    } else if x == 189 {
      assert AlphaPow(109) == 189;
    } else if x == 190 {
      assert AlphaPow(65) == 190;
    } else if x == 191 {
      assert AlphaPow(162) == 191;
    } else {
      assert x == 192 && AlphaPow(31) == 192;
    }
  }

  lemma PowersCover12(x: bv8)
    requires 193 <= x <= 208
    ensures IsPower(x)
  {
    AlphaPowers0();
    AlphaPowers1();
    AlphaPowers2();
    AlphaPowers4();
    AlphaPowers6();
    AlphaPowers7();
    AlphaPowers10();
    AlphaPowers11();
    AlphaPowers12();
    AlphaPowers13();
    AlphaPowers14();
    AlphaPowers15();
    if x == 193 {
      assert AlphaPow(45) == 193;
    } else if x == 194 {
      assert AlphaPow(67) == 194;
    } else if x == 195 {
      assert AlphaPow(216) == 195;
    } else if x == 196 {
      assert AlphaPow(183) == 196;
    } else if x == 197 {
      assert AlphaPow(123) == 197;
    } else if x == 198 {
      assert AlphaPow(164) == 198;
    } else if x == 199 {
      assert AlphaPow(118) == 199;
    } else if x == 200 {
      assert AlphaPow(196) == 200;
    } else if x == 201 {
      assert AlphaPow(23) == 201;
    } else if x == 202 {
      assert AlphaPow(73) == 202;
    } else if x == 203 {
      assert AlphaPow(236) == 203;
    } else if x == 204 {
      assert AlphaPow(127) == 204;
    } else if x == 205 {
      assert AlphaPow(12) == 205;
    } else if x == 206 {
      assert AlphaPow(111) == 206;
    } else if x == 207 {
      assert AlphaPow(246) == 207;
    } else {
      assert x == 208 && AlphaPow(108) == 208;
    }
  }

  lemma PowersCover13(x: bv8)
    requires 209 <= x <= 224
    ensures IsPower(x)
  {
    AlphaPowers2();
    AlphaPowers3();
    AlphaPowers5();
    AlphaPowers8();
    AlphaPowers9();
    AlphaPowers10();
    AlphaPowers11();
    AlphaPowers12();
    AlphaPowers15();
    if x == 209 {
      assert AlphaPow(161) == 209;
    } else if x == 210 {
      assert AlphaPow(59) == 210;
    } else if x == 211 {
      assert AlphaPow(82) == 211;
    } else if x == 212 {
      assert AlphaPow(41) == 212;
    } else if x == 213 {
      assert AlphaPow(157) == 213;
    } else if x == 214 {
      assert AlphaPow(85) == 214;
    } else if x == 215 {
      assert AlphaPow(170) == 215;
    } else if x == 216 {
      assert AlphaPow(251) == 216;
    } else if x == 217 {
      assert AlphaPow(96) == 217;
    } else if x == 218 {
      assert AlphaPow(134) == 218;
    } else if x == 219 {
      assert AlphaPow(177) == 219;
    } else if x == 220 {
      assert AlphaPow(187) == 220;
    } else if x == 221 {
      assert AlphaPow(204) == 221;
    } else if x == 222 {
      assert AlphaPow(62) == 222;
    } else if x == 223 {
      assert AlphaPow(90) == 223;
    } else {
      assert x == 224 && AlphaPow(203) == 224;
    }
  }

  lemma PowersCover14(x: bv8)
    requires 225 <= x <= 240
    ensures IsPower(x)
  {
    AlphaPowers0();
    AlphaPowers1();
    AlphaPowers2();
    AlphaPowers4();
    AlphaPowers5();
    AlphaPowers7();
    AlphaPowers9();
    AlphaPowers10();
    AlphaPowers13();
    AlphaPowers14();
    AlphaPowers15();
    if x == 225 {
      assert AlphaPow(89) == 225;
    } else if x == 226 {
      assert AlphaPow(95) == 226;
    } else if x == 227 {
      assert AlphaPow(176) == 227;
    } else if x == 228 {
      assert AlphaPow(156) == 228;
    } else if x == 229 {
      assert AlphaPow(169) == 229;
    } else if x == 230 {
      assert AlphaPow(160) == 230;
    } else if x == 231 {
      assert AlphaPow(81) == 231;
    } else if x == 232 {
      assert AlphaPow(11) == 232;
    } else if x == 233 {
      assert AlphaPow(245) == 233;
    } else if x == 234 {
      assert AlphaPow(22) == 234;
    } else if x == 235 {
      assert AlphaPow(235) == 235;
    } else if x == 236 {
      assert AlphaPow(122) == 236;
    } else if x == 237 {
      assert AlphaPow(117) == 237;
    } else if x == 238 {
      assert AlphaPow(44) == 238;
    } else if x == 239 {
      assert AlphaPow(215) == 239;
    } else {
      assert x == 240 && AlphaPow(79) == 240;
    }
  }

  lemma PowersCover15(x: bv8)
    requires 241 <= x <= 255
    ensures IsPower(x)
  {
    AlphaPowers4();
    AlphaPowers5();
    AlphaPowers7();
    AlphaPowers10();
    AlphaPowers13();
    AlphaPowers14();
    AlphaPowers15();
    if x == 241 {
      assert AlphaPow(174) == 241;
    } else if x == 242 {
      assert AlphaPow(213) == 242;
    } else if x == 243 {
      assert AlphaPow(233) == 243;
    } else if x == 244 {
      assert AlphaPow(230) == 244;
    } else if x == 245 {
      assert AlphaPow(231) == 245;
    } else if x == 246 {
      assert AlphaPow(173) == 246;
    } else if x == 247 {
      assert AlphaPow(232) == 247;
    } else if x == 248 {
      assert AlphaPow(116) == 248;
    } else if x == 249 {
      assert AlphaPow(214) == 249;
    } else if x == 250 {
      assert AlphaPow(244) == 250;
    } else if x == 251 {
      assert AlphaPow(234) == 251;
    } else if x == 252 {
      assert AlphaPow(168) == 252;
    } else if x == 253 {
      assert AlphaPow(80) == 253;
    } else if x == 254 {
      assert AlphaPow(88) == 254;
    } else {
      assert x == 255 && AlphaPow(175) == 255;
    }
  }

  /** alpha has multiplicative order dividing 255. */
  lemma AlphaOrder()
    ensures AlphaPow(255) == 1
  {
    AlphaPowers15();
  }

  /** Every non-zero element is a power of alpha: 0x11D is primitive. */
  lemma PowersCoverNonZero(x: bv8)
    requires x != 0
    ensures IsPower(x)
  {
    if x <= 16 { PowersCover0(x); }
    else if x <= 32 { PowersCover1(x); }
    else if x <= 48 { PowersCover2(x); }
    else if x <= 64 { PowersCover3(x); }
    else if x <= 80 { PowersCover4(x); }
    else if x <= 96 { PowersCover5(x); }
    else if x <= 112 { PowersCover6(x); }
    else if x <= 128 { PowersCover7(x); }
    else if x <= 144 { PowersCover8(x); }
    else if x <= 160 { PowersCover9(x); }
    else if x <= 176 { PowersCover10(x); }
    else if x <= 192 { PowersCover11(x); }
    else if x <= 208 { PowersCover12(x); }
    else if x <= 224 { PowersCover13(x); }
    else if x <= 240 { PowersCover14(x); }
    else { PowersCover15(x); }
  }

  lemma AlphaPowNotOne0(k: nat)
    requires 1 <= k <= 16
    ensures AlphaPow(k) != 1
  {
    AlphaPowers0();
    if k == 1 {
    } else if k == 2 {
    } else if k == 3 {
    } else if k == 4 {
    } else if k == 5 {
    } else if k == 6 {
    } else if k == 7 {
    } else if k == 8 {
    } else if k == 9 {
    } else if k == 10 {
    } else if k == 11 {
    } else if k == 12 {
    } else if k == 13 {
    } else if k == 14 {
    } else if k == 15 {
    } else {
      assert k == 16;
    }
  }

  lemma AlphaPowNotOne1(k: nat)
    requires 17 <= k <= 32
    ensures AlphaPow(k) != 1
  {
    AlphaPowers1();
    if k == 17 {
    } else if k == 18 {
    } else if k == 19 {
    } else if k == 20 {
    } else if k == 21 {
    } else if k == 22 {
    } else if k == 23 {
    } else if k == 24 {
    } else if k == 25 {
    } else if k == 26 {
    } else if k == 27 {
    } else if k == 28 {
    } else if k == 29 {
    } else if k == 30 {
    } else if k == 31 {
    } else {
      assert k == 32;
    }
  }

  lemma AlphaPowNotOne2(k: nat)
    requires 33 <= k <= 48
    ensures AlphaPow(k) != 1
  {
    AlphaPowers2();
    if k == 33 {
    } else if k == 34 {
    } else if k == 35 {
    } else if k == 36 {
    } else if k == 37 {
    } else if k == 38 {
    } else if k == 39 {
    } else if k == 40 {
    } else if k == 41 {
    } else if k == 42 {
    } else if k == 43 {
    } else if k == 44 {
    } else if k == 45 {
    } else if k == 46 {
    } else if k == 47 {
    } else {
      assert k == 48;
    }
  }

  lemma AlphaPowNotOne3(k: nat)
    requires 49 <= k <= 64
    ensures AlphaPow(k) != 1
  {
    AlphaPowers3();
    if k == 49 {
    } else if k == 50 {
    } else if k == 51 {
    } else if k == 52 {
    } else if k == 53 {
    } else if k == 54 {
    } else if k == 55 {
    } else if k == 56 {
    } else if k == 57 {
    } else if k == 58 {
    } else if k == 59 {
    } else if k == 60 {
    } else if k == 61 {
    } else if k == 62 {
    } else if k == 63 {
    } else {
      assert k == 64;
    }
  }

  lemma AlphaPowNotOne4(k: nat)
    requires 65 <= k <= 80
    ensures AlphaPow(k) != 1
  {
    AlphaPowers4();
    if k == 65 {
    } else if k == 66 {
    } else if k == 67 {
    } else if k == 68 {
    } else if k == 69 {
    } else if k == 70 {
    } else if k == 71 {
    } else if k == 72 {
    } else if k == 73 {
    } else if k == 74 {
    } else if k == 75 {
    } else if k == 76 {
    } else if k == 77 {
    } else if k == 78 {
    } else if k == 79 {
    } else {
      assert k == 80;
    }
  }

  lemma AlphaPowNotOne5(k: nat)
    requires 81 <= k <= 96
    ensures AlphaPow(k) != 1
  {
    AlphaPowers5();
    if k == 81 {
    } else if k == 82 {
    } else if k == 83 {
    } else if k == 84 {
    } else if k == 85 {
    } else if k == 86 {
    } else if k == 87 {
    } else if k == 88 {
    } else if k == 89 {
    } else if k == 90 {
    } else if k == 91 {
    } else if k == 92 {
    } else if k == 93 {
    } else if k == 94 {
    } else if k == 95 {
    } else {
      assert k == 96;
    }
  }

  lemma AlphaPowNotOne6(k: nat)
    requires 97 <= k <= 112
    ensures AlphaPow(k) != 1
  {
    AlphaPowers6();
    if k == 97 {
    } else if k == 98 {
    } else if k == 99 {
    } else if k == 100 {
    } else if k == 101 {
    } else if k == 102 {
    } else if k == 103 {
    } else if k == 104 {
    } else if k == 105 {
    } else if k == 106 {
    } else if k == 107 {
    } else if k == 108 {
    } else if k == 109 {
    } else if k == 110 {
    } else if k == 111 {
    } else {
      assert k == 112;
    }
  }

  lemma AlphaPowNotOne7(k: nat)
    requires 113 <= k <= 128
    ensures AlphaPow(k) != 1
  {
    AlphaPowers7();
    if k == 113 {
    } else if k == 114 {
    } else if k == 115 {
    } else if k == 116 {
    } else if k == 117 {
    } else if k == 118 {
    } else if k == 119 {
    } else if k == 120 {
    } else if k == 121 {
    } else if k == 122 {
    } else if k == 123 {
    } else if k == 124 {
    } else if k == 125 {
    } else if k == 126 {
    } else if k == 127 {
    } else {
      assert k == 128;
    }
  }

  lemma AlphaPowNotOne8(k: nat)
    requires 129 <= k <= 144
    ensures AlphaPow(k) != 1
  {
    AlphaPowers8();
    if k == 129 {
    } else if k == 130 {
    } else if k == 131 {
    } else if k == 132 {
    } else if k == 133 {
    } else if k == 134 {
    } else if k == 135 {
    } else if k == 136 {
    } else if k == 137 {
    } else if k == 138 {
    } else if k == 139 {
    } else if k == 140 {
    } else if k == 141 {
    } else if k == 142 {
    } else if k == 143 {
    } else {
      assert k == 144;
    }
  }

  lemma AlphaPowNotOne9(k: nat)
    requires 145 <= k <= 160
    ensures AlphaPow(k) != 1
  {
    AlphaPowers9();
    if k == 145 {
    } else if k == 146 {
    } else if k == 147 {
    } else if k == 148 {
    } else if k == 149 {
    } else if k == 150 {
    } else if k == 151 {
    } else if k == 152 {
    } else if k == 153 {
    } else if k == 154 {
    } else if k == 155 {
    } else if k == 156 {
    } else if k == 157 {
    } else if k == 158 {
    } else if k == 159 {
    } else {
      assert k == 160;
    }
  }

  lemma AlphaPowNotOne10(k: nat)
    requires 161 <= k <= 176
    ensures AlphaPow(k) != 1
  {
    AlphaPowers10();
    if k == 161 {
    } else if k == 162 {
    } else if k == 163 {
    } else if k == 164 {
    } else if k == 165 {
    } else if k == 166 {
    } else if k == 167 {
    } else if k == 168 {
    } else if k == 169 {
    } else if k == 170 {
    } else if k == 171 {
    } else if k == 172 {
    } else if k == 173 {
    } else if k == 174 {
    } else if k == 175 {
    } else {
      assert k == 176;
    }
  }

  lemma AlphaPowNotOne11(k: nat)
    requires 177 <= k <= 192
    ensures AlphaPow(k) != 1
  {
    AlphaPowers11();
    if k == 177 {
    } else if k == 178 {
    } else if k == 179 {
    } else if k == 180 {
    } else if k == 181 {
    } else if k == 182 {
    } else if k == 183 {
    } else if k == 184 {
    } else if k == 185 {
    } else if k == 186 {
    } else if k == 187 {
    } else if k == 188 {
    } else if k == 189 {
    } else if k == 190 {
    } else if k == 191 {
    } else {
      assert k == 192;
    }
  }

  lemma AlphaPowNotOne12(k: nat)
    requires 193 <= k <= 208
    ensures AlphaPow(k) != 1
  {
    AlphaPowers12();
    if k == 193 {
    } else if k == 194 {
    } else if k == 195 {
    } else if k == 196 {
    } else if k == 197 {
    } else if k == 198 {
    } else if k == 199 {
    } else if k == 200 {
    } else if k == 201 {
    } else if k == 202 {
    } else if k == 203 {
    } else if k == 204 {
    } else if k == 205 {
    } else if k == 206 {
    } else if k == 207 {
    } else {
      assert k == 208;
    }
  }

  lemma AlphaPowNotOne13(k: nat)
    requires 209 <= k <= 224
    ensures AlphaPow(k) != 1
  {
    AlphaPowers13();
    if k == 209 {
    } else if k == 210 {
    } else if k == 211 {
    } else if k == 212 {
    } else if k == 213 {
    } else if k == 214 {
    } else if k == 215 {
    } else if k == 216 {
    } else if k == 217 {
    } else if k == 218 {
    } else if k == 219 {
    } else if k == 220 {
    } else if k == 221 {
    } else if k == 222 {
    } else if k == 223 {
    } else {
      assert k == 224;
    }
  }

  lemma AlphaPowNotOne14(k: nat)
    requires 225 <= k <= 240
    ensures AlphaPow(k) != 1
  {
    AlphaPowers14();
    if k == 225 {
    } else if k == 226 {
    } else if k == 227 {
    } else if k == 228 {
    } else if k == 229 {
    } else if k == 230 {
    } else if k == 231 {
    } else if k == 232 {
    } else if k == 233 {
    } else if k == 234 {
    } else if k == 235 {
    } else if k == 236 {
    } else if k == 237 {
    } else if k == 238 {
    } else if k == 239 {
    } else {
      assert k == 240;
    }
  }

  lemma AlphaPowNotOne15(k: nat)
    requires 241 <= k <= 254
    ensures AlphaPow(k) != 1
  {
    AlphaPowers15();
    if k == 241 {
    } else if k == 242 {
    } else if k == 243 {
    } else if k == 244 {
    } else if k == 245 {
    } else if k == 246 {
    } else if k == 247 {
    } else if k == 248 {
    } else if k == 249 {
    } else if k == 250 {
    } else if k == 251 {
    } else if k == 252 {
    } else if k == 253 {
    } else {
      assert k == 254;
    }
  }

  /** No power of alpha strictly between 0 and 255 is 1: alpha has order 255. */
  lemma AlphaPowNotOne(k: nat)
    requires 0 < k < 255
    ensures AlphaPow(k) != 1
  {
    if k <= 16 { AlphaPowNotOne0(k); }
    else if k <= 32 { AlphaPowNotOne1(k); }
    else if k <= 48 { AlphaPowNotOne2(k); }
    else if k <= 64 { AlphaPowNotOne3(k); }
    else if k <= 80 { AlphaPowNotOne4(k); }
    else if k <= 96 { AlphaPowNotOne5(k); }
    else if k <= 112 { AlphaPowNotOne6(k); }
    else if k <= 128 { AlphaPowNotOne7(k); }
    else if k <= 144 { AlphaPowNotOne8(k); }
    else if k <= 160 { AlphaPowNotOne9(k); }
    else if k <= 176 { AlphaPowNotOne10(k); }
    else if k <= 192 { AlphaPowNotOne11(k); }
    else if k <= 208 { AlphaPowNotOne12(k); }
    else if k <= 224 { AlphaPowNotOne13(k); }
    else if k <= 240 { AlphaPowNotOne14(k); }
    else { AlphaPowNotOne15(k); }
  }

  /** The powers alpha^0 .. alpha^254 are distinct. */
  lemma AlphaPowInjective(i: nat, j: nat)
    requires i < 255 && j < 255 && AlphaPow(i) == AlphaPow(j)
    ensures i == j
  {
    if i < j {
      AlphaOrder();
      TimesAlphaAdd(1, i, 255 - i);
      TimesAlphaAdd(1, j, 255 - i);
      AlphaPowPeriodic(j - i);
      AlphaPowNotOne(j - i);
    } else if j < i {
      AlphaOrder();
      TimesAlphaAdd(1, j, 255 - j);
      TimesAlphaAdd(1, i, 255 - j);
      AlphaPowPeriodic(i - j);
      AlphaPowNotOne(i - j);
    }
  }

  /** Multiplying by alpha keeps non-zero elements non-zero. */
  lemma {:induction false} TimesAlphaNonZero(z: bv8, n: nat)
    ensures TimesAlpha(z, n) == 0 <==> z == 0
  {
    if n > 0 {
      TimesAlphaNonZero(z, n - 1);
      XTimeNonZero(TimesAlpha(z, n - 1));
    }
  }

  /** Multiplication by alpha^n distributes over addition. */
  lemma {:induction false} TimesAlphaLinear(a: bv8, b: bv8, n: nat)
    ensures TimesAlpha(a ^ b, n) == TimesAlpha(a, n) ^ TimesAlpha(b, n)
  {
    if n > 0 {
      TimesAlphaLinear(a, b, n - 1);
      XTimeLinear(TimesAlpha(a, n - 1), TimesAlpha(b, n - 1));
    }
  }

  /** alpha^m * alpha^n == alpha^(m + n), with the multiplications as doublings. */
  lemma {:induction false} TimesAlphaAdd(z: bv8, m: nat, n: nat)
    ensures TimesAlpha(TimesAlpha(z, m), n) == TimesAlpha(z, m + n)
  {
    if n > 0 {
      TimesAlphaAdd(z, m, n - 1);
    }
  }

  /** The powers of alpha repeat with period 255. */
  lemma AlphaPowPeriodic(n: nat)
    ensures AlphaPow(n + 255) == AlphaPow(n)
  {
    AlphaOrder();
    TimesAlphaAdd(1, 255, n);
  }

  lemma {:induction false} AlphaPowMod(n: nat)
    ensures AlphaPow(n % 255) == AlphaPow(n)
    decreases n
  {
    if n >= 255 {
      AlphaPowMod(n - 255);
      AlphaPowPeriodic(n - 255);
    }
  }

  /** Two exponents giving the same power of alpha scale every element alike. */
  lemma SamePowerSameScaling(z: bv8, m: nat, n: nat)
    requires AlphaPow(m) == AlphaPow(n)
    ensures TimesAlpha(z, m) == TimesAlpha(z, n)
  {
    if z != 0 {
      PowersCoverNonZero(z);
      var c: nat :| c < 255 && AlphaPow(c) == z;
      TimesAlphaAdd(1, c, m);
      TimesAlphaAdd(1, m, c);
      TimesAlphaAdd(1, c, n);
      TimesAlphaAdd(1, n, c);
    } else {
      TimesAlphaNonZero(z, m);
      TimesAlphaNonZero(z, n);
    }
  }

  /** The effect of the first loop of `init_tables` on `log[v]`, from step `k`
      on: `p` is alpha^k, and `found` is what `log[v]` holds so far. Each step
      that reaches `v` overwrites the entry, so the last exponent wins. */
  function LogScan(v: bv8, k: nat, p: bv8, found: nat): nat
    requires k <= 255
    decreases 255 - k
  {
    if k == 255 then found
    else LogScan(v, k + 1, XTime(p), if p == v then k else found)
  }

  lemma {:induction false} LogScanBound(v: bv8, k: nat, p: bv8, found: nat)
    requires k <= 255 && found < 255
    ensures LogScan(v, k, p, found) < 255
    decreases 255 - k
  {
    if k < 255 {
      LogScanBound(v, k + 1, XTime(p), if p == v then k else found);
    }
  }

  lemma {:induction false} LogScanKeeps(v: bv8, k: nat, found: nat)
    requires k <= 255 && AlphaPow(found) == v
    ensures AlphaPow(LogScan(v, k, AlphaPow(k), found)) == v
    decreases 255 - k
  {
    if k < 255 {
      LogScanKeeps(v, k + 1, if AlphaPow(k) == v then k else found);
    }
  }

  lemma {:induction false} LogScanFinds(v: bv8, k: nat, i: nat, found: nat)
    requires k <= i < 255 && AlphaPow(i) == v
    ensures AlphaPow(LogScan(v, k, AlphaPow(k), found)) == v
    decreases 255 - k
  {
    if k == i {
      LogScanKeeps(v, k + 1, k);
    } else {
      LogScanFinds(v, k + 1, i, if AlphaPow(k) == v then k else found);
    }
  }


  lemma {:induction false} LogScanMissing(v: bv8, k: nat, found: nat)
    requires k <= 255 && v == 0
    ensures LogScan(v, k, AlphaPow(k), found) == found
    decreases 255 - k
  {
    if k < 255 {
      TimesAlphaNonZero(1, k);
      LogScanMissing(v, k + 1, found);
    }
  }

  /** Entry `i` of the exponent table: alpha^(i mod 255). */
  function Exp(i: nat): bv8
    requires i < 512
  {
    AlphaPow(i % 255)
  }

  /** The exponent (`exp`, 512 entries) and logarithm (`log`, 256 entries)
      tables the codec object holds. */
  datatype Tables = Tables(exp: seq<bv8>, log: seq<nat>)

  function LogOf(t: Tables, x: bv8): nat
    requires |t.log| == 256
  {
    t.log[x as int]
  }

  /** Tables as `init_tables` leaves them (`InitTablesCorrect`): exp[i] is
      alpha^(i mod 255), log[x] is the exponent below 255 of a non-zero x,
      and log[0] keeps its initial 0. */
  ghost predicate Valid(t: Tables)
  {
    && |t.exp| == 512 && |t.log| == 256
    && (forall i :: 0 <= i < 512 ==> t.exp[i] == Exp(i))
    && (forall v: bv8 :: LogOf(t, v) < 255)
    && (forall v: bv8 :: v != 0 ==> AlphaPow(LogOf(t, v)) == v)
    && LogOf(t, 0) == 0
  }

  /** The logarithm is the only exponent below 255 giving `v`. */
  lemma LogUnique(t: Tables, v: bv8, l: nat)
    requires Valid(t) && v != 0 && l < 255 && AlphaPow(l) == v
    ensures LogOf(t, v) == l
  {
    AlphaPowInjective(l, LogOf(t, v));
  }

  lemma LogOfUpdate(t: Tables, x: bv8, i: nat, v: bv8)
    requires |t.log| == 256
    ensures LogOf(Tables(t.exp, t.log[x as int := i]), v) == if v == x then i else LogOf(t, v)
  {
  }

  /** What the first loop of `init_tables` keeps true before step `i`: the
      entries below `i` hold their powers, and finishing the scan from the
      current log entry gives what the scan of the whole loop gives. */
  ghost predicate PowersFilled(t: Tables, i: nat)
  {
    && |t.exp| == 512 && |t.log| == 256
    && (forall k :: 0 <= k < i && k < 512 ==> t.exp[k] == AlphaPow(k))
    && i <= 255
    && (forall v: bv8 :: LogScan(v, i, AlphaPow(i), LogOf(t, v)) == LogScan(v, 0, AlphaPow(0), 0))
  }

  /** The first loop of `init_tables`: for i in [i, 255), exp[i] := x,
      log[x] := i, x := x * 2 by the no-table multiply. */
  function FillPowers(t: Tables, i: nat, x: bv8): (r: Tables)
    requires i <= 255 && |t.exp| == 512 && |t.log| == 256
    ensures |r.exp| == 512 && |r.log| == 256
    decreases 255 - i
  {
    if i == 255 then t
    else FillPowers(Tables(t.exp[i := x], t.log[x as int := i]), i + 1, MultNoLut(x, 2))
  }

  lemma FillPowersStep(t: Tables, i: nat, x: bv8)
    requires i < 255 && x == AlphaPow(i) && PowersFilled(t, i)
    ensures PowersFilled(Tables(t.exp[i := x], t.log[x as int := i]), i + 1)
  {
    var t' := Tables(t.exp[i := x], t.log[x as int := i]);
    forall k | 0 <= k < i + 1
      ensures t'.exp[k] == AlphaPow(k)
    {
    }
    forall v: bv8
      ensures LogScan(v, i + 1, AlphaPow(i + 1), LogOf(t', v)) == LogScan(v, 0, AlphaPow(0), 0)
    {
      LogOfUpdate(Tables(t.exp[i := x], t.log), x, i, v);
      ScanStep(v, i, x, LogOf(t, v), LogOf(t', v));
    }
  }

  /** One step of the log scan, as one step of the table loop writes it. */
  lemma ScanStep(v: bv8, i: nat, x: bv8, found: nat, found': nat)
    requires i < 255 && x == AlphaPow(i) && found' == (if x == v then i else found)
    ensures LogScan(v, i, x, found) == LogScan(v, i + 1, AlphaPow(i + 1), found')
  {
  }

  lemma {:induction false} FillPowersFills(t: Tables, i: nat, x: bv8)
    requires i <= 255 && x == AlphaPow(i) && PowersFilled(t, i)
    ensures PowersFilled(FillPowers(t, i, x), 255)
    decreases 255 - i
  {
    if i < 255 {
      DoubleIsXTime(x);
      FillPowersStep(t, i, x);
      FillPowersFills(Tables(t.exp[i := x], t.log[x as int := i]), i + 1, MultNoLut(x, 2));
    }
  }

  /** The second loop of `init_tables`: exp[i] := exp[i - 255] for i in [i, 512). */
  function FillPeriod(t: Tables, i: nat): (r: Tables)
    requires 255 <= i <= 512 && |t.exp| == 512
    ensures |r.exp| == 512 && r.log == t.log
    decreases 512 - i
  {
    if i == 512 then t
    else FillPeriod(Tables(t.exp[i := t.exp[i - 255]], t.log), i + 1)
  }

  lemma {:induction false} FillPeriodRepeats(t: Tables, i: nat)
    requires 255 <= i <= 512 && |t.exp| == 512
    ensures forall k :: 0 <= k < i ==> FillPeriod(t, i).exp[k] == t.exp[k]
    ensures forall k :: i <= k < 512 ==> FillPeriod(t, i).exp[k] == FillPeriod(t, i).exp[k - 255]
    decreases 512 - i
  {
    if i < 512 {
      FillPeriodRepeats(Tables(t.exp[i := t.exp[i - 255]], t.log), i + 1);
    }
  }

  /** `init_tables`, run on the zero-filled tables of the constructor. */
  function InitTables(zeros: Tables): (t: Tables)
    requires |zeros.exp| == 512 && |zeros.log| == 256
    ensures |t.exp| == 512 && |t.log| == 256
  {
    FillPeriod(FillPowers(zeros, 0, 1), 255)
  }

  /** `init_tables` on zeroed tables builds valid tables. */
  lemma InitTablesCorrect(zeros: Tables)
    requires |zeros.exp| == 512 && |zeros.log| == 256
    requires forall v :: 0 <= v < 256 ==> zeros.log[v] == 0
    ensures Valid(InitTables(zeros))
  {
    forall v: bv8
      ensures LogScan(v, 0, AlphaPow(0), LogOf(zeros, v)) == LogScan(v, 0, AlphaPow(0), 0)
    {
    }
    FillPowersFills(zeros, 0, 1);
    var powers := FillPowers(zeros, 0, 1);
    FillPeriodRepeats(powers, 255);
    var t := InitTables(zeros);
    TablesCyclic(t);
    forall v: bv8
      ensures LogOf(t, v) < 255 && (v != 0 ==> AlphaPow(LogOf(t, v)) == v) && (v == 0 ==> LogOf(t, v) == 0)
    {
      ScannedLog(v);
    }
  }

  /** What the scan of the whole first loop leaves in log[v]. */
  lemma ScannedLog(v: bv8)
    ensures LogScan(v, 0, AlphaPow(0), 0) < 255
    ensures v != 0 ==> AlphaPow(LogScan(v, 0, AlphaPow(0), 0)) == v
    ensures v == 0 ==> LogScan(v, 0, AlphaPow(0), 0) == 0
  {
    LogScanBound(v, 0, AlphaPow(0), 0);
    if v != 0 {
      PowersCoverNonZero(v);
      var i: nat :| i < 255 && AlphaPow(i) == v;
      LogScanFinds(v, 0, i, 0);
    } else {
      LogScanMissing(v, 0, 0);
    }
  }

  lemma TablesCyclic(t: Tables)
    requires |t.exp| == 512
    requires forall k :: 0 <= k < 255 ==> t.exp[k] == AlphaPow(k)
    requires forall k :: 255 <= k < 512 ==> t.exp[k] == t.exp[k - 255]
    ensures forall i :: 0 <= i < 512 ==> t.exp[i] == Exp(i)
  {
    forall i | 0 <= i < 512
      ensures t.exp[i] == Exp(i)
    {
      if i >= 255 {
        assert t.exp[i] == t.exp[i - 255];
      }
    }
  }

  /** The recurrence `init_tables` writes into the exponent table: it starts
      at 1, each of the first 255 entries is the previous one doubled by the
      no-table multiply, and the upper half repeats the lower. */
  lemma ExpRecurrence(i: nat)
    requires i < 511
    ensures Exp(0) == 1
    ensures i < 254 ==> Exp(i + 1) == MultNoLut(Exp(i), 2)
    ensures i >= 254 ==> Exp(i + 1) == Exp(i + 1 - 255)
  {
    DoubleIsXTime(Exp(i));
  }

  /** `gf_mul`: adds the logarithms of two non-zero elements. */
  function GfMul(t: Tables, x: bv8, y: bv8): (r: bv8)
    requires Valid(t)
    ensures r == 0 <==> x == 0 || y == 0
  {
    if x == 0 || y == 0 then 0
    else
      var i := (LogOf(t, x) + LogOf(t, y)) % 255;
      TimesAlphaNonZero(1, i % 255);
      t.exp[i]
  }

  /** The product of two non-zero elements is alpha to the sum of their logarithms. */
  lemma MulNonZero(t: Tables, x: bv8, z: bv8)
    requires Valid(t) && x != 0 && z != 0
    ensures GfMul(t, x, z) == AlphaPow(LogOf(t, x) + LogOf(t, z))
  {
    ExpMod(LogOf(t, x) + LogOf(t, z));
  }

  /** The table entry at `s mod 255` is alpha^s. */
  lemma ExpMod(s: nat)
    ensures Exp(s % 255) == AlphaPow(s)
  {
    AlphaPowMod(s);
    ModIdempotent(s);
  }

  lemma ModIdempotent(s: nat)
    ensures (s % 255) % 255 == s % 255
  {
  }

  /** Multiplying by a non-zero `x` is doubling log[x] times. */
  lemma MulIsScaling(t: Tables, x: bv8, z: bv8)
    requires Valid(t) && x != 0
    ensures GfMul(t, x, z) == TimesAlpha(z, LogOf(t, x))
  {
    if z == 0 {
      TimesAlphaNonZero(z, LogOf(t, x));
    } else {
      MulNonZero(t, x, z);
      TimesAlphaAdd(1, LogOf(t, z), LogOf(t, x));
    }
  }

  lemma MulCommutative(t: Tables, x: bv8, y: bv8)
    requires Valid(t)
    ensures GfMul(t, x, y) == GfMul(t, y, x)
  {
  }

  lemma MulDistributive(t: Tables, x: bv8, a: bv8, b: bv8)
    requires Valid(t)
    ensures GfMul(t, x, a ^ b) == GfMul(t, x, a) ^ GfMul(t, x, b)
  {
    if x != 0 {
      MulIsScaling(t, x, a ^ b);
      MulIsScaling(t, x, a);
      MulIsScaling(t, x, b);
      TimesAlphaLinear(a, b, LogOf(t, x));
    }
  }

  lemma MulAssociative(t: Tables, x: bv8, y: bv8, z: bv8)
    requires Valid(t)
    ensures GfMul(t, GfMul(t, x, y), z) == GfMul(t, x, GfMul(t, y, z))
  {
    if x != 0 && y != 0 && z != 0 {
      var xy := GfMul(t, x, y);
      MulIsScaling(t, xy, z);
      MulIsScaling(t, x, GfMul(t, y, z));
      MulIsScaling(t, y, z);
      TimesAlphaAdd(z, LogOf(t, y), LogOf(t, x));
      MulIsScaling(t, x, y);
      TimesAlphaAdd(1, LogOf(t, y), LogOf(t, x));
      SamePowerSameScaling(z, LogOf(t, xy), LogOf(t, y) + LogOf(t, x));
    }
  }

  lemma MulOne(t: Tables, z: bv8)
    requires Valid(t)
    ensures GfMul(t, 1, z) == z
  {
    MulIsScaling(t, 1, z);
    SamePowerSameScaling(z, LogOf(t, 1), 0);
  }

  /** Multiplication by 2 is `XTime`. */
  lemma MulTwo(t: Tables, z: bv8)
    requires Valid(t)
    ensures GfMul(t, 2, z) == XTime(z)
  {
    MulIsScaling(t, 2, z);
    AlphaPowers0();
    SamePowerSameScaling(z, LogOf(t, 2), 1);
  }

  /** The upper seven bits of a byte, shifted down. */
  function Half(y: bv8): bv8
  {
    y >> 1
  }

  function LowBit(y: bv8): bv8
  {
    y & 1
  }

  /** A byte is its low bit plus twice its upper seven bits. */
  lemma SplitLowBit(y: bv8)
    ensures y == LowBit(y) ^ XTime(Half(y))
    ensures LowBit(y) == 0 || LowBit(y) == 1
  {
  }

  /** Doubling either factor doubles the product. */
  lemma MulByDouble(t: Tables, x: bv8, h: bv8)
    requires Valid(t)
    ensures GfMul(t, x, XTime(h)) == GfMul(t, XTime(x), h)
  {
    MulTwo(t, h);
    MulAssociative(t, x, 2, h);
    MulCommutative(t, x, 2);
    MulTwo(t, x);
  }

  lemma MulByBit(t: Tables, x: bv8)
    requires Valid(t)
    ensures GfMul(t, x, 0) == 0 && GfMul(t, x, 1) == x
  {
    MulOne(t, x);
    MulCommutative(t, x, 1);
  }

  /** x * (b + 2h) is x * b plus (2x) * h. */
  lemma MulSplit(t: Tables, x: bv8, b: bv8, h: bv8)
    requires Valid(t)
    ensures GfMul(t, x, b ^ XTime(h)) == GfMul(t, x, b) ^ GfMul(t, XTime(x), h)
  {
    MulDistributive(t, x, b, XTime(h));
    MulByDouble(t, x, h);
  }

  /** One step of `gf_mult_noLUT`: take the low bit of `y`, then continue
      with `x` doubled and `y` halved. */
  lemma NoLutStep(x: bv8, y: bv8)
    requires y != 0
    ensures MultNoLut(x, y) == (if LowBit(y) == 1 then x else 0) ^ MultNoLut(XTime(x), Half(y))
  {
  }

  /** x * y split at the low bit of y, as `gf_mult_noLUT` splits it. */
  lemma MulSplitLowBit(t: Tables, x: bv8, y: bv8)
    requires Valid(t)
    ensures GfMul(t, x, y) == (if LowBit(y) == 1 then x else 0) ^ GfMul(t, XTime(x), Half(y))
  {
    SplitLowBit(y);
    MulSplit(t, x, LowBit(y), Half(y));
    MulByBit(t, x);
  }

  /** One step of the agreement: if it holds for 2x and the upper bits of
      y, it holds for x and y. */
  lemma MatchStep(t: Tables, x: bv8, y: bv8)
    requires Valid(t) && y != 0
    requires GfMul(t, XTime(x), Half(y)) == MultNoLut(XTime(x), Half(y))
    ensures GfMul(t, x, y) == MultNoLut(x, y)
  {
    NoLutStep(x, y);
    MulSplitLowBit(t, x, y);
  }

  /** The table multiply agrees with `gf_mult_noLUT` on every pair of bytes,
      so `init_tables` built the tables of the field that multiply defines. */
  lemma {:induction false} MulMatchesNoLut(t: Tables, x: bv8, y: bv8)
    requires Valid(t)
    ensures GfMul(t, x, y) == MultNoLut(x, y)
    decreases y
  {
    if y != 0 {
      MulMatchesNoLut(t, XTime(x), Half(y));
      MatchStep(t, x, y);
    }
  }

  /** `gf_inverse`: alpha^(255 - log x); zero has no inverse. */
  function GfInverse(t: Tables, x: bv8): (r: Result<bv8>)
    requires Valid(t)
    ensures r.Success? <==> x != 0
    ensures r.Failure? ==> r.error == InverseOfZero
    ensures r.Success? ==> GfMul(t, x, r.value) == 1
  {
    if x == 0 then Failure(InverseOfZero)
    else
      InverseCorrect(t, x);
      Success(t.exp[255 - LogOf(t, x)])
  }

  lemma InverseCorrect(t: Tables, x: bv8)
    requires Valid(t) && x != 0
    ensures GfMul(t, x, t.exp[255 - LogOf(t, x)]) == 1
  {
    var e := 255 - LogOf(t, x);
    ExpIsPow(e);
    MulPowers(t, LogOf(t, x), e);
    AlphaOrder();
  }

  /** `gf_div`: subtracts logarithms; dividing by zero fails, and zero
      divided by anything else is zero. */
  function GfDiv(t: Tables, x: bv8, y: bv8): (r: Result<bv8>)
    requires Valid(t)
    ensures r.Success? <==> y != 0
    ensures r.Failure? ==> r.error == DivisionByZero
    ensures r.Success? ==> GfMul(t, r.value, y) == x
  {
    if y == 0 then Failure(DivisionByZero)
    else if x == 0 then Success(0)
    else
      DivideCorrect(t, x, y);
      Success(t.exp[(LogOf(t, x) + 255 - LogOf(t, y)) % 255])
  }

  lemma DivideCorrect(t: Tables, x: bv8, y: bv8)
    requires Valid(t) && x != 0 && y != 0
    ensures GfMul(t, t.exp[(LogOf(t, x) + 255 - LogOf(t, y)) % 255], y) == x
  {
    var lx, ly := LogOf(t, x), LogOf(t, y);
    var e := (lx + 255 - ly) % 255;
    ExpIsPow(e);
    assert t.exp[e] == AlphaPow(e);
    assert AlphaPow(ly) == y;
    MulPowers(t, e, ly);
    AlphaPowMod(e + ly);
    SubtractAddBack(lx, ly);
  }

  lemma SubtractAddBack(a: nat, b: nat)
    requires a < 255 && b < 255
    ensures ((a + 255 - b) % 255 + b) % 255 == a
  {
  }

  /** Entries of the exponent table are the powers of alpha they index. */
  lemma ExpIsPow(i: nat)
    requires i < 512
    ensures Exp(i) == AlphaPow(i)
  {
    AlphaPowMod(i);
  }

  /** alpha^m * alpha^n == alpha^(m + n) */
  lemma MulPowers(t: Tables, m: nat, n: nat)
    requires Valid(t)
    ensures GfMul(t, AlphaPow(m), AlphaPow(n)) == AlphaPow(m + n)
  {
    var a := AlphaPow(m);
    TimesAlphaNonZero(1, m);
    MulIsScaling(t, a, AlphaPow(n));
    SamePowerSameScaling(AlphaPow(n), LogOf(t, a), m);
    TimesAlphaAdd(1, n, m);
  }

  /** C++ `%` by 255: the remainder takes the sign of the dividend. */
  function TruncatedRem255(a: int): (r: int)
    ensures -255 < r < 255
    ensures r == 0 || (r < 0 <==> a < 0)
    ensures (a - r) % 255 == 0
  {
    if a >= 0 then a % 255 else -((-a) % 255)
  }

  /** x^n by repeated multiplication: the reference for `gf_pow`. */
  function Power(t: Tables, x: bv8, n: nat): bv8
    requires Valid(t)
  {
    if n == 0 then 1 else GfMul(t, x, Power(t, x, n - 1))
  }

  /** `gf_pow`: exp[(log x * power) % 255] with C++ `%`. A negative exponent
      whose product with log x is not a multiple of 255 indexes before the
      table, which the model reports as `TableIndexOutOfRange`. */
  function GfPow(t: Tables, x: bv8, power: int): (r: Result<bv8>)
    requires Valid(t)
    ensures power == 0 ==> r == Success(1)
    ensures r.Failure? ==> power < 0 && r.error == TableIndexOutOfRange
  {
    if power == 0 then Success(1)
    else if x == 0 then Success(0)
    else
      var i := TruncatedRem255(LogOf(t, x) * power);
      if i < 0 then Failure(TableIndexOutOfRange) else Success(t.exp[i])
  }

  /** a * n as repeated addition, which keeps products out of the proofs below. */
  function Scale(a: nat, n: nat): nat
  {
    if n == 0 then 0 else Scale(a, n - 1) + a
  }

  lemma {:induction false} ScaleIsProduct(a: nat, n: nat)
    ensures Scale(a, n) == a * n
  {
    if n > 0 {
      ScaleIsProduct(a, n - 1);
      MulStep(a, n);
    }
  }

  lemma MulStep(a: nat, n: nat)
    requires n > 0
    ensures a * (n - 1) + a == a * n
  {
  }

  lemma ProductSigns(a: nat, power: int)
    requires power < 0
    ensures a * -power >= 0
    ensures a * power == -(a * -power)
  {
  }

  /** C++ `%` of a non-positive dividend is never positive, and is 0 exactly
      for multiples of 255. */
  lemma NegativeRemainder(a: nat)
    ensures TruncatedRem255(-(a as int)) <= 0
    ensures TruncatedRem255(-(a as int)) == 0 <==> a % 255 == 0
  {
  }

  /** A power of a non-zero element is alpha raised to log x times n. */
  lemma {:induction false} PowerIsAlphaPow(t: Tables, x: bv8, n: nat)
    requires Valid(t) && x != 0
    ensures Power(t, x, n) == AlphaPow(Scale(LogOf(t, x), n))
  {
    if n > 0 {
      PowerIsAlphaPow(t, x, n - 1);
      var m := Scale(LogOf(t, x), n - 1);
      MulIsScaling(t, x, AlphaPow(m));
      TimesAlphaAdd(1, m, LogOf(t, x));
    }
  }

  /** `gf_pow` on a non-negative exponent is repeated multiplication. */
  lemma PowCorrect(t: Tables, x: bv8, n: nat)
    requires Valid(t)
    ensures GfPow(t, x, n) == Success(Power(t, x, n))
  {
    if n > 0 {
      if x == 0 {
        assert Power(t, x, n) == GfMul(t, 0, Power(t, x, n - 1));
      } else {
        PowerIsAlphaPow(t, x, n);
        ScaleIsProduct(LogOf(t, x), n);
        PowPositive(t, x, n, Scale(LogOf(t, x), n));
      }
    }
  }

  lemma PowPositive(t: Tables, x: bv8, n: nat, a: nat)
    requires Valid(t) && x != 0 && n > 0 && a == LogOf(t, x) * n
    ensures GfPow(t, x, n) == Success(AlphaPow(a))
  {
    assert TruncatedRem255(a) == a % 255;
    ExpMod(a);
  }

  /** On a negative exponent, `gf_pow` of a non-zero element succeeds exactly
      when x^(-power) is 1, and then gives that 1. */
  lemma NegativePow(t: Tables, x: bv8, power: int)
    requires Valid(t) && x != 0 && power < 0
    ensures GfPow(t, x, power).Success? <==> Power(t, x, -power) == 1
    ensures GfPow(t, x, power).Success? ==> GfPow(t, x, power).value == 1
  {
    var n: nat := -power;
    ProductSigns(LogOf(t, x), power);
    var a: nat := LogOf(t, x) * n;
    NegativeRemainder(a);
    PowerIsAlphaPow(t, x, n);
    ScaleIsProduct(LogOf(t, x), n);
    NegativePowCases(t, x, power, a);
    AlphaPowMod(a);
    if a % 255 != 0 {
      AlphaPowNotOne(a % 255);
    }
  }

  lemma NegativePowCases(t: Tables, x: bv8, power: int, a: nat)
    requires Valid(t) && x != 0 && power < 0 && LogOf(t, x) * power == -(a as int)
    ensures GfPow(t, x, power).Success? <==> TruncatedRem255(-(a as int)) == 0
    ensures GfPow(t, x, power).Success? ==> GfPow(t, x, power).value == 1
  {
    NegativeRemainder(a);
  }

  /** Powers of 2 are the powers of alpha, by repeated `XTime`. */
  lemma {:induction false} PowerOfTwo(t: Tables, i: nat)
    requires Valid(t)
    ensures Power(t, 2, i) == AlphaPow(i)
  {
    if i > 0 {
      PowerOfTwo(t, i - 1);
      MulTwo(t, AlphaPow(i - 1));
    }
  }

  /** 2^i is alpha^i, the value `init_tables` stored at exp[i]. */
  lemma PowOfTwo(t: Tables, i: nat)
    requires Valid(t)
    ensures GfPow(t, 2, i) == Success(AlphaPow(i))
  {
    PowCorrect(t, 2, i);
    PowerOfTwo(t, i);
  }
}
