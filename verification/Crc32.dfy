/** CRC-32 by table and bit by bit (crc32.c:10-119; RFC 1952 section 8). */
module Crc32 {
  // ---------- Registers ----------

  function Xor(a: bv32, b: bv32): bv32 { a ^ b }

  function Not(a: bv32): bv32 { !a }

  function Widen(b: bv8): bv32 { b as bv32 }

  function LowByte(a: bv32): bv8 { (a & 0xff) as bv8 }

  const ONES: bv32 := 0xffffffff

  const POLYNOMIAL: bv32 := 0xedb88320

  /** One step of the serial register, in reversed bit order. */
  function Bit(c: bv32): bv32 { if c & 1 == 1 then (c >> 1) ^ POLYNOMIAL else c >> 1 }

  /** Eight steps: one byte. */
  function Serial8(c: bv32): bv32 { Bit(Bit(Bit(Bit(Bit(Bit(Bit(Bit(c)))))))) }

  // ---------- The table: 32 rows of eight entries ----------

  function Rows0(r: nat): (row: seq<bv32>)
    requires r < 8
    ensures |row| == 8
  {
    if r == 0 then [0x00000000, 0x77073096, 0xee0e612c, 0x990951ba, 0x076dc419, 0x706af48f, 0xe963a535, 0x9e6495a3]
    else if r == 1 then [0x0edb8832, 0x79dcb8a4, 0xe0d5e91e, 0x97d2d988, 0x09b64c2b, 0x7eb17cbd, 0xe7b82d07, 0x90bf1d91]
    else if r == 2 then [0x1db71064, 0x6ab020f2, 0xf3b97148, 0x84be41de, 0x1adad47d, 0x6ddde4eb, 0xf4d4b551, 0x83d385c7]
    else if r == 3 then [0x136c9856, 0x646ba8c0, 0xfd62f97a, 0x8a65c9ec, 0x14015c4f, 0x63066cd9, 0xfa0f3d63, 0x8d080df5]
    else if r == 4 then [0x3b6e20c8, 0x4c69105e, 0xd56041e4, 0xa2677172, 0x3c03e4d1, 0x4b04d447, 0xd20d85fd, 0xa50ab56b]
    else if r == 5 then [0x35b5a8fa, 0x42b2986c, 0xdbbbc9d6, 0xacbcf940, 0x32d86ce3, 0x45df5c75, 0xdcd60dcf, 0xabd13d59]
    else if r == 6 then [0x26d930ac, 0x51de003a, 0xc8d75180, 0xbfd06116, 0x21b4f4b5, 0x56b3c423, 0xcfba9599, 0xb8bda50f]
    else [0x2802b89e, 0x5f058808, 0xc60cd9b2, 0xb10be924, 0x2f6f7c87, 0x58684c11, 0xc1611dab, 0xb6662d3d]
  }

  function Rows1(r: nat): (row: seq<bv32>)
    requires r < 8
    ensures |row| == 8
  {
    if r == 0 then [0x76dc4190, 0x01db7106, 0x98d220bc, 0xefd5102a, 0x71b18589, 0x06b6b51f, 0x9fbfe4a5, 0xe8b8d433]
    else if r == 1 then [0x7807c9a2, 0x0f00f934, 0x9609a88e, 0xe10e9818, 0x7f6a0dbb, 0x086d3d2d, 0x91646c97, 0xe6635c01]
    else if r == 2 then [0x6b6b51f4, 0x1c6c6162, 0x856530d8, 0xf262004e, 0x6c0695ed, 0x1b01a57b, 0x8208f4c1, 0xf50fc457]
    else if r == 3 then [0x65b0d9c6, 0x12b7e950, 0x8bbeb8ea, 0xfcb9887c, 0x62dd1ddf, 0x15da2d49, 0x8cd37cf3, 0xfbd44c65]
    else if r == 4 then [0x4db26158, 0x3ab551ce, 0xa3bc0074, 0xd4bb30e2, 0x4adfa541, 0x3dd895d7, 0xa4d1c46d, 0xd3d6f4fb]
    else if r == 5 then [0x4369e96a, 0x346ed9fc, 0xad678846, 0xda60b8d0, 0x44042d73, 0x33031de5, 0xaa0a4c5f, 0xdd0d7cc9]
    else if r == 6 then [0x5005713c, 0x270241aa, 0xbe0b1010, 0xc90c2086, 0x5768b525, 0x206f85b3, 0xb966d409, 0xce61e49f]
    else [0x5edef90e, 0x29d9c998, 0xb0d09822, 0xc7d7a8b4, 0x59b33d17, 0x2eb40d81, 0xb7bd5c3b, 0xc0ba6cad]
  }

  function Rows2(r: nat): (row: seq<bv32>)
    requires r < 8
    ensures |row| == 8
  {
    if r == 0 then [0xedb88320, 0x9abfb3b6, 0x03b6e20c, 0x74b1d29a, 0xead54739, 0x9dd277af, 0x04db2615, 0x73dc1683]
    else if r == 1 then [0xe3630b12, 0x94643b84, 0x0d6d6a3e, 0x7a6a5aa8, 0xe40ecf0b, 0x9309ff9d, 0x0a00ae27, 0x7d079eb1]
    else if r == 2 then [0xf00f9344, 0x8708a3d2, 0x1e01f268, 0x6906c2fe, 0xf762575d, 0x806567cb, 0x196c3671, 0x6e6b06e7]
    else if r == 3 then [0xfed41b76, 0x89d32be0, 0x10da7a5a, 0x67dd4acc, 0xf9b9df6f, 0x8ebeeff9, 0x17b7be43, 0x60b08ed5]
    else if r == 4 then [0xd6d6a3e8, 0xa1d1937e, 0x38d8c2c4, 0x4fdff252, 0xd1bb67f1, 0xa6bc5767, 0x3fb506dd, 0x48b2364b]
    else if r == 5 then [0xd80d2bda, 0xaf0a1b4c, 0x36034af6, 0x41047a60, 0xdf60efc3, 0xa867df55, 0x316e8eef, 0x4669be79]
    else if r == 6 then [0xcb61b38c, 0xbc66831a, 0x256fd2a0, 0x5268e236, 0xcc0c7795, 0xbb0b4703, 0x220216b9, 0x5505262f]
    else [0xc5ba3bbe, 0xb2bd0b28, 0x2bb45a92, 0x5cb36a04, 0xc2d7ffa7, 0xb5d0cf31, 0x2cd99e8b, 0x5bdeae1d]
  }

  function Rows3(r: nat): (row: seq<bv32>)
    requires r < 8
    ensures |row| == 8
  {
    if r == 0 then [0x9b64c2b0, 0xec63f226, 0x756aa39c, 0x026d930a, 0x9c0906a9, 0xeb0e363f, 0x72076785, 0x05005713]
    else if r == 1 then [0x95bf4a82, 0xe2b87a14, 0x7bb12bae, 0x0cb61b38, 0x92d28e9b, 0xe5d5be0d, 0x7cdcefb7, 0x0bdbdf21]
    else if r == 2 then [0x86d3d2d4, 0xf1d4e242, 0x68ddb3f8, 0x1fda836e, 0x81be16cd, 0xf6b9265b, 0x6fb077e1, 0x18b74777]
    else if r == 3 then [0x88085ae6, 0xff0f6a70, 0x66063bca, 0x11010b5c, 0x8f659eff, 0xf862ae69, 0x616bffd3, 0x166ccf45]
    else if r == 4 then [0xa00ae278, 0xd70dd2ee, 0x4e048354, 0x3903b3c2, 0xa7672661, 0xd06016f7, 0x4969474d, 0x3e6e77db]
    else if r == 5 then [0xaed16a4a, 0xd9d65adc, 0x40df0b66, 0x37d83bf0, 0xa9bcae53, 0xdebb9ec5, 0x47b2cf7f, 0x30b5ffe9]
    else if r == 6 then [0xbdbdf21c, 0xcabac28a, 0x53b39330, 0x24b4a3a6, 0xbad03605, 0xcdd70693, 0x54de5729, 0x23d967bf]
    else [0xb3667a2e, 0xc4614ab8, 0x5d681b02, 0x2a6f2b94, 0xb40bbe37, 0xc30c8ea1, 0x5a05df1b, 0x2d02ef8d]
  }

  /** crc32tab. */
  function Table(i: nat): bv32
    requires i < 256
  {
    if i < 64 then Rows0(i / 8)[i % 8]
    else if i < 128 then Rows1(i / 8 - 8)[i % 8]
    else if i < 192 then Rows2(i / 8 - 16)[i % 8]
    else Rows3(i / 8 - 24)[i % 8]
  }

  /** Entry i is what eight serial steps make of the byte i. */
  predicate Entry(i: nat)
    requires i < 256
  {
    Table(i) == Serial8((i as bv8) as bv32)
  }

  predicate RowIsSerial(r: nat)
    requires r < 32
  {
    Entry(8 * r) && Entry(8 * r + 1) && Entry(8 * r + 2) && Entry(8 * r + 3) &&
    Entry(8 * r + 4) && Entry(8 * r + 5) && Entry(8 * r + 6) && Entry(8 * r + 7)
  }

  lemma Row0()
    ensures Entry(0) && Entry(1) && Entry(2) && Entry(3) && Entry(4) && Entry(5) && Entry(6) && Entry(7)
  {
    assert forall k: nat :: k < 8 ==> Table(0 + k) == Rows0(0)[k];
  }

  lemma Row1()
    ensures Entry(8) && Entry(9) && Entry(10) && Entry(11) && Entry(12) && Entry(13) && Entry(14) && Entry(15)
  {
    assert forall k: nat :: k < 8 ==> Table(8 + k) == Rows0(1)[k];
  }

  lemma Row2()
    ensures Entry(16) && Entry(17) && Entry(18) && Entry(19) && Entry(20) && Entry(21) && Entry(22) && Entry(23)
  {
    assert forall k: nat :: k < 8 ==> Table(16 + k) == Rows0(2)[k];
  }

  lemma Row3()
    ensures Entry(24) && Entry(25) && Entry(26) && Entry(27) && Entry(28) && Entry(29) && Entry(30) && Entry(31)
  {
    assert forall k: nat :: k < 8 ==> Table(24 + k) == Rows0(3)[k];
  }

  lemma Row4()
    ensures Entry(32) && Entry(33) && Entry(34) && Entry(35) && Entry(36) && Entry(37) && Entry(38) && Entry(39)
  {
    assert forall k: nat :: k < 8 ==> Table(32 + k) == Rows0(4)[k];
  }

  lemma Row5()
    ensures Entry(40) && Entry(41) && Entry(42) && Entry(43) && Entry(44) && Entry(45) && Entry(46) && Entry(47)
  {
    assert forall k: nat :: k < 8 ==> Table(40 + k) == Rows0(5)[k];
  }

  lemma Row6()
    ensures Entry(48) && Entry(49) && Entry(50) && Entry(51) && Entry(52) && Entry(53) && Entry(54) && Entry(55)
  {
    assert forall k: nat :: k < 8 ==> Table(48 + k) == Rows0(6)[k];
  }

  lemma Row7()
    ensures Entry(56) && Entry(57) && Entry(58) && Entry(59) && Entry(60) && Entry(61) && Entry(62) && Entry(63)
  {
    assert forall k: nat :: k < 8 ==> Table(56 + k) == Rows0(7)[k];
  }

  lemma Row8()
    ensures Entry(64) && Entry(65) && Entry(66) && Entry(67) && Entry(68) && Entry(69) && Entry(70) && Entry(71)
  {
    assert forall k: nat :: k < 8 ==> Table(64 + k) == Rows1(0)[k];
  }

  lemma Row9()
    ensures Entry(72) && Entry(73) && Entry(74) && Entry(75) && Entry(76) && Entry(77) && Entry(78) && Entry(79)
  {
    assert forall k: nat :: k < 8 ==> Table(72 + k) == Rows1(1)[k];
  }

  lemma Row10()
    ensures Entry(80) && Entry(81) && Entry(82) && Entry(83) && Entry(84) && Entry(85) && Entry(86) && Entry(87)
  {
    assert forall k: nat :: k < 8 ==> Table(80 + k) == Rows1(2)[k];
  }

  lemma Row11()
    ensures Entry(88) && Entry(89) && Entry(90) && Entry(91) && Entry(92) && Entry(93) && Entry(94) && Entry(95)
  {
    assert forall k: nat :: k < 8 ==> Table(88 + k) == Rows1(3)[k];
  }

  lemma Row12()
    ensures Entry(96) && Entry(97) && Entry(98) && Entry(99) && Entry(100) && Entry(101) && Entry(102) && Entry(103)
  {
    assert forall k: nat :: k < 8 ==> Table(96 + k) == Rows1(4)[k];
  }

  lemma Row13()
    ensures Entry(104) && Entry(105) && Entry(106) && Entry(107) && Entry(108) && Entry(109) && Entry(110) && Entry(111)
  {
    assert forall k: nat :: k < 8 ==> Table(104 + k) == Rows1(5)[k];
  }

  lemma Row14()
    ensures Entry(112) && Entry(113) && Entry(114) && Entry(115) && Entry(116) && Entry(117) && Entry(118) && Entry(119)
  {
    assert forall k: nat :: k < 8 ==> Table(112 + k) == Rows1(6)[k];
  }

  lemma Row15()
    ensures Entry(120) && Entry(121) && Entry(122) && Entry(123) && Entry(124) && Entry(125) && Entry(126) && Entry(127)
  {
    assert forall k: nat :: k < 8 ==> Table(120 + k) == Rows1(7)[k];
  }

  lemma Row16()
    ensures Entry(128) && Entry(129) && Entry(130) && Entry(131) && Entry(132) && Entry(133) && Entry(134) && Entry(135)
  {
    assert forall k: nat :: k < 8 ==> Table(128 + k) == Rows2(0)[k];
  }

  lemma Row17()
    ensures Entry(136) && Entry(137) && Entry(138) && Entry(139) && Entry(140) && Entry(141) && Entry(142) && Entry(143)
  {
    assert forall k: nat :: k < 8 ==> Table(136 + k) == Rows2(1)[k];
  }

  lemma Row18()
    ensures Entry(144) && Entry(145) && Entry(146) && Entry(147) && Entry(148) && Entry(149) && Entry(150) && Entry(151)
  {
    assert forall k: nat :: k < 8 ==> Table(144 + k) == Rows2(2)[k];
  }

  lemma Row19()
    ensures Entry(152) && Entry(153) && Entry(154) && Entry(155) && Entry(156) && Entry(157) && Entry(158) && Entry(159)
  {
    assert forall k: nat :: k < 8 ==> Table(152 + k) == Rows2(3)[k];
  }

  lemma Row20()
    ensures Entry(160) && Entry(161) && Entry(162) && Entry(163) && Entry(164) && Entry(165) && Entry(166) && Entry(167)
  {
    assert forall k: nat :: k < 8 ==> Table(160 + k) == Rows2(4)[k];
  }

  lemma Row21()
    ensures Entry(168) && Entry(169) && Entry(170) && Entry(171) && Entry(172) && Entry(173) && Entry(174) && Entry(175)
  {
    assert forall k: nat :: k < 8 ==> Table(168 + k) == Rows2(5)[k];
  }

  lemma Row22()
    ensures Entry(176) && Entry(177) && Entry(178) && Entry(179) && Entry(180) && Entry(181) && Entry(182) && Entry(183)
  {
    assert forall k: nat :: k < 8 ==> Table(176 + k) == Rows2(6)[k];
  }

  lemma Row23()
    ensures Entry(184) && Entry(185) && Entry(186) && Entry(187) && Entry(188) && Entry(189) && Entry(190) && Entry(191)
  {
    assert forall k: nat :: k < 8 ==> Table(184 + k) == Rows2(7)[k];
  }

  lemma Row24()
    ensures Entry(192) && Entry(193) && Entry(194) && Entry(195) && Entry(196) && Entry(197) && Entry(198) && Entry(199)
  {
    assert forall k: nat :: k < 8 ==> Table(192 + k) == Rows3(0)[k];
  }

  lemma Row25()
    ensures Entry(200) && Entry(201) && Entry(202) && Entry(203) && Entry(204) && Entry(205) && Entry(206) && Entry(207)
  {
    assert forall k: nat :: k < 8 ==> Table(200 + k) == Rows3(1)[k];
  }

  lemma Row26()
    ensures Entry(208) && Entry(209) && Entry(210) && Entry(211) && Entry(212) && Entry(213) && Entry(214) && Entry(215)
  {
    assert forall k: nat :: k < 8 ==> Table(208 + k) == Rows3(2)[k];
  }

  lemma Row27()
    ensures Entry(216) && Entry(217) && Entry(218) && Entry(219) && Entry(220) && Entry(221) && Entry(222) && Entry(223)
  {
    assert forall k: nat :: k < 8 ==> Table(216 + k) == Rows3(3)[k];
  }

  lemma Row28()
    ensures Entry(224) && Entry(225) && Entry(226) && Entry(227) && Entry(228) && Entry(229) && Entry(230) && Entry(231)
  {
    assert forall k: nat :: k < 8 ==> Table(224 + k) == Rows3(4)[k];
  }

  lemma Row29()
    ensures Entry(232) && Entry(233) && Entry(234) && Entry(235) && Entry(236) && Entry(237) && Entry(238) && Entry(239)
  {
    assert forall k: nat :: k < 8 ==> Table(232 + k) == Rows3(5)[k];
  }

  lemma Row30()
    ensures Entry(240) && Entry(241) && Entry(242) && Entry(243) && Entry(244) && Entry(245) && Entry(246) && Entry(247)
  {
    assert forall k: nat :: k < 8 ==> Table(240 + k) == Rows3(6)[k];
  }

  lemma Row31()
    ensures Entry(248) && Entry(249) && Entry(250) && Entry(251) && Entry(252) && Entry(253) && Entry(254) && Entry(255)
  {
    assert forall k: nat :: k < 8 ==> Table(248 + k) == Rows3(7)[k];
  }

  lemma EveryRowIsSerial(r: nat)
    requires r < 32
    ensures RowIsSerial(r)
  {
    hide Entry;
    match r {
      case 0 => Row0();
      case 1 => Row1();
      case 2 => Row2();
      case 3 => Row3();
      case 4 => Row4();
      case 5 => Row5();
      case 6 => Row6();
      case 7 => Row7();
      case 8 => Row8();
      case 9 => Row9();
      case 10 => Row10();
      case 11 => Row11();
      case 12 => Row12();
      case 13 => Row13();
      case 14 => Row14();
      case 15 => Row15();
      case 16 => Row16();
      case 17 => Row17();
      case 18 => Row18();
      case 19 => Row19();
      case 20 => Row20();
      case 21 => Row21();
      case 22 => Row22();
      case 23 => Row23();
      case 24 => Row24();
      case 25 => Row25();
      case 26 => Row26();
      case 27 => Row27();
      case 28 => Row28();
      case 29 => Row29();
      case 30 => Row30();
      case _ => Row31();
    }
  }

  lemma TableIsSerial(i: nat)
    requires i < 256
    ensures Entry(i)
  {
    hide Entry;
    EveryRowIsSerial(i / 8);
    var k := i % 8;
    assert i == 8 * (i / 8) + k;
    assert k == 0 || k == 1 || k == 2 || k == 3 || k == 4 || k == 5 || k == 6 || k == 7;
  }

  // ---------- One table step ----------

  /** _CRC32_: the step of the byte-at-a-time loops. */
  function Step(crc: bv32, ch: bv8): bv32 { Xor(crc >> 8, Table(LowByte(Xor(crc, Widen(ch))) as nat)) }

  lemma ByteRoundTrip(b: bv8)
    ensures (b as nat) as bv8 == b
  {
  }

  lemma XorShift(a: bv32, b: bv32)
    ensures (a ^ b) >> 1 == (a >> 1) ^ (b >> 1)
    ensures (a ^ b) & 1 == (a & 1) ^ (b & 1)
  {
  }

  lemma LowBit(a: bv32)
    ensures a & 1 == 0 || a & 1 == 1
  {
  }

  lemma XorTwice(a: bv32, b: bv32, p: bv32)
    ensures (a ^ p) ^ (b ^ p) == a ^ b && (a ^ p) ^ b == (a ^ b) ^ p && a ^ (b ^ p) == (a ^ b) ^ p
  {
  }

  /** A serial step is linear. */
  lemma BitIsLinear(a: bv32, b: bv32)
    ensures Bit(a ^ b) == Bit(a) ^ Bit(b)
  {
    XorShift(a, b);
    LowBit(a);
    LowBit(b);
    XorTwice(a >> 1, b >> 1, POLYNOMIAL);
  }

  lemma BitOfXor(a: bv32, b: bv32)
    ensures Bit(Xor(a, b)) == Xor(Bit(a), Bit(b))
  {
    hide Bit;
    BitIsLinear(a, b);
  }

  lemma Serial8IsLinear(a: bv32, b: bv32)
    ensures Serial8(Xor(a, b)) == Xor(Serial8(a), Serial8(b))
  {
    hide Bit, Xor;
    BitOfXor(a, b);
    BitOfXor(Bit(a), Bit(b));
    BitOfXor(Bit(Bit(a)), Bit(Bit(b)));
    BitOfXor(Bit(Bit(Bit(a))), Bit(Bit(Bit(b))));
    BitOfXor(Bit(Bit(Bit(Bit(a)))), Bit(Bit(Bit(Bit(b)))));
    BitOfXor(Bit(Bit(Bit(Bit(Bit(a))))), Bit(Bit(Bit(Bit(Bit(b))))));
    BitOfXor(Bit(Bit(Bit(Bit(Bit(Bit(a)))))), Bit(Bit(Bit(Bit(Bit(Bit(b)))))));
    BitOfXor(Bit(Bit(Bit(Bit(Bit(Bit(Bit(a))))))), Bit(Bit(Bit(Bit(Bit(Bit(Bit(b))))))));
  }

  function High(z: bv32): bv32 { z & 0xffffff00 }

  /** Without low bits eight steps only shift. */
  lemma HighBitsShift(z: bv32)
    ensures Serial8(High(z)) == z >> 8
  {
  }

  lemma Halves(z: bv32)
    ensures Xor(High(z), Widen(LowByte(z))) == z
  {
  }

  lemma ByteShiftsOut(crc: bv32, ch: bv8)
    ensures Xor(crc, Widen(ch)) >> 8 == crc >> 8
  {
  }

  /** The table step is eight serial steps on the register mixed with the byte. */
  lemma StepIsSerial(crc: bv32, ch: bv8)
    ensures Step(crc, ch) == Serial8(Xor(crc, Widen(ch)))
  {
    var z := Xor(crc, Widen(ch));
    TableAtByte(LowByte(z));
    hide Serial8, Table, LowByte, Xor, Widen, High;
    Halves(z);
    HighBitsShift(z);
    ByteShiftsOut(crc, ch);
    Serial8IsLinear(High(z), Widen(LowByte(z)));
  }

  lemma TableAtByte(b: bv8)
    ensures Table(b as nat) == Serial8(Widen(b))
  {
    hide Serial8, Table;
    TableIsSerial(b as nat);
    ByteRoundTrip(b);
  }

  // ---------- Messages ----------

  /** The serial register after a message. */
  function Register(crc: bv32, s: seq<bv8>): bv32 {
    if s == [] then crc else Serial8(Xor(Register(crc, s[..|s| - 1]), Widen(s[|s| - 1])))
  }

  /** RFC 1952 section 8: the register starts with ones and is complemented at the end. */
  function Crc(s: seq<bv8>): bv32 { Not(Register(ONES, s)) }

  lemma RegisterSnoc(crc: bv32, s: seq<bv8>, b: bv8)
    ensures Register(crc, s + [b]) == Serial8(Xor(Register(crc, s), Widen(b)))
  {
    hide Serial8, Xor, Widen;
    assert (s + [b])[..|s|] == s;
  }

  lemma NoMessage(crc: bv32)
    ensures Register(crc, []) == crc
  {
  }

  lemma {:induction false} RegisterConcat(crc: bv32, a: seq<bv8>, b: seq<bv8>)
    ensures Register(crc, a + b) == Register(Register(crc, a), b)
  {
    hide Serial8, Xor, Widen, Register;
    if b == [] {
      NoMessage(Register(crc, a));
      assert a + b == a;
    } else {
      var init, last := b[..|b| - 1], b[|b| - 1];
      RegisterConcat(crc, a, init);
      assert b == init + [last] && a + b == (a + init) + [last];
      RegisterSnoc(crc, a + init, last);
      RegisterSnoc(Register(crc, a), init, last);
    }
  }

  lemma Complement(x: bv32)
    ensures Not(Not(x)) == x && Not(0) == ONES
  {
  }

  /** A checksum continued over a second part is the checksum of both. */
  lemma UpdateContinues(a: seq<bv8>, b: seq<bv8>)
    ensures Not(Register(Not(Crc(a)), b)) == Crc(a + b)
  {
    hide Serial8, Xor, Widen, Register, Not;
    Complement(Register(ONES, a));
    RegisterConcat(ONES, a, b);
  }

  // ---------- The check value ----------

  lemma OneByte(t: seq<bv8>, i: nat, before: bv32, after: bv32)
    requires i < |t| && Register(ONES, t[..i]) == before && Serial8(Xor(before, Widen(t[i]))) == after
    ensures Register(ONES, t[..i + 1]) == after
  {
    hide Serial8, Xor, Widen, Register;
    RegisterSnoc(ONES, t[..i], t[i]);
    assert t[..i] + [t[i]] == t[..i + 1];
  }

  /** The registers while the digits 1 to 9 are read. */
  lemma Registers()
    ensures Serial8(Xor(0xffffffff, Widen(49))) == 0x7c231048
    ensures Serial8(Xor(0x7c231048, Widen(50))) == 0xb0acbb32
    ensures Serial8(Xor(0xb0acbb32, Widen(51))) == 0x77b79c2d
    ensures Serial8(Xor(0x77b79c2d, Widen(52))) == 0x641c1f5c
    ensures Serial8(Xor(0x641c1f5c, Widen(53))) == 0x340ac5e3
    ensures Serial8(Xor(0x340ac5e3, Widen(54))) == 0xf68d2c9e
    ensures Serial8(Xor(0xf68d2c9e, Widen(55))) == 0xaffc9660
    ensures Serial8(Xor(0xaffc9660, Widen(56))) == 0x651f2550
    ensures Serial8(Xor(0x651f2550, Widen(57))) == 0x340bc6d9
  {
  }

  /** The checksum of the text 123456789 is the published check value. */
  lemma CheckValue()
    ensures Crc([49, 50, 51, 52, 53, 54, 55, 56, 57]) == 0xcbf43926
  {
    hide Serial8, Xor, Widen, Register;
    Registers();
    var t: seq<bv8> := [49, 50, 51, 52, 53, 54, 55, 56, 57];
    NoMessage(ONES);
    assert t[..0] == [] && t[..9] == t;
    OneByte(t, 0, 0xffffffff, 0x7c231048);
    OneByte(t, 1, 0x7c231048, 0xb0acbb32);
    OneByte(t, 2, 0xb0acbb32, 0x77b79c2d);
    OneByte(t, 3, 0x77b79c2d, 0x641c1f5c);
    OneByte(t, 4, 0x641c1f5c, 0x340ac5e3);
    OneByte(t, 5, 0x340ac5e3, 0xf68d2c9e);
    OneByte(t, 6, 0xf68d2c9e, 0xaffc9660);
    OneByte(t, 7, 0xaffc9660, 0x651f2550);
    OneByte(t, 8, 0x651f2550, 0x340bc6d9);
  }

  /** A character of 16 bits is its high byte and its low byte. */
  lemma BytesOfCharacter(c: bv32)
    ensures (Widen(HighByte(c)) << 8) | Widen(LowByte(c)) == c & 0xffff
  {
  }

  lemma {:induction false} BigEndianAt(cs: seq<bv32>, i: nat)
    requires i < |cs|
    ensures |BigEndian(cs)| == 2 * |cs|
    ensures BigEndian(cs)[2 * i] == HighByte(cs[i]) && BigEndian(cs)[2 * i + 1] == LowByte(cs[i])
    decreases |cs|
  {
    hide HighByte, LowByte;
    var n := |cs| - 1;
    if n == 0 {
      assert cs[..0] == [];
    } else {
      BigEndianAt(cs[..n], if i < n then i else n - 1);
    }
  }

  // ---------- The loops ----------

  /** The loop over a buffer. */
  method Run(start: bv32, b: seq<bv8>) returns (crc: bv32)
    ensures crc == Register(start, b)
  {
    hide Step, Serial8, Register, Xor, Widen;
    crc := start;
    NoMessage(start);
    assert b[..0] == [];
    for e := 0 to |b|
      invariant crc == Register(start, b[..e])
    {
      RegisterSnoc(start, b[..e], b[e]);
      assert b[..e] + [b[e]] == b[..e + 1];
      StepIsSerial(crc, b[e]);
      crc := Step(crc, b[e]);
    }
    assert b[..|b|] == b;
  }

  method UdmCrc32(b: seq<bv8>) returns (crc: bv32)
    ensures crc == Crc(b)
  {
    hide Register, Not;
    crc := Run(ONES, b);
    crc := Not(crc);
  }

  /** UdmCRC32Update; the int argument has the bits of the register. */
  method Update(prev: bv32, b: seq<bv8>, ghost a: seq<bv8>) returns (crc: bv32)
    ensures crc == Not(Register(Not(prev), b))
    ensures prev == Crc(a) ==> crc == Crc(a + b)
    ensures prev == 0 ==> crc == Crc(b)
  {
    hide Register, Not;
    crc := Run(Not(prev), b);
    crc := Not(crc);
    UpdateContinues(a, b);
    Complement(prev);
  }

  /** The bytes before the terminating NUL. */
  function BeforeNul(s: seq<bv8>): seq<bv8> { if s == [] || s[0] == 0 then [] else [s[0]] + BeforeNul(s[1..]) }

  lemma {:induction false} BeforeNulIs(s: seq<bv8>, n: nat)
    requires n < |s| && s[n] == 0 && forall k :: 0 <= k < n ==> s[k] != 0
    ensures BeforeNul(s) == s[..n]
  {
    if n == 0 {
    } else {
      assert s[1..][n - 1] == s[n] && forall k :: 0 <= k < n - 1 ==> s[1..][k] == s[k + 1];
      BeforeNulIs(s[1..], n - 1);
      assert s[..n] == [s[0]] + s[1..][..n - 1];
    }
  }

  /** UdmCRC32UpdateStr: up to the terminating NUL. */
  method UpdateStr(prev: bv32, s: seq<bv8>) returns (crc: bv32)
    requires 0 in s
    ensures crc == Not(Register(Not(prev), BeforeNul(s)))
  {
    hide Step, Serial8, Register, Xor, Widen, Not;
    crc := Not(prev);
    NoMessage(crc);
    assert s[..0] == [];
    var i: nat := 0;
    while s[i] != 0
      invariant i < |s| && 0 !in s[..i] && crc == Register(Not(prev), s[..i])
      decreases |s| - i
    {
      RegisterSnoc(Not(prev), s[..i], s[i]);
      StepIsSerial(crc, s[i]);
      assert s[..i] + [s[i]] == s[..i + 1] && s == s[..i + 1] + s[i + 1..];
      crc := Step(crc, s[i]);
      i := i + 1;
    }
    forall k | 0 <= k < i ensures s[k] != 0 { assert s[..i][k] == s[k]; }
    BeforeNulIs(s, i);
    crc := Not(crc);
  }

  function HighByte(c: bv32): bv8 { ((c >> 8) & 0xff) as bv8 }

  /** The bytes of 16-bit characters, high byte first. */
  function BigEndian(cs: seq<bv32>): (b: seq<bv8>) {
    if cs == [] then [] else BigEndian(cs[..|cs| - 1]) + [HighByte(cs[|cs| - 1]), LowByte(cs[|cs| - 1])]
  }

  /** UdmCRC32UpdateUnicode. */
  method UpdateUnicode(prev: bv32, b: seq<bv32>) returns (crc: bv32)
    ensures crc == Not(Register(Not(prev), BigEndian(b)))
  {
    hide Step, Serial8, Register, Xor, Widen, Not, LowByte, HighByte;
    crc := Not(prev);
    NoMessage(crc);
    assert b[..0] == [];
    for e := 0 to |b|
      invariant crc == Register(Not(prev), BigEndian(b[..e]))
    {
      var p1, p2 := HighByte(b[e]), LowByte(b[e]);
      ghost var before := BigEndian(b[..e]);
      assert b[..e + 1][..e] == b[..e] && before + [p1, p2] == before + [p1] + [p2];
      RegisterSnoc(Not(prev), before, p1);
      RegisterSnoc(Not(prev), before + [p1], p2);
      StepIsSerial(crc, p1);
      crc := Step(crc, p1);
      StepIsSerial(crc, p2);
      crc := Step(crc, p2);
    }
    assert b[..|b|] == b;
    crc := Not(crc);
  }
}
