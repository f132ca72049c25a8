/** The example of one block that goes with FIPS 180-4: the message "abc", from the text through schedule and rounds to
    the digest. */
module Sha256Example {
  import opened Sha256

  const Abc: seq<octet> := [0x61, 0x62, 0x63]

  /** Four bytes for each of the eight words. */
  const AbcHash: seq<octet> :=
    [0xBA, 0x78, 0x16, 0xBF] + [0x8F, 0x01, 0xCF, 0xEA] + [0x41, 0x41, 0x40, 0xDE] + [0x5D, 0xAE, 0x22, 0x23]
    + [0xB0, 0x03, 0x61, 0xA3] + [0x96, 0x17, 0x7A, 0x9C] + [0xB4, 0x10, 0xFF, 0x61] + [0xF2, 0x00, 0x15, 0xAD]

  /** The message with its padding. */
  function Block(): (block: seq<octet>)
    ensures |block| == 64
  {
    [0x61, 0x62, 0x63, 0x80] + Zeros(59) + [24]
  }

  lemma AbcPadded()
    ensures Padded(Abc) == Block()
  {
    hide BigEndian64;
    LengthOfAbc();
    assert Zeros(52) + [0, 0, 0, 0, 0, 0, 0] == Zeros(59);
  }

  lemma LengthOfAbc()
    ensures BigEndian64(24) == [0, 0, 0, 0, 0, 0, 0, 24]
  {
    hide Octet;
    SmallOctets();
  }

  lemma SmallOctets()
    ensures Octet(0) == 0 && Octet(24) == 24
  {
  }

  // ---------------------------------------------------------------- the schedule

  /** The message schedule, eight words to a row. */
  function Words(r: nat): (w: seq<word>)
    ensures |w| == 8
  {
    match r
    case 0 => [0x61626380, 0x00000000, 0x00000000, 0x00000000, 0x00000000, 0x00000000, 0x00000000, 0x00000000]
    case 1 => [0x00000000, 0x00000000, 0x00000000, 0x00000000, 0x00000000, 0x00000000, 0x00000000, 0x00000018]
    case 2 => [0x61626380, 0x000F0000, 0x7DA86405, 0x600003C6, 0x3E9D7B78, 0x0183FC00, 0x12DCBFDB, 0xE2E2C38E]
    case 3 => [0xC8215C1A, 0xB73679A2, 0xE5BC3909, 0x32663C5B, 0x9D209D67, 0xEC8726CB, 0x702138A4, 0xD3B7973B]
    case 4 => [0x93F5997F, 0x3B68BA73, 0xAFF4FFC1, 0xF10A5C62, 0x0A8B3996, 0x72AF830A, 0x9409E33E, 0x24641522]
    case 5 => [0x9F47BF94, 0xF0A64F5A, 0x3E246A79, 0x27333BA3, 0x0C4763F2, 0x840ABF27, 0x7A290D5D, 0x065C43DA]
    case 6 => [0xFB3E89CB, 0xCC7617DB, 0xB9E66C34, 0xA9993667, 0x84BADEDD, 0xC21462BC, 0x1487472C, 0xB20F7A99]
    case _ => [0xEF57B9CD, 0xEBE6B238, 0x9FE3095E, 0x78BC8D4B, 0xA43FCF15, 0x668B2FF8, 0xEEABA2CC, 0x12B1EDEB]
  }

  function W(t: nat): word
    requires t < 64
  {
    Words(t / 8)[t % 8]
  }

  predicate ScheduleFits(t: nat)
    requires 16 <= t < 64
  {
    W(t) == Plus(Plus(Plus(SmallSigma1(W(t - 2)), W(t - 7)), SmallSigma0(W(t - 15))), W(t - 16))
  }

  lemma Word(t: nat, w2: word, w7: word, w15: word, w16: word)
    requires 16 <= t < 64 && W(t - 2) == w2 && W(t - 7) == w7 && W(t - 15) == w15 && W(t - 16) == w16
    requires W(t) == Plus(Plus(Plus(SmallSigma1(w2), w7), SmallSigma0(w15)), w16)
    ensures ScheduleFits(t)
  {
  }

  lemma Words16()
    ensures forall t | 16 <= t < 19 :: ScheduleFits(t)
  {
    hide ScheduleFits;
    Word(16, 0x00000000, 0x00000000, 0x00000000, 0x61626380);
    Word(17, 0x00000018, 0x00000000, 0x00000000, 0x00000000);
    Word(18, 0x61626380, 0x00000000, 0x00000000, 0x00000000);
  }

  lemma Words19()
    ensures forall t | 19 <= t < 22 :: ScheduleFits(t)
  {
    hide ScheduleFits;
    Word(19, 0x000F0000, 0x00000000, 0x00000000, 0x00000000);
    Word(20, 0x7DA86405, 0x00000000, 0x00000000, 0x00000000);
    Word(21, 0x600003C6, 0x00000000, 0x00000000, 0x00000000);
  }

  lemma Words22()
    ensures forall t | 22 <= t < 25 :: ScheduleFits(t)
  {
    hide ScheduleFits;
    Word(22, 0x3E9D7B78, 0x00000018, 0x00000000, 0x00000000);
    Word(23, 0x0183FC00, 0x61626380, 0x00000000, 0x00000000);
    Word(24, 0x12DCBFDB, 0x000F0000, 0x00000000, 0x00000000);
  }

  lemma Words25()
    ensures forall t | 25 <= t < 28 :: ScheduleFits(t)
  {
    hide ScheduleFits;
    Word(25, 0xE2E2C38E, 0x7DA86405, 0x00000000, 0x00000000);
    Word(26, 0xC8215C1A, 0x600003C6, 0x00000000, 0x00000000);
    Word(27, 0xB73679A2, 0x3E9D7B78, 0x00000000, 0x00000000);
  }

  lemma Words28()
    ensures forall t | 28 <= t < 31 :: ScheduleFits(t)
  {
    hide ScheduleFits;
    Word(28, 0xE5BC3909, 0x0183FC00, 0x00000000, 0x00000000);
    Word(29, 0x32663C5B, 0x12DCBFDB, 0x00000000, 0x00000000);
    Word(30, 0x9D209D67, 0xE2E2C38E, 0x00000018, 0x00000000);
  }

  lemma Words31()
    ensures forall t | 31 <= t < 34 :: ScheduleFits(t)
  {
    hide ScheduleFits;
    Word(31, 0xEC8726CB, 0xC8215C1A, 0x61626380, 0x00000018);
    Word(32, 0x702138A4, 0xB73679A2, 0x000F0000, 0x61626380);
    Word(33, 0xD3B7973B, 0xE5BC3909, 0x7DA86405, 0x000F0000);
  }

  lemma Words34()
    ensures forall t | 34 <= t < 37 :: ScheduleFits(t)
  {
    hide ScheduleFits;
    Word(34, 0x93F5997F, 0x32663C5B, 0x600003C6, 0x7DA86405);
    Word(35, 0x3B68BA73, 0x9D209D67, 0x3E9D7B78, 0x600003C6);
    Word(36, 0xAFF4FFC1, 0xEC8726CB, 0x0183FC00, 0x3E9D7B78);
  }

  lemma Words37()
    ensures forall t | 37 <= t < 40 :: ScheduleFits(t)
  {
    hide ScheduleFits;
    Word(37, 0xF10A5C62, 0x702138A4, 0x12DCBFDB, 0x0183FC00);
    Word(38, 0x0A8B3996, 0xD3B7973B, 0xE2E2C38E, 0x12DCBFDB);
    Word(39, 0x72AF830A, 0x93F5997F, 0xC8215C1A, 0xE2E2C38E);
  }

  lemma Words40()
    ensures forall t | 40 <= t < 43 :: ScheduleFits(t)
  {
    hide ScheduleFits;
    Word(40, 0x9409E33E, 0x3B68BA73, 0xB73679A2, 0xC8215C1A);
    Word(41, 0x24641522, 0xAFF4FFC1, 0xE5BC3909, 0xB73679A2);
    Word(42, 0x9F47BF94, 0xF10A5C62, 0x32663C5B, 0xE5BC3909);
  }

  lemma Words43()
    ensures forall t | 43 <= t < 46 :: ScheduleFits(t)
  {
    hide ScheduleFits;
    Word(43, 0xF0A64F5A, 0x0A8B3996, 0x9D209D67, 0x32663C5B);
    Word(44, 0x3E246A79, 0x72AF830A, 0xEC8726CB, 0x9D209D67);
    Word(45, 0x27333BA3, 0x9409E33E, 0x702138A4, 0xEC8726CB);
  }

  lemma Words46()
    ensures forall t | 46 <= t < 49 :: ScheduleFits(t)
  {
    hide ScheduleFits;
    Word(46, 0x0C4763F2, 0x24641522, 0xD3B7973B, 0x702138A4);
    Word(47, 0x840ABF27, 0x9F47BF94, 0x93F5997F, 0xD3B7973B);
    Word(48, 0x7A290D5D, 0xF0A64F5A, 0x3B68BA73, 0x93F5997F);
  }

  lemma Words49()
    ensures forall t | 49 <= t < 52 :: ScheduleFits(t)
  {
    hide ScheduleFits;
    Word(49, 0x065C43DA, 0x3E246A79, 0xAFF4FFC1, 0x3B68BA73);
    Word(50, 0xFB3E89CB, 0x27333BA3, 0xF10A5C62, 0xAFF4FFC1);
    Word(51, 0xCC7617DB, 0x0C4763F2, 0x0A8B3996, 0xF10A5C62);
  }

  lemma Words52()
    ensures forall t | 52 <= t < 55 :: ScheduleFits(t)
  {
    hide ScheduleFits;
    Word(52, 0xB9E66C34, 0x840ABF27, 0x72AF830A, 0x0A8B3996);
    Word(53, 0xA9993667, 0x7A290D5D, 0x9409E33E, 0x72AF830A);
    Word(54, 0x84BADEDD, 0x065C43DA, 0x24641522, 0x9409E33E);
  }

  lemma Words55()
    ensures forall t | 55 <= t < 58 :: ScheduleFits(t)
  {
    hide ScheduleFits;
    Word(55, 0xC21462BC, 0xFB3E89CB, 0x9F47BF94, 0x24641522);
    Word(56, 0x1487472C, 0xCC7617DB, 0xF0A64F5A, 0x9F47BF94);
    Word(57, 0xB20F7A99, 0xB9E66C34, 0x3E246A79, 0xF0A64F5A);
  }

  lemma Words58()
    ensures forall t | 58 <= t < 61 :: ScheduleFits(t)
  {
    hide ScheduleFits;
    Word(58, 0xEF57B9CD, 0xA9993667, 0x27333BA3, 0x3E246A79);
    Word(59, 0xEBE6B238, 0x84BADEDD, 0x0C4763F2, 0x27333BA3);
    Word(60, 0x9FE3095E, 0xC21462BC, 0x840ABF27, 0x0C4763F2);
  }

  lemma Words61()
    ensures forall t | 61 <= t < 64 :: ScheduleFits(t)
  {
    hide ScheduleFits;
    Word(61, 0x78BC8D4B, 0x1487472C, 0x7A290D5D, 0x840ABF27);
    Word(62, 0xA43FCF15, 0xB20F7A99, 0x065C43DA, 0x7A290D5D);
    Word(63, 0x668B2FF8, 0xEF57B9CD, 0xFB3E89CB, 0x065C43DA);
  }

  lemma AllFit(t: nat)
    requires 16 <= t < 64
    ensures ScheduleFits(t)
  {
    hide *;
    Words16();
    Words19();
    Words22();
    Words25();
    Words28();
    Words31();
    Words34();
    Words37();
    Words40();
    Words43();
    Words46();
    Words49();
    Words52();
    Words55();
    Words58();
    Words61();
  }

  lemma FirstWords(t: nat)
    requires t < 16
    ensures Pack(Block()[4 * t], Block()[4 * t + 1], Block()[4 * t + 2], Block()[4 * t + 3]) == W(t)
  {
  }

  lemma {:induction false} AbcSchedule(t: nat)
    requires t < 64
    ensures Schedule(Block(), t) == W(t)
  {
    hide Plus, SmallSigma0, SmallSigma1, Pack, Block, W, Schedule;
    ScheduleAt(Block(), t);
    if t < 16 {
      FirstWords(t);
    } else {
      AllFit(t);
      AbcSchedule(t - 2);
      AbcSchedule(t - 7);
      AbcSchedule(t - 15);
      AbcSchedule(t - 16);
    }
  }

  // ---------------------------------------------------------------- the rounds

  function After(t: nat): Registers
    requires t <= 64
  {
    Rounds(FromWords(H0), Block(), t)
  }

  lemma Start()
    ensures After(0) == FromWords(H0)
  {
  }

  lemma Step(t: nat, k: word, w: word)
    requires t < 64 && K(t) == k && W(t) == w
    ensures After(t + 1) == Round(After(t), k, w)
  {
    hide Round, K, W, Block;
    AbcSchedule(t);
  }

  lemma Round0()
    ensures After(2) ==
            Registers(0x5A6AD9AD, 0x5D6AEBCD, 0x6A09E667, 0xBB67AE85, 0x78CE7989, 0xFA2A4622, 0x510E527F, 0x9B05688C)
  {
    hide After;
    Start();
    Step(0, 0x428A2F98, 0x61626380);
    assert After(1) ==
           Registers(0x5D6AEBCD, 0x6A09E667, 0xBB67AE85, 0x3C6EF372, 0xFA2A4622, 0x510E527F, 0x9B05688C, 0x1F83D9AB);
    Step(1, 0x71374491, 0x00000000);
  }

  lemma Round2()
    ensures After(4) ==
            Registers(0xD550F666, 0xC8C347A7, 0x5A6AD9AD, 0x5D6AEBCD, 0x24E00850, 0xF92939EB, 0x78CE7989, 0xFA2A4622)
  {
    hide After;
    Round0();
    Step(2, 0xB5C0FBCF, 0x00000000);
    assert After(3) ==
           Registers(0xC8C347A7, 0x5A6AD9AD, 0x5D6AEBCD, 0x6A09E667, 0xF92939EB, 0x78CE7989, 0xFA2A4622, 0x510E527F);
    Step(3, 0xE9B5DBA5, 0x00000000);
  }

  lemma Round4()
    ensures After(6) ==
            Registers(0x2B4209F5, 0x04409A6A, 0xD550F666, 0xC8C347A7, 0x714260AD, 0x43ADA245, 0x24E00850, 0xF92939EB)
  {
    hide After;
    Round2();
    Step(4, 0x3956C25B, 0x00000000);
    assert After(5) ==
           Registers(0x04409A6A, 0xD550F666, 0xC8C347A7, 0x5A6AD9AD, 0x43ADA245, 0x24E00850, 0xF92939EB, 0x78CE7989);
    Step(5, 0x59F111F1, 0x00000000);
  }

  lemma Round6()
    ensures After(8) ==
            Registers(0x85A07B5F, 0xE5030380, 0x2B4209F5, 0x04409A6A, 0x0C657A79, 0x9B27A401, 0x714260AD, 0x43ADA245)
  {
    hide After;
    Round4();
    Step(6, 0x923F82A4, 0x00000000);
    assert After(7) ==
           Registers(0xE5030380, 0x2B4209F5, 0x04409A6A, 0xD550F666, 0x9B27A401, 0x714260AD, 0x43ADA245, 0x24E00850);
    Step(7, 0xAB1C5ED5, 0x00000000);
  }

  lemma Round8()
    ensures After(10) ==
            Registers(0x8C87346B, 0x8E04ECB9, 0x85A07B5F, 0xE5030380, 0x1CC92596, 0x32CA2D8C, 0x0C657A79, 0x9B27A401)
  {
    hide After;
    Round6();
    Step(8, 0xD807AA98, 0x00000000);
    assert After(9) ==
           Registers(0x8E04ECB9, 0x85A07B5F, 0xE5030380, 0x2B4209F5, 0x32CA2D8C, 0x0C657A79, 0x9B27A401, 0x714260AD);
    Step(9, 0x12835B01, 0x00000000);
  }

  lemma Round10()
    ensures After(12) ==
            Registers(0xF71FC5A9, 0x4798A3F4, 0x8C87346B, 0x8E04ECB9, 0x816FD6E9, 0x436B23E8, 0x1CC92596, 0x32CA2D8C)
  {
    hide After;
    Round8();
    Step(10, 0x243185BE, 0x00000000);
    assert After(11) ==
           Registers(0x4798A3F4, 0x8C87346B, 0x8E04ECB9, 0x85A07B5F, 0x436B23E8, 0x1CC92596, 0x32CA2D8C, 0x0C657A79);
    Step(11, 0x550C7DC3, 0x00000000);
  }

  lemma Round12()
    ensures After(14) ==
            Registers(0xD932EB16, 0x87912990, 0xF71FC5A9, 0x4798A3F4, 0x745A48DE, 0x1E578218, 0x816FD6E9, 0x436B23E8)
  {
    hide After;
    Round10();
    Step(12, 0x72BE5D74, 0x00000000);
    assert After(13) ==
           Registers(0x87912990, 0xF71FC5A9, 0x4798A3F4, 0x8C87346B, 0x1E578218, 0x816FD6E9, 0x436B23E8, 0x1CC92596);
    Step(13, 0x80DEB1FE, 0x00000000);
  }

  lemma Round14()
    ensures After(16) ==
            Registers(0xB0FA238E, 0xC0645FDE, 0xD932EB16, 0x87912990, 0x07590DCD, 0x0B92F20C, 0x745A48DE, 0x1E578218)
  {
    hide After;
    Round12();
    Step(14, 0x9BDC06A7, 0x00000000);
    assert After(15) ==
           Registers(0xC0645FDE, 0xD932EB16, 0x87912990, 0xF71FC5A9, 0x0B92F20C, 0x745A48DE, 0x1E578218, 0x816FD6E9);
    Step(15, 0xC19BF174, 0x00000018);
  }

  lemma Round16()
    ensures After(18) ==
            Registers(0xC2FBD9D1, 0x21DA9A9B, 0xB0FA238E, 0xC0645FDE, 0x846EE454, 0x8034229C, 0x07590DCD, 0x0B92F20C)
  {
    hide After;
    Round14();
    Step(16, 0xE49B69C1, 0x61626380);
    assert After(17) ==
           Registers(0x21DA9A9B, 0xB0FA238E, 0xC0645FDE, 0xD932EB16, 0x8034229C, 0x07590DCD, 0x0B92F20C, 0x745A48DE);
    Step(17, 0xEFBE4786, 0x000F0000);
  }

  lemma Round18()
    ensures After(20) ==
            Registers(0xE1F20C33, 0xFE777BBF, 0xC2FBD9D1, 0x21DA9A9B, 0xB0638179, 0xCC899961, 0x846EE454, 0x8034229C)
  {
    hide After;
    Round16();
    Step(18, 0x0FC19DC6, 0x7DA86405);
    assert After(19) ==
           Registers(0xFE777BBF, 0xC2FBD9D1, 0x21DA9A9B, 0xB0FA238E, 0xCC899961, 0x846EE454, 0x8034229C, 0x07590DCD);
    Step(19, 0x240CA1CC, 0x600003C6);
  }

  lemma Round20()
    ensures After(22) ==
            Registers(0xC2606D6D, 0x9DC68B63, 0xE1F20C33, 0xFE777BBF, 0xE1257970, 0x8ADA8930, 0xB0638179, 0xCC899961)
  {
    hide After;
    Round18();
    Step(20, 0x2DE92C6F, 0x3E9D7B78);
    assert After(21) ==
           Registers(0x9DC68B63, 0xE1F20C33, 0xFE777BBF, 0xC2FBD9D1, 0x8ADA8930, 0xB0638179, 0xCC899961, 0x846EE454);
    Step(21, 0x4A7484AA, 0x0183FC00);
  }

  lemma Round22()
    ensures After(24) ==
            Registers(0xC5D53D8D, 0xA7A3623F, 0xC2606D6D, 0x9DC68B63, 0xAA47C347, 0x49F5114A, 0xE1257970, 0x8ADA8930)
  {
    hide After;
    Round20();
    Step(22, 0x5CB0A9DC, 0x12DCBFDB);
    assert After(23) ==
           Registers(0xA7A3623F, 0xC2606D6D, 0x9DC68B63, 0xE1F20C33, 0x49F5114A, 0xE1257970, 0x8ADA8930, 0xB0638179);
    Step(23, 0x76F988DA, 0xE2E2C38E);
  }

  lemma Round24()
    ensures After(26) ==
            Registers(0xCDE8037D, 0x1C2C2838, 0xC5D53D8D, 0xA7A3623F, 0x14383D8E, 0x2823EF91, 0xAA47C347, 0x49F5114A)
  {
    hide After;
    Round22();
    Step(24, 0x983E5152, 0xC8215C1A);
    assert After(25) ==
           Registers(0x1C2C2838, 0xC5D53D8D, 0xA7A3623F, 0xC2606D6D, 0x2823EF91, 0xAA47C347, 0x49F5114A, 0xE1257970);
    Step(25, 0xA831C66D, 0xB73679A2);
  }

  lemma Round26()
    ensures After(28) ==
            Registers(0x77D37528, 0xB62EC4BC, 0xCDE8037D, 0x1C2C2838, 0xEDFFBFF8, 0xC74C6516, 0x14383D8E, 0x2823EF91)
  {
    hide After;
    Round24();
    Step(26, 0xB00327C8, 0xE5BC3909);
    assert After(27) ==
           Registers(0xB62EC4BC, 0xCDE8037D, 0x1C2C2838, 0xC5D53D8D, 0xC74C6516, 0x14383D8E, 0x2823EF91, 0xAA47C347);
    Step(27, 0xBF597FC7, 0x32663C5B);
  }

  lemma Round28()
    ensures After(30) ==
            Registers(0xA0060B30, 0x363482C9, 0x77D37528, 0xB62EC4BC, 0xADE79437, 0x6112A3B7, 0xEDFFBFF8, 0xC74C6516)
  {
    hide After;
    Round26();
    Step(28, 0xC6E00BF3, 0x9D209D67);
    assert After(29) ==
           Registers(0x363482C9, 0x77D37528, 0xB62EC4BC, 0xCDE8037D, 0x6112A3B7, 0xEDFFBFF8, 0xC74C6516, 0x14383D8E);
    Step(29, 0xD5A79147, 0xEC8726CB);
  }

  lemma Round30()
    ensures After(32) ==
            Registers(0x73B33BF5, 0xEA992A22, 0xA0060B30, 0x363482C9, 0xBA591112, 0x0109AB3A, 0xADE79437, 0x6112A3B7)
  {
    hide After;
    Round28();
    Step(30, 0x06CA6351, 0x702138A4);
    assert After(31) ==
           Registers(0xEA992A22, 0xA0060B30, 0x363482C9, 0x77D37528, 0x0109AB3A, 0xADE79437, 0x6112A3B7, 0xEDFFBFF8);
    Step(31, 0x14292967, 0xD3B7973B);
  }

  lemma Round32()
    ensures After(34) ==
            Registers(0xFE604DF5, 0x98E12507, 0x73B33BF5, 0xEA992A22, 0x59249DD3, 0x9CD9F5F6, 0xBA591112, 0x0109AB3A)
  {
    hide After;
    Round30();
    Step(32, 0x27B70A85, 0x93F5997F);
    assert After(33) ==
           Registers(0x98E12507, 0x73B33BF5, 0xEA992A22, 0xA0060B30, 0x9CD9F5F6, 0xBA591112, 0x0109AB3A, 0xADE79437);
    Step(33, 0x2E1B2138, 0x3B68BA73);
  }

  lemma Round34()
    ensures After(36) ==
            Registers(0x65A0CFE4, 0xA9A7738C, 0xFE604DF5, 0x98E12507, 0xF4B002D6, 0x085F3833, 0x59249DD3, 0x9CD9F5F6)
  {
    hide After;
    Round32();
    Step(34, 0x4D2C6DFC, 0xAFF4FFC1);
    assert After(35) ==
           Registers(0xA9A7738C, 0xFE604DF5, 0x98E12507, 0x73B33BF5, 0x085F3833, 0x59249DD3, 0x9CD9F5F6, 0xBA591112);
    Step(35, 0x53380D13, 0xF10A5C62);
  }

  lemma Round36()
    ensures After(38) ==
            Registers(0x34DF1604, 0x41A65CB1, 0x65A0CFE4, 0xA9A7738C, 0xA507A53D, 0x0772A26B, 0xF4B002D6, 0x085F3833)
  {
    hide After;
    Round34();
    Step(36, 0x650A7354, 0x0A8B3996);
    assert After(37) ==
           Registers(0x41A65CB1, 0x65A0CFE4, 0xA9A7738C, 0xFE604DF5, 0x0772A26B, 0xF4B002D6, 0x085F3833, 0x59249DD3);
    Step(37, 0x766A0ABB, 0x72AF830A);
  }

  lemma Round38()
    ensures After(40) ==
            Registers(0x79EA687A, 0x6DC57A8A, 0x34DF1604, 0x41A65CB1, 0x1EFBC0A0, 0xF0781BC8, 0xA507A53D, 0x0772A26B)
  {
    hide After;
    Round36();
    Step(38, 0x81C2C92E, 0x9409E33E);
    assert After(39) ==
           Registers(0x6DC57A8A, 0x34DF1604, 0x41A65CB1, 0x65A0CFE4, 0xF0781BC8, 0xA507A53D, 0x0772A26B, 0xF4B002D6);
    Step(39, 0x92722C85, 0x24641522);
  }

  lemma Round40()
    ensures After(42) ==
            Registers(0xDF46652F, 0xD6670766, 0x79EA687A, 0x6DC57A8A, 0x838B2711, 0x26352D63, 0x1EFBC0A0, 0xF0781BC8)
  {
    hide After;
    Round38();
    Step(40, 0xA2BFE8A1, 0x9F47BF94);
    assert After(41) ==
           Registers(0xD6670766, 0x79EA687A, 0x6DC57A8A, 0x34DF1604, 0x26352D63, 0x1EFBC0A0, 0xF0781BC8, 0xA507A53D);
    Step(41, 0xA81A664B, 0xF0A64F5A);
  }

  lemma Round42()
    ensures After(44) ==
            Registers(0x9D4BAF93, 0x17AA0DFE, 0xDF46652F, 0xD6670766, 0xFDA24C2E, 0xDECD4715, 0x838B2711, 0x26352D63)
  {
    hide After;
    Round40();
    Step(42, 0xC24B8B70, 0x3E246A79);
    assert After(43) ==
           Registers(0x17AA0DFE, 0xDF46652F, 0xD6670766, 0x79EA687A, 0xDECD4715, 0x838B2711, 0x26352D63, 0x1EFBC0A0);
    Step(43, 0xC76C51A3, 0x27333BA3);
  }

  lemma Round44()
    ensures After(46) ==
            Registers(0x72AB4B91, 0x26628815, 0x9D4BAF93, 0x17AA0DFE, 0xB7755DA1, 0xA80F11F0, 0xFDA24C2E, 0xDECD4715)
  {
    hide After;
    Round42();
    Step(44, 0xD192E819, 0x0C4763F2);
    assert After(45) ==
           Registers(0x26628815, 0x9D4BAF93, 0x17AA0DFE, 0xDF46652F, 0xA80F11F0, 0xFDA24C2E, 0xDECD4715, 0x838B2711);
    Step(45, 0xD6990624, 0x840ABF27);
  }

  lemma Round46()
    ensures After(48) ==
            Registers(0x4172328D, 0xA14C14B0, 0x72AB4B91, 0x26628815, 0xFECF0BC6, 0xD57B94A9, 0xB7755DA1, 0xA80F11F0)
  {
    hide After;
    Round44();
    Step(46, 0xF40E3585, 0x7A290D5D);
    assert After(47) ==
           Registers(0xA14C14B0, 0x72AB4B91, 0x26628815, 0x9D4BAF93, 0xD57B94A9, 0xB7755DA1, 0xA80F11F0, 0xFDA24C2E);
    Step(47, 0x106AA070, 0x065C43DA);
  }

  lemma Round48()
    ensures After(50) ==
            Registers(0xF11BFAA8, 0x05757CEB, 0x4172328D, 0xA14C14B0, 0x6E5C390C, 0xBD714038, 0xFECF0BC6, 0xD57B94A9)
  {
    hide After;
    Round46();
    Step(48, 0x19A4C116, 0xFB3E89CB);
    assert After(49) ==
           Registers(0x05757CEB, 0x4172328D, 0xA14C14B0, 0x72AB4B91, 0xBD714038, 0xFECF0BC6, 0xD57B94A9, 0xB7755DA1);
    Step(49, 0x1E376C08, 0xCC7617DB);
  }

  lemma Round50()
    ensures After(52) ==
            Registers(0x886E7A22, 0x7A0508A1, 0xF11BFAA8, 0x05757CEB, 0x49231C1E, 0x52F1CCF7, 0x6E5C390C, 0xBD714038)
  {
    hide After;
    Round48();
    Step(50, 0x2748774C, 0xB9E66C34);
    assert After(51) ==
           Registers(0x7A0508A1, 0xF11BFAA8, 0x05757CEB, 0x4172328D, 0x52F1CCF7, 0x6E5C390C, 0xBD714038, 0xFECF0BC6);
    Step(51, 0x34B0BCB5, 0xA9993667);
  }

  lemma Round52()
    ensures After(54) ==
            Registers(0xF5702FDB, 0x101FD28F, 0x886E7A22, 0x7A0508A1, 0x9F4787C3, 0x529E7D00, 0x49231C1E, 0x52F1CCF7)
  {
    hide After;
    Round50();
    Step(52, 0x391C0CB3, 0x84BADEDD);
    assert After(53) ==
           Registers(0x101FD28F, 0x886E7A22, 0x7A0508A1, 0xF11BFAA8, 0x529E7D00, 0x49231C1E, 0x52F1CCF7, 0x6E5C390C);
    Step(53, 0x4ED8AA4A, 0xC21462BC);
  }

  lemma Round54()
    ensures After(56) ==
            Registers(0x38CC9913, 0x3EC45CDB, 0xF5702FDB, 0x101FD28F, 0x54CB266B, 0xE50E1B4F, 0x9F4787C3, 0x529E7D00)
  {
    hide After;
    Round52();
    Step(54, 0x5B9CCA4F, 0x1487472C);
    assert After(55) ==
           Registers(0x3EC45CDB, 0xF5702FDB, 0x101FD28F, 0x886E7A22, 0xE50E1B4F, 0x9F4787C3, 0x529E7D00, 0x49231C1E);
    Step(55, 0x682E6FF3, 0xB20F7A99);
  }

  lemma Round56()
    ensures After(58) ==
            Registers(0xC062D46F, 0xFCD1887B, 0x38CC9913, 0x3EC45CDB, 0x7E44008E, 0x9B5E906C, 0x54CB266B, 0xE50E1B4F)
  {
    hide After;
    Round54();
    Step(56, 0x748F82EE, 0xEF57B9CD);
    assert After(57) ==
           Registers(0xFCD1887B, 0x38CC9913, 0x3EC45CDB, 0xF5702FDB, 0x9B5E906C, 0x54CB266B, 0xE50E1B4F, 0x9F4787C3);
    Step(57, 0x78A5636F, 0xEBE6B238);
  }

  lemma Round58()
    ensures After(60) ==
            Registers(0xB6AE8FFF, 0xFFB70472, 0xC062D46F, 0xFCD1887B, 0xB21BAD3D, 0x6D83BFC6, 0x7E44008E, 0x9B5E906C)
  {
    hide After;
    Round56();
    Step(58, 0x84C87814, 0x9FE3095E);
    assert After(59) ==
           Registers(0xFFB70472, 0xC062D46F, 0xFCD1887B, 0x38CC9913, 0x6D83BFC6, 0x7E44008E, 0x9B5E906C, 0x54CB266B);
    Step(59, 0x8CC70208, 0x78BC8D4B);
  }

  lemma Round60()
    ensures After(62) ==
            Registers(0x04D24D6C, 0xB85E2CE9, 0xB6AE8FFF, 0xFFB70472, 0x948D25B6, 0x961F4894, 0xB21BAD3D, 0x6D83BFC6)
  {
    hide After;
    Round58();
    Step(60, 0x90BEFFFA, 0xA43FCF15);
    assert After(61) ==
           Registers(0xB85E2CE9, 0xB6AE8FFF, 0xFFB70472, 0xC062D46F, 0x961F4894, 0xB21BAD3D, 0x6D83BFC6, 0x7E44008E);
    Step(61, 0xA4506CEB, 0x668B2FF8);
  }

  lemma Round62()
    ensures After(64) ==
            Registers(0x506E3058, 0xD39A2165, 0x04D24D6C, 0xB85E2CE9, 0x5EF50F24, 0xFB121210, 0x948D25B6, 0x961F4894)
  {
    hide After;
    Round60();
    Step(62, 0xBEF9A3F7, 0xEEABA2CC);
    assert After(63) ==
           Registers(0xD39A2165, 0x04D24D6C, 0xB85E2CE9, 0xB6AE8FFF, 0xFB121210, 0x948D25B6, 0x961F4894, 0xB21BAD3D);
    Step(63, 0xC67178F2, 0x12B1EDEB);
  }

  lemma AbcWords()
    ensures HashBlocks(Block()) == [
              0xBA7816BF, 0x8F01CFEA, 0x414140DE, 0x5DAE2223,
              0xB00361A3, 0x96177A9C, 0xB410FF61, 0xF20015AD]
  {
    hide Rounds, Block;
    var block := Block();
    assert block[..|block| - 64] == [] && block[|block| - 64..] == block;
    Round62();
  }

  lemma OneMore(words: seq<word>, n: nat, bytes: seq<octet>, b0: octet, b1: octet, b2: octet, b3: octet)
    requires n < |words| && UnpackAll(words[..n]) == bytes && words[n] == Pack(b0, b1, b2, b3)
    ensures UnpackAll(words[..n + 1]) == bytes + [b0, b1, b2, b3]
  {
    UnpackPack(b0, b1, b2, b3);
    assert words[..n + 1][..n] == words[..n];
  }

  lemma FirstBytes(words: seq<word>)
    requires |words| == 8 && words[0] == 0xBA7816BF && words[1] == 0x8F01CFEA
    requires words[2] == 0x414140DE && words[3] == 0x5DAE2223
    ensures UnpackAll(words[..4]) ==
            [0xBA, 0x78, 0x16, 0xBF] + [0x8F, 0x01, 0xCF, 0xEA] + [0x41, 0x41, 0x40, 0xDE] + [0x5D, 0xAE, 0x22, 0x23]
  {
    assert UnpackAll(words[..0]) == [];
    hide UnpackAll;
    var bytes := [];
    OneMore(words, 0, bytes, 0xBA, 0x78, 0x16, 0xBF);
    bytes := bytes + [0xBA, 0x78, 0x16, 0xBF];
    OneMore(words, 1, bytes, 0x8F, 0x01, 0xCF, 0xEA);
    bytes := bytes + [0x8F, 0x01, 0xCF, 0xEA];
    OneMore(words, 2, bytes, 0x41, 0x41, 0x40, 0xDE);
    bytes := bytes + [0x41, 0x41, 0x40, 0xDE];
    OneMore(words, 3, bytes, 0x5D, 0xAE, 0x22, 0x23);
    assert bytes + [0x5D, 0xAE, 0x22, 0x23] ==
           [0xBA, 0x78, 0x16, 0xBF] + [0x8F, 0x01, 0xCF, 0xEA] + [0x41, 0x41, 0x40, 0xDE] + [0x5D, 0xAE, 0x22, 0x23];
  }

  lemma LastBytes(words: seq<word>, bytes: seq<octet>)
    requires |words| == 8 && UnpackAll(words[..4]) == bytes && words[4] == 0xB00361A3 && words[5] == 0x96177A9C
    requires words[6] == 0xB410FF61 && words[7] == 0xF20015AD
    ensures UnpackAll(words) ==
            bytes + [0xB0, 0x03, 0x61, 0xA3]
            + [0x96, 0x17, 0x7A, 0x9C] + [0xB4, 0x10, 0xFF, 0x61] + [0xF2, 0x00, 0x15, 0xAD]
  {
    hide UnpackAll;
    var bytes := bytes;
    OneMore(words, 4, bytes, 0xB0, 0x03, 0x61, 0xA3);
    bytes := bytes + [0xB0, 0x03, 0x61, 0xA3];
    OneMore(words, 5, bytes, 0x96, 0x17, 0x7A, 0x9C);
    bytes := bytes + [0x96, 0x17, 0x7A, 0x9C];
    OneMore(words, 6, bytes, 0xB4, 0x10, 0xFF, 0x61);
    bytes := bytes + [0xB4, 0x10, 0xFF, 0x61];
    OneMore(words, 7, bytes, 0xF2, 0x00, 0x15, 0xAD);
    assert words[..8] == words;
  }

  /** The digest of "abc". */
  lemma AbcDigest()
    ensures Digest(Abc) == AbcHash
  {
    hide HashBlocks, Padded, Block, UnpackAll;
    AbcPadded();
    AbcWords();
    var words := HashBlocks(Block());
    FirstBytes(words);
    LastBytes(words, UnpackAll(words[..4]));
  }
}
