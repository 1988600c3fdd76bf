/**
 * The multiplicative order of x modulo the generator exceeds the bit length of any frame: no
 * power x^k with 1 <= k <= 1088 is congruent to 1.
 */
module Order {
  import opened Crc

  function Stride4(r: bv16): bv16 { Shift(Shift(Shift(Shift(r)))) }

  /** Multiplication by x^16. */
  function Stride(r: bv16): bv16 { Stride4(Stride4(Stride4(Stride4(r)))) }

  predicate OneBit(r: bv16) { r != 0 && r & (r - 1) == 0 }

  /** x^k is not congruent to 1 for any k from 1 to n. */
  ghost predicate NoReturn(n: nat) {
    forall k: nat :: 1 <= k <= n ==> Shifts(1, k) != 1
  }

  lemma {:induction false} ShiftsCompose(r: bv16, m: nat, n: nat)
    ensures Shifts(r, m + n) == Shifts(Shifts(r, m), n)
    decreases m
  {
    if m > 0 {
      ShiftsCompose(Shift(r), m - 1, n);
    }
  }

  lemma StrideIsSixteenShifts(r: bv16)
    ensures Shifts(r, 16) == Stride(r)
  {
    FourShifts(r, 12);
    FourShifts(Stride4(r), 8);
    FourShifts(Stride4(Stride4(r)), 4);
    FourShifts(Stride4(Stride4(Stride4(r))), 0);
  }

  lemma FourShifts(r: bv16, n: nat)
    ensures Shifts(r, n + 4) == Shifts(Stride4(r), n)
  {
    assert Shifts(r, n + 4) == Shifts(Shift(r), n + 3);
    assert Shifts(Shift(r), n + 3) == Shifts(Shift(Shift(r)), n + 2);
    assert Shifts(Shift(Shift(r)), n + 2) == Shifts(Shift(Shift(Shift(r))), n + 1);
  }

  lemma ShiftOfMask(i: nat)
    requires 1 <= i < 16
    ensures Shift(Mask(i)) == Mask(i - 1)
  {
  }

  lemma {:induction false} LowPowersAreMasks(k: nat)
    requires k < 16
    ensures Shifts(1, k) == Mask(15 - k)
  {
    if k > 0 {
      LowPowersAreMasks(k - 1);
      ShiftsCompose(1, k - 1, 1);
      ShiftOfMask(16 - k);
    }
  }

  lemma LowPowersAreOneBit(k: nat)
    requires k < 16
    ensures OneBit(Shifts(1, k))
  {
    LowPowersAreMasks(k);
    MaskIsOneBit(15 - k);
  }

  /** The next sixteen powers: if x^(n+16) has several terms, none of x^(n+1) .. x^(n+16) is 1. */
  lemma Jump(n: nat, r: bv16, s: bv16)
    requires Shifts(1, n) == r && NoReturn(n)
    requires Stride(r) == s && !OneBit(s)
    ensures Shifts(1, n + 16) == s && NoReturn(n + 16)
  {
    ShiftsCompose(1, n, 16);
    StrideIsSixteenShifts(r);
    forall k: nat | n < k <= n + 16 ensures Shifts(1, k) != 1 {
      ShiftsCompose(1, k, n + 16 - k);
      LowPowersAreOneBit(n + 16 - k);
    }
  }

  lemma Powers0()
    ensures Shifts(1, 272) == 0x8DDC && NoReturn(272)
  {
    Jump(0, 0x0001, 0x1021);
    Jump(16, 0x1021, 0x3730);
    Jump(32, 0x3730, 0xAA51);
    Jump(48, 0xAA51, 0xB861);
    Jump(64, 0xB861, 0xEB23);
    Jump(80, 0xEB23, 0xD849);
    Jump(96, 0xD849, 0x4563);
    Jump(112, 0x4563, 0xAEFC);
    Jump(128, 0xAEFC, 0x10E2);
    Jump(144, 0x10E2, 0xDE1F);
    Jump(160, 0xDE1F, 0xD5F6);
    Jump(176, 0xD5F6, 0x650B);
    Jump(192, 0x650B, 0x45B4);
    Jump(208, 0x45B4, 0x1566);
    Jump(224, 0x1566, 0xF0E6);
    Jump(240, 0xF0E6, 0x8E29);
    Jump(256, 0x8E29, 0x8DDC);
  }

  lemma Powers1()
    ensures Shifts(1, 544) == 0x1648 && NoReturn(544)
  {
    Powers0();
    Jump(272, 0x8DDC, 0x6735);
    Jump(288, 0x6735, 0xF44B);
    Jump(304, 0xF44B, 0x26AA);
    Jump(320, 0x26AA, 0xB8E0);
    Jump(336, 0xB8E0, 0x6A8A);
    Jump(352, 0x6A8A, 0xD423);
    Jump(368, 0xD423, 0xCDE2);
    Jump(384, 0xCDE2, 0xBD64);
    Jump(400, 0xBD64, 0x4473);
    Jump(416, 0x4473, 0x8FFC);
    Jump(432, 0x8FFC, 0x2535);
    Jump(448, 0x2535, 0x9FE5);
    Jump(464, 0x9FE5, 0xA55E);
    Jump(480, 0xA55E, 0x59B0);
    Jump(496, 0x59B0, 0x13FC);
    Jump(512, 0x13FC, 0x78B3);
    Jump(528, 0x78B3, 0x1648);
  }

  lemma Powers2()
    ensures Shifts(1, 816) == 0x66A1 && NoReturn(816)
  {
    Powers1();
    Jump(544, 0x1648, 0x6019);
    Jump(560, 0x6019, 0x8832);
    Jump(576, 0x8832, 0x8420);
    Jump(592, 0x8420, 0xF33E);
    Jump(608, 0xF33E, 0x910F);
    Jump(624, 0x910F, 0xDA35);
    Jump(640, 0xDA35, 0x9C1A);
    Jump(656, 0x9C1A, 0xEEFD);
    Jump(672, 0xEEFD, 0x0D0F);
    Jump(688, 0x0D0F, 0x87B3);
    Jump(704, 0x87B3, 0x15B7);
    Jump(720, 0x15B7, 0x2BBA);
    Jump(736, 0x2BBA, 0xDC8D);
    Jump(752, 0xDC8D, 0x106F);
    Jump(768, 0x106F, 0x9E3A);
    Jump(784, 0x9E3A, 0xACFD);
    Jump(800, 0xACFD, 0x66A1);
  }

  lemma Powers3()
    ensures Shifts(1, 1088) == 0x71C4 && NoReturn(1088)
  {
    Powers2();
    Jump(816, 0x66A1, 0x0447);
    Jump(832, 0x0447, 0xF4E7);
    Jump(848, 0xF4E7, 0x52CC);
    Jump(864, 0x52CC, 0x701D);
    Jump(880, 0x701D, 0xCBC5);
    Jump(896, 0xCBC5, 0x4347);
    Jump(912, 0x4347, 0x60BC);
    Jump(928, 0x60BC, 0x6D7D);
    Jump(944, 0x6D7D, 0xD24C);
    Jump(960, 0xD24C, 0xFA0D);
    Jump(976, 0xFA0D, 0x2DA7);
    Jump(992, 0x2DA7, 0xB5B7);
    Jump(1008, 0xB5B7, 0x36C4);
    Jump(1024, 0x36C4, 0x36FB);
    Jump(1040, 0x36FB, 0xF147);
    Jump(1056, 0xF147, 0x18D3);
    Jump(1072, 0x18D3, 0x71C4);
  }

  /** No two bits of a frame are a whole number of periods apart. */
  lemma OrderExceedsFrame()
    ensures NoReturn(1088)
  {
    Powers3();
  }
}
