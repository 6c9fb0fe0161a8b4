/** Known answers of SipHash-1-3 for the key bytes 00 01 ... 0f: the round constants, the amounts of rotation,
    the order of the words and the bytes and the final length byte all go into them. */
module SipHashVectors {
  import opened SipHash

  /** One round from the values it passes through. */
  lemma RoundIs(s: Vars, a0: bv64, a2: bv64, b1: bv64, b3: bv64, d0: bv64, d2: bv64, e1: bv64, e3: bv64)
    requires a0 == Plus(s.v0, s.v1) && a2 == Plus(s.v2, s.v3)
    requires b1 == SipHash.Xor(RotateLeft(s.v1, 13), a0) && b3 == SipHash.Xor(RotateLeft(s.v3, 16), a2)
    requires d0 == Plus(RotateLeft(a0, 32), b3) && d2 == Plus(a2, b1)
    requires e1 == SipHash.Xor(RotateLeft(b1, 17), d2) && e3 == SipHash.Xor(RotateLeft(b3, 21), d0)
    ensures SipRound(s) == Vars(d0, e1, RotateLeft(d2, 32), e3)
  {
    hide Plus, SipHash.Xor, Rotated, RotateLeft;
    RotationsAgree(s.v1);
    RotationsAgree(s.v3);
    RotationsAgree(a0);
    RotationsAgree(b1);
    RotationsAgree(b3);
    RotationsAgree(d2);
  }

  lemma CompressedIs(s: Vars, m: UInt64, bits: bv64, r: Vars)
    requires bits == Bits(m)
    requires SipRound(s.(v3 := SipHash.Xor(s.v3, bits))) == r
    ensures Compressed(s, m) == r.(v0 := SipHash.Xor(r.v0, bits))
  {
    hide SipRound, SipHash.Xor, Bits;
  }

  lemma FinishedIs(s: Vars, r1: Vars, r2: Vars, r3: Vars)
    requires SipRound(s.(v2 := SipHash.Xor(s.v2, 0xff))) == r1 && SipRound(r1) == r2 && SipRound(r2) == r3
    ensures Finished(s) == SipHash.Xor(SipHash.Xor(SipHash.Xor(r3.v0, r3.v1), r3.v2), r3.v3)
  {
    hide SipRound, SipHash.Xor;
  }

  lemma LittleEndianStep(b: Byte, rest: seq<Byte>)
    ensures LittleEndian([b] + rest) == b + 256 * LittleEndian(rest)
  {
    assert ([b] + rest)[1..] == rest;
  }

  lemma EmptyRound1()
    ensures SipRound(Vars(0x7469_6861_7371_6475, 0x6b61_7f6d_656e_6665, 0x6b7f_6261_6d67_7361, 0x7b6b_696e_727e_6c7b))
         == Vars(0x6864_848c_9369_8c85, 0x41d4_3f14_3c94_a7dc, 0xf3f9_4792_d712_1732, 0x5e52_f758_0598_7c12)
  {
    RoundIs(Vars(0x7469_6861_7371_6475, 0x6b61_7f6d_656e_6665, 0x6b7f_6261_6d67_7361, 0x7b6b_696e_727e_6c7b),
            0xdfca_e7ce_d8df_cada, 0xe6ea_cbcf_dfe5_dfdc, 0xf027_4b63_1413_67b6, 0x8f84_b9b1_b39e_a4b7,
            0x6864_848c_9369_8c85, 0xd712_1732_f3f9_4792, 0x41d4_3f14_3c94_a7dc, 0x5e52_f758_0598_7c12);
  }

  lemma EmptyBits1()
    ensures Bits(0x0000_0000_0000_0000) == 0x0000_0000_0000_0000
  {
    hide BitsOf;
    assert BitsOf(0, 0) == 0 by {
      NoHighBytes(0);
    }
    BitsStep(0x0, 0, 0, 0x0);
    assert Joined(0x0, 0) == 0x0;
    BitsStep(0x0, 0, 1, 0x0);
    assert Joined(0x0, 0) == 0x0;
    BitsStep(0x0, 0, 2, 0x0);
    assert Joined(0x0, 0) == 0x0;
    BitsStep(0x0, 0, 3, 0x0);
    assert Joined(0x0, 0) == 0x0;
    BitsStep(0x0, 0, 4, 0x0);
    assert Joined(0x0, 0) == 0x0;
    BitsStep(0x0, 0, 5, 0x0);
    assert Joined(0x0, 0) == 0x0;
    BitsStep(0x0, 0, 6, 0x0);
    assert Joined(0x0, 0) == 0x0;
    BitsStep(0x0, 0, 7, 0x0);
    assert Joined(0x0, 0) == 0x0;
  }

  lemma EmptyWord1()
    ensures Compressed(Vars(0x7469_6861_7371_6475, 0x6b61_7f6d_656e_6665, 0x6b7f_6261_6d67_7361, 0x7b6b_696e_727e_6c7b),
                       0x0000_0000_0000_0000)
         == Vars(0x6864_848c_9369_8c85, 0x41d4_3f14_3c94_a7dc, 0xf3f9_4792_d712_1732, 0x5e52_f758_0598_7c12)
  {
    hide SipRound, Compressed, Bits;
    EmptyRound1();
    EmptyBits1();
    CompressedIs(Vars(0x7469_6861_7371_6475, 0x6b61_7f6d_656e_6665, 0x6b7f_6261_6d67_7361, 0x7b6b_696e_727e_6c7b),
                 0x0000_0000_0000_0000, 0x0000_0000_0000_0000,
                 Vars(0x6864_848c_9369_8c85, 0x41d4_3f14_3c94_a7dc, 0xf3f9_4792_d712_1732, 0x5e52_f758_0598_7c12));
  }

  lemma EmptyRound2()
    ensures SipRound(Vars(0x6864_848c_9369_8c85, 0x41d4_3f14_3c94_a7dc, 0xf3f9_4792_d712_17cd, 0x5e52_f758_0598_7c12))
         == Vars(0x7512_6fd4_4af1_912d, 0x0842_3516_4f06_0b8e, 0x37b0_503a_8026_831d, 0x1b46_78cd_fb45_33aa)
  {
    RoundIs(Vars(0x6864_848c_9369_8c85, 0x41d4_3f14_3c94_a7dc, 0xf3f9_4792_d712_17cd, 0x5e52_f758_0598_7c12),
            0xaa38_c3a0_cffe_3461, 0x524c_3eea_dcaa_93df, 0x2dda_4432_5b05_bc5b, 0xa514_3b72_a0b8_cd8d,
            0x7512_6fd4_4af1_912d, 0x8026_831d_37b0_503a, 0x0842_3516_4f06_0b8e, 0x1b46_78cd_fb45_33aa);
  }

  lemma EmptyRound3()
    ensures SipRound(Vars(0x7512_6fd4_4af1_912d, 0x0842_3516_4f06_0b8e, 0x37b0_503a_8026_831d, 0x1b46_78cd_fb45_33aa))
         == Vars(0xc432_cf08_c616_526b, 0x54f9_871e_6894_6396, 0xd3f2_147a_8eed_3612, 0x8d9b_d73d_7633_150d)
  {
    RoundIs(Vars(0x7512_6fd4_4af1_912d, 0x0842_3516_4f06_0b8e, 0x37b0_503a_8026_831d, 0x1b46_78cd_fb45_33aa),
            0x7d54_a4ea_99f7_9cbb, 0x52f6_c908_7b6b_b6c7, 0x3bf6_6d0a_5886_5db3, 0x2a3b_324d_48c1_ad81,
            0xc432_cf08_c616_526b, 0x8eed_3612_d3f2_147a, 0x54f9_871e_6894_6396, 0x8d9b_d73d_7633_150d);
  }

  lemma EmptyRound4()
    ensures SipRound(Vars(0xc432_cf08_c616_526b, 0x54f9_871e_6894_6396, 0xd3f2_147a_8eed_3612, 0x8d9b_d73d_7633_150d))
         == Vars(0xe55b_538c_295a_1cab, 0xbd36_c35d_5ec4_9422, 0xa7f8_c7bd_8b5d_86ed, 0x5439_5634_f9cc_cab8)
  {
    RoundIs(Vars(0xc432_cf08_c616_526b, 0x54f9_871e_6894_6396, 0xd3f2_147a_8eed_3612, 0x8d9b_d73d_7633_150d),
            0x192c_5627_2eaa_b601, 0x618d_ebb8_0520_4b1f, 0x29cf_9b35_a2d8_7c9e, 0xb6b0_9d8b_102d_c684,
            0xe55b_538c_295a_1cab, 0x8b5d_86ed_a7f8_c7bd, 0xbd36_c35d_5ec4_9422, 0x5439_5634_f9cc_cab8);
  }

  lemma EmptyFinish()
    ensures Finished(Vars(0x6864_848c_9369_8c85, 0x41d4_3f14_3c94_a7dc, 0xf3f9_4792_d712_1732, 0x5e52_f758_0598_7c12))
         == 0xabac_0158_050f_c4dc
  {
    hide SipRound, Finished;
    EmptyRound2();
    EmptyRound3();
    EmptyRound4();
    FinishedIs(Vars(0x6864_848c_9369_8c85, 0x41d4_3f14_3c94_a7dc, 0xf3f9_4792_d712_1732, 0x5e52_f758_0598_7c12),
               Vars(0x7512_6fd4_4af1_912d, 0x0842_3516_4f06_0b8e, 0x37b0_503a_8026_831d, 0x1b46_78cd_fb45_33aa),
               Vars(0xc432_cf08_c616_526b, 0x54f9_871e_6894_6396, 0xd3f2_147a_8eed_3612, 0x8d9b_d73d_7633_150d),
               Vars(0xe55b_538c_295a_1cab, 0xbd36_c35d_5ec4_9422, 0xa7f8_c7bd_8b5d_86ed, 0x5439_5634_f9cc_cab8));
  }

  lemma InitializedIs()
    ensures Initialized(0x0706_0504_0302_0100, 0x0f0e_0d0c_0b0a_0908) ==
            Vars(0x7469_6861_7371_6475, 0x6b61_7f6d_656e_6665, 0x6b7f_6261_6d67_7361, 0x7b6b_696e_727e_6c7b)
  {
  }

  /** The empty message. */
  lemma EmptyMessage()
    ensures SipHash13(0x0706_0504_0302_0100, 0x0f0e_0d0c_0b0a_0908, []) == 0xabac_0158_050f_c4dc
  {
    hide SipRound, Compressed, Finished, Initialized;
    InitializedIs();
    assert LastWord([]) == 0;
    EmptyWord1();
    EmptyFinish();
  }

  lemma FifteenRound1()
    ensures SipRound(Vars(0x7469_6861_7371_6475, 0x6b61_7f6d_656e_6665, 0x6b7f_6261_6d67_7361, 0x7c6d_6c6a_717c_6d7b))
         == Vars(0x6466_8a92_9363_847f, 0x4ed2_3208_3d9a_a8dc, 0xf2f7_4892_d814_1a2e, 0x9290_f981_0552_f4a8)
  {
    RoundIs(Vars(0x7469_6861_7371_6475, 0x6b61_7f6d_656e_6665, 0x6b7f_6261_6d67_7361, 0x7c6d_6c6a_717c_6d7b),
            0xdfca_e7ce_d8df_cada, 0xe7ec_cecb_dee3_e0dc, 0xf027_4b63_1413_67b6, 0x8b86_bfb7_b398_9cb1,
            0x6466_8a92_9363_847f, 0xd814_1a2e_f2f7_4892, 0x4ed2_3208_3d9a_a8dc, 0x9290_f981_0552_f4a8);
  }

  lemma FifteenBits1()
    ensures Bits(0x0706_0504_0302_0100) == 0x0706_0504_0302_0100
  {
    hide BitsOf;
    assert BitsOf(0, 0) == 0 by {
      NoHighBytes(0);
    }
    BitsStep(0x0, 7, 0, 0x0);
    assert Joined(0x0, 7) == 0x7;
    BitsStep(0x7, 6, 1, 0x7);
    assert Joined(0x7, 6) == 0x706;
    BitsStep(0x706, 5, 2, 0x706);
    assert Joined(0x706, 5) == 0x70605;
    BitsStep(0x70605, 4, 3, 0x70605);
    assert Joined(0x70605, 4) == 0x7060504;
    BitsStep(0x7060504, 3, 4, 0x7060504);
    assert Joined(0x7060504, 3) == 0x706050403;
    BitsStep(0x706050403, 2, 5, 0x706050403);
    assert Joined(0x706050403, 2) == 0x70605040302;
    BitsStep(0x70605040302, 1, 6, 0x70605040302);
    assert Joined(0x70605040302, 1) == 0x7060504030201;
    BitsStep(0x7060504030201, 0, 7, 0x7060504030201);
    assert Joined(0x7060504030201, 0) == 0x706050403020100;
  }

  lemma FifteenWord1()
    ensures Compressed(Vars(0x7469_6861_7371_6475, 0x6b61_7f6d_656e_6665, 0x6b7f_6261_6d67_7361, 0x7b6b_696e_727e_6c7b),
                       0x0706_0504_0302_0100)
         == Vars(0x6360_8f96_9061_857f, 0x4ed2_3208_3d9a_a8dc, 0xf2f7_4892_d814_1a2e, 0x9290_f981_0552_f4a8)
  {
    hide SipRound, Compressed, Bits;
    FifteenRound1();
    FifteenBits1();
    CompressedIs(Vars(0x7469_6861_7371_6475, 0x6b61_7f6d_656e_6665, 0x6b7f_6261_6d67_7361, 0x7b6b_696e_727e_6c7b),
                 0x0706_0504_0302_0100, 0x0706_0504_0302_0100,
                 Vars(0x6466_8a92_9363_847f, 0x4ed2_3208_3d9a_a8dc, 0xf2f7_4892_d814_1a2e, 0x9290_f981_0552_f4a8));
  }

  lemma FifteenRound2()
    ensures SipRound(Vars(0x6360_8f96_9061_857f, 0x4ed2_3208_3d9a_a8dc, 0xf2f7_4892_d814_1a2e, 0x9d9e_f48d_0e58_fda0))
         == Vars(0x3217_61a2_ce00_4bee, 0x0951_3282_3057_57a8, 0x7f54_bf4f_850a_034d, 0x5af4_1813_840c_c888)
  {
    RoundIs(Vars(0x6360_8f96_9061_857f, 0x4ed2_3208_3d9a_a8dc, 0xf2f7_4892_d814_1a2e, 0x9d9e_f48d_0e58_fda0),
            0xb232_c19e_cdfc_2e5b, 0x9096_3d1f_e66d_17ce, 0xf473_c62d_98e7_a781, 0x641b_3347_1bcd_8a50,
            0x3217_61a2_ce00_4bee, 0x850a_034d_7f54_bf4f, 0x0951_3282_3057_57a8, 0x5af4_1813_840c_c888);
  }

  lemma FifteenBits2()
    ensures Bits(0x0f0e_0d0c_0b0a_0908) == 0x0f0e_0d0c_0b0a_0908
  {
    hide BitsOf;
    assert BitsOf(0, 0) == 0 by {
      NoHighBytes(0);
    }
    BitsStep(0x0, 15, 0, 0x0);
    assert Joined(0x0, 15) == 0xf;
    BitsStep(0xf, 14, 1, 0xf);
    assert Joined(0xf, 14) == 0xf0e;
    BitsStep(0xf0e, 13, 2, 0xf0e);
    assert Joined(0xf0e, 13) == 0xf0e0d;
    BitsStep(0xf0e0d, 12, 3, 0xf0e0d);
    assert Joined(0xf0e0d, 12) == 0xf0e0d0c;
    BitsStep(0xf0e0d0c, 11, 4, 0xf0e0d0c);
    assert Joined(0xf0e0d0c, 11) == 0xf0e0d0c0b;
    BitsStep(0xf0e0d0c0b, 10, 5, 0xf0e0d0c0b);
    assert Joined(0xf0e0d0c0b, 10) == 0xf0e0d0c0b0a;
    BitsStep(0xf0e0d0c0b0a, 9, 6, 0xf0e0d0c0b0a);
    assert Joined(0xf0e0d0c0b0a, 9) == 0xf0e0d0c0b0a09;
    BitsStep(0xf0e0d0c0b0a09, 8, 7, 0xf0e0d0c0b0a09);
    assert Joined(0xf0e0d0c0b0a09, 8) == 0xf0e0d0c0b0a0908;
  }

  lemma FifteenWord2()
    ensures Compressed(Vars(0x6360_8f96_9061_857f, 0x4ed2_3208_3d9a_a8dc, 0xf2f7_4892_d814_1a2e, 0x9290_f981_0552_f4a8),
                       0x0f0e_0d0c_0b0a_0908)
         == Vars(0x3d19_6cae_c50a_42e6, 0x0951_3282_3057_57a8, 0x7f54_bf4f_850a_034d, 0x5af4_1813_840c_c888)
  {
    hide SipRound, Compressed, Bits;
    FifteenRound2();
    FifteenBits2();
    CompressedIs(Vars(0x6360_8f96_9061_857f, 0x4ed2_3208_3d9a_a8dc, 0xf2f7_4892_d814_1a2e, 0x9290_f981_0552_f4a8),
                 0x0f0e_0d0c_0b0a_0908, 0x0f0e_0d0c_0b0a_0908,
                 Vars(0x3217_61a2_ce00_4bee, 0x0951_3282_3057_57a8, 0x7f54_bf4f_850a_034d, 0x5af4_1813_840c_c888));
  }

  lemma FifteenRound3()
    ensures SipRound(Vars(0x3d19_6cae_c50a_42e6, 0x0951_3282_3057_57a8, 0x7f54_bf4f_850a_03b2, 0x5af4_1813_840c_c888))
         == Vars(0xb7bc_edfe_0809_35fe, 0x88f7_8fb4_1fe3_a7ab, 0x28ab_67de_3a83_b09d, 0xda44_de2c_d1d1_7e94)
  {
    RoundIs(Vars(0x3d19_6cae_c50a_42e6, 0x0951_3282_3057_57a8, 0x7f54_bf4f_850a_03b2, 0x5af4_1813_840c_c888),
            0x466a_9f30_f561_9a8e, 0xda48_d763_0916_cc3a, 0x603a_d93a_1f94_9ba4, 0xc25b_536f_c19e_96ce,
            0xb7bc_edfe_0809_35fe, 0x3a83_b09d_28ab_67de, 0x88f7_8fb4_1fe3_a7ab, 0xda44_de2c_d1d1_7e94);
  }

  lemma FifteenRound4()
    ensures SipRound(Vars(0xb7bc_edfe_0809_35fe, 0x88f7_8fb4_1fe3_a7ab, 0x28ab_67de_3a83_b09d, 0xda44_de2c_d1d1_7e94))
         == Vars(0x04c9_7583_b376_7327, 0x48af_e26a_0601_b96d, 0x5f6e_dbe8_b433_4459, 0xff87_2dbd_1dcd_e8b5)
  {
    RoundIs(Vars(0xb7bc_edfe_0809_35fe, 0x88f7_8fb4_1fe3_a7ab, 0x28ab_67de_3a83_b09d, 0xda44_de2c_d1d1_7e94),
            0x40b4_7db2_27ec_dda9, 0x02f0_460b_0c55_2f31, 0xb142_fe4e_5319_acb7, 0xdcdc_97da_72c1_f575,
            0x04c9_7583_b376_7327, 0xb433_4459_5f6e_dbe8, 0x48af_e26a_0601_b96d, 0xff87_2dbd_1dcd_e8b5);
  }

  lemma FifteenRound5()
    ensures SipRound(Vars(0x04c9_7583_b376_7327, 0x48af_e26a_0601_b96d, 0x5f6e_dbe8_b433_4459, 0xff87_2dbd_1dcd_e8b5))
         == Vars(0x2cc3_40fc_882e_2a76, 0x3e71_3c78_6b55_d0e7, 0x6056_b28f_102a_20d3, 0xa1c4_1666_d900_4314)
  {
    RoundIs(Vars(0x04c9_7583_b376_7327, 0x48af_e26a_0601_b96d, 0x5f6e_dbe8_b433_4459, 0xff87_2dbd_1dcd_e8b5),
            0x4d79_57ed_b978_2c94, 0x5ef6_09a5_d201_2d0e, 0xb134_172d_8e55_8581, 0x734b_1468_3ab4_d289,
            0x2cc3_40fc_882e_2a76, 0x102a_20d3_6056_b28f, 0x3e71_3c78_6b55_d0e7, 0xa1c4_1666_d900_4314);
  }

  lemma FifteenFinish()
    ensures Finished(Vars(0x3d19_6cae_c50a_42e6, 0x0951_3282_3057_57a8, 0x7f54_bf4f_850a_034d, 0x5af4_1813_840c_c888))
         == 0xd320_d86d_2a51_9956
  {
    hide SipRound, Finished;
    FifteenRound3();
    FifteenRound4();
    FifteenRound5();
    FinishedIs(Vars(0x3d19_6cae_c50a_42e6, 0x0951_3282_3057_57a8, 0x7f54_bf4f_850a_034d, 0x5af4_1813_840c_c888),
               Vars(0xb7bc_edfe_0809_35fe, 0x88f7_8fb4_1fe3_a7ab, 0x28ab_67de_3a83_b09d, 0xda44_de2c_d1d1_7e94),
               Vars(0x04c9_7583_b376_7327, 0x48af_e26a_0601_b96d, 0x5f6e_dbe8_b433_4459, 0xff87_2dbd_1dcd_e8b5),
               Vars(0x2cc3_40fc_882e_2a76, 0x3e71_3c78_6b55_d0e7, 0x6056_b28f_102a_20d3, 0xa1c4_1666_d900_4314));
  }

  lemma FirstWord()
    ensures LittleEndian([0, 1, 2, 3, 4, 5, 6, 7]) == 0x0706_0504_0302_0100
  {
    hide LittleEndian;
    assert LittleEndian([]) == 0 by {
      LittleEndianOfNone();
    }
    LittleEndianStep(7, []);
    assert [7] + [] == [7];
    LittleEndianStep(6, [7]);
    assert [6] + [7] == [6, 7];
    LittleEndianStep(5, [6, 7]);
    assert [5] + [6, 7] == [5, 6, 7];
    LittleEndianStep(4, [5, 6, 7]);
    assert [4] + [5, 6, 7] == [4, 5, 6, 7];
    LittleEndianStep(3, [4, 5, 6, 7]);
    assert [3] + [4, 5, 6, 7] == [3, 4, 5, 6, 7];
    LittleEndianStep(2, [3, 4, 5, 6, 7]);
    assert [2] + [3, 4, 5, 6, 7] == [2, 3, 4, 5, 6, 7];
    LittleEndianStep(1, [2, 3, 4, 5, 6, 7]);
    assert [1] + [2, 3, 4, 5, 6, 7] == [1, 2, 3, 4, 5, 6, 7];
    LittleEndianStep(0, [1, 2, 3, 4, 5, 6, 7]);
    assert [0] + [1, 2, 3, 4, 5, 6, 7] == [0, 1, 2, 3, 4, 5, 6, 7];
  }

  lemma LastBytes()
    ensures LittleEndian([8, 9, 10, 11, 12, 13, 14]) == 0x000e_0d0c_0b0a_0908
  {
    hide LittleEndian;
    assert LittleEndian([]) == 0 by {
      LittleEndianOfNone();
    }
    LittleEndianStep(14, []);
    assert [14] + [] == [14];
    LittleEndianStep(13, [14]);
    assert [13] + [14] == [13, 14];
    LittleEndianStep(12, [13, 14]);
    assert [12] + [13, 14] == [12, 13, 14];
    LittleEndianStep(11, [12, 13, 14]);
    assert [11] + [12, 13, 14] == [11, 12, 13, 14];
    LittleEndianStep(10, [11, 12, 13, 14]);
    assert [10] + [11, 12, 13, 14] == [10, 11, 12, 13, 14];
    LittleEndianStep(9, [10, 11, 12, 13, 14]);
    assert [9] + [10, 11, 12, 13, 14] == [9, 10, 11, 12, 13, 14];
    LittleEndianStep(8, [9, 10, 11, 12, 13, 14]);
    assert [8] + [9, 10, 11, 12, 13, 14] == [8, 9, 10, 11, 12, 13, 14];
  }

  lemma LittleEndianOfNone()
    ensures LittleEndian([]) == 0
  {
  }

  const MESSAGE: seq<Byte> := [0, 1, 2, 3, 4, 5, 6, 7, 8, 9, 10, 11, 12, 13, 14]

  lemma PartsOfMessage()
    ensures |MESSAGE| == 15 && LittleEndian(MESSAGE[..8]) == 0x0706_0504_0302_0100
    ensures Tail(MESSAGE) == [8, 9, 10, 11, 12, 13, 14] && LastWord(MESSAGE) == 0x0f0e_0d0c_0b0a_0908
  {
    hide LittleEndian;
    FirstWord();
    LastBytes();
    assert MESSAGE[..8] == [0, 1, 2, 3, 4, 5, 6, 7];
    assert MESSAGE[8..] == [8, 9, 10, 11, 12, 13, 14];
  }

  lemma AbsorbedOneWord(s: Vars, message: seq<Byte>, word: UInt64)
    requires 8 <= |message| < 16 && LittleEndian(message[..8]) == word
    ensures Absorbed(s, message) == Compressed(s, word)
  {
    hide Compressed, LittleEndian;
    WordFits(message[..8]);
    assert Absorbed(Compressed(s, word), message[8..]) == Compressed(s, word);
  }

  /** A whole word, a tail of seven bytes and their number. */
  lemma FifteenBytes()
    ensures SipHash13(0x0706_0504_0302_0100, 0x0f0e_0d0c_0b0a_0908, MESSAGE) == 0xd320_d86d_2a51_9956
  {
    hide SipRound, Compressed, Finished, Initialized, LittleEndian, MESSAGE, Absorbed, LastWord, Tail;
    InitializedIs();
    PartsOfMessage();
    AbsorbedOneWord(Vars(0x7469_6861_7371_6475, 0x6b61_7f6d_656e_6665, 0x6b7f_6261_6d67_7361, 0x7b6b_696e_727e_6c7b),
                    MESSAGE, 0x0706_0504_0302_0100);
    FifteenWord1();
    FifteenWord2();
    FifteenFinish();
  }
}
