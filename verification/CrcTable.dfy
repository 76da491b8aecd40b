/** The table of src/crc32.c and the proof that each entry is what eight single-bit steps compute. */
module CrcTable {
  const POLYNOMIAL: bv32 := 0xedb88320

  function Xor(a: bv32, b: bv32): bv32 {
    a ^ b
  }

  function BitStep(c: bv32): bv32 {
    (if c & 1 == 1 then POLYNOMIAL else 0) ^ (c >> 1)
  }

  function BitStep2(c: bv32): bv32 {
    BitStep(BitStep(c))
  }

  function BitStep4(c: bv32): bv32 {
    BitStep2(BitStep2(c))
  }

  function BitStep8(c: bv32): bv32 {
    BitStep4(BitStep4(c))
  }

  /** Entry i of a row of sixteen. */
  function Pick(i: bv32, v0: bv32, v1: bv32, v2: bv32, v3: bv32, v4: bv32, v5: bv32, v6: bv32, v7: bv32,
                v8: bv32, v9: bv32, va: bv32, vb: bv32, vc: bv32, vd: bv32, ve: bv32, vf: bv32): bv32 {
    if i == 0 then v0
    else if i == 1 then v1
    else if i == 2 then v2
    else if i == 3 then v3
    else if i == 4 then v4
    else if i == 5 then v5
    else if i == 6 then v6
    else if i == 7 then v7
    else if i == 8 then v8
    else if i == 9 then v9
    else if i == 10 then va
    else if i == 11 then vb
    else if i == 12 then vc
    else if i == 13 then vd
    else if i == 14 then ve
    else vf
  }

  function Row0(i: bv32): bv32 {
    Pick(i, 0x00000000, 0x77073096, 0xee0e612c, 0x990951ba, 0x076dc419, 0x706af48f, 0xe963a535, 0x9e6495a3,
            0x0edb8832, 0x79dcb8a4, 0xe0d5e91e, 0x97d2d988, 0x09b64c2b, 0x7eb17cbd, 0xe7b82d07, 0x90bf1d91)
  }

  function Row1(i: bv32): bv32 {
    Pick(i, 0x1db71064, 0x6ab020f2, 0xf3b97148, 0x84be41de, 0x1adad47d, 0x6ddde4eb, 0xf4d4b551, 0x83d385c7,
            0x136c9856, 0x646ba8c0, 0xfd62f97a, 0x8a65c9ec, 0x14015c4f, 0x63066cd9, 0xfa0f3d63, 0x8d080df5)
  }

  function Row2(i: bv32): bv32 {
    Pick(i, 0x3b6e20c8, 0x4c69105e, 0xd56041e4, 0xa2677172, 0x3c03e4d1, 0x4b04d447, 0xd20d85fd, 0xa50ab56b,
            0x35b5a8fa, 0x42b2986c, 0xdbbbc9d6, 0xacbcf940, 0x32d86ce3, 0x45df5c75, 0xdcd60dcf, 0xabd13d59)
  }

  function Row3(i: bv32): bv32 {
    Pick(i, 0x26d930ac, 0x51de003a, 0xc8d75180, 0xbfd06116, 0x21b4f4b5, 0x56b3c423, 0xcfba9599, 0xb8bda50f,
            0x2802b89e, 0x5f058808, 0xc60cd9b2, 0xb10be924, 0x2f6f7c87, 0x58684c11, 0xc1611dab, 0xb6662d3d)
  }

  function Row4(i: bv32): bv32 {
    Pick(i, 0x76dc4190, 0x01db7106, 0x98d220bc, 0xefd5102a, 0x71b18589, 0x06b6b51f, 0x9fbfe4a5, 0xe8b8d433,
            0x7807c9a2, 0x0f00f934, 0x9609a88e, 0xe10e9818, 0x7f6a0dbb, 0x086d3d2d, 0x91646c97, 0xe6635c01)
  }

  function Row5(i: bv32): bv32 {
    Pick(i, 0x6b6b51f4, 0x1c6c6162, 0x856530d8, 0xf262004e, 0x6c0695ed, 0x1b01a57b, 0x8208f4c1, 0xf50fc457,
            0x65b0d9c6, 0x12b7e950, 0x8bbeb8ea, 0xfcb9887c, 0x62dd1ddf, 0x15da2d49, 0x8cd37cf3, 0xfbd44c65)
  }

  function Row6(i: bv32): bv32 {
    Pick(i, 0x4db26158, 0x3ab551ce, 0xa3bc0074, 0xd4bb30e2, 0x4adfa541, 0x3dd895d7, 0xa4d1c46d, 0xd3d6f4fb,
            0x4369e96a, 0x346ed9fc, 0xad678846, 0xda60b8d0, 0x44042d73, 0x33031de5, 0xaa0a4c5f, 0xdd0d7cc9)
  }

  function Row7(i: bv32): bv32 {
    Pick(i, 0x5005713c, 0x270241aa, 0xbe0b1010, 0xc90c2086, 0x5768b525, 0x206f85b3, 0xb966d409, 0xce61e49f,
            0x5edef90e, 0x29d9c998, 0xb0d09822, 0xc7d7a8b4, 0x59b33d17, 0x2eb40d81, 0xb7bd5c3b, 0xc0ba6cad)
  }

  function Row8(i: bv32): bv32 {
    Pick(i, 0xedb88320, 0x9abfb3b6, 0x03b6e20c, 0x74b1d29a, 0xead54739, 0x9dd277af, 0x04db2615, 0x73dc1683,
            0xe3630b12, 0x94643b84, 0x0d6d6a3e, 0x7a6a5aa8, 0xe40ecf0b, 0x9309ff9d, 0x0a00ae27, 0x7d079eb1)
  }

  function Row9(i: bv32): bv32 {
    Pick(i, 0xf00f9344, 0x8708a3d2, 0x1e01f268, 0x6906c2fe, 0xf762575d, 0x806567cb, 0x196c3671, 0x6e6b06e7,
            0xfed41b76, 0x89d32be0, 0x10da7a5a, 0x67dd4acc, 0xf9b9df6f, 0x8ebeeff9, 0x17b7be43, 0x60b08ed5)
  }

  function RowA(i: bv32): bv32 {
    Pick(i, 0xd6d6a3e8, 0xa1d1937e, 0x38d8c2c4, 0x4fdff252, 0xd1bb67f1, 0xa6bc5767, 0x3fb506dd, 0x48b2364b,
            0xd80d2bda, 0xaf0a1b4c, 0x36034af6, 0x41047a60, 0xdf60efc3, 0xa867df55, 0x316e8eef, 0x4669be79)
  }

  function RowB(i: bv32): bv32 {
    Pick(i, 0xcb61b38c, 0xbc66831a, 0x256fd2a0, 0x5268e236, 0xcc0c7795, 0xbb0b4703, 0x220216b9, 0x5505262f,
            0xc5ba3bbe, 0xb2bd0b28, 0x2bb45a92, 0x5cb36a04, 0xc2d7ffa7, 0xb5d0cf31, 0x2cd99e8b, 0x5bdeae1d)
  }

  function RowC(i: bv32): bv32 {
    Pick(i, 0x9b64c2b0, 0xec63f226, 0x756aa39c, 0x026d930a, 0x9c0906a9, 0xeb0e363f, 0x72076785, 0x05005713,
            0x95bf4a82, 0xe2b87a14, 0x7bb12bae, 0x0cb61b38, 0x92d28e9b, 0xe5d5be0d, 0x7cdcefb7, 0x0bdbdf21)
  }

  function RowD(i: bv32): bv32 {
    Pick(i, 0x86d3d2d4, 0xf1d4e242, 0x68ddb3f8, 0x1fda836e, 0x81be16cd, 0xf6b9265b, 0x6fb077e1, 0x18b74777,
            0x88085ae6, 0xff0f6a70, 0x66063bca, 0x11010b5c, 0x8f659eff, 0xf862ae69, 0x616bffd3, 0x166ccf45)
  }

  function RowE(i: bv32): bv32 {
    Pick(i, 0xa00ae278, 0xd70dd2ee, 0x4e048354, 0x3903b3c2, 0xa7672661, 0xd06016f7, 0x4969474d, 0x3e6e77db,
            0xaed16a4a, 0xd9d65adc, 0x40df0b66, 0x37d83bf0, 0xa9bcae53, 0xdebb9ec5, 0x47b2cf7f, 0x30b5ffe9)
  }

  function RowF(i: bv32): bv32 {
    Pick(i, 0xbdbdf21c, 0xcabac28a, 0x53b39330, 0x24b4a3a6, 0xbad03605, 0xcdd70693, 0x54de5729, 0x23d967bf,
            0xb3667a2e, 0xc4614ab8, 0x5d681b02, 0x2a6f2b94, 0xb40bbe37, 0xc30c8ea1, 0x5a05df1b, 0x2d02ef8d)
  }

  /** crc32_tab[idx] */
  function Tab(idx: bv32): bv32 {
    var hi, i := idx >> 4, idx & 0xF;
    if hi == 0x0 then Row0(i)
    else if hi == 0x1 then Row1(i)
    else if hi == 0x2 then Row2(i)
    else if hi == 0x3 then Row3(i)
    else if hi == 0x4 then Row4(i)
    else if hi == 0x5 then Row5(i)
    else if hi == 0x6 then Row6(i)
    else if hi == 0x7 then Row7(i)
    else if hi == 0x8 then Row8(i)
    else if hi == 0x9 then Row9(i)
    else if hi == 0xa then RowA(i)
    else if hi == 0xb then RowB(i)
    else if hi == 0xc then RowC(i)
    else if hi == 0xd then RowD(i)
    else if hi == 0xe then RowE(i)
    else RowF(i)
  }

  lemma Row0IsBitwise(i: bv32)
    requires i < 16
    ensures Row0(i) == BitStep8(0x00 ^ i)
  {
    if i == 0 {} else if i == 1 {} else if i == 2 {} else if i == 3 {} else if i < 8 {} else {}
  }

  lemma Row1IsBitwise(i: bv32)
    requires i < 16
    ensures Row1(i) == BitStep8(0x10 ^ i)
  {
    if i == 0 {} else if i == 1 {} else if i == 2 {} else if i == 3 {} else if i < 8 {} else {}
  }

  lemma Row2IsBitwise(i: bv32)
    requires i < 16
    ensures Row2(i) == BitStep8(0x20 ^ i)
  {
    if i == 0 {} else if i == 1 {} else if i == 2 {} else if i == 3 {} else if i < 8 {} else {}
  }

  lemma Row3IsBitwise(i: bv32)
    requires i < 16
    ensures Row3(i) == BitStep8(0x30 ^ i)
  {
    if i == 0 {} else if i == 1 {} else if i == 2 {} else if i == 3 {} else if i < 8 {} else {}
  }

  lemma Row4IsBitwise(i: bv32)
    requires i < 16
    ensures Row4(i) == BitStep8(0x40 ^ i)
  {
    if i == 0 {} else if i == 1 {} else if i == 2 {} else if i == 3 {} else if i < 8 {} else {}
  }

  lemma Row5IsBitwise(i: bv32)
    requires i < 16
    ensures Row5(i) == BitStep8(0x50 ^ i)
  {
    if i == 0 {} else if i == 1 {} else if i == 2 {} else if i == 3 {} else if i < 8 {} else {}
  }

  lemma Row6IsBitwise(i: bv32)
    requires i < 16
    ensures Row6(i) == BitStep8(0x60 ^ i)
  {
    if i == 0 {} else if i == 1 {} else if i == 2 {} else if i == 3 {} else if i < 8 {} else {}
  }

  lemma Row7IsBitwise(i: bv32)
    requires i < 16
    ensures Row7(i) == BitStep8(0x70 ^ i)
  {
    if i == 0 {} else if i == 1 {} else if i == 2 {} else if i == 3 {} else if i < 8 {} else {}
  }

  lemma Row8IsBitwise(i: bv32)
    requires i < 16
    ensures Row8(i) == BitStep8(0x80 ^ i)
  {
    if i == 0 {} else if i == 1 {} else if i == 2 {} else if i == 3 {} else if i < 8 {} else {}
  }

  lemma Row9IsBitwise(i: bv32)
    requires i < 16
    ensures Row9(i) == BitStep8(0x90 ^ i)
  {
    if i == 0 {} else if i == 1 {} else if i == 2 {} else if i == 3 {} else if i < 8 {} else {}
  }

  lemma RowAIsBitwise(i: bv32)
    requires i < 16
    ensures RowA(i) == BitStep8(0xa0 ^ i)
  {
    if i == 0 {} else if i == 1 {} else if i == 2 {} else if i == 3 {} else if i < 8 {} else {}
  }

  lemma RowBIsBitwise(i: bv32)
    requires i < 16
    ensures RowB(i) == BitStep8(0xb0 ^ i)
  {
    if i == 0 {} else if i == 1 {} else if i == 2 {} else if i == 3 {} else if i < 8 {} else {}
  }

  lemma RowCIsBitwise(i: bv32)
    requires i < 16
    ensures RowC(i) == BitStep8(0xc0 ^ i)
  {
    if i == 0 {} else if i == 1 {} else if i == 2 {} else if i == 3 {} else if i < 8 {} else {}
  }

  lemma RowDIsBitwise(i: bv32)
    requires i < 16
    ensures RowD(i) == BitStep8(0xd0 ^ i)
  {
    if i == 0 {} else if i == 1 {} else if i == 2 {} else if i == 3 {} else if i < 8 {} else {}
  }

  lemma RowEIsBitwise(i: bv32)
    requires i < 16
    ensures RowE(i) == BitStep8(0xe0 ^ i)
  {
    if i == 0 {} else if i == 1 {} else if i == 2 {} else if i == 3 {} else if i < 8 {} else {}
  }

  lemma RowFIsBitwise(i: bv32)
    requires i < 16
    ensures RowF(i) == BitStep8(0xf0 ^ i)
  {
    if i == 0 {} else if i == 1 {} else if i == 2 {} else if i == 3 {} else if i < 8 {} else {}
  }

  lemma Nibbles(i: bv32)
    requires i <= 0xFF
    ensures i == ((i >> 4) << 4) ^ (i & 0xF) && i >> 4 <= 0xF && i & 0xF < 16
  {
  }

  lemma TableIsBitwise(i: bv32)
    requires i <= 0xFF
    ensures Tab(i) == BitStep8(i)
  {
    Nibbles(i);
    var hi, lo := i >> 4, i & 0xF;
    if hi == 0x0 {
      Row0IsBitwise(lo);
    } else if hi == 0x1 {
      Row1IsBitwise(lo);
    } else if hi == 0x2 {
      Row2IsBitwise(lo);
    } else if hi == 0x3 {
      Row3IsBitwise(lo);
    } else if hi == 0x4 {
      Row4IsBitwise(lo);
    } else if hi == 0x5 {
      Row5IsBitwise(lo);
    } else if hi == 0x6 {
      Row6IsBitwise(lo);
    } else if hi == 0x7 {
      Row7IsBitwise(lo);
    } else if hi == 0x8 {
      Row8IsBitwise(lo);
    } else if hi == 0x9 {
      Row9IsBitwise(lo);
    } else if hi == 0xa {
      RowAIsBitwise(lo);
    } else if hi == 0xb {
      RowBIsBitwise(lo);
    } else if hi == 0xc {
      RowCIsBitwise(lo);
    } else if hi == 0xd {
      RowDIsBitwise(lo);
    } else if hi == 0xe {
      RowEIsBitwise(lo);
    } else {
      RowFIsBitwise(lo);
    }
  }
}
