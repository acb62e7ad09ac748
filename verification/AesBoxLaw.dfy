/** Where the substitution box comes from: the inverse in the field, then an affine map. */
module AesBoxLaw {
  import opened Bytes
  import opened AesBoxes
  import opened Aes

  /** The product modulo x^8 + x^4 + x^3 + x + 1: the sum of the multiples a x^i that the bits of b pick. */
  function FieldTimes(a: bv8, b: bv8): bv8 {
    var a1 := (a << 1) ^ if a & 0x80 == 0 then 0 else 0x1B;
    var a2 := (a1 << 1) ^ if a1 & 0x80 == 0 then 0 else 0x1B;
    var a3 := (a2 << 1) ^ if a2 & 0x80 == 0 then 0 else 0x1B;
    var a4 := (a3 << 1) ^ if a3 & 0x80 == 0 then 0 else 0x1B;
    var a5 := (a4 << 1) ^ if a4 & 0x80 == 0 then 0 else 0x1B;
    var a6 := (a5 << 1) ^ if a5 & 0x80 == 0 then 0 else 0x1B;
    var a7 := (a6 << 1) ^ if a6 & 0x80 == 0 then 0 else 0x1B;
    (if b & 0x01 == 0 then 0 else a) ^ (if b & 0x02 == 0 then 0 else a1)
    ^ (if b & 0x04 == 0 then 0 else a2) ^ (if b & 0x08 == 0 then 0 else a3)
    ^ (if b & 0x10 == 0 then 0 else a4) ^ (if b & 0x20 == 0 then 0 else a5)
    ^ (if b & 0x40 == 0 then 0 else a6) ^ (if b & 0x80 == 0 then 0 else a7)
  }

  /** The affine map of section 5.1.1 of FIPS-197: bit i of b with bits i + 4, i + 5, i + 6 and i + 7, and 0x63. */
  function Affine(b: bv8): bv8 {
    b ^ ((b << 1) | (b >> 7)) ^ ((b << 2) | (b >> 6)) ^ ((b << 3) | (b >> 5)) ^ ((b << 4) | (b >> 4)) ^ 0x63
  }

  /** y is the inverse of x, or 0 for 0, and the box takes x to the affine image of y. */
  predicate Inverted(x: Byte, y: bv8) {
    && FieldTimes(x as bv8, y) == (if x == 0 then 0 else 1) && (x == 0 ==> y == 0)
    && FSb(x) == Affine(y) as int
  }

  lemma Row00()
    ensures Inverted(0x00, 0x00) && Inverted(0x01, 0x01) && Inverted(0x02, 0x8D) && Inverted(0x03, 0xF6)
    ensures Inverted(0x04, 0xCB) && Inverted(0x05, 0x52) && Inverted(0x06, 0x7B) && Inverted(0x07, 0xD1)
    ensures Inverted(0x08, 0xE8) && Inverted(0x09, 0x4F) && Inverted(0x0A, 0x29) && Inverted(0x0B, 0xC0)
    ensures Inverted(0x0C, 0xB0) && Inverted(0x0D, 0xE1) && Inverted(0x0E, 0xE5) && Inverted(0x0F, 0xC7)
  {
  }

  lemma Row10()
    ensures Inverted(0x10, 0x74) && Inverted(0x11, 0xB4) && Inverted(0x12, 0xAA) && Inverted(0x13, 0x4B)
    ensures Inverted(0x14, 0x99) && Inverted(0x15, 0x2B) && Inverted(0x16, 0x60) && Inverted(0x17, 0x5F)
    ensures Inverted(0x18, 0x58) && Inverted(0x19, 0x3F) && Inverted(0x1A, 0xFD) && Inverted(0x1B, 0xCC)
    ensures Inverted(0x1C, 0xFF) && Inverted(0x1D, 0x40) && Inverted(0x1E, 0xEE) && Inverted(0x1F, 0xB2)
  {
  }

  lemma Row20()
    ensures Inverted(0x20, 0x3A) && Inverted(0x21, 0x6E) && Inverted(0x22, 0x5A) && Inverted(0x23, 0xF1)
    ensures Inverted(0x24, 0x55) && Inverted(0x25, 0x4D) && Inverted(0x26, 0xA8) && Inverted(0x27, 0xC9)
    ensures Inverted(0x28, 0xC1) && Inverted(0x29, 0x0A) && Inverted(0x2A, 0x98) && Inverted(0x2B, 0x15)
    ensures Inverted(0x2C, 0x30) && Inverted(0x2D, 0x44) && Inverted(0x2E, 0xA2) && Inverted(0x2F, 0xC2)
  {
  }

  lemma Row30()
    ensures Inverted(0x30, 0x2C) && Inverted(0x31, 0x45) && Inverted(0x32, 0x92) && Inverted(0x33, 0x6C)
    ensures Inverted(0x34, 0xF3) && Inverted(0x35, 0x39) && Inverted(0x36, 0x66) && Inverted(0x37, 0x42)
    ensures Inverted(0x38, 0xF2) && Inverted(0x39, 0x35) && Inverted(0x3A, 0x20) && Inverted(0x3B, 0x6F)
    ensures Inverted(0x3C, 0x77) && Inverted(0x3D, 0xBB) && Inverted(0x3E, 0x59) && Inverted(0x3F, 0x19)
  {
  }

  lemma Row40()
    ensures Inverted(0x40, 0x1D) && Inverted(0x41, 0xFE) && Inverted(0x42, 0x37) && Inverted(0x43, 0x67)
    ensures Inverted(0x44, 0x2D) && Inverted(0x45, 0x31) && Inverted(0x46, 0xF5) && Inverted(0x47, 0x69)
    ensures Inverted(0x48, 0xA7) && Inverted(0x49, 0x64) && Inverted(0x4A, 0xAB) && Inverted(0x4B, 0x13)
    ensures Inverted(0x4C, 0x54) && Inverted(0x4D, 0x25) && Inverted(0x4E, 0xE9) && Inverted(0x4F, 0x09)
  {
  }

  lemma Row50()
    ensures Inverted(0x50, 0xED) && Inverted(0x51, 0x5C) && Inverted(0x52, 0x05) && Inverted(0x53, 0xCA)
    ensures Inverted(0x54, 0x4C) && Inverted(0x55, 0x24) && Inverted(0x56, 0x87) && Inverted(0x57, 0xBF)
    ensures Inverted(0x58, 0x18) && Inverted(0x59, 0x3E) && Inverted(0x5A, 0x22) && Inverted(0x5B, 0xF0)
    ensures Inverted(0x5C, 0x51) && Inverted(0x5D, 0xEC) && Inverted(0x5E, 0x61) && Inverted(0x5F, 0x17)
  {
  }

  lemma Row60()
    ensures Inverted(0x60, 0x16) && Inverted(0x61, 0x5E) && Inverted(0x62, 0xAF) && Inverted(0x63, 0xD3)
    ensures Inverted(0x64, 0x49) && Inverted(0x65, 0xA6) && Inverted(0x66, 0x36) && Inverted(0x67, 0x43)
    ensures Inverted(0x68, 0xF4) && Inverted(0x69, 0x47) && Inverted(0x6A, 0x91) && Inverted(0x6B, 0xDF)
    ensures Inverted(0x6C, 0x33) && Inverted(0x6D, 0x93) && Inverted(0x6E, 0x21) && Inverted(0x6F, 0x3B)
  {
  }

  lemma Row70()
    ensures Inverted(0x70, 0x79) && Inverted(0x71, 0xB7) && Inverted(0x72, 0x97) && Inverted(0x73, 0x85)
    ensures Inverted(0x74, 0x10) && Inverted(0x75, 0xB5) && Inverted(0x76, 0xBA) && Inverted(0x77, 0x3C)
    ensures Inverted(0x78, 0xB6) && Inverted(0x79, 0x70) && Inverted(0x7A, 0xD0) && Inverted(0x7B, 0x06)
    ensures Inverted(0x7C, 0xA1) && Inverted(0x7D, 0xFA) && Inverted(0x7E, 0x81) && Inverted(0x7F, 0x82)
  {
  }

  lemma Row80()
    ensures Inverted(0x80, 0x83) && Inverted(0x81, 0x7E) && Inverted(0x82, 0x7F) && Inverted(0x83, 0x80)
    ensures Inverted(0x84, 0x96) && Inverted(0x85, 0x73) && Inverted(0x86, 0xBE) && Inverted(0x87, 0x56)
    ensures Inverted(0x88, 0x9B) && Inverted(0x89, 0x9E) && Inverted(0x8A, 0x95) && Inverted(0x8B, 0xD9)
    ensures Inverted(0x8C, 0xF7) && Inverted(0x8D, 0x02) && Inverted(0x8E, 0xB9) && Inverted(0x8F, 0xA4)
  {
  }

  lemma Row90()
    ensures Inverted(0x90, 0xDE) && Inverted(0x91, 0x6A) && Inverted(0x92, 0x32) && Inverted(0x93, 0x6D)
    ensures Inverted(0x94, 0xD8) && Inverted(0x95, 0x8A) && Inverted(0x96, 0x84) && Inverted(0x97, 0x72)
    ensures Inverted(0x98, 0x2A) && Inverted(0x99, 0x14) && Inverted(0x9A, 0x9F) && Inverted(0x9B, 0x88)
    ensures Inverted(0x9C, 0xF9) && Inverted(0x9D, 0xDC) && Inverted(0x9E, 0x89) && Inverted(0x9F, 0x9A)
  {
  }

  lemma RowA0()
    ensures Inverted(0xA0, 0xFB) && Inverted(0xA1, 0x7C) && Inverted(0xA2, 0x2E) && Inverted(0xA3, 0xC3)
    ensures Inverted(0xA4, 0x8F) && Inverted(0xA5, 0xB8) && Inverted(0xA6, 0x65) && Inverted(0xA7, 0x48)
    ensures Inverted(0xA8, 0x26) && Inverted(0xA9, 0xC8) && Inverted(0xAA, 0x12) && Inverted(0xAB, 0x4A)
    ensures Inverted(0xAC, 0xCE) && Inverted(0xAD, 0xE7) && Inverted(0xAE, 0xD2) && Inverted(0xAF, 0x62)
  {
  }

  lemma RowB0()
    ensures Inverted(0xB0, 0x0C) && Inverted(0xB1, 0xE0) && Inverted(0xB2, 0x1F) && Inverted(0xB3, 0xEF)
    ensures Inverted(0xB4, 0x11) && Inverted(0xB5, 0x75) && Inverted(0xB6, 0x78) && Inverted(0xB7, 0x71)
    ensures Inverted(0xB8, 0xA5) && Inverted(0xB9, 0x8E) && Inverted(0xBA, 0x76) && Inverted(0xBB, 0x3D)
    ensures Inverted(0xBC, 0xBD) && Inverted(0xBD, 0xBC) && Inverted(0xBE, 0x86) && Inverted(0xBF, 0x57)
  {
  }

  lemma RowC0()
    ensures Inverted(0xC0, 0x0B) && Inverted(0xC1, 0x28) && Inverted(0xC2, 0x2F) && Inverted(0xC3, 0xA3)
    ensures Inverted(0xC4, 0xDA) && Inverted(0xC5, 0xD4) && Inverted(0xC6, 0xE4) && Inverted(0xC7, 0x0F)
    ensures Inverted(0xC8, 0xA9) && Inverted(0xC9, 0x27) && Inverted(0xCA, 0x53) && Inverted(0xCB, 0x04)
    ensures Inverted(0xCC, 0x1B) && Inverted(0xCD, 0xFC) && Inverted(0xCE, 0xAC) && Inverted(0xCF, 0xE6)
  {
  }

  lemma RowD0()
    ensures Inverted(0xD0, 0x7A) && Inverted(0xD1, 0x07) && Inverted(0xD2, 0xAE) && Inverted(0xD3, 0x63)
    ensures Inverted(0xD4, 0xC5) && Inverted(0xD5, 0xDB) && Inverted(0xD6, 0xE2) && Inverted(0xD7, 0xEA)
    ensures Inverted(0xD8, 0x94) && Inverted(0xD9, 0x8B) && Inverted(0xDA, 0xC4) && Inverted(0xDB, 0xD5)
    ensures Inverted(0xDC, 0x9D) && Inverted(0xDD, 0xF8) && Inverted(0xDE, 0x90) && Inverted(0xDF, 0x6B)
  {
  }

  lemma RowE0()
    ensures Inverted(0xE0, 0xB1) && Inverted(0xE1, 0x0D) && Inverted(0xE2, 0xD6) && Inverted(0xE3, 0xEB)
    ensures Inverted(0xE4, 0xC6) && Inverted(0xE5, 0x0E) && Inverted(0xE6, 0xCF) && Inverted(0xE7, 0xAD)
    ensures Inverted(0xE8, 0x08) && Inverted(0xE9, 0x4E) && Inverted(0xEA, 0xD7) && Inverted(0xEB, 0xE3)
    ensures Inverted(0xEC, 0x5D) && Inverted(0xED, 0x50) && Inverted(0xEE, 0x1E) && Inverted(0xEF, 0xB3)
  {
  }

  lemma RowF0()
    ensures Inverted(0xF0, 0x5B) && Inverted(0xF1, 0x23) && Inverted(0xF2, 0x38) && Inverted(0xF3, 0x34)
    ensures Inverted(0xF4, 0x68) && Inverted(0xF5, 0x46) && Inverted(0xF6, 0x03) && Inverted(0xF7, 0x8C)
    ensures Inverted(0xF8, 0xDD) && Inverted(0xF9, 0x9C) && Inverted(0xFA, 0x7D) && Inverted(0xFB, 0xA0)
    ensures Inverted(0xFC, 0xCD) && Inverted(0xFD, 0x1A) && Inverted(0xFE, 0x41) && Inverted(0xFF, 0x1C)
  {
  }

  lemma From00(x: Byte) returns (y: bv8)
    requires 0x00 <= x <= 0x0F
    ensures Inverted(x, y)
  {
    hide Inverted;
    Row00();
    y :=
      if x == 0x00 then 0x00 else if x == 0x01 then 0x01 else if x == 0x02 then 0x8D else if x == 0x03 then 0xF6 else
      if x == 0x04 then 0xCB else if x == 0x05 then 0x52 else if x == 0x06 then 0x7B else if x == 0x07 then 0xD1 else
      if x == 0x08 then 0xE8 else if x == 0x09 then 0x4F else if x == 0x0A then 0x29 else if x == 0x0B then 0xC0 else
      if x == 0x0C then 0xB0 else if x == 0x0D then 0xE1 else if x == 0x0E then 0xE5 else 0xC7;
  }

  lemma From10(x: Byte) returns (y: bv8)
    requires 0x10 <= x <= 0x1F
    ensures Inverted(x, y)
  {
    hide Inverted;
    Row10();
    y :=
      if x == 0x10 then 0x74 else if x == 0x11 then 0xB4 else if x == 0x12 then 0xAA else if x == 0x13 then 0x4B else
      if x == 0x14 then 0x99 else if x == 0x15 then 0x2B else if x == 0x16 then 0x60 else if x == 0x17 then 0x5F else
      if x == 0x18 then 0x58 else if x == 0x19 then 0x3F else if x == 0x1A then 0xFD else if x == 0x1B then 0xCC else
      if x == 0x1C then 0xFF else if x == 0x1D then 0x40 else if x == 0x1E then 0xEE else 0xB2;
  }

  lemma From20(x: Byte) returns (y: bv8)
    requires 0x20 <= x <= 0x2F
    ensures Inverted(x, y)
  {
    hide Inverted;
    Row20();
    y :=
      if x == 0x20 then 0x3A else if x == 0x21 then 0x6E else if x == 0x22 then 0x5A else if x == 0x23 then 0xF1 else
      if x == 0x24 then 0x55 else if x == 0x25 then 0x4D else if x == 0x26 then 0xA8 else if x == 0x27 then 0xC9 else
      if x == 0x28 then 0xC1 else if x == 0x29 then 0x0A else if x == 0x2A then 0x98 else if x == 0x2B then 0x15 else
      if x == 0x2C then 0x30 else if x == 0x2D then 0x44 else if x == 0x2E then 0xA2 else 0xC2;
  }

  lemma From30(x: Byte) returns (y: bv8)
    requires 0x30 <= x <= 0x3F
    ensures Inverted(x, y)
  {
    hide Inverted;
    Row30();
    y :=
      if x == 0x30 then 0x2C else if x == 0x31 then 0x45 else if x == 0x32 then 0x92 else if x == 0x33 then 0x6C else
      if x == 0x34 then 0xF3 else if x == 0x35 then 0x39 else if x == 0x36 then 0x66 else if x == 0x37 then 0x42 else
      if x == 0x38 then 0xF2 else if x == 0x39 then 0x35 else if x == 0x3A then 0x20 else if x == 0x3B then 0x6F else
      if x == 0x3C then 0x77 else if x == 0x3D then 0xBB else if x == 0x3E then 0x59 else 0x19;
  }

  lemma From40(x: Byte) returns (y: bv8)
    requires 0x40 <= x <= 0x4F
    ensures Inverted(x, y)
  {
    hide Inverted;
    Row40();
    y :=
      if x == 0x40 then 0x1D else if x == 0x41 then 0xFE else if x == 0x42 then 0x37 else if x == 0x43 then 0x67 else
      if x == 0x44 then 0x2D else if x == 0x45 then 0x31 else if x == 0x46 then 0xF5 else if x == 0x47 then 0x69 else
      if x == 0x48 then 0xA7 else if x == 0x49 then 0x64 else if x == 0x4A then 0xAB else if x == 0x4B then 0x13 else
      if x == 0x4C then 0x54 else if x == 0x4D then 0x25 else if x == 0x4E then 0xE9 else 0x09;
  }

  lemma From50(x: Byte) returns (y: bv8)
    requires 0x50 <= x <= 0x5F
    ensures Inverted(x, y)
  {
    hide Inverted;
    Row50();
    y :=
      if x == 0x50 then 0xED else if x == 0x51 then 0x5C else if x == 0x52 then 0x05 else if x == 0x53 then 0xCA else
      if x == 0x54 then 0x4C else if x == 0x55 then 0x24 else if x == 0x56 then 0x87 else if x == 0x57 then 0xBF else
      if x == 0x58 then 0x18 else if x == 0x59 then 0x3E else if x == 0x5A then 0x22 else if x == 0x5B then 0xF0 else
      if x == 0x5C then 0x51 else if x == 0x5D then 0xEC else if x == 0x5E then 0x61 else 0x17;
  }

  lemma From60(x: Byte) returns (y: bv8)
    requires 0x60 <= x <= 0x6F
    ensures Inverted(x, y)
  {
    hide Inverted;
    Row60();
    y :=
      if x == 0x60 then 0x16 else if x == 0x61 then 0x5E else if x == 0x62 then 0xAF else if x == 0x63 then 0xD3 else
      if x == 0x64 then 0x49 else if x == 0x65 then 0xA6 else if x == 0x66 then 0x36 else if x == 0x67 then 0x43 else
      if x == 0x68 then 0xF4 else if x == 0x69 then 0x47 else if x == 0x6A then 0x91 else if x == 0x6B then 0xDF else
      if x == 0x6C then 0x33 else if x == 0x6D then 0x93 else if x == 0x6E then 0x21 else 0x3B;
  }

  lemma From70(x: Byte) returns (y: bv8)
    requires 0x70 <= x <= 0x7F
    ensures Inverted(x, y)
  {
    hide Inverted;
    Row70();
    y :=
      if x == 0x70 then 0x79 else if x == 0x71 then 0xB7 else if x == 0x72 then 0x97 else if x == 0x73 then 0x85 else
      if x == 0x74 then 0x10 else if x == 0x75 then 0xB5 else if x == 0x76 then 0xBA else if x == 0x77 then 0x3C else
      if x == 0x78 then 0xB6 else if x == 0x79 then 0x70 else if x == 0x7A then 0xD0 else if x == 0x7B then 0x06 else
      if x == 0x7C then 0xA1 else if x == 0x7D then 0xFA else if x == 0x7E then 0x81 else 0x82;
  }

  lemma From80(x: Byte) returns (y: bv8)
    requires 0x80 <= x <= 0x8F
    ensures Inverted(x, y)
  {
    hide Inverted;
    Row80();
    y :=
      if x == 0x80 then 0x83 else if x == 0x81 then 0x7E else if x == 0x82 then 0x7F else if x == 0x83 then 0x80 else
      if x == 0x84 then 0x96 else if x == 0x85 then 0x73 else if x == 0x86 then 0xBE else if x == 0x87 then 0x56 else
      if x == 0x88 then 0x9B else if x == 0x89 then 0x9E else if x == 0x8A then 0x95 else if x == 0x8B then 0xD9 else
      if x == 0x8C then 0xF7 else if x == 0x8D then 0x02 else if x == 0x8E then 0xB9 else 0xA4;
  }

  lemma From90(x: Byte) returns (y: bv8)
    requires 0x90 <= x <= 0x9F
    ensures Inverted(x, y)
  {
    hide Inverted;
    Row90();
    y :=
      if x == 0x90 then 0xDE else if x == 0x91 then 0x6A else if x == 0x92 then 0x32 else if x == 0x93 then 0x6D else
      if x == 0x94 then 0xD8 else if x == 0x95 then 0x8A else if x == 0x96 then 0x84 else if x == 0x97 then 0x72 else
      if x == 0x98 then 0x2A else if x == 0x99 then 0x14 else if x == 0x9A then 0x9F else if x == 0x9B then 0x88 else
      if x == 0x9C then 0xF9 else if x == 0x9D then 0xDC else if x == 0x9E then 0x89 else 0x9A;
  }

  lemma FromA0(x: Byte) returns (y: bv8)
    requires 0xA0 <= x <= 0xAF
    ensures Inverted(x, y)
  {
    hide Inverted;
    RowA0();
    y :=
      if x == 0xA0 then 0xFB else if x == 0xA1 then 0x7C else if x == 0xA2 then 0x2E else if x == 0xA3 then 0xC3 else
      if x == 0xA4 then 0x8F else if x == 0xA5 then 0xB8 else if x == 0xA6 then 0x65 else if x == 0xA7 then 0x48 else
      if x == 0xA8 then 0x26 else if x == 0xA9 then 0xC8 else if x == 0xAA then 0x12 else if x == 0xAB then 0x4A else
      if x == 0xAC then 0xCE else if x == 0xAD then 0xE7 else if x == 0xAE then 0xD2 else 0x62;
  }

  lemma FromB0(x: Byte) returns (y: bv8)
    requires 0xB0 <= x <= 0xBF
    ensures Inverted(x, y)
  {
    hide Inverted;
    RowB0();
    y :=
      if x == 0xB0 then 0x0C else if x == 0xB1 then 0xE0 else if x == 0xB2 then 0x1F else if x == 0xB3 then 0xEF else
      if x == 0xB4 then 0x11 else if x == 0xB5 then 0x75 else if x == 0xB6 then 0x78 else if x == 0xB7 then 0x71 else
      if x == 0xB8 then 0xA5 else if x == 0xB9 then 0x8E else if x == 0xBA then 0x76 else if x == 0xBB then 0x3D else
      if x == 0xBC then 0xBD else if x == 0xBD then 0xBC else if x == 0xBE then 0x86 else 0x57;
  }

  lemma FromC0(x: Byte) returns (y: bv8)
    requires 0xC0 <= x <= 0xCF
    ensures Inverted(x, y)
  {
    hide Inverted;
    RowC0();
    y :=
      if x == 0xC0 then 0x0B else if x == 0xC1 then 0x28 else if x == 0xC2 then 0x2F else if x == 0xC3 then 0xA3 else
      if x == 0xC4 then 0xDA else if x == 0xC5 then 0xD4 else if x == 0xC6 then 0xE4 else if x == 0xC7 then 0x0F else
      if x == 0xC8 then 0xA9 else if x == 0xC9 then 0x27 else if x == 0xCA then 0x53 else if x == 0xCB then 0x04 else
      if x == 0xCC then 0x1B else if x == 0xCD then 0xFC else if x == 0xCE then 0xAC else 0xE6;
  }

  lemma FromD0(x: Byte) returns (y: bv8)
    requires 0xD0 <= x <= 0xDF
    ensures Inverted(x, y)
  {
    hide Inverted;
    RowD0();
    y :=
      if x == 0xD0 then 0x7A else if x == 0xD1 then 0x07 else if x == 0xD2 then 0xAE else if x == 0xD3 then 0x63 else
      if x == 0xD4 then 0xC5 else if x == 0xD5 then 0xDB else if x == 0xD6 then 0xE2 else if x == 0xD7 then 0xEA else
      if x == 0xD8 then 0x94 else if x == 0xD9 then 0x8B else if x == 0xDA then 0xC4 else if x == 0xDB then 0xD5 else
      if x == 0xDC then 0x9D else if x == 0xDD then 0xF8 else if x == 0xDE then 0x90 else 0x6B;
  }

  lemma FromE0(x: Byte) returns (y: bv8)
    requires 0xE0 <= x <= 0xEF
    ensures Inverted(x, y)
  {
    hide Inverted;
    RowE0();
    y :=
      if x == 0xE0 then 0xB1 else if x == 0xE1 then 0x0D else if x == 0xE2 then 0xD6 else if x == 0xE3 then 0xEB else
      if x == 0xE4 then 0xC6 else if x == 0xE5 then 0x0E else if x == 0xE6 then 0xCF else if x == 0xE7 then 0xAD else
      if x == 0xE8 then 0x08 else if x == 0xE9 then 0x4E else if x == 0xEA then 0xD7 else if x == 0xEB then 0xE3 else
      if x == 0xEC then 0x5D else if x == 0xED then 0x50 else if x == 0xEE then 0x1E else 0xB3;
  }

  lemma FromF0(x: Byte) returns (y: bv8)
    requires 0xF0 <= x <= 0xFF
    ensures Inverted(x, y)
  {
    hide Inverted;
    RowF0();
    y :=
      if x == 0xF0 then 0x5B else if x == 0xF1 then 0x23 else if x == 0xF2 then 0x38 else if x == 0xF3 then 0x34 else
      if x == 0xF4 then 0x68 else if x == 0xF5 then 0x46 else if x == 0xF6 then 0x03 else if x == 0xF7 then 0x8C else
      if x == 0xF8 then 0xDD else if x == 0xF9 then 0x9C else if x == 0xFA then 0x7D else if x == 0xFB then 0xA0 else
      if x == 0xFC then 0xCD else if x == 0xFD then 0x1A else if x == 0xFE then 0x41 else 0x1C;
  }

  /** Every entry of the box is the affine image of the inverse in the field. */
  lemma BoxLaw(x: Byte) returns (y: bv8)
    ensures FieldTimes(x as bv8, y) == (if x == 0 then 0 else 1) && (x == 0 ==> y == 0)
    ensures FSb(x) == Affine(y) as int
  {
    hide FieldTimes, Affine, FSb;
    y := Inverse(x);
  }

  lemma Inverse(x: Byte) returns (y: bv8)
    ensures Inverted(x, y)
  {
    hide Inverted;
    if x < 0x10 {
      y := From00(x);
    } else if x < 0x20 {
      y := From10(x);
    } else if x < 0x30 {
      y := From20(x);
    } else if x < 0x40 {
      y := From30(x);
    } else if x < 0x50 {
      y := From40(x);
    } else if x < 0x60 {
      y := From50(x);
    } else if x < 0x70 {
      y := From60(x);
    } else if x < 0x80 {
      y := From70(x);
    } else if x < 0x90 {
      y := From80(x);
    } else if x < 0xA0 {
      y := From90(x);
    } else if x < 0xB0 {
      y := FromA0(x);
    } else if x < 0xC0 {
      y := FromB0(x);
    } else if x < 0xD0 {
      y := FromC0(x);
    } else if x < 0xE0 {
      y := FromD0(x);
    } else if x < 0xF0 {
      y := FromE0(x);
    } else {
      y := FromF0(x);
    }
  }
}
