/** The S-box of AES and its inverse (crypto/aead.c:29-46, crypto/wifi_crypto.c:116-133), sixteen
    entries a row as the tables are written. */
module AesBox {
  import opened Machine

  /** One of sixteen. */
  function Pick(at: nat, a: u8, b: u8, c: u8, d: u8, e: u8, f: u8, g: u8, h: u8, i: u8, j: u8, k: u8, l: u8, m: u8,
      n: u8, o: u8, p: u8): u8 {
    if at < 8 then (if at < 4 then (if at < 2 then (if at < 1 then a else b) else (if at < 3 then c else d))
        else (if at < 6 then (if at < 5 then e else f) else (if at < 7 then g else h)))
        else (if at < 12 then (if at < 10 then (if at < 9 then i else j) else (if at < 11 then k else l))
        else (if at < 14 then (if at < 13 then m else n) else (if at < 15 then o else p)))
  }

  function Sbox(x: u8): u8 {
    var c := x % 16;
    Pick(x / 16,
      Pick(c, 0x63, 0x7c, 0x77, 0x7b, 0xf2, 0x6b, 0x6f, 0xc5, 0x30, 0x01, 0x67, 0x2b, 0xfe, 0xd7, 0xab, 0x76),
      Pick(c, 0xca, 0x82, 0xc9, 0x7d, 0xfa, 0x59, 0x47, 0xf0, 0xad, 0xd4, 0xa2, 0xaf, 0x9c, 0xa4, 0x72, 0xc0),
      Pick(c, 0xb7, 0xfd, 0x93, 0x26, 0x36, 0x3f, 0xf7, 0xcc, 0x34, 0xa5, 0xe5, 0xf1, 0x71, 0xd8, 0x31, 0x15),
      Pick(c, 0x04, 0xc7, 0x23, 0xc3, 0x18, 0x96, 0x05, 0x9a, 0x07, 0x12, 0x80, 0xe2, 0xeb, 0x27, 0xb2, 0x75),
      Pick(c, 0x09, 0x83, 0x2c, 0x1a, 0x1b, 0x6e, 0x5a, 0xa0, 0x52, 0x3b, 0xd6, 0xb3, 0x29, 0xe3, 0x2f, 0x84),
      Pick(c, 0x53, 0xd1, 0x00, 0xed, 0x20, 0xfc, 0xb1, 0x5b, 0x6a, 0xcb, 0xbe, 0x39, 0x4a, 0x4c, 0x58, 0xcf),
      Pick(c, 0xd0, 0xef, 0xaa, 0xfb, 0x43, 0x4d, 0x33, 0x85, 0x45, 0xf9, 0x02, 0x7f, 0x50, 0x3c, 0x9f, 0xa8),
      Pick(c, 0x51, 0xa3, 0x40, 0x8f, 0x92, 0x9d, 0x38, 0xf5, 0xbc, 0xb6, 0xda, 0x21, 0x10, 0xff, 0xf3, 0xd2),
      Pick(c, 0xcd, 0x0c, 0x13, 0xec, 0x5f, 0x97, 0x44, 0x17, 0xc4, 0xa7, 0x7e, 0x3d, 0x64, 0x5d, 0x19, 0x73),
      Pick(c, 0x60, 0x81, 0x4f, 0xdc, 0x22, 0x2a, 0x90, 0x88, 0x46, 0xee, 0xb8, 0x14, 0xde, 0x5e, 0x0b, 0xdb),
      Pick(c, 0xe0, 0x32, 0x3a, 0x0a, 0x49, 0x06, 0x24, 0x5c, 0xc2, 0xd3, 0xac, 0x62, 0x91, 0x95, 0xe4, 0x79),
      Pick(c, 0xe7, 0xc8, 0x37, 0x6d, 0x8d, 0xd5, 0x4e, 0xa9, 0x6c, 0x56, 0xf4, 0xea, 0x65, 0x7a, 0xae, 0x08),
      Pick(c, 0xba, 0x78, 0x25, 0x2e, 0x1c, 0xa6, 0xb4, 0xc6, 0xe8, 0xdd, 0x74, 0x1f, 0x4b, 0xbd, 0x8b, 0x8a),
      Pick(c, 0x70, 0x3e, 0xb5, 0x66, 0x48, 0x03, 0xf6, 0x0e, 0x61, 0x35, 0x57, 0xb9, 0x86, 0xc1, 0x1d, 0x9e),
      Pick(c, 0xe1, 0xf8, 0x98, 0x11, 0x69, 0xd9, 0x8e, 0x94, 0x9b, 0x1e, 0x87, 0xe9, 0xce, 0x55, 0x28, 0xdf),
      Pick(c, 0x8c, 0xa1, 0x89, 0x0d, 0xbf, 0xe6, 0x42, 0x68, 0x41, 0x99, 0x2d, 0x0f, 0xb0, 0x54, 0xbb, 0x16))
  }

  function InvSbox(x: u8): u8 {
    var c := x % 16;
    Pick(x / 16,
      Pick(c, 0x52, 0x09, 0x6a, 0xd5, 0x30, 0x36, 0xa5, 0x38, 0xbf, 0x40, 0xa3, 0x9e, 0x81, 0xf3, 0xd7, 0xfb),
      Pick(c, 0x7c, 0xe3, 0x39, 0x82, 0x9b, 0x2f, 0xff, 0x87, 0x34, 0x8e, 0x43, 0x44, 0xc4, 0xde, 0xe9, 0xcb),
      Pick(c, 0x54, 0x7b, 0x94, 0x32, 0xa6, 0xc2, 0x23, 0x3d, 0xee, 0x4c, 0x95, 0x0b, 0x42, 0xfa, 0xc3, 0x4e),
      Pick(c, 0x08, 0x2e, 0xa1, 0x66, 0x28, 0xd9, 0x24, 0xb2, 0x76, 0x5b, 0xa2, 0x49, 0x6d, 0x8b, 0xd1, 0x25),
      Pick(c, 0x72, 0xf8, 0xf6, 0x64, 0x86, 0x68, 0x98, 0x16, 0xd4, 0xa4, 0x5c, 0xcc, 0x5d, 0x65, 0xb6, 0x92),
      Pick(c, 0x6c, 0x70, 0x48, 0x50, 0xfd, 0xed, 0xb9, 0xda, 0x5e, 0x15, 0x46, 0x57, 0xa7, 0x8d, 0x9d, 0x84),
      Pick(c, 0x90, 0xd8, 0xab, 0x00, 0x8c, 0xbc, 0xd3, 0x0a, 0xf7, 0xe4, 0x58, 0x05, 0xb8, 0xb3, 0x45, 0x06),
      Pick(c, 0xd0, 0x2c, 0x1e, 0x8f, 0xca, 0x3f, 0x0f, 0x02, 0xc1, 0xaf, 0xbd, 0x03, 0x01, 0x13, 0x8a, 0x6b),
      Pick(c, 0x3a, 0x91, 0x11, 0x41, 0x4f, 0x67, 0xdc, 0xea, 0x97, 0xf2, 0xcf, 0xce, 0xf0, 0xb4, 0xe6, 0x73),
      Pick(c, 0x96, 0xac, 0x74, 0x22, 0xe7, 0xad, 0x35, 0x85, 0xe2, 0xf9, 0x37, 0xe8, 0x1c, 0x75, 0xdf, 0x6e),
      Pick(c, 0x47, 0xf1, 0x1a, 0x71, 0x1d, 0x29, 0xc5, 0x89, 0x6f, 0xb7, 0x62, 0x0e, 0xaa, 0x18, 0xbe, 0x1b),
      Pick(c, 0xfc, 0x56, 0x3e, 0x4b, 0xc6, 0xd2, 0x79, 0x20, 0x9a, 0xdb, 0xc0, 0xfe, 0x78, 0xcd, 0x5a, 0xf4),
      Pick(c, 0x1f, 0xdd, 0xa8, 0x33, 0x88, 0x07, 0xc7, 0x31, 0xb1, 0x12, 0x10, 0x59, 0x27, 0x80, 0xec, 0x5f),
      Pick(c, 0x60, 0x51, 0x7f, 0xa9, 0x19, 0xb5, 0x4a, 0x0d, 0x2d, 0xe5, 0x7a, 0x9f, 0x93, 0xc9, 0x9c, 0xef),
      Pick(c, 0xa0, 0xe0, 0x3b, 0x4d, 0xae, 0x2a, 0xf5, 0xb0, 0xc8, 0xeb, 0xbb, 0x3c, 0x83, 0x53, 0x99, 0x61),
      Pick(c, 0x17, 0x2b, 0x04, 0x7e, 0xba, 0x77, 0xd6, 0x26, 0xe1, 0x69, 0x14, 0x63, 0x55, 0x21, 0x0c, 0x7d))
  }

  lemma InvRow0(x: u8)
    requires x < 16
    ensures InvSbox(Sbox(x)) == x
  {}

  lemma InvRow1(x: u8)
    requires 16 <= x < 32
    ensures InvSbox(Sbox(x)) == x
  {}

  lemma InvRow2(x: u8)
    requires 32 <= x < 48
    ensures InvSbox(Sbox(x)) == x
  {}

  lemma InvRow3(x: u8)
    requires 48 <= x < 64
    ensures InvSbox(Sbox(x)) == x
  {}

  lemma InvRow4(x: u8)
    requires 64 <= x < 80
    ensures InvSbox(Sbox(x)) == x
  {}

  lemma InvRow5(x: u8)
    requires 80 <= x < 96
    ensures InvSbox(Sbox(x)) == x
  {}

  lemma InvRow6(x: u8)
    requires 96 <= x < 112
    ensures InvSbox(Sbox(x)) == x
  {}

  lemma InvRow7(x: u8)
    requires 112 <= x < 128
    ensures InvSbox(Sbox(x)) == x
  {}

  lemma InvRow8(x: u8)
    requires 128 <= x < 144
    ensures InvSbox(Sbox(x)) == x
  {}

  lemma InvRow9(x: u8)
    requires 144 <= x < 160
    ensures InvSbox(Sbox(x)) == x
  {}

  lemma InvRow10(x: u8)
    requires 160 <= x < 176
    ensures InvSbox(Sbox(x)) == x
  {}

  lemma InvRow11(x: u8)
    requires 176 <= x < 192
    ensures InvSbox(Sbox(x)) == x
  {}

  lemma InvRow12(x: u8)
    requires 192 <= x < 208
    ensures InvSbox(Sbox(x)) == x
  {}

  lemma InvRow13(x: u8)
    requires 208 <= x < 224
    ensures InvSbox(Sbox(x)) == x
  {}

  lemma InvRow14(x: u8)
    requires 224 <= x < 240
    ensures InvSbox(Sbox(x)) == x
  {}

  lemma InvRow15(x: u8)
    requires 240 <= x < 256
    ensures InvSbox(Sbox(x)) == x
  {}

  /** InvSbox undoes Sbox. */
  lemma InvSboxUndoes(x: u8)
    ensures InvSbox(Sbox(x)) == x
  {
    hide Pick;
    match x / 16 {
      case 0 => InvRow0(x);
      case 1 => InvRow1(x);
      case 2 => InvRow2(x);
      case 3 => InvRow3(x);
      case 4 => InvRow4(x);
      case 5 => InvRow5(x);
      case 6 => InvRow6(x);
      case 7 => InvRow7(x);
      case 8 => InvRow8(x);
      case 9 => InvRow9(x);
      case 10 => InvRow10(x);
      case 11 => InvRow11(x);
      case 12 => InvRow12(x);
      case 13 => InvRow13(x);
      case 14 => InvRow14(x);
      case _ => InvRow15(x);
    }
  }

  lemma FwdRow0(x: u8)
    requires x < 16
    ensures Sbox(InvSbox(x)) == x
  {}

  lemma FwdRow1(x: u8)
    requires 16 <= x < 32
    ensures Sbox(InvSbox(x)) == x
  {}

  lemma FwdRow2(x: u8)
    requires 32 <= x < 48
    ensures Sbox(InvSbox(x)) == x
  {}

  lemma FwdRow3(x: u8)
    requires 48 <= x < 64
    ensures Sbox(InvSbox(x)) == x
  {}

  lemma FwdRow4(x: u8)
    requires 64 <= x < 80
    ensures Sbox(InvSbox(x)) == x
  {}

  lemma FwdRow5(x: u8)
    requires 80 <= x < 96
    ensures Sbox(InvSbox(x)) == x
  {}

  lemma FwdRow6(x: u8)
    requires 96 <= x < 112
    ensures Sbox(InvSbox(x)) == x
  {}

  lemma FwdRow7(x: u8)
    requires 112 <= x < 128
    ensures Sbox(InvSbox(x)) == x
  {}

  lemma FwdRow8(x: u8)
    requires 128 <= x < 144
    ensures Sbox(InvSbox(x)) == x
  {}

  lemma FwdRow9(x: u8)
    requires 144 <= x < 160
    ensures Sbox(InvSbox(x)) == x
  {}

  lemma FwdRow10(x: u8)
    requires 160 <= x < 176
    ensures Sbox(InvSbox(x)) == x
  {}

  lemma FwdRow11(x: u8)
    requires 176 <= x < 192
    ensures Sbox(InvSbox(x)) == x
  {}

  lemma FwdRow12(x: u8)
    requires 192 <= x < 208
    ensures Sbox(InvSbox(x)) == x
  {}

  lemma FwdRow13(x: u8)
    requires 208 <= x < 224
    ensures Sbox(InvSbox(x)) == x
  {}

  lemma FwdRow14(x: u8)
    requires 224 <= x < 240
    ensures Sbox(InvSbox(x)) == x
  {}

  lemma FwdRow15(x: u8)
    requires 240 <= x < 256
    ensures Sbox(InvSbox(x)) == x
  {}

  /** Sbox undoes InvSbox. */
  lemma SboxUndoes(x: u8)
    ensures Sbox(InvSbox(x)) == x
  {
    hide Pick;
    match x / 16 {
      case 0 => FwdRow0(x);
      case 1 => FwdRow1(x);
      case 2 => FwdRow2(x);
      case 3 => FwdRow3(x);
      case 4 => FwdRow4(x);
      case 5 => FwdRow5(x);
      case 6 => FwdRow6(x);
      case 7 => FwdRow7(x);
      case 8 => FwdRow8(x);
      case 9 => FwdRow9(x);
      case 10 => FwdRow10(x);
      case 11 => FwdRow11(x);
      case 12 => FwdRow12(x);
      case 13 => FwdRow13(x);
      case 14 => FwdRow14(x);
      case _ => FwdRow15(x);
    }
  }
}
