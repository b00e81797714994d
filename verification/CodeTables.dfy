/** The Modified Huffman and READ codes of ITU-T T.4 and T.6, twice: as the encoder's tables hold them
    (most significant bit first, indexed by run length) and as the decoder's table generator lists
    them (least significant bit first, run length and width packed into one number).
 */
module CodeTables {

  /** One row of the encoder's tables. */
  datatype TableEntry = TableEntry(length: nat, code: nat, runlen: nat)

  /** One row of the table generator: the code with its first bit lowest, and `run length * 16 + width`. */
  datatype Proto = Proto(code: nat, val: nat) {
    function Width(): nat { val % 16 }
    function Param(): nat { val / 16 }
  }

  /** White runs: 0 to 63, then the make-up codes 64, 128, ..., 2560. */
  function WhiteCode(i: nat): TableEntry
    requires i < 104
  {
    match i
    case 0 => TableEntry(8, 0x35, 0)
    case 1 => TableEntry(6, 0x7, 1)
    case 2 => TableEntry(4, 0x7, 2)
    case 3 => TableEntry(4, 0x8, 3)
    case 4 => TableEntry(4, 0xb, 4)
    case 5 => TableEntry(4, 0xc, 5)
    case 6 => TableEntry(4, 0xe, 6)
    case 7 => TableEntry(4, 0xf, 7)
    case 8 => TableEntry(5, 0x13, 8)
    case 9 => TableEntry(5, 0x14, 9)
    case 10 => TableEntry(5, 0x7, 10)
    case 11 => TableEntry(5, 0x8, 11)
    case 12 => TableEntry(6, 0x8, 12)
    case 13 => TableEntry(6, 0x3, 13)
    case 14 => TableEntry(6, 0x34, 14)
    case 15 => TableEntry(6, 0x35, 15)
    case 16 => TableEntry(6, 0x2a, 16)
    case 17 => TableEntry(6, 0x2b, 17)
    case 18 => TableEntry(7, 0x27, 18)
    case 19 => TableEntry(7, 0xc, 19)
    case 20 => TableEntry(7, 0x8, 20)
    case 21 => TableEntry(7, 0x17, 21)
    case 22 => TableEntry(7, 0x3, 22)
    case 23 => TableEntry(7, 0x4, 23)
    case 24 => TableEntry(7, 0x28, 24)
    case 25 => TableEntry(7, 0x2b, 25)
    case 26 => TableEntry(7, 0x13, 26)
    case 27 => TableEntry(7, 0x24, 27)
    case 28 => TableEntry(7, 0x18, 28)
    case 29 => TableEntry(8, 0x2, 29)
    case 30 => TableEntry(8, 0x3, 30)
    case 31 => TableEntry(8, 0x1a, 31)
    case 32 => TableEntry(8, 0x1b, 32)
    case 33 => TableEntry(8, 0x12, 33)
    case 34 => TableEntry(8, 0x13, 34)
    case 35 => TableEntry(8, 0x14, 35)
    case 36 => TableEntry(8, 0x15, 36)
    case 37 => TableEntry(8, 0x16, 37)
    case 38 => TableEntry(8, 0x17, 38)
    case 39 => TableEntry(8, 0x28, 39)
    case 40 => TableEntry(8, 0x29, 40)
    case 41 => TableEntry(8, 0x2a, 41)
    case 42 => TableEntry(8, 0x2b, 42)
    case 43 => TableEntry(8, 0x2c, 43)
    case 44 => TableEntry(8, 0x2d, 44)
    case 45 => TableEntry(8, 0x4, 45)
    case 46 => TableEntry(8, 0x5, 46)
    case 47 => TableEntry(8, 0xa, 47)
    case 48 => TableEntry(8, 0xb, 48)
    case 49 => TableEntry(8, 0x52, 49)
    case 50 => TableEntry(8, 0x53, 50)
    case 51 => TableEntry(8, 0x54, 51)
    case 52 => TableEntry(8, 0x55, 52)
    case 53 => TableEntry(8, 0x24, 53)
    case 54 => TableEntry(8, 0x25, 54)
    case 55 => TableEntry(8, 0x58, 55)
    case 56 => TableEntry(8, 0x59, 56)
    case 57 => TableEntry(8, 0x5a, 57)
    case 58 => TableEntry(8, 0x5b, 58)
    case 59 => TableEntry(8, 0x4a, 59)
    case 60 => TableEntry(8, 0x4b, 60)
    case 61 => TableEntry(8, 0x32, 61)
    case 62 => TableEntry(8, 0x33, 62)
    case 63 => TableEntry(8, 0x34, 63)
    case 64 => TableEntry(5, 0x1b, 64)
    case 65 => TableEntry(5, 0x12, 128)
    case 66 => TableEntry(6, 0x17, 192)
    case 67 => TableEntry(7, 0x37, 256)
    case 68 => TableEntry(8, 0x36, 320)
    case 69 => TableEntry(8, 0x37, 384)
    case 70 => TableEntry(8, 0x64, 448)
    case 71 => TableEntry(8, 0x65, 512)
    case 72 => TableEntry(8, 0x68, 576)
    case 73 => TableEntry(8, 0x67, 640)
    case 74 => TableEntry(9, 0xcc, 704)
    case 75 => TableEntry(9, 0xcd, 768)
    case 76 => TableEntry(9, 0xd2, 832)
    case 77 => TableEntry(9, 0xd3, 896)
    case 78 => TableEntry(9, 0xd4, 960)
    case 79 => TableEntry(9, 0xd5, 1024)
    case 80 => TableEntry(9, 0xd6, 1088)
    case 81 => TableEntry(9, 0xd7, 1152)
    case 82 => TableEntry(9, 0xd8, 1216)
    case 83 => TableEntry(9, 0xd9, 1280)
    case 84 => TableEntry(9, 0xda, 1344)
    case 85 => TableEntry(9, 0xdb, 1408)
    case 86 => TableEntry(9, 0x98, 1472)
    case 87 => TableEntry(9, 0x99, 1536)
    case 88 => TableEntry(9, 0x9a, 1600)
    case 89 => TableEntry(6, 0x18, 1664)
    case 90 => TableEntry(9, 0x9b, 1728)
    case 91 => TableEntry(11, 0x8, 1792)
    case 92 => TableEntry(11, 0xc, 1856)
    case 93 => TableEntry(11, 0xd, 1920)
    case 94 => TableEntry(12, 0x12, 1984)
    case 95 => TableEntry(12, 0x13, 2048)
    case 96 => TableEntry(12, 0x14, 2112)
    case 97 => TableEntry(12, 0x15, 2176)
    case 98 => TableEntry(12, 0x16, 2240)
    case 99 => TableEntry(12, 0x17, 2304)
    case 100 => TableEntry(12, 0x1c, 2368)
    case 101 => TableEntry(12, 0x1d, 2432)
    case 102 => TableEntry(12, 0x1e, 2496)
    case _ => TableEntry(12, 0x1f, 2560)
  }

  /** Black runs: 0 to 63, then the make-up codes 64, 128, ..., 2560. */
  function BlackCode(i: nat): TableEntry
    requires i < 104
  {
    match i
    case 0 => TableEntry(10, 0x37, 0)
    case 1 => TableEntry(3, 0x2, 1)
    case 2 => TableEntry(2, 0x3, 2)
    case 3 => TableEntry(2, 0x2, 3)
    case 4 => TableEntry(3, 0x3, 4)
    case 5 => TableEntry(4, 0x3, 5)
    case 6 => TableEntry(4, 0x2, 6)
    case 7 => TableEntry(5, 0x3, 7)
    case 8 => TableEntry(6, 0x5, 8)
    case 9 => TableEntry(6, 0x4, 9)
    case 10 => TableEntry(7, 0x4, 10)
    case 11 => TableEntry(7, 0x5, 11)
    case 12 => TableEntry(7, 0x7, 12)
    case 13 => TableEntry(8, 0x4, 13)
    case 14 => TableEntry(8, 0x7, 14)
    case 15 => TableEntry(9, 0x18, 15)
    case 16 => TableEntry(10, 0x17, 16)
    case 17 => TableEntry(10, 0x18, 17)
    case 18 => TableEntry(10, 0x8, 18)
    case 19 => TableEntry(11, 0x67, 19)
    case 20 => TableEntry(11, 0x68, 20)
    case 21 => TableEntry(11, 0x6c, 21)
    case 22 => TableEntry(11, 0x37, 22)
    case 23 => TableEntry(11, 0x28, 23)
    case 24 => TableEntry(11, 0x17, 24)
    case 25 => TableEntry(11, 0x18, 25)
    case 26 => TableEntry(12, 0xca, 26)
    case 27 => TableEntry(12, 0xcb, 27)
    case 28 => TableEntry(12, 0xcc, 28)
    case 29 => TableEntry(12, 0xcd, 29)
    case 30 => TableEntry(12, 0x68, 30)
    case 31 => TableEntry(12, 0x69, 31)
    case 32 => TableEntry(12, 0x6a, 32)
    case 33 => TableEntry(12, 0x6b, 33)
    case 34 => TableEntry(12, 0xd2, 34)
    case 35 => TableEntry(12, 0xd3, 35)
    case 36 => TableEntry(12, 0xd4, 36)
    case 37 => TableEntry(12, 0xd5, 37)
    case 38 => TableEntry(12, 0xd6, 38)
    case 39 => TableEntry(12, 0xd7, 39)
    case 40 => TableEntry(12, 0x6c, 40)
    case 41 => TableEntry(12, 0x6d, 41)
    case 42 => TableEntry(12, 0xda, 42)
    case 43 => TableEntry(12, 0xdb, 43)
    case 44 => TableEntry(12, 0x54, 44)
    case 45 => TableEntry(12, 0x55, 45)
    case 46 => TableEntry(12, 0x56, 46)
    case 47 => TableEntry(12, 0x57, 47)
    case 48 => TableEntry(12, 0x64, 48)
    case 49 => TableEntry(12, 0x65, 49)
    case 50 => TableEntry(12, 0x52, 50)
    case 51 => TableEntry(12, 0x53, 51)
    case 52 => TableEntry(12, 0x24, 52)
    case 53 => TableEntry(12, 0x37, 53)
    case 54 => TableEntry(12, 0x38, 54)
    case 55 => TableEntry(12, 0x27, 55)
    case 56 => TableEntry(12, 0x28, 56)
    case 57 => TableEntry(12, 0x58, 57)
    case 58 => TableEntry(12, 0x59, 58)
    case 59 => TableEntry(12, 0x2b, 59)
    case 60 => TableEntry(12, 0x2c, 60)
    case 61 => TableEntry(12, 0x5a, 61)
    case 62 => TableEntry(12, 0x66, 62)
    case 63 => TableEntry(12, 0x67, 63)
    case 64 => TableEntry(10, 0xf, 64)
    case 65 => TableEntry(12, 0xc8, 128)
    case 66 => TableEntry(12, 0xc9, 192)
    case 67 => TableEntry(12, 0x5b, 256)
    case 68 => TableEntry(12, 0x33, 320)
    case 69 => TableEntry(12, 0x34, 384)
    case 70 => TableEntry(12, 0x35, 448)
    case 71 => TableEntry(13, 0x6c, 512)
    case 72 => TableEntry(13, 0x6d, 576)
    case 73 => TableEntry(13, 0x4a, 640)
    case 74 => TableEntry(13, 0x4b, 704)
    case 75 => TableEntry(13, 0x4c, 768)
    case 76 => TableEntry(13, 0x4d, 832)
    case 77 => TableEntry(13, 0x72, 896)
    case 78 => TableEntry(13, 0x73, 960)
    case 79 => TableEntry(13, 0x74, 1024)
    case 80 => TableEntry(13, 0x75, 1088)
    case 81 => TableEntry(13, 0x76, 1152)
    case 82 => TableEntry(13, 0x77, 1216)
    case 83 => TableEntry(13, 0x52, 1280)
    case 84 => TableEntry(13, 0x53, 1344)
    case 85 => TableEntry(13, 0x54, 1408)
    case 86 => TableEntry(13, 0x55, 1472)
    case 87 => TableEntry(13, 0x5a, 1536)
    case 88 => TableEntry(13, 0x5b, 1600)
    case 89 => TableEntry(13, 0x64, 1664)
    case 90 => TableEntry(13, 0x65, 1728)
    case 91 => TableEntry(11, 0x8, 1792)
    case 92 => TableEntry(11, 0xc, 1856)
    case 93 => TableEntry(11, 0xd, 1920)
    case 94 => TableEntry(12, 0x12, 1984)
    case 95 => TableEntry(12, 0x13, 2048)
    case 96 => TableEntry(12, 0x14, 2112)
    case 97 => TableEntry(12, 0x15, 2176)
    case 98 => TableEntry(12, 0x16, 2240)
    case 99 => TableEntry(12, 0x17, 2304)
    case 100 => TableEntry(12, 0x1c, 2368)
    case 101 => TableEntry(12, 0x1d, 2432)
    case 102 => TableEntry(12, 0x1e, 2496)
    case _ => TableEntry(12, 0x1f, 2560)
  }

  const HORIZ_CODE := TableEntry(3, 0x1, 0)
  const PASS_CODE := TableEntry(4, 0x1, 0)

  /** The vertical mode code for `b1 - a1 == i - 3`. */
  function VCode(i: nat): TableEntry
    requires i < 7
  {
    match i
    case 0 => TableEntry(7, 0x03, 0)
    case 1 => TableEntry(6, 0x03, 0)
    case 2 => TableEntry(3, 0x03, 0)
    case 3 => TableEntry(1, 0x1, 0)
    case 4 => TableEntry(3, 0x2, 0)
    case 5 => TableEntry(6, 0x02, 0)
    case _ => TableEntry(7, 0x02, 0)
  }

  const EOL_CODE := 0x001

  /** Terminating codes of white runs. */
  function TermW(i: nat): Proto
    requires i < 64
  {
    match i
    case 0 => Proto(0x00ac, 8)
    case 1 => Proto(0x0038, 22)
    case 2 => Proto(0x000e, 36)
    case 3 => Proto(0x0001, 52)
    case 4 => Proto(0x000d, 68)
    case 5 => Proto(0x0003, 84)
    case 6 => Proto(0x0007, 100)
    case 7 => Proto(0x000f, 116)
    case 8 => Proto(0x0019, 133)
    case 9 => Proto(0x0005, 149)
    case 10 => Proto(0x001c, 165)
    case 11 => Proto(0x0002, 181)
    case 12 => Proto(0x0004, 198)
    case 13 => Proto(0x0030, 214)
    case 14 => Proto(0x000b, 230)
    case 15 => Proto(0x002b, 246)
    case 16 => Proto(0x0015, 262)
    case 17 => Proto(0x0035, 278)
    case 18 => Proto(0x0072, 295)
    case 19 => Proto(0x0018, 311)
    case 20 => Proto(0x0008, 327)
    case 21 => Proto(0x0074, 343)
    case 22 => Proto(0x0060, 359)
    case 23 => Proto(0x0010, 375)
    case 24 => Proto(0x000a, 391)
    case 25 => Proto(0x006a, 407)
    case 26 => Proto(0x0064, 423)
    case 27 => Proto(0x0012, 439)
    case 28 => Proto(0x000c, 455)
    case 29 => Proto(0x0040, 472)
    case 30 => Proto(0x00c0, 488)
    case 31 => Proto(0x0058, 504)
    case 32 => Proto(0x00d8, 520)
    case 33 => Proto(0x0048, 536)
    case 34 => Proto(0x00c8, 552)
    case 35 => Proto(0x0028, 568)
    case 36 => Proto(0x00a8, 584)
    case 37 => Proto(0x0068, 600)
    case 38 => Proto(0x00e8, 616)
    case 39 => Proto(0x0014, 632)
    case 40 => Proto(0x0094, 648)
    case 41 => Proto(0x0054, 664)
    case 42 => Proto(0x00d4, 680)
    case 43 => Proto(0x0034, 696)
    case 44 => Proto(0x00b4, 712)
    case 45 => Proto(0x0020, 728)
    case 46 => Proto(0x00a0, 744)
    case 47 => Proto(0x0050, 760)
    case 48 => Proto(0x00d0, 776)
    case 49 => Proto(0x004a, 792)
    case 50 => Proto(0x00ca, 808)
    case 51 => Proto(0x002a, 824)
    case 52 => Proto(0x00aa, 840)
    case 53 => Proto(0x0024, 856)
    case 54 => Proto(0x00a4, 872)
    case 55 => Proto(0x001a, 888)
    case 56 => Proto(0x009a, 904)
    case 57 => Proto(0x005a, 920)
    case 58 => Proto(0x00da, 936)
    case 59 => Proto(0x0052, 952)
    case 60 => Proto(0x00d2, 968)
    case 61 => Proto(0x004c, 984)
    case 62 => Proto(0x00cc, 1000)
    case _ => Proto(0x002c, 1016)
  }

  /** Terminating codes of black runs. */
  function TermB(i: nat): Proto
    requires i < 64
  {
    match i
    case 0 => Proto(0x03b0, 10)
    case 1 => Proto(0x0002, 19)
    case 2 => Proto(0x0003, 34)
    case 3 => Proto(0x0001, 50)
    case 4 => Proto(0x0006, 67)
    case 5 => Proto(0x000c, 84)
    case 6 => Proto(0x0004, 100)
    case 7 => Proto(0x0018, 117)
    case 8 => Proto(0x0028, 134)
    case 9 => Proto(0x0008, 150)
    case 10 => Proto(0x0010, 167)
    case 11 => Proto(0x0050, 183)
    case 12 => Proto(0x0070, 199)
    case 13 => Proto(0x0020, 216)
    case 14 => Proto(0x00e0, 232)
    case 15 => Proto(0x0030, 249)
    case 16 => Proto(0x03a0, 266)
    case 17 => Proto(0x0060, 282)
    case 18 => Proto(0x0040, 298)
    case 19 => Proto(0x0730, 315)
    case 20 => Proto(0x00b0, 331)
    case 21 => Proto(0x01b0, 347)
    case 22 => Proto(0x0760, 363)
    case 23 => Proto(0x00a0, 379)
    case 24 => Proto(0x0740, 395)
    case 25 => Proto(0x00c0, 411)
    case 26 => Proto(0x0530, 428)
    case 27 => Proto(0x0d30, 444)
    case 28 => Proto(0x0330, 460)
    case 29 => Proto(0x0b30, 476)
    case 30 => Proto(0x0160, 492)
    case 31 => Proto(0x0960, 508)
    case 32 => Proto(0x0560, 524)
    case 33 => Proto(0x0d60, 540)
    case 34 => Proto(0x04b0, 556)
    case 35 => Proto(0x0cb0, 572)
    case 36 => Proto(0x02b0, 588)
    case 37 => Proto(0x0ab0, 604)
    case 38 => Proto(0x06b0, 620)
    case 39 => Proto(0x0eb0, 636)
    case 40 => Proto(0x0360, 652)
    case 41 => Proto(0x0b60, 668)
    case 42 => Proto(0x05b0, 684)
    case 43 => Proto(0x0db0, 700)
    case 44 => Proto(0x02a0, 716)
    case 45 => Proto(0x0aa0, 732)
    case 46 => Proto(0x06a0, 748)
    case 47 => Proto(0x0ea0, 764)
    case 48 => Proto(0x0260, 780)
    case 49 => Proto(0x0a60, 796)
    case 50 => Proto(0x04a0, 812)
    case 51 => Proto(0x0ca0, 828)
    case 52 => Proto(0x0240, 844)
    case 53 => Proto(0x0ec0, 860)
    case 54 => Proto(0x01c0, 876)
    case 55 => Proto(0x0e40, 892)
    case 56 => Proto(0x0140, 908)
    case 57 => Proto(0x01a0, 924)
    case 58 => Proto(0x09a0, 940)
    case 59 => Proto(0x0d40, 956)
    case 60 => Proto(0x0340, 972)
    case 61 => Proto(0x05a0, 988)
    case 62 => Proto(0x0660, 1004)
    case _ => Proto(0x0e60, 1020)
  }

  /** Make-up codes of white runs, 64 to 1728. */
  function MakeUpW(i: nat): Proto
    requires i < 27
  {
    match i
    case 0 => Proto(0x001b, 1029)
    case 1 => Proto(0x0009, 2053)
    case 2 => Proto(0x003a, 3078)
    case 3 => Proto(0x0076, 4103)
    case 4 => Proto(0x006c, 5128)
    case 5 => Proto(0x00ec, 6152)
    case 6 => Proto(0x0026, 7176)
    case 7 => Proto(0x00a6, 8200)
    case 8 => Proto(0x0016, 9224)
    case 9 => Proto(0x00e6, 10248)
    case 10 => Proto(0x0066, 11273)
    case 11 => Proto(0x0166, 12297)
    case 12 => Proto(0x0096, 13321)
    case 13 => Proto(0x0196, 14345)
    case 14 => Proto(0x0056, 15369)
    case 15 => Proto(0x0156, 16393)
    case 16 => Proto(0x00d6, 17417)
    case 17 => Proto(0x01d6, 18441)
    case 18 => Proto(0x0036, 19465)
    case 19 => Proto(0x0136, 20489)
    case 20 => Proto(0x00b6, 21513)
    case 21 => Proto(0x01b6, 22537)
    case 22 => Proto(0x0032, 23561)
    case 23 => Proto(0x0132, 24585)
    case 24 => Proto(0x00b2, 25609)
    case 25 => Proto(0x0006, 26630)
    case _ => Proto(0x01b2, 27657)
  }

  /** Make-up codes of black runs, 64 to 1728. */
  function MakeUpB(i: nat): Proto
    requires i < 27
  {
    match i
    case 0 => Proto(0x03c0, 1034)
    case 1 => Proto(0x0130, 2060)
    case 2 => Proto(0x0930, 3084)
    case 3 => Proto(0x0da0, 4108)
    case 4 => Proto(0x0cc0, 5132)
    case 5 => Proto(0x02c0, 6156)
    case 6 => Proto(0x0ac0, 7180)
    case 7 => Proto(0x06c0, 8205)
    case 8 => Proto(0x16c0, 9229)
    case 9 => Proto(0x0a40, 10253)
    case 10 => Proto(0x1a40, 11277)
    case 11 => Proto(0x0640, 12301)
    case 12 => Proto(0x1640, 13325)
    case 13 => Proto(0x09c0, 14349)
    case 14 => Proto(0x19c0, 15373)
    case 15 => Proto(0x05c0, 16397)
    case 16 => Proto(0x15c0, 17421)
    case 17 => Proto(0x0dc0, 18445)
    case 18 => Proto(0x1dc0, 19469)
    case 19 => Proto(0x0940, 20493)
    case 20 => Proto(0x1940, 21517)
    case 21 => Proto(0x0540, 22541)
    case 22 => Proto(0x1540, 23565)
    case 23 => Proto(0x0b40, 24589)
    case 24 => Proto(0x1b40, 25613)
    case 25 => Proto(0x04c0, 26637)
    case _ => Proto(0x14c0, 27661)
  }

  /** Make-up codes common to both colours, 1792 to 2560. */
  function MakeUp(i: nat): Proto
    requires i < 13
  {
    match i
    case 0 => Proto(0x0080, 28683)
    case 1 => Proto(0x0180, 29707)
    case 2 => Proto(0x0580, 30731)
    case 3 => Proto(0x0480, 31756)
    case 4 => Proto(0x0c80, 32780)
    case 5 => Proto(0x0280, 33804)
    case 6 => Proto(0x0a80, 34828)
    case 7 => Proto(0x0680, 35852)
    case 8 => Proto(0x0e80, 36876)
    case 9 => Proto(0x0380, 37900)
    case 10 => Proto(0x0b80, 38924)
    case 11 => Proto(0x0780, 39948)
    case _ => Proto(0x0f80, 40972)
  }

  const PASS_PROTO := Proto(0x0008, 4)
  const HORIZ_PROTO := Proto(0x0004, 3)
  const V0_PROTO := Proto(0x0001, 1)

  function VR(i: nat): Proto
    requires i < 3
  {
    match i
    case 0 => Proto(0x0006, 1 * 16 + 3)
    case 1 => Proto(0x0030, 2 * 16 + 6)
    case _ => Proto(0x0060, 3 * 16 + 7)
  }

  function VL(i: nat): Proto
    requires i < 3
  {
    match i
    case 0 => Proto(0x0002, 1 * 16 + 3)
    case 1 => Proto(0x0010, 2 * 16 + 6)
    case _ => Proto(0x0020, 3 * 16 + 7)
  }

  const EXT_PROTO := Proto(0x0040, 7)
  const EOLV_PROTO := Proto(0x0000, 7)
  const EOLH_PROTO := Proto(0x0000, 11)
}
