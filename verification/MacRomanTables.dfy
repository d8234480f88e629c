/** The tables of Mac Roman and UTF-8 name conversion (virtio/unicode.c). */
module MacRomanTables {
  import opened Words
  import opened NameConversion

  /** utf8char: the UTF-8 bytes of a Mac Roman character, first byte lowest. Accented letters are
      decomposed: the letter, then a combining mark that starts with byte 0xcc. */
  function Utf8Char(roman: byte): (bytes: nat)
    ensures bytes < 0x100_0000
  {
    if roman < 128 then roman
    else HighChar(roman)
  }

  /** The table, 32 rows at a time. */
  function HighChar(roman: byte): (bytes: nat)
    requires roman >= 128
    ensures 0x100 <= bytes < 0x100_0000
  {
    if roman < 0xa0 then Table80(roman) else if roman < 0xc0 then Tablea0(roman)
    else if roman < 0xe0 then Tablec0(roman) else Tablee0(roman)
  }

  function Table80(roman: byte): (bytes: nat)
    requires 0x80 <= roman <= 0x9f
    ensures 0x100 <= bytes < 0x100_0000
  {
    match roman as int
    case 0x80 => 0x88cc41
    case 0x81 => 0x8acc41
    case 0x82 => 0xa7cc43
    case 0x83 => 0x81cc45
    case 0x84 => 0x83cc4e
    case 0x85 => 0x88cc4f
    case 0x86 => 0x88cc55
    case 0x87 => 0x81cc61
    case 0x88 => 0x80cc61
    case 0x89 => 0x82cc61
    case 0x8a => 0x88cc61
    case 0x8b => 0x83cc61
    case 0x8c => 0x8acc61
    case 0x8d => 0xa7cc63
    case 0x8e => 0x81cc65
    case 0x8f => 0x80cc65
    case 0x90 => 0x82cc65
    case 0x91 => 0x88cc65
    case 0x92 => 0x81cc69
    case 0x93 => 0x80cc69
    case 0x94 => 0x82cc69
    case 0x95 => 0x88cc69
    case 0x96 => 0x83cc6e
    case 0x97 => 0x81cc6f
    case 0x98 => 0x80cc6f
    case 0x99 => 0x82cc6f
    case 0x9a => 0x88cc6f
    case 0x9b => 0x83cc6f
    case 0x9c => 0x81cc75
    case 0x9d => 0x80cc75
    case 0x9e => 0x82cc75
    case _ => 0x88cc75
  }

  function Tablea0(roman: byte): (bytes: nat)
    requires 0xa0 <= roman <= 0xbf
    ensures 0x100 <= bytes < 0x100_0000
  {
    match roman as int
    case 0xa0 => 0xa080e2
    case 0xa1 => 0x00b0c2
    case 0xa2 => 0x00a2c2
    case 0xa3 => 0x00a3c2
    case 0xa4 => 0x00a7c2
    case 0xa5 => 0xa280e2
    case 0xa6 => 0x00b6c2
    case 0xa7 => 0x009fc3
    case 0xa8 => 0x00aec2
    case 0xa9 => 0x00a9c2
    case 0xaa => 0xa284e2
    case 0xab => 0x00b4c2
    case 0xac => 0x00a8c2
    case 0xad => 0xb8cc3d
    case 0xae => 0x0086c3
    case 0xaf => 0x0098c3
    case 0xb0 => 0x9e88e2
    case 0xb1 => 0x00b1c2
    case 0xb2 => 0xa489e2
    case 0xb3 => 0xa589e2
    case 0xb4 => 0x00a5c2
    case 0xb5 => 0x00b5c2
    case 0xb6 => 0x8288e2
    case 0xb7 => 0x9188e2
    case 0xb8 => 0x8f88e2
    case 0xb9 => 0x0080cf
    case 0xba => 0xab88e2
    case 0xbb => 0x00aac2
    case 0xbc => 0x00bac2
    case 0xbd => 0x00a9ce
    case 0xbe => 0x00a6c3
    case _ => 0x00b8c3
  }

  function Tablec0(roman: byte): (bytes: nat)
    requires 0xc0 <= roman <= 0xdf
    ensures 0x100 <= bytes < 0x100_0000
  {
    match roman as int
    case 0xc0 => 0x00bfc2
    case 0xc1 => 0x00a1c2
    case 0xc2 => 0x00acc2
    case 0xc3 => 0x9a88e2
    case 0xc4 => 0x0092c6
    case 0xc5 => 0x8889e2
    case 0xc6 => 0x8688e2
    case 0xc7 => 0x00abc2
    case 0xc8 => 0x00bbc2
    case 0xc9 => 0xa680e2
    case 0xca => 0x00a0c2
    case 0xcb => 0x80cc41
    case 0xcc => 0x83cc41
    case 0xcd => 0x83cc4f
    case 0xce => 0x0092c5
    case 0xcf => 0x0093c5
    case 0xd0 => 0x9380e2
    case 0xd1 => 0x9480e2
    case 0xd2 => 0x9c80e2
    case 0xd3 => 0x9d80e2
    case 0xd4 => 0x9880e2
    case 0xd5 => 0x9980e2
    case 0xd6 => 0x00b7c3
    case 0xd7 => 0x8a97e2
    case 0xd8 => 0x88cc79
    case 0xd9 => 0x88cc59
    case 0xda => 0x8481e2
    case 0xdb => 0xac82e2
    case 0xdc => 0xb980e2
    case 0xdd => 0xba80e2
    case 0xde => 0x81acef
    case _ => 0x82acef
  }

  function Tablee0(roman: byte): (bytes: nat)
    requires 0xe0 <= roman <= 0xff
    ensures 0x100 <= bytes < 0x100_0000
  {
    match roman as int
    case 0xe0 => 0xa180e2
    case 0xe1 => 0x00b7c2
    case 0xe2 => 0x9a80e2
    case 0xe3 => 0x9e80e2
    case 0xe4 => 0xb080e2
    case 0xe5 => 0x82cc41
    case 0xe6 => 0x82cc45
    case 0xe7 => 0x81cc41
    case 0xe8 => 0x88cc45
    case 0xe9 => 0x80cc45
    case 0xea => 0x81cc49
    case 0xeb => 0x82cc49
    case 0xec => 0x88cc49
    case 0xed => 0x80cc49
    case 0xee => 0x81cc4f
    case 0xef => 0x82cc4f
    case 0xf0 => 0xbfa3ef
    case 0xf1 => 0x80cc4f
    case 0xf2 => 0x81cc55
    case 0xf3 => 0x82cc55
    case 0xf4 => 0x80cc55
    case 0xf5 => 0x00b1c4
    case 0xf6 => 0x0086cb
    case 0xf7 => 0x009ccb
    case 0xf8 => 0x00afc2
    case 0xf9 => 0x0098cb
    case 0xfa => 0x0099cb
    case 0xfb => 0x009acb
    case 0xfc => 0x00b8c2
    case 0xfd => 0x009dcb
    case 0xfe => 0x009bcb
    case _ => 0x0087cb
  }

  /** A letter followed by byte 0xcc and `mark`: the character they make, or -1. */
  function Combined(letter: nat, mark: nat): (roman: int)
    ensures roman == -1 || 0x80 <= roman <= 0xff
  {
    if letter == 'A' as int && mark == 0x88 then 0x80
    else if letter == 'A' as int && mark == 0x8a then 0x81
    else if letter == 'C' as int && mark == 0xa7 then 0x82
    else if letter == 'E' as int && mark == 0x81 then 0x83
    else if letter == 'N' as int && mark == 0x83 then 0x84
    else if letter == 'O' as int && mark == 0x88 then 0x85
    else if letter == 'U' as int && mark == 0x88 then 0x86
    else if letter == 'a' as int && mark == 0x81 then 0x87
    else if letter == 'a' as int && mark == 0x80 then 0x88
    else if letter == 'a' as int && mark == 0x82 then 0x89
    else if letter == 'a' as int && mark == 0x88 then 0x8a
    else if letter == 'a' as int && mark == 0x83 then 0x8b
    else if letter == 'a' as int && mark == 0x8a then 0x8c
    else if letter == 'c' as int && mark == 0xa7 then 0x8d
    else if letter == 'e' as int && mark == 0x81 then 0x8e
    else if letter == 'e' as int && mark == 0x80 then 0x8f
    else if letter == 'e' as int && mark == 0x82 then 0x90
    else if letter == 'e' as int && mark == 0x88 then 0x91
    else if letter == 'i' as int && mark == 0x81 then 0x92
    else if letter == 'i' as int && mark == 0x80 then 0x93
    else if letter == 'i' as int && mark == 0x82 then 0x94
    else if letter == 'i' as int && mark == 0x88 then 0x95
    else if letter == 'n' as int && mark == 0x83 then 0x96
    else if letter == 'o' as int && mark == 0x81 then 0x97
    else if letter == 'o' as int && mark == 0x80 then 0x98
    else if letter == 'o' as int && mark == 0x82 then 0x99
    else if letter == 'o' as int && mark == 0x88 then 0x9a
    else if letter == 'o' as int && mark == 0x83 then 0x9b
    else if letter == 'u' as int && mark == 0x81 then 0x9c
    else if letter == 'u' as int && mark == 0x80 then 0x9d
    else if letter == 'u' as int && mark == 0x82 then 0x9e
    else if letter == 'u' as int && mark == 0x88 then 0x9f
    else if letter == '=' as int && mark == 0xb8 then 0xad
    else if letter == 'A' as int && mark == 0x80 then 0xcb
    else if letter == 'A' as int && mark == 0x83 then 0xcc
    else if letter == 'O' as int && mark == 0x83 then 0xcd
    else if letter == 'y' as int && mark == 0x88 then 0xd8
    else if letter == 'Y' as int && mark == 0x88 then 0xd9
    else if letter == 'A' as int && mark == 0x82 then 0xe5
    else if letter == 'E' as int && mark == 0x82 then 0xe6
    else if letter == 'A' as int && mark == 0x81 then 0xe7
    else if letter == 'E' as int && mark == 0x88 then 0xe8
    else if letter == 'E' as int && mark == 0x80 then 0xe9
    else if letter == 'I' as int && mark == 0x81 then 0xea
    else if letter == 'I' as int && mark == 0x82 then 0xeb
    else if letter == 'I' as int && mark == 0x88 then 0xec
    else if letter == 'I' as int && mark == 0x80 then 0xed
    else if letter == 'O' as int && mark == 0x81 then 0xee
    else if letter == 'O' as int && mark == 0x82 then 0xef
    else if letter == 'O' as int && mark == 0x80 then 0xf1
    else if letter == 'U' as int && mark == 0x81 then 0xf2
    else if letter == 'U' as int && mark == 0x82 then 0xf3
    else if letter == 'U' as int && mark == 0x80 then 0xf4
    else -1
  }

  /** The branches of toMacRoman for a first byte of 0x80 or more. */
  function NonAscii(b0: nat, b1: nat, b2: nat): (p: Parsed)
    ensures p == Parsed(-1, 1) || (0x80 <= p.roman <= 0xff && 2 <= p.nbytes <= 3 && b1 != 0 && (p.nbytes == 3 ==> b2 != 0))
  {
    var two := TwoByte(b0, b1);
    var three := ThreeByte(b0, b1, b2);
    if two != -1 then Parsed(two, 2)
    else if three != -1 then Parsed(three, 3)
    else Parsed(-1, 1)
  }

  function TwoByte(b0: nat, b1: nat): (roman: int)
    ensures roman == -1 || (0x80 <= roman <= 0xff && b1 != 0)
  {
    if b0 == 0xc3 then TwoBytec3(b1)
    else if b0 == 0xc2 then TwoBytec2(b1)
    else if b0 == 0xcf && b1 == 0x80 then 0xb9
    else if b0 == 0xce && b1 == 0xa9 then 0xbd
    else if b0 == 0xc6 && b1 == 0x92 then 0xc4
    else if b0 == 0xc5 && b1 == 0x92 then 0xce
    else if b0 == 0xc5 && b1 == 0x93 then 0xcf
    else if b0 == 0xc5 && b1 == 0xb8 then 0xd9
    else if b0 == 0xc4 && b1 == 0xb1 then 0xf5
    else if b0 == 0xcb then TwoBytecb(b1)
    else -1
  }

  function TwoBytec3(b1: nat): (roman: int)
    ensures roman == -1 || (0x80 <= roman <= 0xff && b1 != 0)
  {
    if b1 == 0x84 then 0x80
    else if b1 == 0x85 then 0x81
    else if b1 == 0x87 then 0x82
    else if b1 == 0x89 then 0x83
    else if b1 == 0x91 then 0x84
    else if b1 == 0x96 then 0x85
    else if b1 == 0x9c then 0x86
    else if b1 == 0xa1 then 0x87
    else if b1 == 0xa0 then 0x88
    else if b1 == 0xa2 then 0x89
    else if b1 == 0xa4 then 0x8a
    else if b1 == 0xa3 then 0x8b
    else if b1 == 0xa5 then 0x8c
    else if b1 == 0xa7 then 0x8d
    else if b1 == 0xa9 then 0x8e
    else if b1 == 0xa8 then 0x8f
    else if b1 == 0xaa then 0x90
    else if b1 == 0xab then 0x91
    else if b1 == 0xad then 0x92
    else if b1 == 0xac then 0x93
    else if b1 == 0xae then 0x94
    else if b1 == 0xaf then 0x95
    else if b1 == 0xb1 then 0x96
    else if b1 == 0xb3 then 0x97
    else if b1 == 0xb2 then 0x98
    else if b1 == 0xb4 then 0x99
    else if b1 == 0xb6 then 0x9a
    else if b1 == 0xb5 then 0x9b
    else if b1 == 0xba then 0x9c
    else if b1 == 0xb9 then 0x9d
    else if b1 == 0xbb then 0x9e
    else if b1 == 0xbc then 0x9f
    else if b1 == 0x9f then 0xa7
    else if b1 == 0x86 then 0xae
    else if b1 == 0x98 then 0xaf
    else if b1 == 0xa6 then 0xbe
    else if b1 == 0xb8 then 0xbf
    else if b1 == 0x80 then 0xcb
    else if b1 == 0x83 then 0xcc
    else if b1 == 0x95 then 0xcd
    else if b1 == 0xb7 then 0xd6
    else if b1 == 0xbf then 0xd8
    else if b1 == 0x82 then 0xe5
    else if b1 == 0x8a then 0xe6
    else if b1 == 0x81 then 0xe7
    else if b1 == 0x8b then 0xe8
    else if b1 == 0x88 then 0xe9
    else if b1 == 0x8d then 0xea
    else if b1 == 0x8e then 0xeb
    else if b1 == 0x8f then 0xec
    else if b1 == 0x8c then 0xed
    else if b1 == 0x93 then 0xee
    else if b1 == 0x94 then 0xef
    else if b1 == 0x92 then 0xf1
    else if b1 == 0x9a then 0xf2
    else if b1 == 0x9b then 0xf3
    else if b1 == 0x99 then 0xf4
    else -1
  }

  function TwoBytec2(b1: nat): (roman: int)
    ensures roman == -1 || (0x80 <= roman <= 0xff && b1 != 0)
  {
    if b1 == 0xb0 then 0xa1
    else if b1 == 0xa2 then 0xa2
    else if b1 == 0xa3 then 0xa3
    else if b1 == 0xa7 then 0xa4
    else if b1 == 0xb6 then 0xa6
    else if b1 == 0xae then 0xa8
    else if b1 == 0xa9 then 0xa9
    else if b1 == 0xb4 then 0xab
    else if b1 == 0xa8 then 0xac
    else if b1 == 0xb1 then 0xb1
    else if b1 == 0xa5 then 0xb4
    else if b1 == 0xb5 then 0xb5
    else if b1 == 0xaa then 0xbb
    else if b1 == 0xba then 0xbc
    else if b1 == 0xbf then 0xc0
    else if b1 == 0xa1 then 0xc1
    else if b1 == 0xac then 0xc2
    else if b1 == 0xab then 0xc7
    else if b1 == 0xbb then 0xc8
    else if b1 == 0xa0 then 0xca
    else if b1 == 0xb7 then 0xe1
    else if b1 == 0xaf then 0xf8
    else if b1 == 0xb8 then 0xfc
    else -1
  }

  function TwoBytecb(b1: nat): (roman: int)
    ensures roman == -1 || (0x80 <= roman <= 0xff && b1 != 0)
  {
    if b1 == 0x86 then 0xf6
    else if b1 == 0x9c then 0xf7
    else if b1 == 0x98 then 0xf9
    else if b1 == 0x99 then 0xfa
    else if b1 == 0x9a then 0xfb
    else if b1 == 0x9d then 0xfd
    else if b1 == 0x9b then 0xfe
    else if b1 == 0x87 then 0xff
    else -1
  }

  function ThreeByte(b0: nat, b1: nat, b2: nat): (roman: int)
    ensures roman == -1 || (0x80 <= roman <= 0xff && b1 != 0 && b2 != 0)
  {
    if b0 == 0xe2 && b1 == 0x80 then ThreeBytee280(b2)
    else if b0 == 0xe2 && b1 == 0x84 && b2 == 0xa2 then 0xaa
    else if b0 == 0xe2 && b1 == 0x89 && b2 == 0xa0 then 0xad
    else if b0 == 0xe2 && b1 == 0x89 && b2 == 0xa4 then 0xb2
    else if b0 == 0xe2 && b1 == 0x89 && b2 == 0xa5 then 0xb3
    else if b0 == 0xe2 && b1 == 0x89 && b2 == 0x88 then 0xc5
    else if b0 == 0xe2 && b1 == 0x88 then ThreeBytee288(b2)
    else if b0 == 0xe2 && b1 == 0x97 && b2 == 0x8a then 0xd7
    else if b0 == 0xe2 && b1 == 0x81 && b2 == 0x84 then 0xda
    else if b0 == 0xe2 && b1 == 0x82 && b2 == 0xac then 0xdb
    else if b0 == 0xef && b1 == 0xac && b2 == 0x81 then 0xde
    else if b0 == 0xef && b1 == 0xac && b2 == 0x82 then 0xdf
    else if b0 == 0xef && b1 == 0xa3 && b2 == 0xbf then 0xf0
    else -1
  }

  function ThreeBytee280(b2: nat): (roman: int)
    ensures roman == -1 || (0x80 <= roman <= 0xff && b2 != 0)
  {
    if b2 == 0xa0 then 0xa0
    else if b2 == 0xa2 then 0xa5
    else if b2 == 0xa6 then 0xc9
    else if b2 == 0x93 then 0xd0
    else if b2 == 0x94 then 0xd1
    else if b2 == 0x9c then 0xd2
    else if b2 == 0x9d then 0xd3
    else if b2 == 0x98 then 0xd4
    else if b2 == 0x99 then 0xd5
    else if b2 == 0xb9 then 0xdc
    else if b2 == 0xba then 0xdd
    else if b2 == 0xa1 then 0xe0
    else if b2 == 0x9a then 0xe2
    else if b2 == 0x9e then 0xe3
    else if b2 == 0xb0 then 0xe4
    else -1
  }

  function ThreeBytee288(b2: nat): (roman: int)
    ensures roman == -1 || (0x80 <= roman <= 0xff && b2 != 0)
  {
    if b2 == 0x9e then 0xb0
    else if b2 == 0x82 then 0xb6
    else if b2 == 0x91 then 0xb7
    else if b2 == 0x8f then 0xb8
    else if b2 == 0xab then 0xba
    else if b2 == 0x9a then 0xc3
    else if b2 == 0x86 then 0xc6
    else -1
  }

  /** toMacRoman on the next three bytes of a string, zero standing for its end. */
  function Parse(b0: nat, b1: nat, b2: nat): (p: Parsed)
    ensures p.nbytes == 1 || (b0 != 0 && b1 != 0 && (p.nbytes == 2 || (p.nbytes == 3 && b2 != 0)))
    ensures p.roman == 0 <==> b0 == 0
    ensures p.roman == -1 || 0 <= p.roman <= 0xff
  {
    if b1 == 0xcc && Combined(b0, b2) != -1 then Parsed(Combined(b0, b2), 3)
    else if b0 < 0x80 then Parsed(b0, 1)
    else NonAscii(b0, b1, b2)
  }

  /** The bytes b0 b1 b2 (or b0 b1, with b2 zero) are the printed form of `roman`, and parse back as it,
      whatever follows. */
  ghost predicate Prints(roman: byte, b0: byte, b1: byte, b2: byte) {
    && Utf8Char(roman) == (b2 as int * 256 + b1 as int) * 256 + b0 as int
    && b0 != 0xcc && b0 > 0 && b1 > 0
    && if b2 > 0 then Parse(b0, b1, b2) == Parsed(roman as int, 3)
       else b0 >= 0x80 && b1 != 0xcc && TwoByte(b0, b1) == roman as int
  }

  lemma HighPrints80(roman: byte) returns (b0: byte, b1: byte, b2: byte)
    requires 0x80 <= roman <= 0x87
    ensures Prints(roman, b0, b1, b2)
  {
    if roman == 0x80 { assert Parse(0x41, 0xcc, 0x88) == Parsed(0x80, 3); return 0x41, 0xcc, 0x88; }
    if roman == 0x81 { assert Parse(0x41, 0xcc, 0x8a) == Parsed(0x81, 3); return 0x41, 0xcc, 0x8a; }
    if roman == 0x82 { assert Parse(0x43, 0xcc, 0xa7) == Parsed(0x82, 3); return 0x43, 0xcc, 0xa7; }
    if roman == 0x83 { assert Parse(0x45, 0xcc, 0x81) == Parsed(0x83, 3); return 0x45, 0xcc, 0x81; }
    if roman == 0x84 { assert Parse(0x4e, 0xcc, 0x83) == Parsed(0x84, 3); return 0x4e, 0xcc, 0x83; }
    if roman == 0x85 { assert Parse(0x4f, 0xcc, 0x88) == Parsed(0x85, 3); return 0x4f, 0xcc, 0x88; }
    if roman == 0x86 { assert Parse(0x55, 0xcc, 0x88) == Parsed(0x86, 3); return 0x55, 0xcc, 0x88; }
    if roman == 0x87 { assert Parse(0x61, 0xcc, 0x81) == Parsed(0x87, 3); return 0x61, 0xcc, 0x81; }
  }

  lemma HighPrints88(roman: byte) returns (b0: byte, b1: byte, b2: byte)
    requires 0x88 <= roman <= 0x8f
    ensures Prints(roman, b0, b1, b2)
  {
    if roman == 0x88 { assert Parse(0x61, 0xcc, 0x80) == Parsed(0x88, 3); return 0x61, 0xcc, 0x80; }
    if roman == 0x89 { assert Parse(0x61, 0xcc, 0x82) == Parsed(0x89, 3); return 0x61, 0xcc, 0x82; }
    if roman == 0x8a { assert Parse(0x61, 0xcc, 0x88) == Parsed(0x8a, 3); return 0x61, 0xcc, 0x88; }
    if roman == 0x8b { assert Parse(0x61, 0xcc, 0x83) == Parsed(0x8b, 3); return 0x61, 0xcc, 0x83; }
    if roman == 0x8c { assert Parse(0x61, 0xcc, 0x8a) == Parsed(0x8c, 3); return 0x61, 0xcc, 0x8a; }
    if roman == 0x8d { assert Parse(0x63, 0xcc, 0xa7) == Parsed(0x8d, 3); return 0x63, 0xcc, 0xa7; }
    if roman == 0x8e { assert Parse(0x65, 0xcc, 0x81) == Parsed(0x8e, 3); return 0x65, 0xcc, 0x81; }
    if roman == 0x8f { assert Parse(0x65, 0xcc, 0x80) == Parsed(0x8f, 3); return 0x65, 0xcc, 0x80; }
  }

  lemma HighPrints90(roman: byte) returns (b0: byte, b1: byte, b2: byte)
    requires 0x90 <= roman <= 0x97
    ensures Prints(roman, b0, b1, b2)
  {
    if roman == 0x90 { assert Parse(0x65, 0xcc, 0x82) == Parsed(0x90, 3); return 0x65, 0xcc, 0x82; }
    if roman == 0x91 { assert Parse(0x65, 0xcc, 0x88) == Parsed(0x91, 3); return 0x65, 0xcc, 0x88; }
    if roman == 0x92 { assert Parse(0x69, 0xcc, 0x81) == Parsed(0x92, 3); return 0x69, 0xcc, 0x81; }
    if roman == 0x93 { assert Parse(0x69, 0xcc, 0x80) == Parsed(0x93, 3); return 0x69, 0xcc, 0x80; }
    if roman == 0x94 { assert Parse(0x69, 0xcc, 0x82) == Parsed(0x94, 3); return 0x69, 0xcc, 0x82; }
    if roman == 0x95 { assert Parse(0x69, 0xcc, 0x88) == Parsed(0x95, 3); return 0x69, 0xcc, 0x88; }
    if roman == 0x96 { assert Parse(0x6e, 0xcc, 0x83) == Parsed(0x96, 3); return 0x6e, 0xcc, 0x83; }
    if roman == 0x97 { assert Parse(0x6f, 0xcc, 0x81) == Parsed(0x97, 3); return 0x6f, 0xcc, 0x81; }
  }

  lemma HighPrints98(roman: byte) returns (b0: byte, b1: byte, b2: byte)
    requires 0x98 <= roman <= 0x9f
    ensures Prints(roman, b0, b1, b2)
  {
    if roman == 0x98 { assert Parse(0x6f, 0xcc, 0x80) == Parsed(0x98, 3); return 0x6f, 0xcc, 0x80; }
    if roman == 0x99 { assert Parse(0x6f, 0xcc, 0x82) == Parsed(0x99, 3); return 0x6f, 0xcc, 0x82; }
    if roman == 0x9a { assert Parse(0x6f, 0xcc, 0x88) == Parsed(0x9a, 3); return 0x6f, 0xcc, 0x88; }
    if roman == 0x9b { assert Parse(0x6f, 0xcc, 0x83) == Parsed(0x9b, 3); return 0x6f, 0xcc, 0x83; }
    if roman == 0x9c { assert Parse(0x75, 0xcc, 0x81) == Parsed(0x9c, 3); return 0x75, 0xcc, 0x81; }
    if roman == 0x9d { assert Parse(0x75, 0xcc, 0x80) == Parsed(0x9d, 3); return 0x75, 0xcc, 0x80; }
    if roman == 0x9e { assert Parse(0x75, 0xcc, 0x82) == Parsed(0x9e, 3); return 0x75, 0xcc, 0x82; }
    if roman == 0x9f { assert Parse(0x75, 0xcc, 0x88) == Parsed(0x9f, 3); return 0x75, 0xcc, 0x88; }
  }

  lemma HighPrintsa0(roman: byte) returns (b0: byte, b1: byte, b2: byte)
    requires 0xa0 <= roman <= 0xa7
    ensures Prints(roman, b0, b1, b2)
  {
    if roman == 0xa0 { assert Parse(0xe2, 0x80, 0xa0) == Parsed(0xa0, 3); return 0xe2, 0x80, 0xa0; }
    if roman == 0xa1 { assert TwoByte(0xc2, 0xb0) == 0xa1; return 0xc2, 0xb0, 0x00; }
    if roman == 0xa2 { assert TwoByte(0xc2, 0xa2) == 0xa2; return 0xc2, 0xa2, 0x00; }
    if roman == 0xa3 { assert TwoByte(0xc2, 0xa3) == 0xa3; return 0xc2, 0xa3, 0x00; }
    if roman == 0xa4 { assert TwoByte(0xc2, 0xa7) == 0xa4; return 0xc2, 0xa7, 0x00; }
    if roman == 0xa5 { assert Parse(0xe2, 0x80, 0xa2) == Parsed(0xa5, 3); return 0xe2, 0x80, 0xa2; }
    if roman == 0xa6 { assert TwoByte(0xc2, 0xb6) == 0xa6; return 0xc2, 0xb6, 0x00; }
    if roman == 0xa7 { assert TwoByte(0xc3, 0x9f) == 0xa7; return 0xc3, 0x9f, 0x00; }
  }

  lemma HighPrintsa8(roman: byte) returns (b0: byte, b1: byte, b2: byte)
    requires 0xa8 <= roman <= 0xaf
    ensures Prints(roman, b0, b1, b2)
  {
    if roman == 0xa8 { assert TwoByte(0xc2, 0xae) == 0xa8; return 0xc2, 0xae, 0x00; }
    if roman == 0xa9 { assert TwoByte(0xc2, 0xa9) == 0xa9; return 0xc2, 0xa9, 0x00; }
    if roman == 0xaa { assert Parse(0xe2, 0x84, 0xa2) == Parsed(0xaa, 3); return 0xe2, 0x84, 0xa2; }
    if roman == 0xab { assert TwoByte(0xc2, 0xb4) == 0xab; return 0xc2, 0xb4, 0x00; }
    if roman == 0xac { assert TwoByte(0xc2, 0xa8) == 0xac; return 0xc2, 0xa8, 0x00; }
    if roman == 0xad { assert Parse(0x3d, 0xcc, 0xb8) == Parsed(0xad, 3); return 0x3d, 0xcc, 0xb8; }
    if roman == 0xae { assert TwoByte(0xc3, 0x86) == 0xae; return 0xc3, 0x86, 0x00; }
    if roman == 0xaf { assert TwoByte(0xc3, 0x98) == 0xaf; return 0xc3, 0x98, 0x00; }
  }

  lemma HighPrintsb0(roman: byte) returns (b0: byte, b1: byte, b2: byte)
    requires 0xb0 <= roman <= 0xb7
    ensures Prints(roman, b0, b1, b2)
  {
    if roman == 0xb0 { assert Parse(0xe2, 0x88, 0x9e) == Parsed(0xb0, 3); return 0xe2, 0x88, 0x9e; }
    if roman == 0xb1 { assert TwoByte(0xc2, 0xb1) == 0xb1; return 0xc2, 0xb1, 0x00; }
    if roman == 0xb2 { assert Parse(0xe2, 0x89, 0xa4) == Parsed(0xb2, 3); return 0xe2, 0x89, 0xa4; }
    if roman == 0xb3 { assert Parse(0xe2, 0x89, 0xa5) == Parsed(0xb3, 3); return 0xe2, 0x89, 0xa5; }
    if roman == 0xb4 { assert TwoByte(0xc2, 0xa5) == 0xb4; return 0xc2, 0xa5, 0x00; }
    if roman == 0xb5 { assert TwoByte(0xc2, 0xb5) == 0xb5; return 0xc2, 0xb5, 0x00; }
    if roman == 0xb6 { assert Parse(0xe2, 0x88, 0x82) == Parsed(0xb6, 3); return 0xe2, 0x88, 0x82; }
    if roman == 0xb7 { assert Parse(0xe2, 0x88, 0x91) == Parsed(0xb7, 3); return 0xe2, 0x88, 0x91; }
  }

  lemma HighPrintsb8(roman: byte) returns (b0: byte, b1: byte, b2: byte)
    requires 0xb8 <= roman <= 0xbf
    ensures Prints(roman, b0, b1, b2)
  {
    if roman == 0xb8 { assert Parse(0xe2, 0x88, 0x8f) == Parsed(0xb8, 3); return 0xe2, 0x88, 0x8f; }
    if roman == 0xb9 { assert TwoByte(0xcf, 0x80) == 0xb9; return 0xcf, 0x80, 0x00; }
    if roman == 0xba { assert Parse(0xe2, 0x88, 0xab) == Parsed(0xba, 3); return 0xe2, 0x88, 0xab; }
    if roman == 0xbb { assert TwoByte(0xc2, 0xaa) == 0xbb; return 0xc2, 0xaa, 0x00; }
    if roman == 0xbc { assert TwoByte(0xc2, 0xba) == 0xbc; return 0xc2, 0xba, 0x00; }
    if roman == 0xbd { assert TwoByte(0xce, 0xa9) == 0xbd; return 0xce, 0xa9, 0x00; }
    if roman == 0xbe { assert TwoByte(0xc3, 0xa6) == 0xbe; return 0xc3, 0xa6, 0x00; }
    if roman == 0xbf { assert TwoByte(0xc3, 0xb8) == 0xbf; return 0xc3, 0xb8, 0x00; }
  }

  lemma HighPrintsc0(roman: byte) returns (b0: byte, b1: byte, b2: byte)
    requires 0xc0 <= roman <= 0xc7
    ensures Prints(roman, b0, b1, b2)
  {
    if roman == 0xc0 { assert TwoByte(0xc2, 0xbf) == 0xc0; return 0xc2, 0xbf, 0x00; }
    if roman == 0xc1 { assert TwoByte(0xc2, 0xa1) == 0xc1; return 0xc2, 0xa1, 0x00; }
    if roman == 0xc2 { assert TwoByte(0xc2, 0xac) == 0xc2; return 0xc2, 0xac, 0x00; }
    if roman == 0xc3 { assert Parse(0xe2, 0x88, 0x9a) == Parsed(0xc3, 3); return 0xe2, 0x88, 0x9a; }
    if roman == 0xc4 { assert TwoByte(0xc6, 0x92) == 0xc4; return 0xc6, 0x92, 0x00; }
    if roman == 0xc5 { assert Parse(0xe2, 0x89, 0x88) == Parsed(0xc5, 3); return 0xe2, 0x89, 0x88; }
    if roman == 0xc6 { assert Parse(0xe2, 0x88, 0x86) == Parsed(0xc6, 3); return 0xe2, 0x88, 0x86; }
    if roman == 0xc7 { assert TwoByte(0xc2, 0xab) == 0xc7; return 0xc2, 0xab, 0x00; }
  }

  lemma HighPrintsc8(roman: byte) returns (b0: byte, b1: byte, b2: byte)
    requires 0xc8 <= roman <= 0xcf
    ensures Prints(roman, b0, b1, b2)
  {
    if roman == 0xc8 { assert TwoByte(0xc2, 0xbb) == 0xc8; return 0xc2, 0xbb, 0x00; }
    if roman == 0xc9 { assert Parse(0xe2, 0x80, 0xa6) == Parsed(0xc9, 3); return 0xe2, 0x80, 0xa6; }
    if roman == 0xca { assert TwoByte(0xc2, 0xa0) == 0xca; return 0xc2, 0xa0, 0x00; }
    if roman == 0xcb { assert Parse(0x41, 0xcc, 0x80) == Parsed(0xcb, 3); return 0x41, 0xcc, 0x80; }
    if roman == 0xcc { assert Parse(0x41, 0xcc, 0x83) == Parsed(0xcc, 3); return 0x41, 0xcc, 0x83; }
    if roman == 0xcd { assert Parse(0x4f, 0xcc, 0x83) == Parsed(0xcd, 3); return 0x4f, 0xcc, 0x83; }
    if roman == 0xce { assert TwoByte(0xc5, 0x92) == 0xce; return 0xc5, 0x92, 0x00; }
    if roman == 0xcf { assert TwoByte(0xc5, 0x93) == 0xcf; return 0xc5, 0x93, 0x00; }
  }

  lemma HighPrintsd0(roman: byte) returns (b0: byte, b1: byte, b2: byte)
    requires 0xd0 <= roman <= 0xd7
    ensures Prints(roman, b0, b1, b2)
  {
    if roman == 0xd0 { assert Parse(0xe2, 0x80, 0x93) == Parsed(0xd0, 3); return 0xe2, 0x80, 0x93; }
    if roman == 0xd1 { assert Parse(0xe2, 0x80, 0x94) == Parsed(0xd1, 3); return 0xe2, 0x80, 0x94; }
    if roman == 0xd2 { assert Parse(0xe2, 0x80, 0x9c) == Parsed(0xd2, 3); return 0xe2, 0x80, 0x9c; }
    if roman == 0xd3 { assert Parse(0xe2, 0x80, 0x9d) == Parsed(0xd3, 3); return 0xe2, 0x80, 0x9d; }
    if roman == 0xd4 { assert Parse(0xe2, 0x80, 0x98) == Parsed(0xd4, 3); return 0xe2, 0x80, 0x98; }
    if roman == 0xd5 { assert Parse(0xe2, 0x80, 0x99) == Parsed(0xd5, 3); return 0xe2, 0x80, 0x99; }
    if roman == 0xd6 { assert TwoByte(0xc3, 0xb7) == 0xd6; return 0xc3, 0xb7, 0x00; }
    if roman == 0xd7 { assert Parse(0xe2, 0x97, 0x8a) == Parsed(0xd7, 3); return 0xe2, 0x97, 0x8a; }
  }

  lemma HighPrintsd8(roman: byte) returns (b0: byte, b1: byte, b2: byte)
    requires 0xd8 <= roman <= 0xdf
    ensures Prints(roman, b0, b1, b2)
  {
    if roman == 0xd8 { assert Parse(0x79, 0xcc, 0x88) == Parsed(0xd8, 3); return 0x79, 0xcc, 0x88; }
    if roman == 0xd9 { assert Parse(0x59, 0xcc, 0x88) == Parsed(0xd9, 3); return 0x59, 0xcc, 0x88; }
    if roman == 0xda { assert Parse(0xe2, 0x81, 0x84) == Parsed(0xda, 3); return 0xe2, 0x81, 0x84; }
    if roman == 0xdb { assert Parse(0xe2, 0x82, 0xac) == Parsed(0xdb, 3); return 0xe2, 0x82, 0xac; }
    if roman == 0xdc { assert Parse(0xe2, 0x80, 0xb9) == Parsed(0xdc, 3); return 0xe2, 0x80, 0xb9; }
    if roman == 0xdd { assert Parse(0xe2, 0x80, 0xba) == Parsed(0xdd, 3); return 0xe2, 0x80, 0xba; }
    if roman == 0xde { assert Parse(0xef, 0xac, 0x81) == Parsed(0xde, 3); return 0xef, 0xac, 0x81; }
    if roman == 0xdf { assert Parse(0xef, 0xac, 0x82) == Parsed(0xdf, 3); return 0xef, 0xac, 0x82; }
  }

  lemma HighPrintse0(roman: byte) returns (b0: byte, b1: byte, b2: byte)
    requires 0xe0 <= roman <= 0xe7
    ensures Prints(roman, b0, b1, b2)
  {
    if roman == 0xe0 { assert Parse(0xe2, 0x80, 0xa1) == Parsed(0xe0, 3); return 0xe2, 0x80, 0xa1; }
    if roman == 0xe1 { assert TwoByte(0xc2, 0xb7) == 0xe1; return 0xc2, 0xb7, 0x00; }
    if roman == 0xe2 { assert Parse(0xe2, 0x80, 0x9a) == Parsed(0xe2, 3); return 0xe2, 0x80, 0x9a; }
    if roman == 0xe3 { assert Parse(0xe2, 0x80, 0x9e) == Parsed(0xe3, 3); return 0xe2, 0x80, 0x9e; }
    if roman == 0xe4 { assert Parse(0xe2, 0x80, 0xb0) == Parsed(0xe4, 3); return 0xe2, 0x80, 0xb0; }
    if roman == 0xe5 { assert Parse(0x41, 0xcc, 0x82) == Parsed(0xe5, 3); return 0x41, 0xcc, 0x82; }
    if roman == 0xe6 { assert Parse(0x45, 0xcc, 0x82) == Parsed(0xe6, 3); return 0x45, 0xcc, 0x82; }
    if roman == 0xe7 { assert Parse(0x41, 0xcc, 0x81) == Parsed(0xe7, 3); return 0x41, 0xcc, 0x81; }
  }

  lemma HighPrintse8(roman: byte) returns (b0: byte, b1: byte, b2: byte)
    requires 0xe8 <= roman <= 0xef
    ensures Prints(roman, b0, b1, b2)
  {
    if roman == 0xe8 { assert Parse(0x45, 0xcc, 0x88) == Parsed(0xe8, 3); return 0x45, 0xcc, 0x88; }
    if roman == 0xe9 { assert Parse(0x45, 0xcc, 0x80) == Parsed(0xe9, 3); return 0x45, 0xcc, 0x80; }
    if roman == 0xea { assert Parse(0x49, 0xcc, 0x81) == Parsed(0xea, 3); return 0x49, 0xcc, 0x81; }
    if roman == 0xeb { assert Parse(0x49, 0xcc, 0x82) == Parsed(0xeb, 3); return 0x49, 0xcc, 0x82; }
    if roman == 0xec { assert Parse(0x49, 0xcc, 0x88) == Parsed(0xec, 3); return 0x49, 0xcc, 0x88; }
    if roman == 0xed { assert Parse(0x49, 0xcc, 0x80) == Parsed(0xed, 3); return 0x49, 0xcc, 0x80; }
    if roman == 0xee { assert Parse(0x4f, 0xcc, 0x81) == Parsed(0xee, 3); return 0x4f, 0xcc, 0x81; }
    if roman == 0xef { assert Parse(0x4f, 0xcc, 0x82) == Parsed(0xef, 3); return 0x4f, 0xcc, 0x82; }
  }

  lemma HighPrintsf0(roman: byte) returns (b0: byte, b1: byte, b2: byte)
    requires 0xf0 <= roman <= 0xf7
    ensures Prints(roman, b0, b1, b2)
  {
    if roman == 0xf0 { assert Parse(0xef, 0xa3, 0xbf) == Parsed(0xf0, 3); return 0xef, 0xa3, 0xbf; }
    if roman == 0xf1 { assert Parse(0x4f, 0xcc, 0x80) == Parsed(0xf1, 3); return 0x4f, 0xcc, 0x80; }
    if roman == 0xf2 { assert Parse(0x55, 0xcc, 0x81) == Parsed(0xf2, 3); return 0x55, 0xcc, 0x81; }
    if roman == 0xf3 { assert Parse(0x55, 0xcc, 0x82) == Parsed(0xf3, 3); return 0x55, 0xcc, 0x82; }
    if roman == 0xf4 { assert Parse(0x55, 0xcc, 0x80) == Parsed(0xf4, 3); return 0x55, 0xcc, 0x80; }
    if roman == 0xf5 { assert TwoByte(0xc4, 0xb1) == 0xf5; return 0xc4, 0xb1, 0x00; }
    if roman == 0xf6 { assert TwoByte(0xcb, 0x86) == 0xf6; return 0xcb, 0x86, 0x00; }
    if roman == 0xf7 { assert TwoByte(0xcb, 0x9c) == 0xf7; return 0xcb, 0x9c, 0x00; }
  }

  lemma HighPrintsf8(roman: byte) returns (b0: byte, b1: byte, b2: byte)
    requires 0xf8 <= roman <= 0xff
    ensures Prints(roman, b0, b1, b2)
  {
    if roman == 0xf8 { assert TwoByte(0xc2, 0xaf) == 0xf8; return 0xc2, 0xaf, 0x00; }
    if roman == 0xf9 { assert TwoByte(0xcb, 0x98) == 0xf9; return 0xcb, 0x98, 0x00; }
    if roman == 0xfa { assert TwoByte(0xcb, 0x99) == 0xfa; return 0xcb, 0x99, 0x00; }
    if roman == 0xfb { assert TwoByte(0xcb, 0x9a) == 0xfb; return 0xcb, 0x9a, 0x00; }
    if roman == 0xfc { assert TwoByte(0xc2, 0xb8) == 0xfc; return 0xc2, 0xb8, 0x00; }
    if roman == 0xfd { assert TwoByte(0xcb, 0x9d) == 0xfd; return 0xcb, 0x9d, 0x00; }
    if roman == 0xfe { assert TwoByte(0xcb, 0x9b) == 0xfe; return 0xcb, 0x9b, 0x00; }
    if roman == 0xff { assert TwoByte(0xcb, 0x87) == 0xff; return 0xcb, 0x87, 0x00; }
  }

  lemma HighPrints(roman: byte) returns (b0: byte, b1: byte, b2: byte)
    requires roman >= 0x80
    ensures Prints(roman, b0, b1, b2)
  {
    if roman < 0x88 { b0, b1, b2 := HighPrints80(roman); }
    else if roman < 0x90 { b0, b1, b2 := HighPrints88(roman); }
    else if roman < 0x98 { b0, b1, b2 := HighPrints90(roman); }
    else if roman < 0xa0 { b0, b1, b2 := HighPrints98(roman); }
    else if roman < 0xa8 { b0, b1, b2 := HighPrintsa0(roman); }
    else if roman < 0xb0 { b0, b1, b2 := HighPrintsa8(roman); }
    else if roman < 0xb8 { b0, b1, b2 := HighPrintsb0(roman); }
    else if roman < 0xc0 { b0, b1, b2 := HighPrintsb8(roman); }
    else if roman < 0xc8 { b0, b1, b2 := HighPrintsc0(roman); }
    else if roman < 0xd0 { b0, b1, b2 := HighPrintsc8(roman); }
    else if roman < 0xd8 { b0, b1, b2 := HighPrintsd0(roman); }
    else if roman < 0xe0 { b0, b1, b2 := HighPrintsd8(roman); }
    else if roman < 0xe8 { b0, b1, b2 := HighPrintse0(roman); }
    else if roman < 0xf0 { b0, b1, b2 := HighPrintse8(roman); }
    else if roman < 0xf8 { b0, b1, b2 := HighPrintsf0(roman); }
    else { b0, b1, b2 := HighPrintsf8(roman); }
  }
}
