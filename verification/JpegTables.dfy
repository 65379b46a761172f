/** The Huffman tables of the JPEG encoder beside the code counts and symbol lists that it
    writes to the file: each table is the canonical code of its lists. */
module JpegTables {
  import opened Bits
  import opened Canonical
  import opened JpegHuffman
  import opened JpegFormat
  import opened JpegEncoder
  import opened JpegDecoder
  import opened JpegCoding

  const LUMA_DC_COUNT: seq<nat> := [0, 1, 5, 1, 1, 1, 1, 1, 1, 0, 0, 0, 0, 0, 0, 0]

  const LUMA_AC_COUNT: seq<nat> := [0, 2, 1, 3, 3, 2, 4, 3, 5, 5, 4, 4, 0, 0, 1, 125]

  /** The encoder's luminance DC table. */
  function LumaDcCode(sym: int): Code {
    match sym
    case 0 => Code(0, 2) case 1 => Code(2, 3) case 2 => Code(3, 3) case 3 => Code(4, 3) case 4 => Code(5, 3) case 5 => Code(6, 3)
    case 6 => Code(14, 4) case 7 => Code(30, 5) case 8 => Code(62, 6) case 9 => Code(126, 7) case 10 => Code(254, 8) case 11 => Code(510, 9)
    case _ => Code(0, 0)
  }

  /** The encoder's luminance AC table. */
  function LumaAcCode(sym: int): Code {
    if sym < 0x40 then
      match sym {
        case 0x00 => Code(0xA, 4) case 0x01 => Code(0x0, 2) case 0x02 => Code(0x1, 2) case 0x03 => Code(0x4, 3)
        case 0x04 => Code(0xB, 4) case 0x05 => Code(0x1A, 5) case 0x06 => Code(0x78, 7) case 0x07 => Code(0xF8, 8)
        case 0x08 => Code(0x3F6, 10) case 0x09 => Code(0xFF82, 16) case 0x0A => Code(0xFF83, 16) case 0x11 => Code(0xC, 4)
        case 0x12 => Code(0x1B, 5) case 0x13 => Code(0x79, 7) case 0x14 => Code(0x1F6, 9) case 0x15 => Code(0x7F6, 11)
        case 0x16 => Code(0xFF84, 16) case 0x17 => Code(0xFF85, 16) case 0x18 => Code(0xFF86, 16) case 0x19 => Code(0xFF87, 16)
        case 0x1A => Code(0xFF88, 16) case 0x21 => Code(0x1C, 5) case 0x22 => Code(0xF9, 8) case 0x23 => Code(0x3F7, 10)
        case 0x24 => Code(0xFF4, 12) case 0x25 => Code(0xFF89, 16) case 0x26 => Code(0xFF8A, 16) case 0x27 => Code(0xFF8B, 16)
        case 0x28 => Code(0xFF8C, 16) case 0x29 => Code(0xFF8D, 16) case 0x2A => Code(0xFF8E, 16) case 0x31 => Code(0x3A, 6)
        case 0x32 => Code(0x1F7, 9) case 0x33 => Code(0xFF5, 12) case 0x34 => Code(0xFF8F, 16) case 0x35 => Code(0xFF90, 16)
        case 0x36 => Code(0xFF91, 16) case 0x37 => Code(0xFF92, 16) case 0x38 => Code(0xFF93, 16) case 0x39 => Code(0xFF94, 16)
        case 0x3A => Code(0xFF95, 16)
        case _ => Code(0, 0)
      }
    else if sym < 0x80 then
      match sym {
        case 0x41 => Code(0x3B, 6) case 0x42 => Code(0x3F8, 10) case 0x43 => Code(0xFF96, 16) case 0x44 => Code(0xFF97, 16)
        case 0x45 => Code(0xFF98, 16) case 0x46 => Code(0xFF99, 16) case 0x47 => Code(0xFF9A, 16) case 0x48 => Code(0xFF9B, 16)
        case 0x49 => Code(0xFF9C, 16) case 0x4A => Code(0xFF9D, 16) case 0x51 => Code(0x7A, 7) case 0x52 => Code(0x7F7, 11)
        case 0x53 => Code(0xFF9E, 16) case 0x54 => Code(0xFF9F, 16) case 0x55 => Code(0xFFA0, 16) case 0x56 => Code(0xFFA1, 16)
        case 0x57 => Code(0xFFA2, 16) case 0x58 => Code(0xFFA3, 16) case 0x59 => Code(0xFFA4, 16) case 0x5A => Code(0xFFA5, 16)
        case 0x61 => Code(0x7B, 7) case 0x62 => Code(0xFF6, 12) case 0x63 => Code(0xFFA6, 16) case 0x64 => Code(0xFFA7, 16)
        case 0x65 => Code(0xFFA8, 16) case 0x66 => Code(0xFFA9, 16) case 0x67 => Code(0xFFAA, 16) case 0x68 => Code(0xFFAB, 16)
        case 0x69 => Code(0xFFAC, 16) case 0x6A => Code(0xFFAD, 16) case 0x71 => Code(0xFA, 8) case 0x72 => Code(0xFF7, 12)
        case 0x73 => Code(0xFFAE, 16) case 0x74 => Code(0xFFAF, 16) case 0x75 => Code(0xFFB0, 16) case 0x76 => Code(0xFFB1, 16)
        case 0x77 => Code(0xFFB2, 16) case 0x78 => Code(0xFFB3, 16) case 0x79 => Code(0xFFB4, 16) case 0x7A => Code(0xFFB5, 16)
        case _ => Code(0, 0)
      }
    else if sym < 0xC0 then
      match sym {
        case 0x81 => Code(0x1F8, 9) case 0x82 => Code(0x7FC0, 15) case 0x83 => Code(0xFFB6, 16) case 0x84 => Code(0xFFB7, 16)
        case 0x85 => Code(0xFFB8, 16) case 0x86 => Code(0xFFB9, 16) case 0x87 => Code(0xFFBA, 16) case 0x88 => Code(0xFFBB, 16)
        case 0x89 => Code(0xFFBC, 16) case 0x8A => Code(0xFFBD, 16) case 0x91 => Code(0x1F9, 9) case 0x92 => Code(0xFFBE, 16)
        case 0x93 => Code(0xFFBF, 16) case 0x94 => Code(0xFFC0, 16) case 0x95 => Code(0xFFC1, 16) case 0x96 => Code(0xFFC2, 16)
        case 0x97 => Code(0xFFC3, 16) case 0x98 => Code(0xFFC4, 16) case 0x99 => Code(0xFFC5, 16) case 0x9A => Code(0xFFC6, 16)
        case 0xA1 => Code(0x1FA, 9) case 0xA2 => Code(0xFFC7, 16) case 0xA3 => Code(0xFFC8, 16) case 0xA4 => Code(0xFFC9, 16)
        case 0xA5 => Code(0xFFCA, 16) case 0xA6 => Code(0xFFCB, 16) case 0xA7 => Code(0xFFCC, 16) case 0xA8 => Code(0xFFCD, 16)
        case 0xA9 => Code(0xFFCE, 16) case 0xAA => Code(0xFFCF, 16) case 0xB1 => Code(0x3F9, 10) case 0xB2 => Code(0xFFD0, 16)
        case 0xB3 => Code(0xFFD1, 16) case 0xB4 => Code(0xFFD2, 16) case 0xB5 => Code(0xFFD3, 16) case 0xB6 => Code(0xFFD4, 16)
        case 0xB7 => Code(0xFFD5, 16) case 0xB8 => Code(0xFFD6, 16) case 0xB9 => Code(0xFFD7, 16) case 0xBA => Code(0xFFD8, 16)
        case _ => Code(0, 0)
      }
    else
      match sym {
        case 0xC1 => Code(0x3FA, 10) case 0xC2 => Code(0xFFD9, 16) case 0xC3 => Code(0xFFDA, 16) case 0xC4 => Code(0xFFDB, 16)
        case 0xC5 => Code(0xFFDC, 16) case 0xC6 => Code(0xFFDD, 16) case 0xC7 => Code(0xFFDE, 16) case 0xC8 => Code(0xFFDF, 16)
        case 0xC9 => Code(0xFFE0, 16) case 0xCA => Code(0xFFE1, 16) case 0xD1 => Code(0x7F8, 11) case 0xD2 => Code(0xFFE2, 16)
        case 0xD3 => Code(0xFFE3, 16) case 0xD4 => Code(0xFFE4, 16) case 0xD5 => Code(0xFFE5, 16) case 0xD6 => Code(0xFFE6, 16)
        case 0xD7 => Code(0xFFE7, 16) case 0xD8 => Code(0xFFE8, 16) case 0xD9 => Code(0xFFE9, 16) case 0xDA => Code(0xFFEA, 16)
        case 0xE1 => Code(0xFFEB, 16) case 0xE2 => Code(0xFFEC, 16) case 0xE3 => Code(0xFFED, 16) case 0xE4 => Code(0xFFEE, 16)
        case 0xE5 => Code(0xFFEF, 16) case 0xE6 => Code(0xFFF0, 16) case 0xE7 => Code(0xFFF1, 16) case 0xE8 => Code(0xFFF2, 16)
        case 0xE9 => Code(0xFFF3, 16) case 0xEA => Code(0xFFF4, 16) case 0xF0 => Code(0x7F9, 11) case 0xF1 => Code(0xFFF5, 16)
        case 0xF2 => Code(0xFFF6, 16) case 0xF3 => Code(0xFFF7, 16) case 0xF4 => Code(0xFFF8, 16) case 0xF5 => Code(0xFFF9, 16)
        case 0xF6 => Code(0xFFFA, 16) case 0xF7 => Code(0xFFFB, 16) case 0xF8 => Code(0xFFFC, 16) case 0xF9 => Code(0xFFFD, 16)
        case 0xFA => Code(0xFFFE, 16)
        case _ => Code(0, 0)
      }
  }

  /** The luminance AC symbols in the order of their codes. */
  function LumaAcValue(k: int): int {
    if k < 41 then
      match k {
        case 0 => 0x01 case 1 => 0x02 case 2 => 0x03 case 3 => 0x00 case 4 => 0x04 case 5 => 0x11 case 6 => 0x05 case 7 => 0x12
        case 8 => 0x21 case 9 => 0x31 case 10 => 0x41 case 11 => 0x06 case 12 => 0x13 case 13 => 0x51 case 14 => 0x61 case 15 => 0x07
        case 16 => 0x22 case 17 => 0x71 case 18 => 0x14 case 19 => 0x32 case 20 => 0x81 case 21 => 0x91 case 22 => 0xA1 case 23 => 0x08
        case 24 => 0x23 case 25 => 0x42 case 26 => 0xB1 case 27 => 0xC1 case 28 => 0x15 case 29 => 0x52 case 30 => 0xD1 case 31 => 0xF0
        case 32 => 0x24 case 33 => 0x33 case 34 => 0x62 case 35 => 0x72 case 36 => 0x82 case 37 => 0x09 case 38 => 0x0A case 39 => 0x16
        case 40 => 0x17
        case _ => 0
      }
    else if k < 82 then
      match k {
        case 41 => 0x18 case 42 => 0x19 case 43 => 0x1A case 44 => 0x25 case 45 => 0x26 case 46 => 0x27 case 47 => 0x28 case 48 => 0x29
        case 49 => 0x2A case 50 => 0x34 case 51 => 0x35 case 52 => 0x36 case 53 => 0x37 case 54 => 0x38 case 55 => 0x39 case 56 => 0x3A
        case 57 => 0x43 case 58 => 0x44 case 59 => 0x45 case 60 => 0x46 case 61 => 0x47 case 62 => 0x48 case 63 => 0x49 case 64 => 0x4A
        case 65 => 0x53 case 66 => 0x54 case 67 => 0x55 case 68 => 0x56 case 69 => 0x57 case 70 => 0x58 case 71 => 0x59 case 72 => 0x5A
        case 73 => 0x63 case 74 => 0x64 case 75 => 0x65 case 76 => 0x66 case 77 => 0x67 case 78 => 0x68 case 79 => 0x69 case 80 => 0x6A
        case 81 => 0x73
        case _ => 0
      }
    else if k < 123 then
      match k {
        case 82 => 0x74 case 83 => 0x75 case 84 => 0x76 case 85 => 0x77 case 86 => 0x78 case 87 => 0x79 case 88 => 0x7A case 89 => 0x83
        case 90 => 0x84 case 91 => 0x85 case 92 => 0x86 case 93 => 0x87 case 94 => 0x88 case 95 => 0x89 case 96 => 0x8A case 97 => 0x92
        case 98 => 0x93 case 99 => 0x94 case 100 => 0x95 case 101 => 0x96 case 102 => 0x97 case 103 => 0x98 case 104 => 0x99 case 105 => 0x9A
        case 106 => 0xA2 case 107 => 0xA3 case 108 => 0xA4 case 109 => 0xA5 case 110 => 0xA6 case 111 => 0xA7 case 112 => 0xA8 case 113 => 0xA9
        case 114 => 0xAA case 115 => 0xB2 case 116 => 0xB3 case 117 => 0xB4 case 118 => 0xB5 case 119 => 0xB6 case 120 => 0xB7 case 121 => 0xB8
        case 122 => 0xB9
        case _ => 0
      }
    else
      match k {
        case 123 => 0xBA case 124 => 0xC2 case 125 => 0xC3 case 126 => 0xC4 case 127 => 0xC5 case 128 => 0xC6 case 129 => 0xC7 case 130 => 0xC8
        case 131 => 0xC9 case 132 => 0xCA case 133 => 0xD2 case 134 => 0xD3 case 135 => 0xD4 case 136 => 0xD5 case 137 => 0xD6 case 138 => 0xD7
        case 139 => 0xD8 case 140 => 0xD9 case 141 => 0xDA case 142 => 0xE1 case 143 => 0xE2 case 144 => 0xE3 case 145 => 0xE4 case 146 => 0xE5
        case 147 => 0xE6 case 148 => 0xE7 case 149 => 0xE8 case 150 => 0xE9 case 151 => 0xEA case 152 => 0xF1 case 153 => 0xF2 case 154 => 0xF3
        case 155 => 0xF4 case 156 => 0xF5 case 157 => 0xF6 case 158 => 0xF7 case 159 => 0xF8 case 160 => 0xF9 case 161 => 0xFA
        case _ => 0
      }
  }

  /** The place of a symbol in the luminance AC list. */
  function LumaAcIndex(sym: int): int {
    if LumaAcCode(sym).len == 16 then LumaAcCode(sym).bits - 0xFF82 + 37
    else
      match sym {
        case 0x01 => 0 case 0x02 => 1 case 0x03 => 2 case 0x00 => 3 case 0x04 => 4 case 0x11 => 5 case 0x05 => 6 case 0x12 => 7
        case 0x21 => 8 case 0x31 => 9 case 0x41 => 10 case 0x06 => 11 case 0x13 => 12 case 0x51 => 13 case 0x61 => 14 case 0x07 => 15
        case 0x22 => 16 case 0x71 => 17 case 0x14 => 18 case 0x32 => 19 case 0x81 => 20 case 0x91 => 21 case 0xA1 => 22 case 0x08 => 23
        case 0x23 => 24 case 0x42 => 25 case 0xB1 => 26 case 0xC1 => 27 case 0x15 => 28 case 0x52 => 29 case 0xD1 => 30 case 0xF0 => 31
        case 0x24 => 32 case 0x33 => 33 case 0x62 => 34 case 0x72 => 35 case 0x82 => 36
        case _ => 0
      }
  }

  const CHROMA_DC_COUNT: seq<nat> := [0, 3, 1, 1, 1, 1, 1, 1, 1, 1, 1, 0, 0, 0, 0, 0]

  const CHROMA_AC_COUNT: seq<nat> := [0, 2, 1, 2, 4, 4, 3, 4, 7, 5, 4, 4, 0, 1, 2, 119]

  /** The encoder's chrominance DC table. */
  function ChromaDcCode(sym: int): Code {
    match sym
    case 0 => Code(0, 2) case 1 => Code(1, 2) case 2 => Code(2, 2) case 3 => Code(6, 3) case 4 => Code(14, 4) case 5 => Code(30, 5)
    case 6 => Code(62, 6) case 7 => Code(126, 7) case 8 => Code(254, 8) case 9 => Code(510, 9) case 10 => Code(1022, 10) case 11 => Code(2046, 11)
    case _ => Code(0, 0)
  }

  /** The encoder's chrominance AC table. */
  function ChromaAcCode(sym: int): Code {
    if sym < 0x40 then
      match sym {
        case 0x00 => Code(0x0, 2) case 0x01 => Code(0x1, 2) case 0x02 => Code(0x4, 3) case 0x03 => Code(0xA, 4)
        case 0x04 => Code(0x18, 5) case 0x05 => Code(0x19, 5) case 0x06 => Code(0x38, 6) case 0x07 => Code(0x78, 7)
        case 0x08 => Code(0x1F4, 9) case 0x09 => Code(0x3F6, 10) case 0x0A => Code(0xFF4, 12) case 0x11 => Code(0xB, 4)
        case 0x12 => Code(0x39, 6) case 0x13 => Code(0xF6, 8) case 0x14 => Code(0x1F5, 9) case 0x15 => Code(0x7F6, 11)
        case 0x16 => Code(0xFF5, 12) case 0x17 => Code(0xFF88, 16) case 0x18 => Code(0xFF89, 16) case 0x19 => Code(0xFF8A, 16)
        case 0x1A => Code(0xFF8B, 16) case 0x21 => Code(0x1A, 5) case 0x22 => Code(0xF7, 8) case 0x23 => Code(0x3F7, 10)
        case 0x24 => Code(0xFF6, 12) case 0x25 => Code(0x7FC2, 15) case 0x26 => Code(0xFF8C, 16) case 0x27 => Code(0xFF8D, 16)
        case 0x28 => Code(0xFF8E, 16) case 0x29 => Code(0xFF8F, 16) case 0x2A => Code(0xFF90, 16) case 0x31 => Code(0x1B, 5)
        case 0x32 => Code(0xF8, 8) case 0x33 => Code(0x3F8, 10) case 0x34 => Code(0xFF7, 12) case 0x35 => Code(0xFF91, 16)
        case 0x36 => Code(0xFF92, 16) case 0x37 => Code(0xFF93, 16) case 0x38 => Code(0xFF94, 16) case 0x39 => Code(0xFF95, 16)
        case 0x3A => Code(0xFF96, 16)
        case _ => Code(0, 0)
      }
    else if sym < 0x80 then
      match sym {
        case 0x41 => Code(0x3A, 6) case 0x42 => Code(0x1F6, 9) case 0x43 => Code(0xFF97, 16) case 0x44 => Code(0xFF98, 16)
        case 0x45 => Code(0xFF99, 16) case 0x46 => Code(0xFF9A, 16) case 0x47 => Code(0xFF9B, 16) case 0x48 => Code(0xFF9C, 16)
        case 0x49 => Code(0xFF9D, 16) case 0x4A => Code(0xFF9E, 16) case 0x51 => Code(0x3B, 6) case 0x52 => Code(0x3F9, 10)
        case 0x53 => Code(0xFF9F, 16) case 0x54 => Code(0xFFA0, 16) case 0x55 => Code(0xFFA1, 16) case 0x56 => Code(0xFFA2, 16)
        case 0x57 => Code(0xFFA3, 16) case 0x58 => Code(0xFFA4, 16) case 0x59 => Code(0xFFA5, 16) case 0x5A => Code(0xFFA6, 16)
        case 0x61 => Code(0x79, 7) case 0x62 => Code(0x7F7, 11) case 0x63 => Code(0xFFA7, 16) case 0x64 => Code(0xFFA8, 16)
        case 0x65 => Code(0xFFA9, 16) case 0x66 => Code(0xFFAA, 16) case 0x67 => Code(0xFFAB, 16) case 0x68 => Code(0xFFAC, 16)
        case 0x69 => Code(0xFFAD, 16) case 0x6A => Code(0xFFAE, 16) case 0x71 => Code(0x7A, 7) case 0x72 => Code(0x7F8, 11)
        case 0x73 => Code(0xFFAF, 16) case 0x74 => Code(0xFFB0, 16) case 0x75 => Code(0xFFB1, 16) case 0x76 => Code(0xFFB2, 16)
        case 0x77 => Code(0xFFB3, 16) case 0x78 => Code(0xFFB4, 16) case 0x79 => Code(0xFFB5, 16) case 0x7A => Code(0xFFB6, 16)
        case _ => Code(0, 0)
      }
    else if sym < 0xC0 then
      match sym {
        case 0x81 => Code(0xF9, 8) case 0x82 => Code(0xFFB7, 16) case 0x83 => Code(0xFFB8, 16) case 0x84 => Code(0xFFB9, 16)
        case 0x85 => Code(0xFFBA, 16) case 0x86 => Code(0xFFBB, 16) case 0x87 => Code(0xFFBC, 16) case 0x88 => Code(0xFFBD, 16)
        case 0x89 => Code(0xFFBE, 16) case 0x8A => Code(0xFFBF, 16) case 0x91 => Code(0x1F7, 9) case 0x92 => Code(0xFFC0, 16)
        case 0x93 => Code(0xFFC1, 16) case 0x94 => Code(0xFFC2, 16) case 0x95 => Code(0xFFC3, 16) case 0x96 => Code(0xFFC4, 16)
        case 0x97 => Code(0xFFC5, 16) case 0x98 => Code(0xFFC6, 16) case 0x99 => Code(0xFFC7, 16) case 0x9A => Code(0xFFC8, 16)
        case 0xA1 => Code(0x1F8, 9) case 0xA2 => Code(0xFFC9, 16) case 0xA3 => Code(0xFFCA, 16) case 0xA4 => Code(0xFFCB, 16)
        case 0xA5 => Code(0xFFCC, 16) case 0xA6 => Code(0xFFCD, 16) case 0xA7 => Code(0xFFCE, 16) case 0xA8 => Code(0xFFCF, 16)
        case 0xA9 => Code(0xFFD0, 16) case 0xAA => Code(0xFFD1, 16) case 0xB1 => Code(0x1F9, 9) case 0xB2 => Code(0xFFD2, 16)
        case 0xB3 => Code(0xFFD3, 16) case 0xB4 => Code(0xFFD4, 16) case 0xB5 => Code(0xFFD5, 16) case 0xB6 => Code(0xFFD6, 16)
        case 0xB7 => Code(0xFFD7, 16) case 0xB8 => Code(0xFFD8, 16) case 0xB9 => Code(0xFFD9, 16) case 0xBA => Code(0xFFDA, 16)
        case _ => Code(0, 0)
      }
    else
      match sym {
        case 0xC1 => Code(0x1FA, 9) case 0xC2 => Code(0xFFDB, 16) case 0xC3 => Code(0xFFDC, 16) case 0xC4 => Code(0xFFDD, 16)
        case 0xC5 => Code(0xFFDE, 16) case 0xC6 => Code(0xFFDF, 16) case 0xC7 => Code(0xFFE0, 16) case 0xC8 => Code(0xFFE1, 16)
        case 0xC9 => Code(0xFFE2, 16) case 0xCA => Code(0xFFE3, 16) case 0xD1 => Code(0x7F9, 11) case 0xD2 => Code(0xFFE4, 16)
        case 0xD3 => Code(0xFFE5, 16) case 0xD4 => Code(0xFFE6, 16) case 0xD5 => Code(0xFFE7, 16) case 0xD6 => Code(0xFFE8, 16)
        case 0xD7 => Code(0xFFE9, 16) case 0xD8 => Code(0xFFEA, 16) case 0xD9 => Code(0xFFEB, 16) case 0xDA => Code(0xFFEC, 16)
        case 0xE1 => Code(0x3FE0, 14) case 0xE2 => Code(0xFFED, 16) case 0xE3 => Code(0xFFEE, 16) case 0xE4 => Code(0xFFEF, 16)
        case 0xE5 => Code(0xFFF0, 16) case 0xE6 => Code(0xFFF1, 16) case 0xE7 => Code(0xFFF2, 16) case 0xE8 => Code(0xFFF3, 16)
        case 0xE9 => Code(0xFFF4, 16) case 0xEA => Code(0xFFF5, 16) case 0xF0 => Code(0x3FA, 10) case 0xF1 => Code(0x7FC3, 15)
        case 0xF2 => Code(0xFFF6, 16) case 0xF3 => Code(0xFFF7, 16) case 0xF4 => Code(0xFFF8, 16) case 0xF5 => Code(0xFFF9, 16)
        case 0xF6 => Code(0xFFFA, 16) case 0xF7 => Code(0xFFFB, 16) case 0xF8 => Code(0xFFFC, 16) case 0xF9 => Code(0xFFFD, 16)
        case 0xFA => Code(0xFFFE, 16)
        case _ => Code(0, 0)
      }
  }

  /** The chrominance AC symbols in the order of their codes. */
  function ChromaAcValue(k: int): int {
    if k < 41 then
      match k {
        case 0 => 0x00 case 1 => 0x01 case 2 => 0x02 case 3 => 0x03 case 4 => 0x11 case 5 => 0x04 case 6 => 0x05 case 7 => 0x21
        case 8 => 0x31 case 9 => 0x06 case 10 => 0x12 case 11 => 0x41 case 12 => 0x51 case 13 => 0x07 case 14 => 0x61 case 15 => 0x71
        case 16 => 0x13 case 17 => 0x22 case 18 => 0x32 case 19 => 0x81 case 20 => 0x08 case 21 => 0x14 case 22 => 0x42 case 23 => 0x91
        case 24 => 0xA1 case 25 => 0xB1 case 26 => 0xC1 case 27 => 0x09 case 28 => 0x23 case 29 => 0x33 case 30 => 0x52 case 31 => 0xF0
        case 32 => 0x15 case 33 => 0x62 case 34 => 0x72 case 35 => 0xD1 case 36 => 0x0A case 37 => 0x16 case 38 => 0x24 case 39 => 0x34
        case 40 => 0xE1
        case _ => 0
      }
    else if k < 82 then
      match k {
        case 41 => 0x25 case 42 => 0xF1 case 43 => 0x17 case 44 => 0x18 case 45 => 0x19 case 46 => 0x1A case 47 => 0x26 case 48 => 0x27
        case 49 => 0x28 case 50 => 0x29 case 51 => 0x2A case 52 => 0x35 case 53 => 0x36 case 54 => 0x37 case 55 => 0x38 case 56 => 0x39
        case 57 => 0x3A case 58 => 0x43 case 59 => 0x44 case 60 => 0x45 case 61 => 0x46 case 62 => 0x47 case 63 => 0x48 case 64 => 0x49
        case 65 => 0x4A case 66 => 0x53 case 67 => 0x54 case 68 => 0x55 case 69 => 0x56 case 70 => 0x57 case 71 => 0x58 case 72 => 0x59
        case 73 => 0x5A case 74 => 0x63 case 75 => 0x64 case 76 => 0x65 case 77 => 0x66 case 78 => 0x67 case 79 => 0x68 case 80 => 0x69
        case 81 => 0x6A
        case _ => 0
      }
    else if k < 123 then
      match k {
        case 82 => 0x73 case 83 => 0x74 case 84 => 0x75 case 85 => 0x76 case 86 => 0x77 case 87 => 0x78 case 88 => 0x79 case 89 => 0x7A
        case 90 => 0x82 case 91 => 0x83 case 92 => 0x84 case 93 => 0x85 case 94 => 0x86 case 95 => 0x87 case 96 => 0x88 case 97 => 0x89
        case 98 => 0x8A case 99 => 0x92 case 100 => 0x93 case 101 => 0x94 case 102 => 0x95 case 103 => 0x96 case 104 => 0x97 case 105 => 0x98
        case 106 => 0x99 case 107 => 0x9A case 108 => 0xA2 case 109 => 0xA3 case 110 => 0xA4 case 111 => 0xA5 case 112 => 0xA6 case 113 => 0xA7
        case 114 => 0xA8 case 115 => 0xA9 case 116 => 0xAA case 117 => 0xB2 case 118 => 0xB3 case 119 => 0xB4 case 120 => 0xB5 case 121 => 0xB6
        case 122 => 0xB7
        case _ => 0
      }
    else
      match k {
        case 123 => 0xB8 case 124 => 0xB9 case 125 => 0xBA case 126 => 0xC2 case 127 => 0xC3 case 128 => 0xC4 case 129 => 0xC5 case 130 => 0xC6
        case 131 => 0xC7 case 132 => 0xC8 case 133 => 0xC9 case 134 => 0xCA case 135 => 0xD2 case 136 => 0xD3 case 137 => 0xD4 case 138 => 0xD5
        case 139 => 0xD6 case 140 => 0xD7 case 141 => 0xD8 case 142 => 0xD9 case 143 => 0xDA case 144 => 0xE2 case 145 => 0xE3 case 146 => 0xE4
        case 147 => 0xE5 case 148 => 0xE6 case 149 => 0xE7 case 150 => 0xE8 case 151 => 0xE9 case 152 => 0xEA case 153 => 0xF2 case 154 => 0xF3
        case 155 => 0xF4 case 156 => 0xF5 case 157 => 0xF6 case 158 => 0xF7 case 159 => 0xF8 case 160 => 0xF9 case 161 => 0xFA
        case _ => 0
      }
  }

  /** The place of a symbol in the chrominance AC list. */
  function ChromaAcIndex(sym: int): int {
    if ChromaAcCode(sym).len == 16 then ChromaAcCode(sym).bits - 0xFF88 + 43
    else
      match sym {
        case 0x00 => 0 case 0x01 => 1 case 0x02 => 2 case 0x03 => 3 case 0x11 => 4 case 0x04 => 5 case 0x05 => 6 case 0x21 => 7
        case 0x31 => 8 case 0x06 => 9 case 0x12 => 10 case 0x41 => 11 case 0x51 => 12 case 0x07 => 13 case 0x61 => 14 case 0x71 => 15
        case 0x13 => 16 case 0x22 => 17 case 0x32 => 18 case 0x81 => 19 case 0x08 => 20 case 0x14 => 21 case 0x42 => 22 case 0x91 => 23
        case 0xA1 => 24 case 0xB1 => 25 case 0xC1 => 26 case 0x09 => 27 case 0x23 => 28 case 0x33 => 29 case 0x52 => 30 case 0xF0 => 31
        case 0x15 => 32 case 0x62 => 33 case 0x72 => 34 case 0xD1 => 35 case 0x0A => 36 case 0x16 => 37 case 0x24 => 38 case 0x34 => 39
        case 0xE1 => 40 case 0x25 => 41 case 0xF1 => 42
        case _ => 0
      }
  }

  lemma LumaDcLengths()
    ensures |LUMA_DC_COUNT| == 16
    ensures Total(LUMA_DC_COUNT, 1) == 0 && Total(LUMA_DC_COUNT, 2) == 1 && Total(LUMA_DC_COUNT, 3) == 6 && Total(LUMA_DC_COUNT, 4) == 7
    ensures CodeAfter(LUMA_DC_COUNT, 1) == 0 && CodeAfter(LUMA_DC_COUNT, 2) == 1 && CodeAfter(LUMA_DC_COUNT, 3) == 7 && CodeAfter(LUMA_DC_COUNT, 4) == 15
    ensures Total(LUMA_DC_COUNT, 5) == 8 && Total(LUMA_DC_COUNT, 6) == 9 && Total(LUMA_DC_COUNT, 7) == 10 && Total(LUMA_DC_COUNT, 8) == 11
    ensures CodeAfter(LUMA_DC_COUNT, 5) == 31 && CodeAfter(LUMA_DC_COUNT, 6) == 63 && CodeAfter(LUMA_DC_COUNT, 7) == 127 && CodeAfter(LUMA_DC_COUNT, 8) == 255
    ensures Total(LUMA_DC_COUNT, 9) == 12 && Total(LUMA_DC_COUNT, 10) == 12 && Total(LUMA_DC_COUNT, 11) == 12 && Total(LUMA_DC_COUNT, 12) == 12
    ensures CodeAfter(LUMA_DC_COUNT, 9) == 511 && CodeAfter(LUMA_DC_COUNT, 10) == 1022 && CodeAfter(LUMA_DC_COUNT, 11) == 2044 && CodeAfter(LUMA_DC_COUNT, 12) == 4088
    ensures Total(LUMA_DC_COUNT, 13) == 12 && Total(LUMA_DC_COUNT, 14) == 12 && Total(LUMA_DC_COUNT, 15) == 12 && Total(LUMA_DC_COUNT, 16) == 12
    ensures CodeAfter(LUMA_DC_COUNT, 13) == 8176 && CodeAfter(LUMA_DC_COUNT, 14) == 16352 && CodeAfter(LUMA_DC_COUNT, 15) == 32704 && CodeAfter(LUMA_DC_COUNT, 16) == 65408
  {
  }

  lemma LumaDcPlaced(k: nat)
    requires 0 <= k < 12
    ensures PlacedAt(LUMA_DC_COUNT, LumaDcValues(), LumaDcTable(), k)
  {
    LumaDcLengths();
  }

  lemma LumaAcLengths()
    ensures |LUMA_AC_COUNT| == 16
    ensures Total(LUMA_AC_COUNT, 1) == 0 && Total(LUMA_AC_COUNT, 2) == 2 && Total(LUMA_AC_COUNT, 3) == 3 && Total(LUMA_AC_COUNT, 4) == 6
    ensures CodeAfter(LUMA_AC_COUNT, 1) == 0 && CodeAfter(LUMA_AC_COUNT, 2) == 2 && CodeAfter(LUMA_AC_COUNT, 3) == 5 && CodeAfter(LUMA_AC_COUNT, 4) == 13
    ensures Total(LUMA_AC_COUNT, 5) == 9 && Total(LUMA_AC_COUNT, 6) == 11 && Total(LUMA_AC_COUNT, 7) == 15 && Total(LUMA_AC_COUNT, 8) == 18
    ensures CodeAfter(LUMA_AC_COUNT, 5) == 29 && CodeAfter(LUMA_AC_COUNT, 6) == 60 && CodeAfter(LUMA_AC_COUNT, 7) == 124 && CodeAfter(LUMA_AC_COUNT, 8) == 251
    ensures Total(LUMA_AC_COUNT, 9) == 23 && Total(LUMA_AC_COUNT, 10) == 28 && Total(LUMA_AC_COUNT, 11) == 32 && Total(LUMA_AC_COUNT, 12) == 36
    ensures CodeAfter(LUMA_AC_COUNT, 9) == 507 && CodeAfter(LUMA_AC_COUNT, 10) == 1019 && CodeAfter(LUMA_AC_COUNT, 11) == 2042 && CodeAfter(LUMA_AC_COUNT, 12) == 4088
    ensures Total(LUMA_AC_COUNT, 13) == 36 && Total(LUMA_AC_COUNT, 14) == 36 && Total(LUMA_AC_COUNT, 15) == 37 && Total(LUMA_AC_COUNT, 16) == 162
    ensures CodeAfter(LUMA_AC_COUNT, 13) == 8176 && CodeAfter(LUMA_AC_COUNT, 14) == 16352 && CodeAfter(LUMA_AC_COUNT, 15) == 32705 && CodeAfter(LUMA_AC_COUNT, 16) == 65535
  {
  }

  lemma LumaAcPlaced0(k: nat)
    requires 0 <= k < 11
    ensures PlacedAt(LUMA_AC_COUNT, LumaAcValues(), LumaAcTable(), k)
  {
    LumaAcLengths();
  }

  lemma LumaAcPlaced1(k: nat)
    requires 11 <= k < 23
    ensures PlacedAt(LUMA_AC_COUNT, LumaAcValues(), LumaAcTable(), k)
  {
    LumaAcLengths();
  }

  lemma LumaAcPlaced2(k: nat)
    requires 23 <= k < 32
    ensures PlacedAt(LUMA_AC_COUNT, LumaAcValues(), LumaAcTable(), k)
  {
    LumaAcLengths();
  }

  lemma LumaAcPlaced3(k: nat)
    requires 32 <= k < 36
    ensures PlacedAt(LUMA_AC_COUNT, LumaAcValues(), LumaAcTable(), k)
  {
    LumaAcLengths();
  }

  lemma LumaAcPlaced4(k: nat)
    requires 36 <= k < 37
    ensures PlacedAt(LUMA_AC_COUNT, LumaAcValues(), LumaAcTable(), k)
  {
    LumaAcLengths();
  }

  lemma LumaAcPlaced5(k: nat)
    requires 37 <= k < 80
    ensures PlacedAt(LUMA_AC_COUNT, LumaAcValues(), LumaAcTable(), k)
  {
    LumaAcLengths();
  }

  lemma LumaAcPlaced6(k: nat)
    requires 80 <= k < 121
    ensures PlacedAt(LUMA_AC_COUNT, LumaAcValues(), LumaAcTable(), k)
  {
    LumaAcLengths();
  }

  lemma LumaAcPlaced7(k: nat)
    requires 121 <= k < 162
    ensures PlacedAt(LUMA_AC_COUNT, LumaAcValues(), LumaAcTable(), k)
  {
    LumaAcLengths();
  }

  lemma LumaAcIndexed0(sym: int)
    requires 0 <= sym < 64 && LumaAcCode(sym).len > 0
    ensures 0 <= LumaAcIndex(sym) < 162 && LumaAcValue(LumaAcIndex(sym)) == sym
  {
  }

  lemma LumaAcIndexed1(sym: int)
    requires 64 <= sym < 128 && LumaAcCode(sym).len > 0
    ensures 0 <= LumaAcIndex(sym) < 162 && LumaAcValue(LumaAcIndex(sym)) == sym
  {
  }

  lemma LumaAcIndexed2(sym: int)
    requires 128 <= sym < 192 && LumaAcCode(sym).len > 0
    ensures 0 <= LumaAcIndex(sym) < 162 && LumaAcValue(LumaAcIndex(sym)) == sym
  {
  }

  lemma LumaAcIndexed3(sym: int)
    requires 192 <= sym < 256 && LumaAcCode(sym).len > 0
    ensures 0 <= LumaAcIndex(sym) < 162 && LumaAcValue(LumaAcIndex(sym)) == sym
  {
  }

  lemma LumaAcPlaced(k: nat)
    requires k < 162
    ensures PlacedAt(LUMA_AC_COUNT, LumaAcValues(), LumaAcTable(), k)
  {
    if k < 11 { LumaAcPlaced0(k); }
    else if k < 23 { LumaAcPlaced1(k); }
    else if k < 32 { LumaAcPlaced2(k); }
    else if k < 36 { LumaAcPlaced3(k); }
    else if k < 37 { LumaAcPlaced4(k); }
    else if k < 80 { LumaAcPlaced5(k); }
    else if k < 121 { LumaAcPlaced6(k); }
    else { LumaAcPlaced7(k); }
  }

  lemma LumaAcIndexed(sym: int)
    requires 0 <= sym < 256 && LumaAcCode(sym).len > 0
    ensures 0 <= LumaAcIndex(sym) < 162 && LumaAcValue(LumaAcIndex(sym)) == sym
  {
    if sym < 64 { LumaAcIndexed0(sym); }
    else if sym < 128 { LumaAcIndexed1(sym); }
    else if sym < 192 { LumaAcIndexed2(sym); }
    else { LumaAcIndexed3(sym); }
  }

  lemma LumaAcRuns0(run: int, size: int)
    requires 0 <= run < 4 && 1 <= size <= 10
    ensures LumaAcTable()[16 * run + size].len > 0
  {
  }

  lemma LumaAcRuns1(run: int, size: int)
    requires 4 <= run < 8 && 1 <= size <= 10
    ensures LumaAcTable()[16 * run + size].len > 0
  {
  }

  lemma LumaAcRuns2(run: int, size: int)
    requires 8 <= run < 12 && 1 <= size <= 10
    ensures LumaAcTable()[16 * run + size].len > 0
  {
  }

  lemma LumaAcRuns3(run: int, size: int)
    requires 12 <= run < 16 && 1 <= size <= 10
    ensures LumaAcTable()[16 * run + size].len > 0
  {
  }

  lemma ChromaDcLengths()
    ensures |CHROMA_DC_COUNT| == 16
    ensures Total(CHROMA_DC_COUNT, 1) == 0 && Total(CHROMA_DC_COUNT, 2) == 3 && Total(CHROMA_DC_COUNT, 3) == 4 && Total(CHROMA_DC_COUNT, 4) == 5
    ensures CodeAfter(CHROMA_DC_COUNT, 1) == 0 && CodeAfter(CHROMA_DC_COUNT, 2) == 3 && CodeAfter(CHROMA_DC_COUNT, 3) == 7 && CodeAfter(CHROMA_DC_COUNT, 4) == 15
    ensures Total(CHROMA_DC_COUNT, 5) == 6 && Total(CHROMA_DC_COUNT, 6) == 7 && Total(CHROMA_DC_COUNT, 7) == 8 && Total(CHROMA_DC_COUNT, 8) == 9
    ensures CodeAfter(CHROMA_DC_COUNT, 5) == 31 && CodeAfter(CHROMA_DC_COUNT, 6) == 63 && CodeAfter(CHROMA_DC_COUNT, 7) == 127 && CodeAfter(CHROMA_DC_COUNT, 8) == 255
    ensures Total(CHROMA_DC_COUNT, 9) == 10 && Total(CHROMA_DC_COUNT, 10) == 11 && Total(CHROMA_DC_COUNT, 11) == 12 && Total(CHROMA_DC_COUNT, 12) == 12
    ensures CodeAfter(CHROMA_DC_COUNT, 9) == 511 && CodeAfter(CHROMA_DC_COUNT, 10) == 1023 && CodeAfter(CHROMA_DC_COUNT, 11) == 2047 && CodeAfter(CHROMA_DC_COUNT, 12) == 4094
    ensures Total(CHROMA_DC_COUNT, 13) == 12 && Total(CHROMA_DC_COUNT, 14) == 12 && Total(CHROMA_DC_COUNT, 15) == 12 && Total(CHROMA_DC_COUNT, 16) == 12
    ensures CodeAfter(CHROMA_DC_COUNT, 13) == 8188 && CodeAfter(CHROMA_DC_COUNT, 14) == 16376 && CodeAfter(CHROMA_DC_COUNT, 15) == 32752 && CodeAfter(CHROMA_DC_COUNT, 16) == 65504
  {
  }

  lemma ChromaDcPlaced(k: nat)
    requires 0 <= k < 12
    ensures PlacedAt(CHROMA_DC_COUNT, ChromaDcValues(), ChromaDcTable(), k)
  {
    ChromaDcLengths();
  }

  lemma ChromaAcLengths()
    ensures |CHROMA_AC_COUNT| == 16
    ensures Total(CHROMA_AC_COUNT, 1) == 0 && Total(CHROMA_AC_COUNT, 2) == 2 && Total(CHROMA_AC_COUNT, 3) == 3 && Total(CHROMA_AC_COUNT, 4) == 5
    ensures CodeAfter(CHROMA_AC_COUNT, 1) == 0 && CodeAfter(CHROMA_AC_COUNT, 2) == 2 && CodeAfter(CHROMA_AC_COUNT, 3) == 5 && CodeAfter(CHROMA_AC_COUNT, 4) == 12
    ensures Total(CHROMA_AC_COUNT, 5) == 9 && Total(CHROMA_AC_COUNT, 6) == 13 && Total(CHROMA_AC_COUNT, 7) == 16 && Total(CHROMA_AC_COUNT, 8) == 20
    ensures CodeAfter(CHROMA_AC_COUNT, 5) == 28 && CodeAfter(CHROMA_AC_COUNT, 6) == 60 && CodeAfter(CHROMA_AC_COUNT, 7) == 123 && CodeAfter(CHROMA_AC_COUNT, 8) == 250
    ensures Total(CHROMA_AC_COUNT, 9) == 27 && Total(CHROMA_AC_COUNT, 10) == 32 && Total(CHROMA_AC_COUNT, 11) == 36 && Total(CHROMA_AC_COUNT, 12) == 40
    ensures CodeAfter(CHROMA_AC_COUNT, 9) == 507 && CodeAfter(CHROMA_AC_COUNT, 10) == 1019 && CodeAfter(CHROMA_AC_COUNT, 11) == 2042 && CodeAfter(CHROMA_AC_COUNT, 12) == 4088
    ensures Total(CHROMA_AC_COUNT, 13) == 40 && Total(CHROMA_AC_COUNT, 14) == 41 && Total(CHROMA_AC_COUNT, 15) == 43 && Total(CHROMA_AC_COUNT, 16) == 162
    ensures CodeAfter(CHROMA_AC_COUNT, 13) == 8176 && CodeAfter(CHROMA_AC_COUNT, 14) == 16353 && CodeAfter(CHROMA_AC_COUNT, 15) == 32708 && CodeAfter(CHROMA_AC_COUNT, 16) == 65535
  {
  }

  lemma ChromaAcPlaced0(k: nat)
    requires 0 <= k < 13
    ensures PlacedAt(CHROMA_AC_COUNT, ChromaAcValues(), ChromaAcTable(), k)
  {
    ChromaAcLengths();
  }

  lemma ChromaAcPlaced1(k: nat)
    requires 13 <= k < 27
    ensures PlacedAt(CHROMA_AC_COUNT, ChromaAcValues(), ChromaAcTable(), k)
  {
    ChromaAcLengths();
  }

  lemma ChromaAcPlaced2(k: nat)
    requires 27 <= k < 36
    ensures PlacedAt(CHROMA_AC_COUNT, ChromaAcValues(), ChromaAcTable(), k)
  {
    ChromaAcLengths();
  }

  lemma ChromaAcPlaced3(k: nat)
    requires 36 <= k < 40
    ensures PlacedAt(CHROMA_AC_COUNT, ChromaAcValues(), ChromaAcTable(), k)
  {
    ChromaAcLengths();
  }

  lemma ChromaAcPlaced4(k: nat)
    requires 40 <= k < 43
    ensures PlacedAt(CHROMA_AC_COUNT, ChromaAcValues(), ChromaAcTable(), k)
  {
    ChromaAcLengths();
  }

  lemma ChromaAcPlaced5(k: nat)
    requires 43 <= k < 80
    ensures PlacedAt(CHROMA_AC_COUNT, ChromaAcValues(), ChromaAcTable(), k)
  {
    ChromaAcLengths();
  }

  lemma ChromaAcPlaced6(k: nat)
    requires 80 <= k < 121
    ensures PlacedAt(CHROMA_AC_COUNT, ChromaAcValues(), ChromaAcTable(), k)
  {
    ChromaAcLengths();
  }

  lemma ChromaAcPlaced7(k: nat)
    requires 121 <= k < 162
    ensures PlacedAt(CHROMA_AC_COUNT, ChromaAcValues(), ChromaAcTable(), k)
  {
    ChromaAcLengths();
  }

  lemma ChromaAcIndexed0(sym: int)
    requires 0 <= sym < 64 && ChromaAcCode(sym).len > 0
    ensures 0 <= ChromaAcIndex(sym) < 162 && ChromaAcValue(ChromaAcIndex(sym)) == sym
  {
  }

  lemma ChromaAcIndexed1(sym: int)
    requires 64 <= sym < 128 && ChromaAcCode(sym).len > 0
    ensures 0 <= ChromaAcIndex(sym) < 162 && ChromaAcValue(ChromaAcIndex(sym)) == sym
  {
  }

  lemma ChromaAcIndexed2(sym: int)
    requires 128 <= sym < 192 && ChromaAcCode(sym).len > 0
    ensures 0 <= ChromaAcIndex(sym) < 162 && ChromaAcValue(ChromaAcIndex(sym)) == sym
  {
  }

  lemma ChromaAcIndexed3(sym: int)
    requires 192 <= sym < 256 && ChromaAcCode(sym).len > 0
    ensures 0 <= ChromaAcIndex(sym) < 162 && ChromaAcValue(ChromaAcIndex(sym)) == sym
  {
  }

  lemma ChromaAcPlaced(k: nat)
    requires k < 162
    ensures PlacedAt(CHROMA_AC_COUNT, ChromaAcValues(), ChromaAcTable(), k)
  {
    if k < 13 { ChromaAcPlaced0(k); }
    else if k < 27 { ChromaAcPlaced1(k); }
    else if k < 36 { ChromaAcPlaced2(k); }
    else if k < 40 { ChromaAcPlaced3(k); }
    else if k < 43 { ChromaAcPlaced4(k); }
    else if k < 80 { ChromaAcPlaced5(k); }
    else if k < 121 { ChromaAcPlaced6(k); }
    else { ChromaAcPlaced7(k); }
  }

  lemma ChromaAcIndexed(sym: int)
    requires 0 <= sym < 256 && ChromaAcCode(sym).len > 0
    ensures 0 <= ChromaAcIndex(sym) < 162 && ChromaAcValue(ChromaAcIndex(sym)) == sym
  {
    if sym < 64 { ChromaAcIndexed0(sym); }
    else if sym < 128 { ChromaAcIndexed1(sym); }
    else if sym < 192 { ChromaAcIndexed2(sym); }
    else { ChromaAcIndexed3(sym); }
  }

  lemma ChromaAcRuns0(run: int, size: int)
    requires 0 <= run < 4 && 1 <= size <= 10
    ensures ChromaAcTable()[16 * run + size].len > 0
  {
  }

  lemma ChromaAcRuns1(run: int, size: int)
    requires 4 <= run < 8 && 1 <= size <= 10
    ensures ChromaAcTable()[16 * run + size].len > 0
  {
  }

  lemma ChromaAcRuns2(run: int, size: int)
    requires 8 <= run < 12 && 1 <= size <= 10
    ensures ChromaAcTable()[16 * run + size].len > 0
  {
  }

  lemma ChromaAcRuns3(run: int, size: int)
    requires 12 <= run < 16 && 1 <= size <= 10
    ensures ChromaAcTable()[16 * run + size].len > 0
  {
  }

  /** The encoder's table and what it writes to the file for it. */
  function LumaDcTable(): (ht: seq<Code>)
    ensures |ht| == 12
  {
    seq(12, (sym: nat) => LumaDcCode(sym))
  }

  function LumaDcValues(): (values: seq<int>)
    ensures |values| == 256
  {
    seq(256, (k: nat) => if k < 12 then k else 0)
  }

  lemma {:induction false} LumaDcAccepted()
    ensures Accepted(LUMA_DC_COUNT) && Total(LUMA_DC_COUNT, 16) == 12 && Total(LUMA_DC_COUNT, FAST_BITS) < 256
  {
    LumaDcLengths();
    Pow2Values();
  }

  lemma {:induction false} LumaDcByte(k: nat)
    requires k < 256
    ensures 0 <= LumaDcValues()[k] < 256
  {
  }

  lemma {:induction false} LumaDcListed(sym: nat) returns (k: nat)
    requires sym < 12 && LumaDcTable()[sym].len > 0
    ensures k < 12 && LumaDcValues()[k] == sym
  {
    k := sym;
  }

  lemma {:induction false} LumaDcUnlisted(sym: nat)
    requires sym < 12
    ensures LumaDcTable()[sym].len == 0 ==> LumaDcTable()[sym].bits == 0
  {
  }

  lemma {:induction false} LumaDcGood()
    ensures GoodTable(LUMA_DC_COUNT, LumaDcValues(), LumaDcTable())
  {
    var values, ht := LumaDcValues(), LumaDcTable();
    LumaDcAccepted();
    forall k: nat | k < 256 ensures 0 <= values[k] < 256 {
      LumaDcByte(k);
    }
    forall k: nat | k < 12 ensures PlacedAt(LUMA_DC_COUNT, values, ht, k) {
      LumaDcPlaced(k);
    }
    forall sym: nat | sym < 12 && ht[sym].len > 0 ensures exists k: nat :: k < 12 && values[k] == sym {
      var k := LumaDcListed(sym);
    }
    forall sym: nat | sym < 12 && ht[sym].len == 0 ensures ht[sym].bits == 0 {
      LumaDcUnlisted(sym);
    }
  }

  /** The encoder's table and what it writes to the file for it. */
  function LumaAcTable(): (ht: seq<Code>)
    ensures |ht| == 256
  {
    seq(256, (sym: nat) => LumaAcCode(sym))
  }

  function LumaAcValues(): (values: seq<int>)
    ensures |values| == 256
  {
    seq(256, (k: nat) => LumaAcValue(k))
  }

  lemma {:induction false} LumaAcAccepted()
    ensures Accepted(LUMA_AC_COUNT) && Total(LUMA_AC_COUNT, 16) == 162 && Total(LUMA_AC_COUNT, FAST_BITS) < 256
  {
    LumaAcLengths();
    Pow2Values();
  }

  lemma {:induction false} LumaAcByte(k: nat)
    requires k < 256
    ensures 0 <= LumaAcValues()[k] < 256
  {
  }

  lemma {:induction false} LumaAcListed(sym: nat) returns (k: nat)
    requires sym < 256 && LumaAcTable()[sym].len > 0
    ensures k < 162 && LumaAcValues()[k] == sym
  {
    LumaAcIndexed(sym);
    k := LumaAcIndex(sym);
  }

  lemma {:induction false} LumaAcUnlisted(sym: nat)
    requires sym < 256
    ensures LumaAcTable()[sym].len == 0 ==> LumaAcTable()[sym].bits == 0
  {
  }

  lemma {:induction false} LumaAcGood()
    ensures GoodTable(LUMA_AC_COUNT, LumaAcValues(), LumaAcTable())
  {
    var values, ht := LumaAcValues(), LumaAcTable();
    LumaAcAccepted();
    forall k: nat | k < 256 ensures 0 <= values[k] < 256 {
      LumaAcByte(k);
    }
    forall k: nat | k < 162 ensures PlacedAt(LUMA_AC_COUNT, values, ht, k) {
      LumaAcPlaced(k);
    }
    forall sym: nat | sym < 256 && ht[sym].len > 0 ensures exists k: nat :: k < 162 && values[k] == sym {
      var k := LumaAcListed(sym);
    }
    forall sym: nat | sym < 256 && ht[sym].len == 0 ensures ht[sym].bits == 0 {
      LumaAcUnlisted(sym);
    }
  }

  /** The encoder's table and what it writes to the file for it. */
  function ChromaDcTable(): (ht: seq<Code>)
    ensures |ht| == 12
  {
    seq(12, (sym: nat) => ChromaDcCode(sym))
  }

  function ChromaDcValues(): (values: seq<int>)
    ensures |values| == 256
  {
    seq(256, (k: nat) => if k < 12 then k else 0)
  }

  lemma {:induction false} ChromaDcAccepted()
    ensures Accepted(CHROMA_DC_COUNT) && Total(CHROMA_DC_COUNT, 16) == 12 && Total(CHROMA_DC_COUNT, FAST_BITS) < 256
  {
    ChromaDcLengths();
    Pow2Values();
  }

  lemma {:induction false} ChromaDcByte(k: nat)
    requires k < 256
    ensures 0 <= ChromaDcValues()[k] < 256
  {
  }

  lemma {:induction false} ChromaDcListed(sym: nat) returns (k: nat)
    requires sym < 12 && ChromaDcTable()[sym].len > 0
    ensures k < 12 && ChromaDcValues()[k] == sym
  {
    k := sym;
  }

  lemma {:induction false} ChromaDcUnlisted(sym: nat)
    requires sym < 12
    ensures ChromaDcTable()[sym].len == 0 ==> ChromaDcTable()[sym].bits == 0
  {
  }

  lemma {:induction false} ChromaDcGood()
    ensures GoodTable(CHROMA_DC_COUNT, ChromaDcValues(), ChromaDcTable())
  {
    var values, ht := ChromaDcValues(), ChromaDcTable();
    ChromaDcAccepted();
    forall k: nat | k < 256 ensures 0 <= values[k] < 256 {
      ChromaDcByte(k);
    }
    forall k: nat | k < 12 ensures PlacedAt(CHROMA_DC_COUNT, values, ht, k) {
      ChromaDcPlaced(k);
    }
    forall sym: nat | sym < 12 && ht[sym].len > 0 ensures exists k: nat :: k < 12 && values[k] == sym {
      var k := ChromaDcListed(sym);
    }
    forall sym: nat | sym < 12 && ht[sym].len == 0 ensures ht[sym].bits == 0 {
      ChromaDcUnlisted(sym);
    }
  }

  /** The encoder's table and what it writes to the file for it. */
  function ChromaAcTable(): (ht: seq<Code>)
    ensures |ht| == 256
  {
    seq(256, (sym: nat) => ChromaAcCode(sym))
  }

  function ChromaAcValues(): (values: seq<int>)
    ensures |values| == 256
  {
    seq(256, (k: nat) => ChromaAcValue(k))
  }

  lemma {:induction false} ChromaAcAccepted()
    ensures Accepted(CHROMA_AC_COUNT) && Total(CHROMA_AC_COUNT, 16) == 162 && Total(CHROMA_AC_COUNT, FAST_BITS) < 256
  {
    ChromaAcLengths();
    Pow2Values();
  }

  lemma {:induction false} ChromaAcByte(k: nat)
    requires k < 256
    ensures 0 <= ChromaAcValues()[k] < 256
  {
  }

  lemma {:induction false} ChromaAcListed(sym: nat) returns (k: nat)
    requires sym < 256 && ChromaAcTable()[sym].len > 0
    ensures k < 162 && ChromaAcValues()[k] == sym
  {
    ChromaAcIndexed(sym);
    k := ChromaAcIndex(sym);
  }

  lemma {:induction false} ChromaAcUnlisted(sym: nat)
    requires sym < 256
    ensures ChromaAcTable()[sym].len == 0 ==> ChromaAcTable()[sym].bits == 0
  {
  }

  lemma {:induction false} ChromaAcGood()
    ensures GoodTable(CHROMA_AC_COUNT, ChromaAcValues(), ChromaAcTable())
  {
    var values, ht := ChromaAcValues(), ChromaAcTable();
    ChromaAcAccepted();
    forall k: nat | k < 256 ensures 0 <= values[k] < 256 {
      ChromaAcByte(k);
    }
    forall k: nat | k < 162 ensures PlacedAt(CHROMA_AC_COUNT, values, ht, k) {
      ChromaAcPlaced(k);
    }
    forall sym: nat | sym < 256 && ht[sym].len > 0 ensures exists k: nat :: k < 162 && values[k] == sym {
      var k := ChromaAcListed(sym);
    }
    forall sym: nat | sym < 256 && ht[sym].len == 0 ensures ht[sym].bits == 0 {
      ChromaAcUnlisted(sym);
    }
  }

  lemma {:induction false} LumaDcCovers()
    ensures CoversDc(BookOf(LumaDcTable()))
  {
    var book := BookOf(LumaDcTable());
    forall s | 0 <= s <= 11 ensures WordOf(book, s) != [] {
      LumaDcCovered(s);
    }
  }

  lemma {:induction false} LumaDcCovered(s: int)
    requires 0 <= s <= 11
    ensures WordOf(BookOf(LumaDcTable()), s) != []
  {
    assert LumaDcTable()[s].len > 0;
  }

  lemma {:induction false} LumaAcCovered(run: int, size: int)
    requires 0 <= run <= 15 && 1 <= size <= 10
    ensures CoversRun(BookOf(LumaAcTable()), run, size)
  {
    if run < 4 { LumaAcRuns0(run, size); }
    else if run < 8 { LumaAcRuns1(run, size); }
    else if run < 12 { LumaAcRuns2(run, size); }
    else { LumaAcRuns3(run, size); }
  }

  lemma {:induction false} LumaAcCovers()
    ensures CoversAc(BookOf(LumaAcTable()))
  {
    var book := BookOf(LumaAcTable());
    assert LumaAcTable()[0x00].len > 0 && LumaAcTable()[0xF0].len > 0;
    forall run, size | 0 <= run <= 15 && 1 <= size <= 10 ensures CoversRun(book, run, size) {
      LumaAcCovered(run, size);
    }
  }

  lemma {:induction false} ChromaDcCovers()
    ensures CoversDc(BookOf(ChromaDcTable()))
  {
    var book := BookOf(ChromaDcTable());
    forall s | 0 <= s <= 11 ensures WordOf(book, s) != [] {
      ChromaDcCovered(s);
    }
  }

  lemma {:induction false} ChromaDcCovered(s: int)
    requires 0 <= s <= 11
    ensures WordOf(BookOf(ChromaDcTable()), s) != []
  {
    assert ChromaDcTable()[s].len > 0;
  }

  lemma {:induction false} ChromaAcCovered(run: int, size: int)
    requires 0 <= run <= 15 && 1 <= size <= 10
    ensures CoversRun(BookOf(ChromaAcTable()), run, size)
  {
    if run < 4 { ChromaAcRuns0(run, size); }
    else if run < 8 { ChromaAcRuns1(run, size); }
    else if run < 12 { ChromaAcRuns2(run, size); }
    else { ChromaAcRuns3(run, size); }
  }

  lemma {:induction false} ChromaAcCovers()
    ensures CoversAc(BookOf(ChromaAcTable()))
  {
    var book := BookOf(ChromaAcTable());
    assert ChromaAcTable()[0x00].len > 0 && ChromaAcTable()[0xF0].len > 0;
    forall run, size | 0 <= run <= 15 && 1 <= size <= 10 ensures CoversRun(book, run, size) {
      ChromaAcCovered(run, size);
    }
  }
}
