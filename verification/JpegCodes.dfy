/** The AC codes that the JPEG writer carries, and the symbols of its listings, number by number. */
module JpegCodes {

  /** Code and length of an AC symbol, luminance and chrominance. */
  function LumaAcEntry(s: nat): (nat, nat)
  {
    match s / 16
    case 0 =>
      (match s % 16
       case 0 => (10, 4) case 1 => (0, 2) case 2 => (1, 2) case 3 => (4, 3) case 4 => (11, 4) case 5 => (26, 5)
       case 6 => (120, 7) case 7 => (248, 8) case 8 => (1014, 10) case 9 => (65410, 16) case 10 => (65411, 16)
       case _ => (0, 0))
    case 1 =>
      (match s % 16
       case 1 => (12, 4) case 2 => (27, 5) case 3 => (121, 7) case 4 => (502, 9) case 5 => (2038, 11)
       case 6 => (65412, 16) case 7 => (65413, 16) case 8 => (65414, 16) case 9 => (65415, 16) case 10 => (65416, 16)
       case _ => (0, 0))
    case 2 =>
      (match s % 16
       case 1 => (28, 5) case 2 => (249, 8) case 3 => (1015, 10) case 4 => (4084, 12) case 5 => (65417, 16)
       case 6 => (65418, 16) case 7 => (65419, 16) case 8 => (65420, 16) case 9 => (65421, 16) case 10 => (65422, 16)
       case _ => (0, 0))
    case 3 =>
      (match s % 16
       case 1 => (58, 6) case 2 => (503, 9) case 3 => (4085, 12) case 4 => (65423, 16) case 5 => (65424, 16)
       case 6 => (65425, 16) case 7 => (65426, 16) case 8 => (65427, 16) case 9 => (65428, 16) case 10 => (65429, 16)
       case _ => (0, 0))
    case 4 =>
      (match s % 16
       case 1 => (59, 6) case 2 => (1016, 10) case 3 => (65430, 16) case 4 => (65431, 16) case 5 => (65432, 16)
       case 6 => (65433, 16) case 7 => (65434, 16) case 8 => (65435, 16) case 9 => (65436, 16) case 10 => (65437, 16)
       case _ => (0, 0))
    case 5 =>
      (match s % 16
       case 1 => (122, 7) case 2 => (2039, 11) case 3 => (65438, 16) case 4 => (65439, 16) case 5 => (65440, 16)
       case 6 => (65441, 16) case 7 => (65442, 16) case 8 => (65443, 16) case 9 => (65444, 16) case 10 => (65445, 16)
       case _ => (0, 0))
    case 6 =>
      (match s % 16
       case 1 => (123, 7) case 2 => (4086, 12) case 3 => (65446, 16) case 4 => (65447, 16) case 5 => (65448, 16)
       case 6 => (65449, 16) case 7 => (65450, 16) case 8 => (65451, 16) case 9 => (65452, 16) case 10 => (65453, 16)
       case _ => (0, 0))
    case 7 =>
      (match s % 16
       case 1 => (250, 8) case 2 => (4087, 12) case 3 => (65454, 16) case 4 => (65455, 16) case 5 => (65456, 16)
       case 6 => (65457, 16) case 7 => (65458, 16) case 8 => (65459, 16) case 9 => (65460, 16) case 10 => (65461, 16)
       case _ => (0, 0))
    case 8 =>
      (match s % 16
       case 1 => (504, 9) case 2 => (32704, 15) case 3 => (65462, 16) case 4 => (65463, 16) case 5 => (65464, 16)
       case 6 => (65465, 16) case 7 => (65466, 16) case 8 => (65467, 16) case 9 => (65468, 16) case 10 => (65469, 16)
       case _ => (0, 0))
    case 9 =>
      (match s % 16
       case 1 => (505, 9) case 2 => (65470, 16) case 3 => (65471, 16) case 4 => (65472, 16) case 5 => (65473, 16)
       case 6 => (65474, 16) case 7 => (65475, 16) case 8 => (65476, 16) case 9 => (65477, 16) case 10 => (65478, 16)
       case _ => (0, 0))
    case 10 =>
      (match s % 16
       case 1 => (506, 9) case 2 => (65479, 16) case 3 => (65480, 16) case 4 => (65481, 16) case 5 => (65482, 16)
       case 6 => (65483, 16) case 7 => (65484, 16) case 8 => (65485, 16) case 9 => (65486, 16) case 10 => (65487, 16)
       case _ => (0, 0))
    case 11 =>
      (match s % 16
       case 1 => (1017, 10) case 2 => (65488, 16) case 3 => (65489, 16) case 4 => (65490, 16) case 5 => (65491, 16)
       case 6 => (65492, 16) case 7 => (65493, 16) case 8 => (65494, 16) case 9 => (65495, 16) case 10 => (65496, 16)
       case _ => (0, 0))
    case 12 =>
      (match s % 16
       case 1 => (1018, 10) case 2 => (65497, 16) case 3 => (65498, 16) case 4 => (65499, 16) case 5 => (65500, 16)
       case 6 => (65501, 16) case 7 => (65502, 16) case 8 => (65503, 16) case 9 => (65504, 16) case 10 => (65505, 16)
       case _ => (0, 0))
    case 13 =>
      (match s % 16
       case 1 => (2040, 11) case 2 => (65506, 16) case 3 => (65507, 16) case 4 => (65508, 16) case 5 => (65509, 16)
       case 6 => (65510, 16) case 7 => (65511, 16) case 8 => (65512, 16) case 9 => (65513, 16) case 10 => (65514, 16)
       case _ => (0, 0))
    case 14 =>
      (match s % 16
       case 1 => (65515, 16) case 2 => (65516, 16) case 3 => (65517, 16) case 4 => (65518, 16) case 5 => (65519, 16)
       case 6 => (65520, 16) case 7 => (65521, 16) case 8 => (65522, 16) case 9 => (65523, 16) case 10 => (65524, 16)
       case _ => (0, 0))
    case 15 =>
      (match s % 16
       case 0 => (2041, 11) case 1 => (65525, 16) case 2 => (65526, 16) case 3 => (65527, 16) case 4 => (65528, 16)
       case 5 => (65529, 16) case 6 => (65530, 16) case 7 => (65531, 16) case 8 => (65532, 16) case 9 => (65533, 16)
       case 10 => (65534, 16) case _ => (0, 0))
    case _ => (0, 0)
  }

  function ChromaAcEntry(s: nat): (nat, nat)
  {
    match s / 16
    case 0 =>
      (match s % 16
       case 0 => (0, 2) case 1 => (1, 2) case 2 => (4, 3) case 3 => (10, 4) case 4 => (24, 5) case 5 => (25, 5)
       case 6 => (56, 6) case 7 => (120, 7) case 8 => (500, 9) case 9 => (1014, 10) case 10 => (4084, 12)
       case _ => (0, 0))
    case 1 =>
      (match s % 16
       case 1 => (11, 4) case 2 => (57, 6) case 3 => (246, 8) case 4 => (501, 9) case 5 => (2038, 11)
       case 6 => (4085, 12) case 7 => (65416, 16) case 8 => (65417, 16) case 9 => (65418, 16) case 10 => (65419, 16)
       case _ => (0, 0))
    case 2 =>
      (match s % 16
       case 1 => (26, 5) case 2 => (247, 8) case 3 => (1015, 10) case 4 => (4086, 12) case 5 => (32706, 15)
       case 6 => (65420, 16) case 7 => (65421, 16) case 8 => (65422, 16) case 9 => (65423, 16) case 10 => (65424, 16)
       case _ => (0, 0))
    case 3 =>
      (match s % 16
       case 1 => (27, 5) case 2 => (248, 8) case 3 => (1016, 10) case 4 => (4087, 12) case 5 => (65425, 16)
       case 6 => (65426, 16) case 7 => (65427, 16) case 8 => (65428, 16) case 9 => (65429, 16) case 10 => (65430, 16)
       case _ => (0, 0))
    case 4 =>
      (match s % 16
       case 1 => (58, 6) case 2 => (502, 9) case 3 => (65431, 16) case 4 => (65432, 16) case 5 => (65433, 16)
       case 6 => (65434, 16) case 7 => (65435, 16) case 8 => (65436, 16) case 9 => (65437, 16) case 10 => (65438, 16)
       case _ => (0, 0))
    case 5 =>
      (match s % 16
       case 1 => (59, 6) case 2 => (1017, 10) case 3 => (65439, 16) case 4 => (65440, 16) case 5 => (65441, 16)
       case 6 => (65442, 16) case 7 => (65443, 16) case 8 => (65444, 16) case 9 => (65445, 16) case 10 => (65446, 16)
       case _ => (0, 0))
    case 6 =>
      (match s % 16
       case 1 => (121, 7) case 2 => (2039, 11) case 3 => (65447, 16) case 4 => (65448, 16) case 5 => (65449, 16)
       case 6 => (65450, 16) case 7 => (65451, 16) case 8 => (65452, 16) case 9 => (65453, 16) case 10 => (65454, 16)
       case _ => (0, 0))
    case 7 =>
      (match s % 16
       case 1 => (122, 7) case 2 => (2040, 11) case 3 => (65455, 16) case 4 => (65456, 16) case 5 => (65457, 16)
       case 6 => (65458, 16) case 7 => (65459, 16) case 8 => (65460, 16) case 9 => (65461, 16) case 10 => (65462, 16)
       case _ => (0, 0))
    case 8 =>
      (match s % 16
       case 1 => (249, 8) case 2 => (65463, 16) case 3 => (65464, 16) case 4 => (65465, 16) case 5 => (65466, 16)
       case 6 => (65467, 16) case 7 => (65468, 16) case 8 => (65469, 16) case 9 => (65470, 16) case 10 => (65471, 16)
       case _ => (0, 0))
    case 9 =>
      (match s % 16
       case 1 => (503, 9) case 2 => (65472, 16) case 3 => (65473, 16) case 4 => (65474, 16) case 5 => (65475, 16)
       case 6 => (65476, 16) case 7 => (65477, 16) case 8 => (65478, 16) case 9 => (65479, 16) case 10 => (65480, 16)
       case _ => (0, 0))
    case 10 =>
      (match s % 16
       case 1 => (504, 9) case 2 => (65481, 16) case 3 => (65482, 16) case 4 => (65483, 16) case 5 => (65484, 16)
       case 6 => (65485, 16) case 7 => (65486, 16) case 8 => (65487, 16) case 9 => (65488, 16) case 10 => (65489, 16)
       case _ => (0, 0))
    case 11 =>
      (match s % 16
       case 1 => (505, 9) case 2 => (65490, 16) case 3 => (65491, 16) case 4 => (65492, 16) case 5 => (65493, 16)
       case 6 => (65494, 16) case 7 => (65495, 16) case 8 => (65496, 16) case 9 => (65497, 16) case 10 => (65498, 16)
       case _ => (0, 0))
    case 12 =>
      (match s % 16
       case 1 => (506, 9) case 2 => (65499, 16) case 3 => (65500, 16) case 4 => (65501, 16) case 5 => (65502, 16)
       case 6 => (65503, 16) case 7 => (65504, 16) case 8 => (65505, 16) case 9 => (65506, 16) case 10 => (65507, 16)
       case _ => (0, 0))
    case 13 =>
      (match s % 16
       case 1 => (2041, 11) case 2 => (65508, 16) case 3 => (65509, 16) case 4 => (65510, 16) case 5 => (65511, 16)
       case 6 => (65512, 16) case 7 => (65513, 16) case 8 => (65514, 16) case 9 => (65515, 16) case 10 => (65516, 16)
       case _ => (0, 0))
    case 14 =>
      (match s % 16
       case 1 => (16352, 14) case 2 => (65517, 16) case 3 => (65518, 16) case 4 => (65519, 16) case 5 => (65520, 16)
       case 6 => (65521, 16) case 7 => (65522, 16) case 8 => (65523, 16) case 9 => (65524, 16) case 10 => (65525, 16)
       case _ => (0, 0))
    case 15 =>
      (match s % 16
       case 0 => (1018, 10) case 1 => (32707, 15) case 2 => (65526, 16) case 3 => (65527, 16) case 4 => (65528, 16)
       case 5 => (65529, 16) case 6 => (65530, 16) case 7 => (65531, 16) case 8 => (65532, 16) case 9 => (65533, 16)
       case 10 => (65534, 16) case _ => (0, 0))
    case _ => (0, 0)
  }

  /** The symbol listed at place `k`. */
  function LumaAcValue(k: nat): nat
  {
    match k / 16
    case 0 =>
      (match k % 16
       case 0 => 0x01 case 1 => 0x02 case 2 => 0x03 case 3 => 0x00 case 4 => 0x04 case 5 => 0x11 case 6 => 0x05
       case 7 => 0x12 case 8 => 0x21 case 9 => 0x31 case 10 => 0x41 case 11 => 0x06 case 12 => 0x13 case 13 => 0x51
       case 14 => 0x61 case 15 => 0x07 case _ => 0)
    case 1 =>
      (match k % 16
       case 0 => 0x22 case 1 => 0x71 case 2 => 0x14 case 3 => 0x32 case 4 => 0x81 case 5 => 0x91 case 6 => 0xA1
       case 7 => 0x08 case 8 => 0x23 case 9 => 0x42 case 10 => 0xB1 case 11 => 0xC1 case 12 => 0x15 case 13 => 0x52
       case 14 => 0xD1 case 15 => 0xF0 case _ => 0)
    case 2 =>
      (match k % 16
       case 0 => 0x24 case 1 => 0x33 case 2 => 0x62 case 3 => 0x72 case 4 => 0x82 case 5 => 0x09 case 6 => 0x0A
       case 7 => 0x16 case 8 => 0x17 case 9 => 0x18 case 10 => 0x19 case 11 => 0x1A case 12 => 0x25 case 13 => 0x26
       case 14 => 0x27 case 15 => 0x28 case _ => 0)
    case 3 =>
      (match k % 16
       case 0 => 0x29 case 1 => 0x2A case 2 => 0x34 case 3 => 0x35 case 4 => 0x36 case 5 => 0x37 case 6 => 0x38
       case 7 => 0x39 case 8 => 0x3A case 9 => 0x43 case 10 => 0x44 case 11 => 0x45 case 12 => 0x46 case 13 => 0x47
       case 14 => 0x48 case 15 => 0x49 case _ => 0)
    case 4 =>
      (match k % 16
       case 0 => 0x4A case 1 => 0x53 case 2 => 0x54 case 3 => 0x55 case 4 => 0x56 case 5 => 0x57 case 6 => 0x58
       case 7 => 0x59 case 8 => 0x5A case 9 => 0x63 case 10 => 0x64 case 11 => 0x65 case 12 => 0x66 case 13 => 0x67
       case 14 => 0x68 case 15 => 0x69 case _ => 0)
    case 5 =>
      (match k % 16
       case 0 => 0x6A case 1 => 0x73 case 2 => 0x74 case 3 => 0x75 case 4 => 0x76 case 5 => 0x77 case 6 => 0x78
       case 7 => 0x79 case 8 => 0x7A case 9 => 0x83 case 10 => 0x84 case 11 => 0x85 case 12 => 0x86 case 13 => 0x87
       case 14 => 0x88 case 15 => 0x89 case _ => 0)
    case 6 =>
      (match k % 16
       case 0 => 0x8A case 1 => 0x92 case 2 => 0x93 case 3 => 0x94 case 4 => 0x95 case 5 => 0x96 case 6 => 0x97
       case 7 => 0x98 case 8 => 0x99 case 9 => 0x9A case 10 => 0xA2 case 11 => 0xA3 case 12 => 0xA4 case 13 => 0xA5
       case 14 => 0xA6 case 15 => 0xA7 case _ => 0)
    case 7 =>
      (match k % 16
       case 0 => 0xA8 case 1 => 0xA9 case 2 => 0xAA case 3 => 0xB2 case 4 => 0xB3 case 5 => 0xB4 case 6 => 0xB5
       case 7 => 0xB6 case 8 => 0xB7 case 9 => 0xB8 case 10 => 0xB9 case 11 => 0xBA case 12 => 0xC2 case 13 => 0xC3
       case 14 => 0xC4 case 15 => 0xC5 case _ => 0)
    case 8 =>
      (match k % 16
       case 0 => 0xC6 case 1 => 0xC7 case 2 => 0xC8 case 3 => 0xC9 case 4 => 0xCA case 5 => 0xD2 case 6 => 0xD3
       case 7 => 0xD4 case 8 => 0xD5 case 9 => 0xD6 case 10 => 0xD7 case 11 => 0xD8 case 12 => 0xD9 case 13 => 0xDA
       case 14 => 0xE1 case 15 => 0xE2 case _ => 0)
    case 9 =>
      (match k % 16
       case 0 => 0xE3 case 1 => 0xE4 case 2 => 0xE5 case 3 => 0xE6 case 4 => 0xE7 case 5 => 0xE8 case 6 => 0xE9
       case 7 => 0xEA case 8 => 0xF1 case 9 => 0xF2 case 10 => 0xF3 case 11 => 0xF4 case 12 => 0xF5 case 13 => 0xF6
       case 14 => 0xF7 case 15 => 0xF8 case _ => 0)
    case 10 =>
      (match k % 16
       case 0 => 0xF9 case 1 => 0xFA case _ => 0)
    case _ => 0
  }

  function ChromaAcValue(k: nat): nat
  {
    match k / 16
    case 0 =>
      (match k % 16
       case 0 => 0x00 case 1 => 0x01 case 2 => 0x02 case 3 => 0x03 case 4 => 0x11 case 5 => 0x04 case 6 => 0x05
       case 7 => 0x21 case 8 => 0x31 case 9 => 0x06 case 10 => 0x12 case 11 => 0x41 case 12 => 0x51 case 13 => 0x07
       case 14 => 0x61 case 15 => 0x71 case _ => 0)
    case 1 =>
      (match k % 16
       case 0 => 0x13 case 1 => 0x22 case 2 => 0x32 case 3 => 0x81 case 4 => 0x08 case 5 => 0x14 case 6 => 0x42
       case 7 => 0x91 case 8 => 0xA1 case 9 => 0xB1 case 10 => 0xC1 case 11 => 0x09 case 12 => 0x23 case 13 => 0x33
       case 14 => 0x52 case 15 => 0xF0 case _ => 0)
    case 2 =>
      (match k % 16
       case 0 => 0x15 case 1 => 0x62 case 2 => 0x72 case 3 => 0xD1 case 4 => 0x0A case 5 => 0x16 case 6 => 0x24
       case 7 => 0x34 case 8 => 0xE1 case 9 => 0x25 case 10 => 0xF1 case 11 => 0x17 case 12 => 0x18 case 13 => 0x19
       case 14 => 0x1A case 15 => 0x26 case _ => 0)
    case 3 =>
      (match k % 16
       case 0 => 0x27 case 1 => 0x28 case 2 => 0x29 case 3 => 0x2A case 4 => 0x35 case 5 => 0x36 case 6 => 0x37
       case 7 => 0x38 case 8 => 0x39 case 9 => 0x3A case 10 => 0x43 case 11 => 0x44 case 12 => 0x45 case 13 => 0x46
       case 14 => 0x47 case 15 => 0x48 case _ => 0)
    case 4 =>
      (match k % 16
       case 0 => 0x49 case 1 => 0x4A case 2 => 0x53 case 3 => 0x54 case 4 => 0x55 case 5 => 0x56 case 6 => 0x57
       case 7 => 0x58 case 8 => 0x59 case 9 => 0x5A case 10 => 0x63 case 11 => 0x64 case 12 => 0x65 case 13 => 0x66
       case 14 => 0x67 case 15 => 0x68 case _ => 0)
    case 5 =>
      (match k % 16
       case 0 => 0x69 case 1 => 0x6A case 2 => 0x73 case 3 => 0x74 case 4 => 0x75 case 5 => 0x76 case 6 => 0x77
       case 7 => 0x78 case 8 => 0x79 case 9 => 0x7A case 10 => 0x82 case 11 => 0x83 case 12 => 0x84 case 13 => 0x85
       case 14 => 0x86 case 15 => 0x87 case _ => 0)
    case 6 =>
      (match k % 16
       case 0 => 0x88 case 1 => 0x89 case 2 => 0x8A case 3 => 0x92 case 4 => 0x93 case 5 => 0x94 case 6 => 0x95
       case 7 => 0x96 case 8 => 0x97 case 9 => 0x98 case 10 => 0x99 case 11 => 0x9A case 12 => 0xA2 case 13 => 0xA3
       case 14 => 0xA4 case 15 => 0xA5 case _ => 0)
    case 7 =>
      (match k % 16
       case 0 => 0xA6 case 1 => 0xA7 case 2 => 0xA8 case 3 => 0xA9 case 4 => 0xAA case 5 => 0xB2 case 6 => 0xB3
       case 7 => 0xB4 case 8 => 0xB5 case 9 => 0xB6 case 10 => 0xB7 case 11 => 0xB8 case 12 => 0xB9 case 13 => 0xBA
       case 14 => 0xC2 case 15 => 0xC3 case _ => 0)
    case 8 =>
      (match k % 16
       case 0 => 0xC4 case 1 => 0xC5 case 2 => 0xC6 case 3 => 0xC7 case 4 => 0xC8 case 5 => 0xC9 case 6 => 0xCA
       case 7 => 0xD2 case 8 => 0xD3 case 9 => 0xD4 case 10 => 0xD5 case 11 => 0xD6 case 12 => 0xD7 case 13 => 0xD8
       case 14 => 0xD9 case 15 => 0xDA case _ => 0)
    case 9 =>
      (match k % 16
       case 0 => 0xE2 case 1 => 0xE3 case 2 => 0xE4 case 3 => 0xE5 case 4 => 0xE6 case 5 => 0xE7 case 6 => 0xE8
       case 7 => 0xE9 case 8 => 0xEA case 9 => 0xF2 case 10 => 0xF3 case 11 => 0xF4 case 12 => 0xF5 case 13 => 0xF6
       case 14 => 0xF7 case 15 => 0xF8 case _ => 0)
    case 10 =>
      (match k % 16
       case 0 => 0xF9 case 1 => 0xFA case _ => 0)
    case _ => 0
  }

  /** The code at place `k`: those of one length are consecutive. */
  function LumaAcCode(k: nat): (nat, nat)
  {
    if k < 2 then (k, 2) else if k < 3 then (k + 2, 3) else if k < 6 then (k + 7, 4) else
    if k < 9 then (k + 20, 5) else if k < 11 then (k + 49, 6) else if k < 15 then (k + 109, 7) else
    if k < 18 then (k + 233, 8) else if k < 23 then (k + 484, 9) else if k < 28 then (k + 991, 10) else
    if k < 32 then (k + 2010, 11) else if k < 36 then (k + 4052, 12) else if k < 37 then (k + 32668, 15) else
    if k < 162 then (k + 65373, 16) else (0, 0)
  }

  function ChromaAcCode(k: nat): (nat, nat)
  {
    if k < 2 then (k, 2) else if k < 3 then (k + 2, 3) else if k < 5 then (k + 7, 4) else
    if k < 9 then (k + 19, 5) else if k < 13 then (k + 47, 6) else if k < 16 then (k + 107, 7) else
    if k < 20 then (k + 230, 8) else if k < 27 then (k + 480, 9) else if k < 32 then (k + 987, 10) else
    if k < 36 then (k + 2006, 11) else if k < 40 then (k + 4048, 12) else if k < 41 then (k + 16312, 14) else
    if k < 43 then (k + 32665, 15) else if k < 162 then (k + 65373, 16) else (0, 0)
  }

  lemma LumaAcListed(k: nat)
    requires k < 162
    ensures LumaAcEntry(LumaAcValue(k)) == LumaAcCode(k)
  {
    if k < 80 { LumaAcFirstHalf(k); } else { LumaAcLastHalf(k); }
  }

  lemma LumaAcFirstHalf(k: nat)
    requires k < 80
    ensures LumaAcEntry(LumaAcValue(k)) == LumaAcCode(k)
  {
  }

  lemma LumaAcLastHalf(k: nat)
    requires 80 <= k < 162
    ensures LumaAcEntry(LumaAcValue(k)) == LumaAcCode(k)
  {
  }

  lemma LumaAcUsed(s: nat)
    requires LumaAcEntry(s) != (0, 0)
    ensures s < 256 && (s == 0x00 || s == 0xF0 || 1 <= s % 16 <= 10)
  {
  }

  lemma ChromaAcListed(k: nat)
    requires k < 162
    ensures ChromaAcEntry(ChromaAcValue(k)) == ChromaAcCode(k)
  {
    if k < 80 { ChromaAcFirstHalf(k); } else { ChromaAcLastHalf(k); }
  }

  lemma ChromaAcFirstHalf(k: nat)
    requires k < 80
    ensures ChromaAcEntry(ChromaAcValue(k)) == ChromaAcCode(k)
  {
  }

  lemma ChromaAcLastHalf(k: nat)
    requires 80 <= k < 162
    ensures ChromaAcEntry(ChromaAcValue(k)) == ChromaAcCode(k)
  {
  }

  lemma ChromaAcUsed(s: nat)
    requires ChromaAcEntry(s) != (0, 0)
    ensures s < 256 && (s == 0x00 || s == 0xF0 || 1 <= s % 16 <= 10)
  {
  }
}
