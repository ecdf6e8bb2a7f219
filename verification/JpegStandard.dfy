/** The constant tables of `stbi_write_jpg_core`: the codes it writes with are the canonical codes
    of the segments it sends, so what it writes is read back without any condition on tables. */
module JpegStandard {
  import opened Words
  import opened Huffman
  import opened JpegHuffman
  import opened JpegTable
  import opened JpegCounts
  import opened JpegBlock
  import opened JpegDecode
  import opened JpegEncode
  import opened JpegRoundTrip
  import opened JpegScan

  datatype Kind = YDc | YAc | UvDc | UvAc

  // ----- the constants

  /** The sixteen counts of the segment. */
  function Counts(kind: Kind): (r: seq<nat>)
    ensures |r| == 16
  {
    match kind
    case YDc => [0, 1, 5, 1, 1, 1, 1, 1, 1, 0, 0, 0, 0, 0, 0, 0]
    case YAc => [0, 2, 1, 3, 3, 2, 4, 3, 5, 5, 4, 4, 0, 0, 1, 125]
    case UvDc => [0, 3, 1, 1, 1, 1, 1, 1, 1, 1, 1, 0, 0, 0, 0, 0]
    case UvAc => [0, 2, 1, 2, 4, 4, 3, 4, 7, 5, 4, 4, 0, 1, 2, 119]
  }

  /** `YDC_HT`. */
  function YDcEntry(s: nat): (nat, nat)
  {
    match s
    case 0 => (0, 2) case 1 => (2, 3) case 2 => (3, 3) case 3 => (4, 3) case 4 => (5, 3) case 5 => (6, 3)
    case 6 => (14, 4) case 7 => (30, 5) case 8 => (62, 6) case 9 => (126, 7) case 10 => (254, 8)
    case 11 => (510, 9) case _ => (0, 0)
  }

  /** `UVDC_HT`. */
  function UvDcEntry(s: nat): (nat, nat)
  {
    match s
    case 0 => (0, 2) case 1 => (1, 2) case 2 => (2, 2) case 3 => (6, 3) case 4 => (14, 4) case 5 => (30, 5)
    case 6 => (62, 6) case 7 => (126, 7) case 8 => (254, 8) case 9 => (510, 9) case 10 => (1022, 10)
    case 11 => (2046, 11) case _ => (0, 0)
  }

  /** `YAC_HT` for a run `r` of zeros and a value of `c` bits. */
  function YAcEntry(r: nat, c: nat): (nat, nat)
  {
    match r
    case 0 =>
      (match c
       case 0 => (10, 4) case 1 => (0, 2) case 2 => (1, 2) case 3 => (4, 3) case 4 => (11, 4) case 5 => (26, 5)
       case 6 => (120, 7) case 7 => (248, 8) case 8 => (1014, 10) case 9 => (65410, 16) case 10 => (65411, 16)
       case _ => (0, 0))
    case 1 =>
      (match c
       case 1 => (12, 4) case 2 => (27, 5) case 3 => (121, 7) case 4 => (502, 9) case 5 => (2038, 11)
       case 6 => (65412, 16) case 7 => (65413, 16) case 8 => (65414, 16) case 9 => (65415, 16)
       case 10 => (65416, 16) case _ => (0, 0))
    case 2 =>
      (match c
       case 1 => (28, 5) case 2 => (249, 8) case 3 => (1015, 10) case 4 => (4084, 12) case 5 => (65417, 16)
       case 6 => (65418, 16) case 7 => (65419, 16) case 8 => (65420, 16) case 9 => (65421, 16)
       case 10 => (65422, 16) case _ => (0, 0))
    case 3 =>
      (match c
       case 1 => (58, 6) case 2 => (503, 9) case 3 => (4085, 12) case 4 => (65423, 16) case 5 => (65424, 16)
       case 6 => (65425, 16) case 7 => (65426, 16) case 8 => (65427, 16) case 9 => (65428, 16)
       case 10 => (65429, 16) case _ => (0, 0))
    case 4 =>
      (match c
       case 1 => (59, 6) case 2 => (1016, 10) case 3 => (65430, 16) case 4 => (65431, 16) case 5 => (65432, 16)
       case 6 => (65433, 16) case 7 => (65434, 16) case 8 => (65435, 16) case 9 => (65436, 16)
       case 10 => (65437, 16) case _ => (0, 0))
    case 5 =>
      (match c
       case 1 => (122, 7) case 2 => (2039, 11) case 3 => (65438, 16) case 4 => (65439, 16)
       case 5 => (65440, 16) case 6 => (65441, 16) case 7 => (65442, 16) case 8 => (65443, 16)
       case 9 => (65444, 16) case 10 => (65445, 16) case _ => (0, 0))
    case 6 =>
      (match c
       case 1 => (123, 7) case 2 => (4086, 12) case 3 => (65446, 16) case 4 => (65447, 16)
       case 5 => (65448, 16) case 6 => (65449, 16) case 7 => (65450, 16) case 8 => (65451, 16)
       case 9 => (65452, 16) case 10 => (65453, 16) case _ => (0, 0))
    case 7 =>
      (match c
       case 1 => (250, 8) case 2 => (4087, 12) case 3 => (65454, 16) case 4 => (65455, 16)
       case 5 => (65456, 16) case 6 => (65457, 16) case 7 => (65458, 16) case 8 => (65459, 16)
       case 9 => (65460, 16) case 10 => (65461, 16) case _ => (0, 0))
    case 8 =>
      (match c
       case 1 => (504, 9) case 2 => (32704, 15) case 3 => (65462, 16) case 4 => (65463, 16)
       case 5 => (65464, 16) case 6 => (65465, 16) case 7 => (65466, 16) case 8 => (65467, 16)
       case 9 => (65468, 16) case 10 => (65469, 16) case _ => (0, 0))
    case 9 =>
      (match c
       case 1 => (505, 9) case 2 => (65470, 16) case 3 => (65471, 16) case 4 => (65472, 16)
       case 5 => (65473, 16) case 6 => (65474, 16) case 7 => (65475, 16) case 8 => (65476, 16)
       case 9 => (65477, 16) case 10 => (65478, 16) case _ => (0, 0))
    case 10 =>
      (match c
       case 1 => (506, 9) case 2 => (65479, 16) case 3 => (65480, 16) case 4 => (65481, 16)
       case 5 => (65482, 16) case 6 => (65483, 16) case 7 => (65484, 16) case 8 => (65485, 16)
       case 9 => (65486, 16) case 10 => (65487, 16) case _ => (0, 0))
    case 11 =>
      (match c
       case 1 => (1017, 10) case 2 => (65488, 16) case 3 => (65489, 16) case 4 => (65490, 16)
       case 5 => (65491, 16) case 6 => (65492, 16) case 7 => (65493, 16) case 8 => (65494, 16)
       case 9 => (65495, 16) case 10 => (65496, 16) case _ => (0, 0))
    case 12 =>
      (match c
       case 1 => (1018, 10) case 2 => (65497, 16) case 3 => (65498, 16) case 4 => (65499, 16)
       case 5 => (65500, 16) case 6 => (65501, 16) case 7 => (65502, 16) case 8 => (65503, 16)
       case 9 => (65504, 16) case 10 => (65505, 16) case _ => (0, 0))
    case 13 =>
      (match c
       case 1 => (2040, 11) case 2 => (65506, 16) case 3 => (65507, 16) case 4 => (65508, 16)
       case 5 => (65509, 16) case 6 => (65510, 16) case 7 => (65511, 16) case 8 => (65512, 16)
       case 9 => (65513, 16) case 10 => (65514, 16) case _ => (0, 0))
    case 14 =>
      (match c
       case 1 => (65515, 16) case 2 => (65516, 16) case 3 => (65517, 16) case 4 => (65518, 16)
       case 5 => (65519, 16) case 6 => (65520, 16) case 7 => (65521, 16) case 8 => (65522, 16)
       case 9 => (65523, 16) case 10 => (65524, 16) case _ => (0, 0))
    case _ =>
      (match c
       case 0 => (2041, 11) case 1 => (65525, 16) case 2 => (65526, 16) case 3 => (65527, 16)
       case 4 => (65528, 16) case 5 => (65529, 16) case 6 => (65530, 16) case 7 => (65531, 16)
       case 8 => (65532, 16) case 9 => (65533, 16) case 10 => (65534, 16) case _ => (0, 0))
  }

  /** `std_ac_luminance_values`. */
  function YAcValue(i: nat): Byte
  {
    match i
    case 0 => 0x01 case 1 => 0x02 case 2 => 0x03 case 3 => 0x00 case 4 => 0x04 case 5 => 0x11 case 6 => 0x05
    case 7 => 0x12 case 8 => 0x21 case 9 => 0x31 case 10 => 0x41 case 11 => 0x06 case 12 => 0x13
    case 13 => 0x51 case 14 => 0x61 case 15 => 0x07 case 16 => 0x22 case 17 => 0x71 case 18 => 0x14
    case 19 => 0x32 case 20 => 0x81 case 21 => 0x91 case 22 => 0xa1 case 23 => 0x08 case 24 => 0x23
    case 25 => 0x42 case 26 => 0xb1 case 27 => 0xc1 case 28 => 0x15 case 29 => 0x52 case 30 => 0xd1
    case 31 => 0xf0 case 32 => 0x24 case 33 => 0x33 case 34 => 0x62 case 35 => 0x72 case 36 => 0x82
    case 37 => 0x09 case 38 => 0x0a case 39 => 0x16 case 40 => 0x17 case 41 => 0x18 case 42 => 0x19
    case 43 => 0x1a case 44 => 0x25 case 45 => 0x26 case 46 => 0x27 case 47 => 0x28 case 48 => 0x29
    case 49 => 0x2a case 50 => 0x34 case 51 => 0x35 case 52 => 0x36 case 53 => 0x37 case 54 => 0x38
    case 55 => 0x39 case 56 => 0x3a case 57 => 0x43 case 58 => 0x44 case 59 => 0x45 case 60 => 0x46
    case 61 => 0x47 case 62 => 0x48 case 63 => 0x49 case 64 => 0x4a case 65 => 0x53 case 66 => 0x54
    case 67 => 0x55 case 68 => 0x56 case 69 => 0x57 case 70 => 0x58 case 71 => 0x59 case 72 => 0x5a
    case 73 => 0x63 case 74 => 0x64 case 75 => 0x65 case 76 => 0x66 case 77 => 0x67 case 78 => 0x68
    case 79 => 0x69 case 80 => 0x6a case 81 => 0x73 case 82 => 0x74 case 83 => 0x75 case 84 => 0x76
    case 85 => 0x77 case 86 => 0x78 case 87 => 0x79 case 88 => 0x7a case 89 => 0x83 case 90 => 0x84
    case 91 => 0x85 case 92 => 0x86 case 93 => 0x87 case 94 => 0x88 case 95 => 0x89 case 96 => 0x8a
    case 97 => 0x92 case 98 => 0x93 case 99 => 0x94 case 100 => 0x95 case 101 => 0x96 case 102 => 0x97
    case 103 => 0x98 case 104 => 0x99 case 105 => 0x9a case 106 => 0xa2 case 107 => 0xa3 case 108 => 0xa4
    case 109 => 0xa5 case 110 => 0xa6 case 111 => 0xa7 case 112 => 0xa8 case 113 => 0xa9 case 114 => 0xaa
    case 115 => 0xb2 case 116 => 0xb3 case 117 => 0xb4 case 118 => 0xb5 case 119 => 0xb6 case 120 => 0xb7
    case 121 => 0xb8 case 122 => 0xb9 case 123 => 0xba case 124 => 0xc2 case 125 => 0xc3 case 126 => 0xc4
    case 127 => 0xc5 case 128 => 0xc6 case 129 => 0xc7 case 130 => 0xc8 case 131 => 0xc9 case 132 => 0xca
    case 133 => 0xd2 case 134 => 0xd3 case 135 => 0xd4 case 136 => 0xd5 case 137 => 0xd6 case 138 => 0xd7
    case 139 => 0xd8 case 140 => 0xd9 case 141 => 0xda case 142 => 0xe1 case 143 => 0xe2 case 144 => 0xe3
    case 145 => 0xe4 case 146 => 0xe5 case 147 => 0xe6 case 148 => 0xe7 case 149 => 0xe8 case 150 => 0xe9
    case 151 => 0xea case 152 => 0xf1 case 153 => 0xf2 case 154 => 0xf3 case 155 => 0xf4 case 156 => 0xf5
    case 157 => 0xf6 case 158 => 0xf7 case 159 => 0xf8 case 160 => 0xf9 case 161 => 0xfa case _ => 0
  }

  /** `UVAC_HT` for a run `r` of zeros and a value of `c` bits. */
  function UvAcEntry(r: nat, c: nat): (nat, nat)
  {
    match r
    case 0 =>
      (match c
       case 0 => (0, 2) case 1 => (1, 2) case 2 => (4, 3) case 3 => (10, 4) case 4 => (24, 5) case 5 => (25, 5)
       case 6 => (56, 6) case 7 => (120, 7) case 8 => (500, 9) case 9 => (1014, 10) case 10 => (4084, 12)
       case _ => (0, 0))
    case 1 =>
      (match c
       case 1 => (11, 4) case 2 => (57, 6) case 3 => (246, 8) case 4 => (501, 9) case 5 => (2038, 11)
       case 6 => (4085, 12) case 7 => (65416, 16) case 8 => (65417, 16) case 9 => (65418, 16)
       case 10 => (65419, 16) case _ => (0, 0))
    case 2 =>
      (match c
       case 1 => (26, 5) case 2 => (247, 8) case 3 => (1015, 10) case 4 => (4086, 12) case 5 => (32706, 15)
       case 6 => (65420, 16) case 7 => (65421, 16) case 8 => (65422, 16) case 9 => (65423, 16)
       case 10 => (65424, 16) case _ => (0, 0))
    case 3 =>
      (match c
       case 1 => (27, 5) case 2 => (248, 8) case 3 => (1016, 10) case 4 => (4087, 12) case 5 => (65425, 16)
       case 6 => (65426, 16) case 7 => (65427, 16) case 8 => (65428, 16) case 9 => (65429, 16)
       case 10 => (65430, 16) case _ => (0, 0))
    case 4 =>
      (match c
       case 1 => (58, 6) case 2 => (502, 9) case 3 => (65431, 16) case 4 => (65432, 16) case 5 => (65433, 16)
       case 6 => (65434, 16) case 7 => (65435, 16) case 8 => (65436, 16) case 9 => (65437, 16)
       case 10 => (65438, 16) case _ => (0, 0))
    case 5 =>
      (match c
       case 1 => (59, 6) case 2 => (1017, 10) case 3 => (65439, 16) case 4 => (65440, 16) case 5 => (65441, 16)
       case 6 => (65442, 16) case 7 => (65443, 16) case 8 => (65444, 16) case 9 => (65445, 16)
       case 10 => (65446, 16) case _ => (0, 0))
    case 6 =>
      (match c
       case 1 => (121, 7) case 2 => (2039, 11) case 3 => (65447, 16) case 4 => (65448, 16)
       case 5 => (65449, 16) case 6 => (65450, 16) case 7 => (65451, 16) case 8 => (65452, 16)
       case 9 => (65453, 16) case 10 => (65454, 16) case _ => (0, 0))
    case 7 =>
      (match c
       case 1 => (122, 7) case 2 => (2040, 11) case 3 => (65455, 16) case 4 => (65456, 16)
       case 5 => (65457, 16) case 6 => (65458, 16) case 7 => (65459, 16) case 8 => (65460, 16)
       case 9 => (65461, 16) case 10 => (65462, 16) case _ => (0, 0))
    case 8 =>
      (match c
       case 1 => (249, 8) case 2 => (65463, 16) case 3 => (65464, 16) case 4 => (65465, 16)
       case 5 => (65466, 16) case 6 => (65467, 16) case 7 => (65468, 16) case 8 => (65469, 16)
       case 9 => (65470, 16) case 10 => (65471, 16) case _ => (0, 0))
    case 9 =>
      (match c
       case 1 => (503, 9) case 2 => (65472, 16) case 3 => (65473, 16) case 4 => (65474, 16)
       case 5 => (65475, 16) case 6 => (65476, 16) case 7 => (65477, 16) case 8 => (65478, 16)
       case 9 => (65479, 16) case 10 => (65480, 16) case _ => (0, 0))
    case 10 =>
      (match c
       case 1 => (504, 9) case 2 => (65481, 16) case 3 => (65482, 16) case 4 => (65483, 16)
       case 5 => (65484, 16) case 6 => (65485, 16) case 7 => (65486, 16) case 8 => (65487, 16)
       case 9 => (65488, 16) case 10 => (65489, 16) case _ => (0, 0))
    case 11 =>
      (match c
       case 1 => (505, 9) case 2 => (65490, 16) case 3 => (65491, 16) case 4 => (65492, 16)
       case 5 => (65493, 16) case 6 => (65494, 16) case 7 => (65495, 16) case 8 => (65496, 16)
       case 9 => (65497, 16) case 10 => (65498, 16) case _ => (0, 0))
    case 12 =>
      (match c
       case 1 => (506, 9) case 2 => (65499, 16) case 3 => (65500, 16) case 4 => (65501, 16)
       case 5 => (65502, 16) case 6 => (65503, 16) case 7 => (65504, 16) case 8 => (65505, 16)
       case 9 => (65506, 16) case 10 => (65507, 16) case _ => (0, 0))
    case 13 =>
      (match c
       case 1 => (2041, 11) case 2 => (65508, 16) case 3 => (65509, 16) case 4 => (65510, 16)
       case 5 => (65511, 16) case 6 => (65512, 16) case 7 => (65513, 16) case 8 => (65514, 16)
       case 9 => (65515, 16) case 10 => (65516, 16) case _ => (0, 0))
    case 14 =>
      (match c
       case 1 => (16352, 14) case 2 => (65517, 16) case 3 => (65518, 16) case 4 => (65519, 16)
       case 5 => (65520, 16) case 6 => (65521, 16) case 7 => (65522, 16) case 8 => (65523, 16)
       case 9 => (65524, 16) case 10 => (65525, 16) case _ => (0, 0))
    case _ =>
      (match c
       case 0 => (1018, 10) case 1 => (32707, 15) case 2 => (65526, 16) case 3 => (65527, 16)
       case 4 => (65528, 16) case 5 => (65529, 16) case 6 => (65530, 16) case 7 => (65531, 16)
       case 8 => (65532, 16) case 9 => (65533, 16) case 10 => (65534, 16) case _ => (0, 0))
  }

  /** `std_ac_chrominance_values`. */
  function UvAcValue(i: nat): Byte
  {
    match i
    case 0 => 0x00 case 1 => 0x01 case 2 => 0x02 case 3 => 0x03 case 4 => 0x11 case 5 => 0x04 case 6 => 0x05
    case 7 => 0x21 case 8 => 0x31 case 9 => 0x06 case 10 => 0x12 case 11 => 0x41 case 12 => 0x51
    case 13 => 0x07 case 14 => 0x61 case 15 => 0x71 case 16 => 0x13 case 17 => 0x22 case 18 => 0x32
    case 19 => 0x81 case 20 => 0x08 case 21 => 0x14 case 22 => 0x42 case 23 => 0x91 case 24 => 0xa1
    case 25 => 0xb1 case 26 => 0xc1 case 27 => 0x09 case 28 => 0x23 case 29 => 0x33 case 30 => 0x52
    case 31 => 0xf0 case 32 => 0x15 case 33 => 0x62 case 34 => 0x72 case 35 => 0xd1 case 36 => 0x0a
    case 37 => 0x16 case 38 => 0x24 case 39 => 0x34 case 40 => 0xe1 case 41 => 0x25 case 42 => 0xf1
    case 43 => 0x17 case 44 => 0x18 case 45 => 0x19 case 46 => 0x1a case 47 => 0x26 case 48 => 0x27
    case 49 => 0x28 case 50 => 0x29 case 51 => 0x2a case 52 => 0x35 case 53 => 0x36 case 54 => 0x37
    case 55 => 0x38 case 56 => 0x39 case 57 => 0x3a case 58 => 0x43 case 59 => 0x44 case 60 => 0x45
    case 61 => 0x46 case 62 => 0x47 case 63 => 0x48 case 64 => 0x49 case 65 => 0x4a case 66 => 0x53
    case 67 => 0x54 case 68 => 0x55 case 69 => 0x56 case 70 => 0x57 case 71 => 0x58 case 72 => 0x59
    case 73 => 0x5a case 74 => 0x63 case 75 => 0x64 case 76 => 0x65 case 77 => 0x66 case 78 => 0x67
    case 79 => 0x68 case 80 => 0x69 case 81 => 0x6a case 82 => 0x73 case 83 => 0x74 case 84 => 0x75
    case 85 => 0x76 case 86 => 0x77 case 87 => 0x78 case 88 => 0x79 case 89 => 0x7a case 90 => 0x82
    case 91 => 0x83 case 92 => 0x84 case 93 => 0x85 case 94 => 0x86 case 95 => 0x87 case 96 => 0x88
    case 97 => 0x89 case 98 => 0x8a case 99 => 0x92 case 100 => 0x93 case 101 => 0x94 case 102 => 0x95
    case 103 => 0x96 case 104 => 0x97 case 105 => 0x98 case 106 => 0x99 case 107 => 0x9a case 108 => 0xa2
    case 109 => 0xa3 case 110 => 0xa4 case 111 => 0xa5 case 112 => 0xa6 case 113 => 0xa7 case 114 => 0xa8
    case 115 => 0xa9 case 116 => 0xaa case 117 => 0xb2 case 118 => 0xb3 case 119 => 0xb4 case 120 => 0xb5
    case 121 => 0xb6 case 122 => 0xb7 case 123 => 0xb8 case 124 => 0xb9 case 125 => 0xba case 126 => 0xc2
    case 127 => 0xc3 case 128 => 0xc4 case 129 => 0xc5 case 130 => 0xc6 case 131 => 0xc7 case 132 => 0xc8
    case 133 => 0xc9 case 134 => 0xca case 135 => 0xd2 case 136 => 0xd3 case 137 => 0xd4 case 138 => 0xd5
    case 139 => 0xd6 case 140 => 0xd7 case 141 => 0xd8 case 142 => 0xd9 case 143 => 0xda case 144 => 0xe2
    case 145 => 0xe3 case 146 => 0xe4 case 147 => 0xe5 case 148 => 0xe6 case 149 => 0xe7 case 150 => 0xe8
    case 151 => 0xe9 case 152 => 0xea case 153 => 0xf2 case 154 => 0xf3 case 155 => 0xf4 case 156 => 0xf5
    case 157 => 0xf6 case 158 => 0xf7 case 159 => 0xf8 case 160 => 0xf9 case 161 => 0xfa case _ => 0
  }

  function YDcFirst(l: nat): (nat, nat)
  {
    match l
    case 1 => (0, 0) case 2 => (0, 0) case 3 => (2, 1) case 4 => (14, 6) case 5 => (30, 7) case 6 => (62, 8)
    case 7 => (126, 9) case 8 => (254, 10) case 9 => (510, 11) case 10 => (1022, 12) case 11 => (2044, 12)
    case 12 => (4088, 12) case 13 => (8176, 12) case 14 => (16352, 12) case 15 => (32704, 12)
    case 16 => (65408, 12) case _ => (0, 12)
  }

  function YAcFirst(l: nat): (nat, nat)
  {
    match l
    case 1 => (0, 0) case 2 => (0, 0) case 3 => (4, 2) case 4 => (10, 3) case 5 => (26, 6) case 6 => (58, 9)
    case 7 => (120, 11) case 8 => (248, 15) case 9 => (502, 18) case 10 => (1014, 23) case 11 => (2038, 28)
    case 12 => (4084, 32) case 13 => (8176, 36) case 14 => (16352, 36) case 15 => (32704, 36)
    case 16 => (65410, 37) case _ => (0, 162)
  }

  function UvDcFirst(l: nat): (nat, nat)
  {
    match l
    case 1 => (0, 0) case 2 => (0, 0) case 3 => (6, 3) case 4 => (14, 4) case 5 => (30, 5) case 6 => (62, 6)
    case 7 => (126, 7) case 8 => (254, 8) case 9 => (510, 9) case 10 => (1022, 10) case 11 => (2046, 11)
    case 12 => (4094, 12) case 13 => (8188, 12) case 14 => (16376, 12) case 15 => (32752, 12)
    case 16 => (65504, 12) case _ => (0, 12)
  }

  function UvAcFirst(l: nat): (nat, nat)
  {
    match l
    case 1 => (0, 0) case 2 => (0, 0) case 3 => (4, 2) case 4 => (10, 3) case 5 => (24, 5) case 6 => (56, 9)
    case 7 => (120, 13) case 8 => (246, 16) case 9 => (500, 20) case 10 => (1014, 27) case 11 => (2038, 32)
    case 12 => (4084, 36) case 13 => (8176, 40) case 14 => (16352, 40) case 15 => (32706, 41)
    case 16 => (65416, 43) case _ => (0, 162)
  }

  // ----- by kind

  /** The symbols the writer has codes for. */
  predicate Written(kind: Kind, s: nat)
  {
    if kind.YDc? || kind.UvDc? then s <= 11 else AcSymbol(s)
  }

  function Entry(kind: Kind, s: nat): (nat, nat)
  {
    match kind
    case YDc => YDcEntry(s)
    case YAc => YAcEntry(s / 16, s % 16)
    case UvDc => UvDcEntry(s)
    case UvAc => UvAcEntry(s / 16, s % 16)
  }

  function Value(kind: Kind, i: nat): Byte
  {
    match kind
    case YAc => YAcValue(i)
    case UvAc => UvAcValue(i)
    case _ => if i < 12 then i else 0
  }

  /** The code of the first symbol of length `l`, and its place in the segment. */
  function First(kind: Kind, l: nat): (nat, nat)
  {
    match kind
    case YDc => YDcFirst(l)
    case YAc => YAcFirst(l)
    case UvDc => UvDcFirst(l)
    case UvAc => UvAcFirst(l)
  }

  /** The entry of a symbol is its canonical code; the other entries are empty. */
  predicate Canonical(kind: Kind, s: nat, e: (nat, nat))
  {
    if Written(kind, s) then
      var (first, at) := First(kind, e.1);
      1 <= e.1 <= 16 && first <= e.0
      && at + e.0 - first < First(kind, e.1 + 1).1 && Value(kind, at + e.0 - first) == s
    else
      e == (0, 0)
  }

  lemma YAcRows0(r: nat, c: nat)
    requires 0 <= r < 2 && c < 16
    ensures Canonical(YAc, 16 * r + c, YAcEntry(r, c))
  {
  }

  lemma YAcRows2(r: nat, c: nat)
    requires 2 <= r < 4 && c < 16
    ensures Canonical(YAc, 16 * r + c, YAcEntry(r, c))
  {
  }

  lemma YAcRows4(r: nat, c: nat)
    requires 4 <= r < 6 && c < 16
    ensures Canonical(YAc, 16 * r + c, YAcEntry(r, c))
  {
  }

  lemma YAcRows6(r: nat, c: nat)
    requires 6 <= r < 8 && c < 16
    ensures Canonical(YAc, 16 * r + c, YAcEntry(r, c))
  {
  }

  lemma YAcRows8(r: nat, c: nat)
    requires 8 <= r < 11 && c < 16
    ensures Canonical(YAc, 16 * r + c, YAcEntry(r, c))
  {
  }

  lemma YAcRows11(r: nat, c: nat)
    requires 11 <= r < 14 && c < 16
    ensures Canonical(YAc, 16 * r + c, YAcEntry(r, c))
  {
  }

  lemma YAcRows14(r: nat, c: nat)
    requires 14 <= r < 16 && c < 16
    ensures Canonical(YAc, 16 * r + c, YAcEntry(r, c))
  {
  }

  lemma UvAcRows0(r: nat, c: nat)
    requires 0 <= r < 2 && c < 16
    ensures Canonical(UvAc, 16 * r + c, UvAcEntry(r, c))
  {
  }

  lemma UvAcRows2(r: nat, c: nat)
    requires 2 <= r < 4 && c < 16
    ensures Canonical(UvAc, 16 * r + c, UvAcEntry(r, c))
  {
  }

  lemma UvAcRows4(r: nat, c: nat)
    requires 4 <= r < 6 && c < 16
    ensures Canonical(UvAc, 16 * r + c, UvAcEntry(r, c))
  {
  }

  lemma UvAcRows6(r: nat, c: nat)
    requires 6 <= r < 8 && c < 16
    ensures Canonical(UvAc, 16 * r + c, UvAcEntry(r, c))
  {
  }

  lemma UvAcRows8(r: nat, c: nat)
    requires 8 <= r < 11 && c < 16
    ensures Canonical(UvAc, 16 * r + c, UvAcEntry(r, c))
  {
  }

  lemma UvAcRows11(r: nat, c: nat)
    requires 11 <= r < 14 && c < 16
    ensures Canonical(UvAc, 16 * r + c, UvAcEntry(r, c))
  {
  }

  lemma UvAcRows14(r: nat, c: nat)
    requires 14 <= r < 16 && c < 16
    ensures Canonical(UvAc, 16 * r + c, UvAcEntry(r, c))
  {
  }

  lemma DcEntries(kind: Kind, s: nat)
    requires kind.YDc? || kind.UvDc?
    ensures Canonical(kind, s, Entry(kind, s))
  {
  }

  lemma Entries(kind: Kind, s: nat)
    requires s < 256
    ensures Canonical(kind, s, Entry(kind, s))
  {
    hide Canonical, Written, First, Value;
    var r, c := s / 16, s % 16;
    match kind
    case YDc => DcEntries(kind, s);
    case UvDc => DcEntries(kind, s);
    case YAc => YAcEntries(r, c);
    case UvAc => UvAcEntries(r, c);
  }

  lemma YAcEntries(r: nat, c: nat)
    requires r < 16 && c < 16
    ensures Canonical(YAc, 16 * r + c, YAcEntry(r, c))
  {
    hide *;
    if r < 2 {
      YAcRows0(r, c);
    } else if r < 4 {
      YAcRows2(r, c);
    } else if r < 6 {
      YAcRows4(r, c);
    } else if r < 8 {
      YAcRows6(r, c);
    } else if r < 11 {
      YAcRows8(r, c);
    } else if r < 14 {
      YAcRows11(r, c);
    } else {
      YAcRows14(r, c);
    }
  }

  lemma UvAcEntries(r: nat, c: nat)
    requires r < 16 && c < 16
    ensures Canonical(UvAc, 16 * r + c, UvAcEntry(r, c))
  {
    hide *;
    if r < 2 {
      UvAcRows0(r, c);
    } else if r < 4 {
      UvAcRows2(r, c);
    } else if r < 6 {
      UvAcRows4(r, c);
    } else if r < 8 {
      UvAcRows6(r, c);
    } else if r < 11 {
      UvAcRows8(r, c);
    } else if r < 14 {
      UvAcRows11(r, c);
    } else {
      UvAcRows14(r, c);
    }
  }

  // ----- the counts

  lemma LuminanceNext(kind: Kind, l: nat)
    requires (kind.YDc? || kind.YAc?) && 2 <= l <= 17
    ensures First(kind, l).1 == First(kind, l - 1).1 + Counts(kind)[l - 2]
    ensures l <= 16 ==> First(kind, l).0 == 2 * (First(kind, l - 1).0 + Counts(kind)[l - 2])
  {
  }

  lemma ChrominanceNext(kind: Kind, l: nat)
    requires (kind.UvDc? || kind.UvAc?) && 2 <= l <= 17
    ensures First(kind, l).1 == First(kind, l - 1).1 + Counts(kind)[l - 2]
    ensures l <= 16 ==> First(kind, l).0 == 2 * (First(kind, l - 1).0 + Counts(kind)[l - 2])
  {
  }

  lemma FirstNext(kind: Kind, l: nat)
    requires 2 <= l <= 17
    ensures First(kind, l).1 == First(kind, l - 1).1 + Counts(kind)[l - 2]
    ensures l <= 16 ==> First(kind, l).0 == 2 * (First(kind, l - 1).0 + Counts(kind)[l - 2])
  {
    hide Counts, First;
    if kind.YDc? || kind.YAc? {
      LuminanceNext(kind, l);
    } else {
      ChrominanceNext(kind, l);
    }
  }

  lemma {:induction false} FirstsOf(kind: Kind, l: nat)
    requires 1 <= l <= 17
    ensures First(kind, l).1 == Total(Counts(kind), l - 1)
    ensures l <= 16 ==> First(kind, l).0 == FirstOf(Counts(kind), l)
  {
    if l > 1 {
      FirstsOf(kind, l - 1);
      FirstNext(kind, l);
    }
    hide Counts;
  }

  function Symbols(kind: Kind): nat
  {
    if kind.YDc? || kind.UvDc? then 12 else 162
  }

  lemma PrefixCode(kind: Kind)
    ensures Total(Counts(kind), 16) == Symbols(kind) && Weight(Counts(kind), 16) <= WINDOW
  {
    hide Weight, FirstOf, Total;
    FirstsOf(kind, 17);
    Weights(Counts(kind));
  }

  // ----- the tables and the segments

  function Codes(kind: Kind): Ht
  {
    seq(256, s requires 0 <= s < 256 => Entry(kind, s))
  }

  function Values(kind: Kind): (r: seq<Byte>)
    ensures |r| == Symbols(kind)
  {
    seq(Symbols(kind), i requires 0 <= i => Value(kind, i))
  }

  function Segment(kind: Kind): Dht
  {
    Dht(Sizes(Counts(kind), 16), Values(kind))
  }

  lemma SegmentWellFormed(kind: Kind)
    ensures WellFormed(Segment(kind))
  {
    hide Counts, Sizes, Total, Weight, Kraft, Value, Listed, Lengths;
    PrefixCode(kind);
    SizesListed(Counts(kind));
    SizesAre(Counts(kind), 16, 0);
  }

  /** Symbol `s` stands in the segment where its entry says. */
  lemma EntryIs(kind: Kind, s: nat) returns (i: nat)
    requires s < 256 && Written(kind, s)
    ensures i < Symbols(kind) && i < |Sizes(Counts(kind), 16)| && Value(kind, i) == s
    ensures Entry(kind, s) == (Code(Sizes(Counts(kind), 16), i), Sizes(Counts(kind), 16)[i])
  {
    hide Counts, Sizes, Total, Weight, Kraft, Value, Code, First, FirstOf, Entry, Written, Count;
    Entries(kind, s);
    var e := Entry(kind, s);
    i := First(kind, e.1).1 + e.0 - First(kind, e.1).0;
    FirstsOf(kind, e.1);
    FirstsOf(kind, e.1 + 1);
    PrefixCode(kind);
    TotalMono(Counts(kind), e.1);
    CodeOf(Counts(kind), e.1, i);
  }

  /** The writer's codes are those of the segment it sends. */
  lemma SendsOwn(kind: Kind, s: nat)
    requires s < 256 && Written(kind, s)
    ensures Sends(Codes(kind), Segment(kind), s)
  {
    hide Counts, Sizes, Value, Code, Entry, Written;
    var i := EntryIs(kind, s);
    assert Values(kind)[i] == s && Codes(kind)[s] == Entry(kind, s);
  }

  lemma CodesFit(kind: Kind)
    ensures Fits(Codes(kind))
  {
    hide Counts, Sizes, Value, Code, Entry, Written, Kraft, Pow2, Listed, First;
    Pow2Values();
    SegmentWellFormed(kind);
    forall s | 0 <= s < 256 ensures Codes(kind)[s].1 <= 16 && Codes(kind)[s].0 < Pow2(Codes(kind)[s].1) {
      Entries(kind, s);
      if Written(kind, s) {
        var i := EntryIs(kind, s);
        CodeFits(Sizes(Counts(kind), 16), i);
      }
    }
  }

  // ----- the components of the writer

  function Luminance(dq: seq<nat>): Component
  {
    Component(Codes(YDc), Codes(YAc), Segment(YDc), Segment(YAc), dq)
  }

  function Chrominance(dq: seq<nat>): Component
  {
    Component(Codes(UvDc), Codes(UvAc), Segment(UvDc), Segment(UvAc), dq)
  }

  lemma SendsAllDc(kind: Kind)
    requires kind.YDc? || kind.UvDc?
    ensures SendsDc(Codes(kind), Segment(kind))
  {
    hide Sends, Codes, Segment;
    forall s: nat | s <= 11 ensures Sends(Codes(kind), Segment(kind), s) {
      SendsOwn(kind, s);
    }
  }

  lemma SendsAllAc(kind: Kind)
    requires kind.YAc? || kind.UvAc?
    ensures SendsAc(Codes(kind), Segment(kind))
  {
    hide Sends, Codes, Segment;
    forall s | AcSymbol(s) ensures Sends(Codes(kind), Segment(kind), s) {
      SendsOwn(kind, s);
    }
  }

  /** Both components meet what the round trip asks of tables. */
  lemma WriterSound(dq: seq<nat>)
    requires |dq| == 64
    ensures Sound(Luminance(dq)) && Sound(Chrominance(dq))
  {
    hide Sends, Codes, Segment, WellFormed, Fits, SendsDc, SendsAc;
    forall kind: Kind ensures Fits(Codes(kind)) && WellFormed(Segment(kind)) {
      CodesFit(kind);
      SegmentWellFormed(kind);
    }
    SendsAllDc(YDc);
    SendsAllAc(YAc);
    SendsAllDc(UvDc);
    SendsAllAc(UvAc);
  }

  /** What the writer makes of blocks of its three components, a decoder that has only read its
      segments reads back. */
  method RoundTrip(before: seq<Byte>, units: seq<Unit>, qy: seq<nat>, quv: seq<nat>)
    returns (ok: bool, blocks: seq<seq<int>>)
    requires |qy| == |quv| == 64 && InRange(units, [0, 0, 0])
    ensures ok && |blocks| == |units|
    ensures forall i :: 0 <= i < |units| ==>
              IsBlock(blocks[i], units[i], [Luminance(qy), Chrominance(quv), Chrominance(quv)])
  {
    hide Codes, Sound, InRange, IsBlock, Counts, Sizes, Values, Holds, FastAcReady;
    WriterSound(qy);
    WriterSound(quv);
    var comps := [Luminance(qy), Chrominance(quv), Chrominance(quv)];
    assert seq(3, _ => 0) == [0, 0, 0];
    var y := BuildDecoder(comps[0], Counts(YDc), Values(YDc), Counts(YAc), Values(YAc));
    var u := BuildDecoder(comps[1], Counts(UvDc), Values(UvDc), Counts(UvAc), Values(UvAc));
    var v := BuildDecoder(comps[2], Counts(UvDc), Values(UvDc), Counts(UvAc), Values(UvAc));
    ok, blocks := JpegScan.RoundTrip(before, units, comps, [y, u, v]);
  }
}
