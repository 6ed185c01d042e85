/** The hard-coded per-message CRC-extra seeds the receiver checks against. */
module CrcExtra {
  import opened Checksum

  /** The static CRC-extra table of getCrcExtraForId, keyed by message id.
      Its entry type is `bv8`: every value the source lists is below 256. */
  const CrcExtraTable: map<int, bv8> :=
    map[
      0 := 50, 1 := 124, 2 := 137, 4 := 237, 5 := 217, 6 := 104, 7 := 119, 11 := 89,
      20 := 214, 21 := 159, 22 := 220, 23 := 168, 24 := 24, 25 := 23, 26 := 170, 27 := 144,
      28 := 67, 29 := 115, 30 := 39, 31 := 246, 32 := 185, 33 := 104, 34 := 237, 35 := 244,
      36 := 222, 37 := 212, 38 := 9, 39 := 254, 40 := 230, 41 := 28, 42 := 28, 43 := 132,
      44 := 221, 45 := 232, 46 := 11, 47 := 153, 48 := 41, 49 := 39, 50 := 78, 54 := 15,
      55 := 3, 61 := 153, 62 := 183, 63 := 51, 64 := 59, 65 := 118, 66 := 148, 67 := 21,
      69 := 243, 70 := 124, 73 := 38, 74 := 20, 75 := 158, 76 := 152, 77 := 143, 81 := 106,
      82 := 49, 83 := 22, 84 := 143, 85 := 140, 86 := 5, 87 := 150, 89 := 231, 90 := 183,
      91 := 63, 92 := 54, 100 := 175, 101 := 102, 102 := 158, 103 := 208, 104 := 56, 105 := 93,
      106 := 138, 107 := 108, 108 := 32, 109 := 185, 110 := 84, 111 := 34, 112 := 174, 113 := 124,
      114 := 237, 115 := 4, 116 := 76, 117 := 128, 118 := 56, 119 := 116, 120 := 134, 121 := 237,
      122 := 203, 123 := 250, 124 := 87, 125 := 203, 126 := 220, 127 := 25, 128 := 226, 129 := 46,
      130 := 29, 131 := 223, 132 := 85, 133 := 6, 134 := 229, 135 := 203, 136 := 1, 137 := 195,
      138 := 109, 139 := 168, 140 := 181, 141 := 47, 142 := 72, 143 := 131, 146 := 103, 147 := 154,
      148 := 178, 149 := 200, 241 := 90, 242 := 104, 243 := 85, 244 := 95, 245 := 130, 246 := 158,
      248 := 8, 249 := 204, 250 := 49, 251 := 170, 252 := 44, 253 := 83, 254 := 86, 150 := 134,
      151 := 219, 152 := 208, 153 := 188, 154 := 84, 155 := 22, 156 := 19, 157 := 21, 158 := 134,
      160 := 78, 161 := 68, 162 := 189, 163 := 127, 164 := 154, 165 := 21, 166 := 21, 167 := 144,
      168 := 1, 169 := 234, 170 := 73, 171 := 181, 172 := 22, 173 := 83, 174 := 167, 175 := 138,
      176 := 234, 177 := 240, 178 := 47, 179 := 189, 180 := 52, 181 := 174, 182 := 229, 183 := 85,
      184 := 159, 185 := 186, 186 := 72, 191 := 92, 192 := 36, 193 := 71, 194 := 98, 200 := 134,
      201 := 205, 214 := 69, 215 := 101, 216 := 50, 217 := 202, 218 := 17, 219 := 162, 226 := 207
    ]

  /** getCrcExtraForId: the table's entry folded to a byte, 0 for an id the table lacks. */
  function CrcExtraForId(id: int): bv8
  {
    var checksum: bv16 := if id in CrcExtraTable then CrcExtraTable[id] as bv16 else 0;
    FoldToByte(checksum)
  }

  /** The fold getCrcExtraForId applies (and the parser applies once more)
      is the identity on the table: the seed is the listed entry, or 0. */
  lemma CrcExtraForIdIsEntry(id: int)
    ensures CrcExtraForId(id) == if id in CrcExtraTable then CrcExtraTable[id] else 0
    ensures FoldToByte(CrcExtraForId(id) as bv16) == CrcExtraForId(id)
  {
    if id in CrcExtraTable {
      FoldSmall(CrcExtraTable[id]);
    }
    FoldSmall(CrcExtraForId(id));
  }
}
