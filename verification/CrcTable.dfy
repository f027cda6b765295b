/** The checksum table of `calculate_checksum` and `crc32`. The repository holds it twice, entry for
    entry the same; it is stated once here, in sixteen rows of sixteen. Every entry is proved to be
    eight bit-steps of its index, so no entry is taken on trust. */
module CrcTable {

  /** The generator polynomial of section 8 of RFC 1952, least significant bit first. */
  const POLYNOMIAL: bv32 := 0xEDB88320

  /** One step of the bit-serial division: shift the register right, and subtract the polynomial
      when a one falls out. */
  function BitStep(c: bv32): bv32 {
    if c & 1 == 1 then (c >> 1) ^ POLYNOMIAL else c >> 1
  }

  function ByteSteps(c: bv32): bv32 {
    BitStep(BitStep(BitStep(BitStep(BitStep(BitStep(BitStep(BitStep(c))))))))
  }

  function Row0(i: bv8): (entry: bv32)
    requires 0 <= i <= 15
    ensures entry == ByteSteps(i as bv32)
  {
    if i == 0 then 0x00000000 else if i == 1 then 0x77073096 else
    if i == 2 then 0xEE0E612C else if i == 3 then 0x990951BA else
    if i == 4 then 0x076DC419 else if i == 5 then 0x706AF48F else
    if i == 6 then 0xE963A535 else if i == 7 then 0x9E6495A3 else
    if i == 8 then 0x0EDB8832 else if i == 9 then 0x79DCB8A4 else
    if i == 10 then 0xE0D5E91E else if i == 11 then 0x97D2D988 else
    if i == 12 then 0x09B64C2B else if i == 13 then 0x7EB17CBD else
    if i == 14 then 0xE7B82D07 else 0x90BF1D91
  }

  function Row1(i: bv8): (entry: bv32)
    requires 16 <= i <= 31
    ensures entry == ByteSteps(i as bv32)
  {
    if i == 16 then 0x1DB71064 else if i == 17 then 0x6AB020F2 else
    if i == 18 then 0xF3B97148 else if i == 19 then 0x84BE41DE else
    if i == 20 then 0x1ADAD47D else if i == 21 then 0x6DDDE4EB else
    if i == 22 then 0xF4D4B551 else if i == 23 then 0x83D385C7 else
    if i == 24 then 0x136C9856 else if i == 25 then 0x646BA8C0 else
    if i == 26 then 0xFD62F97A else if i == 27 then 0x8A65C9EC else
    if i == 28 then 0x14015C4F else if i == 29 then 0x63066CD9 else
    if i == 30 then 0xFA0F3D63 else 0x8D080DF5
  }

  function Row2(i: bv8): (entry: bv32)
    requires 32 <= i <= 47
    ensures entry == ByteSteps(i as bv32)
  {
    if i == 32 then 0x3B6E20C8 else if i == 33 then 0x4C69105E else
    if i == 34 then 0xD56041E4 else if i == 35 then 0xA2677172 else
    if i == 36 then 0x3C03E4D1 else if i == 37 then 0x4B04D447 else
    if i == 38 then 0xD20D85FD else if i == 39 then 0xA50AB56B else
    if i == 40 then 0x35B5A8FA else if i == 41 then 0x42B2986C else
    if i == 42 then 0xDBBBC9D6 else if i == 43 then 0xACBCF940 else
    if i == 44 then 0x32D86CE3 else if i == 45 then 0x45DF5C75 else
    if i == 46 then 0xDCD60DCF else 0xABD13D59
  }

  function Row3(i: bv8): (entry: bv32)
    requires 48 <= i <= 63
    ensures entry == ByteSteps(i as bv32)
  {
    if i == 48 then 0x26D930AC else if i == 49 then 0x51DE003A else
    if i == 50 then 0xC8D75180 else if i == 51 then 0xBFD06116 else
    if i == 52 then 0x21B4F4B5 else if i == 53 then 0x56B3C423 else
    if i == 54 then 0xCFBA9599 else if i == 55 then 0xB8BDA50F else
    if i == 56 then 0x2802B89E else if i == 57 then 0x5F058808 else
    if i == 58 then 0xC60CD9B2 else if i == 59 then 0xB10BE924 else
    if i == 60 then 0x2F6F7C87 else if i == 61 then 0x58684C11 else
    if i == 62 then 0xC1611DAB else 0xB6662D3D
  }

  function Row4(i: bv8): (entry: bv32)
    requires 64 <= i <= 79
    ensures entry == ByteSteps(i as bv32)
  {
    if i == 64 then 0x76DC4190 else if i == 65 then 0x01DB7106 else
    if i == 66 then 0x98D220BC else if i == 67 then 0xEFD5102A else
    if i == 68 then 0x71B18589 else if i == 69 then 0x06B6B51F else
    if i == 70 then 0x9FBFE4A5 else if i == 71 then 0xE8B8D433 else
    if i == 72 then 0x7807C9A2 else if i == 73 then 0x0F00F934 else
    if i == 74 then 0x9609A88E else if i == 75 then 0xE10E9818 else
    if i == 76 then 0x7F6A0DBB else if i == 77 then 0x086D3D2D else
    if i == 78 then 0x91646C97 else 0xE6635C01
  }

  function Row5(i: bv8): (entry: bv32)
    requires 80 <= i <= 95
    ensures entry == ByteSteps(i as bv32)
  {
    if i == 80 then 0x6B6B51F4 else if i == 81 then 0x1C6C6162 else
    if i == 82 then 0x856530D8 else if i == 83 then 0xF262004E else
    if i == 84 then 0x6C0695ED else if i == 85 then 0x1B01A57B else
    if i == 86 then 0x8208F4C1 else if i == 87 then 0xF50FC457 else
    if i == 88 then 0x65B0D9C6 else if i == 89 then 0x12B7E950 else
    if i == 90 then 0x8BBEB8EA else if i == 91 then 0xFCB9887C else
    if i == 92 then 0x62DD1DDF else if i == 93 then 0x15DA2D49 else
    if i == 94 then 0x8CD37CF3 else 0xFBD44C65
  }

  function Row6(i: bv8): (entry: bv32)
    requires 96 <= i <= 111
    ensures entry == ByteSteps(i as bv32)
  {
    if i == 96 then 0x4DB26158 else if i == 97 then 0x3AB551CE else
    if i == 98 then 0xA3BC0074 else if i == 99 then 0xD4BB30E2 else
    if i == 100 then 0x4ADFA541 else if i == 101 then 0x3DD895D7 else
    if i == 102 then 0xA4D1C46D else if i == 103 then 0xD3D6F4FB else
    if i == 104 then 0x4369E96A else if i == 105 then 0x346ED9FC else
    if i == 106 then 0xAD678846 else if i == 107 then 0xDA60B8D0 else
    if i == 108 then 0x44042D73 else if i == 109 then 0x33031DE5 else
    if i == 110 then 0xAA0A4C5F else 0xDD0D7CC9
  }

  function Row7(i: bv8): (entry: bv32)
    requires 112 <= i <= 127
    ensures entry == ByteSteps(i as bv32)
  {
    if i == 112 then 0x5005713C else if i == 113 then 0x270241AA else
    if i == 114 then 0xBE0B1010 else if i == 115 then 0xC90C2086 else
    if i == 116 then 0x5768B525 else if i == 117 then 0x206F85B3 else
    if i == 118 then 0xB966D409 else if i == 119 then 0xCE61E49F else
    if i == 120 then 0x5EDEF90E else if i == 121 then 0x29D9C998 else
    if i == 122 then 0xB0D09822 else if i == 123 then 0xC7D7A8B4 else
    if i == 124 then 0x59B33D17 else if i == 125 then 0x2EB40D81 else
    if i == 126 then 0xB7BD5C3B else 0xC0BA6CAD
  }

  function Row8(i: bv8): (entry: bv32)
    requires 128 <= i <= 143
    ensures entry == ByteSteps(i as bv32)
  {
    if i == 128 then 0xEDB88320 else if i == 129 then 0x9ABFB3B6 else
    if i == 130 then 0x03B6E20C else if i == 131 then 0x74B1D29A else
    if i == 132 then 0xEAD54739 else if i == 133 then 0x9DD277AF else
    if i == 134 then 0x04DB2615 else if i == 135 then 0x73DC1683 else
    if i == 136 then 0xE3630B12 else if i == 137 then 0x94643B84 else
    if i == 138 then 0x0D6D6A3E else if i == 139 then 0x7A6A5AA8 else
    if i == 140 then 0xE40ECF0B else if i == 141 then 0x9309FF9D else
    if i == 142 then 0x0A00AE27 else 0x7D079EB1
  }

  function Row9(i: bv8): (entry: bv32)
    requires 144 <= i <= 159
    ensures entry == ByteSteps(i as bv32)
  {
    if i == 144 then 0xF00F9344 else if i == 145 then 0x8708A3D2 else
    if i == 146 then 0x1E01F268 else if i == 147 then 0x6906C2FE else
    if i == 148 then 0xF762575D else if i == 149 then 0x806567CB else
    if i == 150 then 0x196C3671 else if i == 151 then 0x6E6B06E7 else
    if i == 152 then 0xFED41B76 else if i == 153 then 0x89D32BE0 else
    if i == 154 then 0x10DA7A5A else if i == 155 then 0x67DD4ACC else
    if i == 156 then 0xF9B9DF6F else if i == 157 then 0x8EBEEFF9 else
    if i == 158 then 0x17B7BE43 else 0x60B08ED5
  }

  function Row10(i: bv8): (entry: bv32)
    requires 160 <= i <= 175
    ensures entry == ByteSteps(i as bv32)
  {
    if i == 160 then 0xD6D6A3E8 else if i == 161 then 0xA1D1937E else
    if i == 162 then 0x38D8C2C4 else if i == 163 then 0x4FDFF252 else
    if i == 164 then 0xD1BB67F1 else if i == 165 then 0xA6BC5767 else
    if i == 166 then 0x3FB506DD else if i == 167 then 0x48B2364B else
    if i == 168 then 0xD80D2BDA else if i == 169 then 0xAF0A1B4C else
    if i == 170 then 0x36034AF6 else if i == 171 then 0x41047A60 else
    if i == 172 then 0xDF60EFC3 else if i == 173 then 0xA867DF55 else
    if i == 174 then 0x316E8EEF else 0x4669BE79
  }

  function Row11(i: bv8): (entry: bv32)
    requires 176 <= i <= 191
    ensures entry == ByteSteps(i as bv32)
  {
    if i == 176 then 0xCB61B38C else if i == 177 then 0xBC66831A else
    if i == 178 then 0x256FD2A0 else if i == 179 then 0x5268E236 else
    if i == 180 then 0xCC0C7795 else if i == 181 then 0xBB0B4703 else
    if i == 182 then 0x220216B9 else if i == 183 then 0x5505262F else
    if i == 184 then 0xC5BA3BBE else if i == 185 then 0xB2BD0B28 else
    if i == 186 then 0x2BB45A92 else if i == 187 then 0x5CB36A04 else
    if i == 188 then 0xC2D7FFA7 else if i == 189 then 0xB5D0CF31 else
    if i == 190 then 0x2CD99E8B else 0x5BDEAE1D
  }

  function Row12(i: bv8): (entry: bv32)
    requires 192 <= i <= 207
    ensures entry == ByteSteps(i as bv32)
  {
    if i == 192 then 0x9B64C2B0 else if i == 193 then 0xEC63F226 else
    if i == 194 then 0x756AA39C else if i == 195 then 0x026D930A else
    if i == 196 then 0x9C0906A9 else if i == 197 then 0xEB0E363F else
    if i == 198 then 0x72076785 else if i == 199 then 0x05005713 else
    if i == 200 then 0x95BF4A82 else if i == 201 then 0xE2B87A14 else
    if i == 202 then 0x7BB12BAE else if i == 203 then 0x0CB61B38 else
    if i == 204 then 0x92D28E9B else if i == 205 then 0xE5D5BE0D else
    if i == 206 then 0x7CDCEFB7 else 0x0BDBDF21
  }

  function Row13(i: bv8): (entry: bv32)
    requires 208 <= i <= 223
    ensures entry == ByteSteps(i as bv32)
  {
    if i == 208 then 0x86D3D2D4 else if i == 209 then 0xF1D4E242 else
    if i == 210 then 0x68DDB3F8 else if i == 211 then 0x1FDA836E else
    if i == 212 then 0x81BE16CD else if i == 213 then 0xF6B9265B else
    if i == 214 then 0x6FB077E1 else if i == 215 then 0x18B74777 else
    if i == 216 then 0x88085AE6 else if i == 217 then 0xFF0F6A70 else
    if i == 218 then 0x66063BCA else if i == 219 then 0x11010B5C else
    if i == 220 then 0x8F659EFF else if i == 221 then 0xF862AE69 else
    if i == 222 then 0x616BFFD3 else 0x166CCF45
  }

  function Row14(i: bv8): (entry: bv32)
    requires 224 <= i <= 239
    ensures entry == ByteSteps(i as bv32)
  {
    if i == 224 then 0xA00AE278 else if i == 225 then 0xD70DD2EE else
    if i == 226 then 0x4E048354 else if i == 227 then 0x3903B3C2 else
    if i == 228 then 0xA7672661 else if i == 229 then 0xD06016F7 else
    if i == 230 then 0x4969474D else if i == 231 then 0x3E6E77DB else
    if i == 232 then 0xAED16A4A else if i == 233 then 0xD9D65ADC else
    if i == 234 then 0x40DF0B66 else if i == 235 then 0x37D83BF0 else
    if i == 236 then 0xA9BCAE53 else if i == 237 then 0xDEBB9EC5 else
    if i == 238 then 0x47B2CF7F else 0x30B5FFE9
  }

  function Row15(i: bv8): (entry: bv32)
    requires 240 <= i <= 255
    ensures entry == ByteSteps(i as bv32)
  {
    if i == 240 then 0xBDBDF21C else if i == 241 then 0xCABAC28A else
    if i == 242 then 0x53B39330 else if i == 243 then 0x24B4A3A6 else
    if i == 244 then 0xBAD03605 else if i == 245 then 0xCDD70693 else
    if i == 246 then 0x54DE5729 else if i == 247 then 0x23D967BF else
    if i == 248 then 0xB3667A2E else if i == 249 then 0xC4614AB8 else
    if i == 250 then 0x5D681B02 else if i == 251 then 0x2A6F2B94 else
    if i == 252 then 0xB40BBE37 else if i == 253 then 0xC30C8EA1 else
    if i == 254 then 0x5A05DF1B else 0x2D02EF8D
  }

  /** `crc_table[i]`. */
  function TableEntry(i: bv8): (entry: bv32)
    ensures entry == ByteSteps(i as bv32)
  {
    if i <= 15 then Row0(i) else
    if i <= 31 then Row1(i) else
    if i <= 47 then Row2(i) else
    if i <= 63 then Row3(i) else
    if i <= 79 then Row4(i) else
    if i <= 95 then Row5(i) else
    if i <= 111 then Row6(i) else
    if i <= 127 then Row7(i) else
    if i <= 143 then Row8(i) else
    if i <= 159 then Row9(i) else
    if i <= 175 then Row10(i) else
    if i <= 191 then Row11(i) else
    if i <= 207 then Row12(i) else
    if i <= 223 then Row13(i) else
    if i <= 239 then Row14(i) else
    Row15(i)
  }
}
