// The checksums of the secured transfers: CRC-32 as common/crc32.c computes it
// a bit at a time, and the CRC_A of ISO/IEC 14443-3 the legacy modes use.
module Crc {
  import opened Bytes

  function Crc32Bit(crc: bv32): bv32 {
    if crc & 1 != 0 then (crc >> 1) ^ 0xEDB88320 else crc >> 1
  }

  function Crc32Byte(crc: bv32, value: byte): bv32 {
    var c := crc ^ (value as bv32);
    Crc32Bit(Crc32Bit(Crc32Bit(Crc32Bit(Crc32Bit(Crc32Bit(Crc32Bit(Crc32Bit(c))))))))
  }

  function Crc32Run(crc: bv32, d: bytes): bv32 {
    if d == [] then crc else Crc32Byte(Crc32Run(crc, d[..|d| - 1]), d[|d| - 1])
  }

  // crc32_ex: least significant octet first
  function Crc32(d: bytes): (r: bytes)
    ensures |r| == 4
  {
    var c := Crc32Run(0xFFFF_FFFF, d);
    [(c & 0xFF) as byte, ((c >> 8) & 0xFF) as byte, ((c >> 16) & 0xFF) as byte, (c >> 24) as byte]
  }

  function Crc16Bit(crc: bv16): bv16 {
    if crc & 1 != 0 then (crc >> 1) ^ 0x8408 else crc >> 1
  }

  function Crc16Run(crc: bv16, d: bytes): bv16 {
    if d == [] then crc
    else
      var c := Crc16Run(crc, d[..|d| - 1]) ^ (d[|d| - 1] as bv16);
      Crc16Bit(Crc16Bit(Crc16Bit(Crc16Bit(Crc16Bit(Crc16Bit(Crc16Bit(Crc16Bit(c))))))))
  }

  function Crc16A(d: bytes): (r: bytes)
    ensures |r| == 2
  {
    var c := Crc16Run(0x6363, d);
    [(c & 0xFF) as byte, (c >> 8) as byte]
  }
}
