/** The two checksums of the repository side by side: the vendor variant
    `Ens160._crc8` of ens160sciosense.py and the textbook `crc8` of
    sensor_pack/crc_mod.py are different functions. */
module CrcComparison {
  import opened Bits
  import Ens160Crc
  import CrcMod

  /** On the single byte 0x01, with the driver's polynomial 0x1D and seed 0,
      the vendor variant gives 0x01 and the textbook CRC-8 gives 0x1D. */
  lemma DiffersFromTextbookCrc8()
    ensures Ens160Crc.Crc8([0x01], Ens160Crc.Poly, 0) == 0x01
    ensures CrcMod.Crc8([0x01], Ens160Crc.Poly as int, 0) == 0x1D
  {
    LowOfByte(0x00);
    LowOfByte(Ens160Crc.Poly);
    CrcMod.MaskedOfBytes([0x01], [0x01]);
    CrcMod.FeedValue(0x00, 0x01, Ens160Crc.Poly, 0x1D);
  }
}
