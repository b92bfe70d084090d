// The two-byte checkpoint header. Byte 0 holds the file format version; byte 1
// holds one bit per build option: bit 0 for the Fortran (column-major) array
// order, bit 1 for the MPI build. The header is a 16-bit unsigned value laid out
// little-endian, so byte 0 is its low byte and byte 1 its high byte. The build
// options are compile-time switches in the source; here they are parameters.

module Headers {
  /** checkpoint::Header, a std::uint16_t. */
  type Header = bv16

  /** CURRENT_CHECKPOINT_VERSION_NUMBER. */
  const CURRENT_CHECKPOINT_VERSION_NUMBER: bv8 := 1

  const FORTRAN_BIT: bv8 := 0x01
  const MPI_BIT: bv8 := 0x02

  /** The byte at address 0 of the header. */
  function FirstByte(h: Header): bv8
  {
    (h & 0xFF) as bv8
  }

  /** The byte at address 1 of the header. */
  function SecondByte(h: Header): bv8
  {
    (h >> 8) as bv8
  }

  /** The header whose two bytes are b0 and b1. */
  function FromBytes(b0: bv8, b1: bv8): (h: Header)
    ensures FirstByte(h) == b0 && SecondByte(h) == b1
  {
    (b1 as bv16 << 8) | b0 as bv16
  }

  /**
   * makeHeader(): byte 0 set to the current version and byte 1 built by OR-ing
   * in the bit of each build option that is on.
   */
  method MakeHeader(fortran: bool, mpi: bool) returns (out: Header)
    ensures GetVersionNumber(out) == CURRENT_CHECKPOINT_VERSION_NUMBER
    ensures IsFortranBuild(out) == fortran && IsMPIBuild(out) == mpi
    ensures SecondByte(out) & 0xFC == 0
  {
    var firstByte: bv8 := CURRENT_CHECKPOINT_VERSION_NUMBER;
    var secondByte: bv8 := 0;
    if fortran {
      secondByte := secondByte | FORTRAN_BIT;
    } else {
      secondByte := secondByte | 0;
    }
    if mpi {
      secondByte := secondByte | MPI_BIT;
    } else {
      secondByte := secondByte | 0;
    }
    out := FromBytes(firstByte, secondByte);
  }

  /** getVersionNumber(header): byte 0, the low byte; with byte 1 it makes up the header again. */
  function GetVersionNumber(h: Header): (r: bv8)
    ensures FromBytes(r, SecondByte(h)) == h
  {
    FirstByte(h)
  }

  /** isFortranBuild(header): bit 0 of byte 1, that is bit 8 of the header. */
  function IsFortranBuild(h: Header): (r: bool)
    ensures r <==> h & 0x0100 != 0
  {
    SecondByte(h) & FORTRAN_BIT != 0
  }

  /** isMPIBuild(header): bit 1 of byte 1, that is bit 9 of the header. */
  function IsMPIBuild(h: Header): (r: bool)
    ensures r <==> h & 0x0200 != 0
  {
    SecondByte(h) & MPI_BIT != 0
  }

  /** The version is read from byte 0 alone: changing byte 1 never changes it. */
  lemma VersionIgnoresSecondByte(h: Header, b1: bv8)
    ensures GetVersionNumber(FromBytes(FirstByte(h), b1)) == GetVersionNumber(h)
  {
  }

  /** Each build flag is read from its own bit alone: changing any other bit keeps it. */
  lemma FlagsIgnoreOtherBits(h: Header, x: Header)
    ensures x & 0x0100 == 0 ==> IsFortranBuild(h ^ x) == IsFortranBuild(h)
    ensures x & 0x0200 == 0 ==> IsMPIBuild(h ^ x) == IsMPIBuild(h)
  {
  }
}
