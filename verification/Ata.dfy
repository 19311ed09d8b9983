/** Sector transfers over the 16-bit data port. */
module Ata {
  import opened Bytes

  const WORDS := 256
  const SECTOR := 512

  type Sector = w: seq<u16> | |w| == WORDS witness seq(WORDS, _ => 0)

  const ZeroSector: Sector := seq(WORDS, _ => 0)

  /** The words that cross the port for the first 512 bytes of a buffer. */
  function ToWords(b: seq<u8>): Sector
    requires |b| >= SECTOR
  {
    seq(WORDS, i requires 0 <= i < WORDS => Get16(b, 2 * i))
  }

  function ToBytes(w: Sector): (b: seq<u8>)
    ensures |b| == SECTOR
  {
    seq(SECTOR, i requires 0 <= i < SECTOR => if i % 2 == 0 then w[i / 2] % 0x100 else w[i / 2] / 0x100)
  }

  /** Packing into words loses nothing. */
  lemma Unpacked(b: seq<u8>)
    requires |b| >= SECTOR
    ensures ToBytes(ToWords(b)) == b[..SECTOR]
  {
    forall i | 0 <= i < SECTOR
      ensures ToBytes(ToWords(b))[i] == b[i]
    {
      assert i == 2 * (i / 2) + i % 2;
    }
  }

  class Drive {
    /** The sectors ever written; all others are zero. */
    var sectors: map<nat, Sector>

    constructor ()
      ensures sectors == map[]
    {
      sectors := map[];
    }

    /** The drive sees 28 bits of the address. */
    static function Address(lba: u32): nat { lba % 0x1000_0000 }

    function Stored(lba: u32): Sector
      reads this
    {
      if Address(lba) in sectors then sectors[Address(lba)] else ZeroSector
    }

    /** `ata_write_sector` */
    method WriteSector(lba: u32, buffer: array<u8>)
      requires buffer.Length >= SECTOR
      modifies this
      ensures sectors == old(sectors)[Address(lba) := ToWords(buffer[..])]
      ensures lba % 0x1000_0000 in sectors && forall i | 0 <= i < 256 ::
                sectors[lba % 0x1000_0000][i] == buffer[2 * i] as int + 256 * buffer[2 * i + 1] as int
    {
      var port: seq<u16> := [];
      for i := 0 to WORDS
        invariant |port| == i && forall j | 0 <= j < i :: port[j] == Get16(buffer[..], 2 * j)
      {
        port := port + [buffer[i * 2] as int + 0x100 * buffer[i * 2 + 1] as int];
      }
      assert port == ToWords(buffer[..]);
      sectors := sectors[Address(lba) := port];
    }

    /** `ata_read_sector` */
    method ReadSector(lba: u32, buffer: array<u8>)
      requires buffer.Length == SECTOR
      modifies buffer
      ensures buffer[..] == ToBytes(Stored(lba))
      ensures forall i | 0 <= i < 256 ::
                buffer[2 * i] as int + 256 * buffer[2 * i + 1] as int
                == if lba % 0x1000_0000 in sectors then sectors[lba % 0x1000_0000][i] else 0
    {
      var port := Stored(lba);
      for i := 0 to WORDS
        invariant forall j | 0 <= j < 2 * i :: buffer[j] == ToBytes(port)[j]
      {
        buffer[i * 2] := port[i] % 0x100;
        buffer[i * 2 + 1] := port[i] / 0x100;
      }
      assert forall i | 0 <= i < 256 :: buffer[2 * i] == port[i] % 0x100 && buffer[2 * i + 1] == port[i] / 0x100;
    }
  }
}
