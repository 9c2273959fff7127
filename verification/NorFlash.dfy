/**
 NOR flash as the drivers see it: an erase sets every bit of a sector, a write
 can only clear bits.
 */
module NorFlash {
  import opened Common

  const SECTOR: nat := 4096
  const PAGE: nat := 256

  function Erased(n: nat): Bytes { seq(n, _ => 0xFF) }

  type Sector = s: Bytes | |s| == SECTOR witness Erased(SECTOR)

  function Program(mem: Bytes, at: nat, data: Bytes): (r: Bytes)
    requires at + |data| <= |mem|
    ensures |r| == |mem|
  {
    seq(|mem|, i requires 0 <= i < |mem| => if at <= i < at + |data| then mem[i] & data[i - at] else mem[i])
  }

  function Erase(mem: Bytes, at: nat): (r: Bytes)
    requires at + SECTOR <= |mem|
    ensures |r| == |mem|
  {
    mem[..at] + Erased(SECTOR) + mem[at + SECTOR..]
  }

  lemma AllOnes(b: Byte)
    ensures 0xFF & b == b
  {}

  /** Only onto erased bytes does a write store what it is given. */
  lemma ProgramOnErased(mem: Bytes, at: nat, data: Bytes)
    requires at + |data| <= |mem|
    requires forall i :: at <= i < at + |data| ==> mem[i] == 0xFF
    ensures Program(mem, at, data) == mem[..at] + data + mem[at + |data|..]
  {
    forall i | 0 <= i < |mem|
      ensures Program(mem, at, data)[i] == (mem[..at] + data + mem[at + |data|..])[i]
    {
      if at <= i < at + |data| { AllOnes(data[i - at]); }
    }
  }

  lemma SectorRemainder(at: nat, sectors: nat, rest: nat)
    requires at == SECTOR * sectors + rest && rest < SECTOR
    ensures at % SECTOR == rest
  {
    var q := at / SECTOR;
    assert at == SECTOR * q + at % SECTOR;
    assert q == sectors;
  }

  lemma PageRemainder(at: nat, pages: nat, rest: nat)
    requires at == PAGE * pages + rest && rest < PAGE
    ensures at % PAGE == rest
  {
    var q := at / PAGE;
    assert at == PAGE * q + at % PAGE;
    assert q == pages;
  }
}
