/** Writing NOR flash: programming can only clear bits and erasing sets a whole sector, so a
    write reads the sector back, erases it when some bit must be set, and programs it again. */
module Flash {
  import opened Arrays
  import opened Bits

  type Byte = bv8

  const PAGE_SIZE: nat := 256
  const SECTOR_SIZE: nat := 4096
  const PAGES_PER_SECTOR: nat := 16
  /** A command carries 24 address bits, so a chip has at most so many bytes. */
  const ADDRESS_SPACE: nat := 0x100_0000

  // ---------- the chip ----------

  function SectorOf(addr: nat): (s: nat)
    ensures s <= addr < s + SECTOR_SIZE
  {
    addr - addr % SECTOR_SIZE
  }

  /** Memory with the sector of an address set to ones. */
  function EraseSector(mem: seq<Byte>, addr: nat): (r: seq<Byte>)
    ensures |r| == |mem|
    ensures forall j :: 0 <= j < |mem| ==>
      r[j] == if SectorOf(addr) <= j < SectorOf(addr) + SECTOR_SIZE then 0xFF else mem[j]
  {
    seq(|mem|, j requires 0 <= j < |mem| =>
      if SectorOf(addr) <= j < SectorOf(addr) + SECTOR_SIZE then 0xFF else mem[j])
  }

  /** The place in data of the byte that is programmed at j: addresses wrap within the page. */
  function PagePlace(addr: nat, j: nat): (k: nat)
    ensures k < PAGE_SIZE
  {
    (j + PAGE_SIZE - addr % PAGE_SIZE) % PAGE_SIZE
  }

  /** Memory with a page programmed: every bit that is zero in the data is cleared. */
  function ProgramPage(mem: seq<Byte>, addr: nat, data: seq<Byte>): (r: seq<Byte>)
    requires |data| <= PAGE_SIZE
    ensures |r| == |mem|
    ensures forall j :: 0 <= j < |mem| ==>
      r[j] == (if j / PAGE_SIZE == addr / PAGE_SIZE && PagePlace(addr, j) < |data| then mem[j] & data[PagePlace(addr, j)] else mem[j])
  {
    seq(|mem|, j requires 0 <= j < |mem| =>
      if j / PAGE_SIZE == addr / PAGE_SIZE && PagePlace(addr, j) < |data| then mem[j] & data[PagePlace(addr, j)] else mem[j])
  }

  /** A flash chip. It obeys a program or erase command only when it is idle and the write
      enable latch is set; the command clears the latch and keeps the chip busy. */
  class Chip {
    var mem: seq<Byte>
    var wel: bool
    /** How many more polls find the chip busy. */
    var busy: nat
    /** The sectors erased so far, and whether any command was ever refused. */
    ghost var erased: seq<nat>
    ghost var refused: bool

    method WriteEnable()
      modifies `wel, `refused
      ensures wel == (busy == 0 || old(wel))
      ensures refused == (old(refused) || busy != 0)
    {
      if busy == 0 {
        wel := true;
      } else {
        refused := true;
      }
    }

    method SectorErase(addr: nat)
      modifies this
      ensures if old(busy) == 0 && old(wel) then
                mem == EraseSector(old(mem), addr) && !wel && erased == old(erased) + [SectorOf(addr)] && refused == old(refused)
              else refused && mem == old(mem) && wel == old(wel) && busy == old(busy) && erased == old(erased)
    {
      if busy == 0 && wel {
        mem, wel, busy := EraseSector(mem, addr), false, *;
        erased := erased + [SectorOf(addr)];
      } else {
        refused := true;
      }
    }

    method PageProgram(addr: nat, data: seq<Byte>)
      requires |data| <= PAGE_SIZE
      modifies `mem, `wel, `busy, `refused
      ensures if old(busy) == 0 && old(wel) then
                mem == ProgramPage(old(mem), addr, data) && !wel && refused == old(refused)
              else refused && mem == old(mem) && wel == old(wel) && busy == old(busy)
    {
      if busy == 0 && wel {
        mem, wel, busy := ProgramPage(mem, addr, data), false, *;
      } else {
        refused := true;
      }
    }

    /** The busy bit of the status register. */
    method ReadStatus() returns (isBusy: bool)
      modifies `busy
      ensures isBusy == (old(busy) > 0) && busy == if old(busy) > 0 then old(busy) - 1 else 0
    {
      isBusy := busy > 0;
      if busy > 0 {
        busy := busy - 1;
      }
    }

    method Read(addr: nat, n: nat) returns (data: seq<Byte>)
      requires addr + n <= |mem|
      modifies `refused
      ensures |data| == n && refused == (old(refused) || busy != 0)
      ensures busy == 0 ==> data == mem[addr..addr + n]
    {
      if busy == 0 {
        data := mem[addr..addr + n];
      } else {
        data := seq(n, _ => 0);
        refused := true;
      }
    }
  }

  // ---------- single commands ----------

  method WaitIdle(chip: Chip)
    modifies chip`busy
    ensures chip.busy == 0
  {
    var isBusy := chip.ReadStatus();
    while isBusy
      invariant !isBusy ==> chip.busy == 0
      decreases chip.busy, isBusy
    {
      isBusy := chip.ReadStatus();
    }
  }

  /** The address that the three address bytes of a command make up. */
  function Addressed(addr: nat): (a: nat)
    ensures a < ADDRESS_SPACE && (addr < ADDRESS_SPACE ==> a == addr)
  {
    var low, middle, high := addr % 256, addr / 256 % 256, addr / 0x1_0000 % 256;
    assert addr == 256 * (addr / 256) + low && addr / 256 == 256 * (addr / 256 / 256) + middle;
    assert addr / 256 / 256 == addr / 0x1_0000;
    0x1_0000 * high + 256 * middle + low
  }

  /** Sets the latch and erases; the chip may be busy afterwards. */
  method SectorEraseDma(chip: Chip, addr: nat)
    requires chip.busy == 0 && addr < ADDRESS_SPACE
    modifies chip
    ensures chip.mem == EraseSector(old(chip.mem), addr) && chip.erased == old(chip.erased) + [SectorOf(addr)]
    ensures chip.refused == old(chip.refused)
  {
    chip.WriteEnable();
    chip.SectorErase(Addressed(addr));
  }

  /** Sets the latch, programs, and waits. */
  method PageProgramDma(chip: Chip, addr: nat, data: seq<Byte>)
    requires chip.busy == 0 && |data| <= PAGE_SIZE && addr < ADDRESS_SPACE
    modifies chip`mem, chip`wel, chip`busy, chip`refused
    ensures chip.mem == ProgramPage(old(chip.mem), addr, data) && chip.busy == 0 && chip.refused == old(chip.refused)
  {
    chip.WriteEnable();
    chip.PageProgram(Addressed(addr), data);
    WaitIdle(chip);
  }

  method ReadData(chip: Chip, addr: nat, n: nat) returns (data: seq<Byte>)
    requires chip.busy == 0 && addr + n <= |chip.mem| <= ADDRESS_SPACE && addr < ADDRESS_SPACE
    modifies chip`refused
    ensures data == chip.mem[addr..addr + n] && chip.refused == old(chip.refused)
  {
    data := chip.Read(Addressed(addr), n);
  }

  /** Memory with the bytes from addr on and-ed with data. */
  function AndAt(mem: seq<Byte>, addr: nat, data: seq<Byte>): (r: seq<Byte>)
    ensures |r| == |mem|
    ensures forall j :: 0 <= j < |mem| ==> r[j] == if addr <= j < addr + |data| then mem[j] & data[j - addr] else mem[j]
  {
    seq(|mem|, j requires 0 <= j < |mem| => if addr <= j < addr + |data| then mem[j] & data[j - addr] else mem[j])
  }

  /** Programming whole pages from a page boundary on does not wrap. */
  lemma {:induction false} PageIsRange(mem: seq<Byte>, addr: nat, data: seq<Byte>)
    requires addr % PAGE_SIZE == 0 && |data| == PAGE_SIZE
    ensures ProgramPage(mem, addr, data) == AndAt(mem, addr, data)
  {
    forall j | 0 <= j < |mem| ensures ProgramPage(mem, addr, data)[j] == AndAt(mem, addr, data)[j] {
      assert j / PAGE_SIZE == addr / PAGE_SIZE <==> addr <= j < addr + PAGE_SIZE;
      if addr <= j < addr + PAGE_SIZE { assert PagePlace(addr, j) == j - addr; }
    }
  }

  lemma {:induction false} AndNext(mem: seq<Byte>, addr: nat, data: seq<Byte>, n: nat, m: nat)
    requires n <= m <= |data|
    ensures AndAt(AndAt(mem, addr, data[..n]), addr + n, data[n..m]) == AndAt(mem, addr, data[..m])
  {
    var first, chunk, all := AndAt(mem, addr, data[..n]), data[n..m], AndAt(mem, addr, data[..m]);
    forall j | 0 <= j < |mem| ensures AndAt(first, addr + n, chunk)[j] == all[j] {
      if addr <= j < addr + n {
        assert data[..n][j - addr] == data[..m][j - addr];
      } else if addr + n <= j < addr + m {
        assert chunk[j - (addr + n)] == data[..m][j - addr];
      }
    }
  }

  /** Programs a whole sector page by page. */
  method SectorProgram(chip: Chip, addr0: nat, buf: seq<Byte>)
    requires chip.busy == 0 && addr0 % PAGE_SIZE == 0 && |buf| == SECTOR_SIZE && addr0 + SECTOR_SIZE <= ADDRESS_SPACE
    modifies chip`mem, chip`wel, chip`busy, chip`refused
    ensures chip.mem == AndAt(old(chip.mem), addr0, buf) && chip.busy == 0 && chip.refused == old(chip.refused)
  {
    var addr, done := addr0, 0;
    var index := 0;
    ghost var was := chip.mem;
    assert AndAt(was, addr0, buf[..0]) == was;
    while index < PAGES_PER_SECTOR
      invariant 0 <= index <= PAGES_PER_SECTOR && done == PAGE_SIZE * index && addr == addr0 + done && addr % PAGE_SIZE == 0
      invariant chip.busy == 0 && chip.refused == old(chip.refused)
      invariant chip.mem == AndAt(was, addr0, buf[..done])
    {
      PageOfSector(chip, addr, buf, done, was, addr0);
      addr, done := addr + PAGE_SIZE, done + PAGE_SIZE;
      index := index + 1;
    }
    assert buf[..done] == buf;
  }

  /** Programs the page of a sector that comes next. */
  method PageOfSector(chip: Chip, addr: nat, buf: seq<Byte>, done: nat, ghost was: seq<Byte>, ghost addr0: nat)
    requires chip.busy == 0 && addr == addr0 + done < ADDRESS_SPACE && addr % PAGE_SIZE == 0 && done + PAGE_SIZE <= |buf|
    requires chip.mem == AndAt(was, addr0, buf[..done])
    modifies chip`mem, chip`wel, chip`busy, chip`refused
    ensures chip.mem == AndAt(was, addr0, buf[..done + PAGE_SIZE]) && chip.busy == 0 && chip.refused == old(chip.refused)
  {
    var page := buf[done..done + PAGE_SIZE];
    PageIsRange(chip.mem, addr, page);
    AndNext(was, addr0, buf, done, done + PAGE_SIZE);
    PageProgramDma(chip, addr, page);
  }

  // ---------- writing ----------

  /** Memory with the bytes from addr on replaced by data. */
  function Overlay(mem: seq<Byte>, addr: nat, data: seq<Byte>): (r: seq<Byte>)
    requires addr + |data| <= |mem|
    ensures |r| == |mem|
    ensures forall j :: 0 <= j < |mem| ==> r[j] == if addr <= j < addr + |data| then data[j - addr] else mem[j]
  {
    mem[..addr] + data + mem[addr + |data|..]
  }

  /** Some bit of the data is one where the memory has a zero. */
  predicate NeedsErase(mem: seq<Byte>, addr: nat, data: seq<Byte>)
    requires addr + |data| <= |mem|
  {
    exists i :: 0 <= i < |data| && data[i] != data[i] & mem[addr + i]
  }

  /** How many of the bytes that are left to write from addr on lie in its sector. */
  function ChunkLength(addr: nat, length: nat): (n: nat)
    ensures n <= length && n <= SECTOR_SIZE && (length > 0 ==> n > 0)
  {
    var remain := SECTOR_SIZE - addr % SECTOR_SIZE;
    if length < remain then length else remain
  }

  /** The sectors that a write must erase, in order. */
  ghost function MustErase(mem: seq<Byte>, addr: nat, data: seq<Byte>): seq<nat>
    requires addr + |data| <= |mem|
    decreases |data|
  {
    if data == [] then []
    else
      var n := ChunkLength(addr, |data|);
      (if NeedsErase(mem, addr, data[..n]) then [SectorOf(addr)] else []) + MustErase(mem, addr + n, data[n..])
  }

  /** Only the memory that is written decides what must be erased. */
  lemma {:induction false} MustEraseLocal(mem: seq<Byte>, mem': seq<Byte>, addr: nat, data: seq<Byte>)
    requires addr + |data| <= |mem| == |mem'| && mem[addr..] == mem'[addr..]
    ensures MustErase(mem, addr, data) == MustErase(mem', addr, data)
    decreases |data|
  {
    if data != [] {
      var n := ChunkLength(addr, |data|);
      forall j | addr <= j < addr + n ensures mem[j] == mem'[j] {
        assert mem[addr..][j - addr] == mem'[addr..][j - addr];
      }
      assert mem[addr + n..] == mem[addr..][n..];
      assert mem'[addr + n..] == mem'[addr..][n..];
      MustEraseLocal(mem, mem', addr + n, data[n..]);
    }
  }

  /** The byte has a one where there is a zero. */
  predicate NewOne(byte: Byte, was: Byte) {
    byte & !was != 0
  }

  lemma NewOneIs(byte: Byte, was: Byte)
    ensures NewOne(byte, was) <==> byte != byte & was
  {
  }

  predicate SetsAt(mem: seq<Byte>, addr: nat, data: seq<Byte>, s: nat, i: nat) {
    i < |data| && addr + i < |mem| && s <= addr + i < s + 4096 && NewOne(data[i], mem[addr + i])
  }

  /** Some bit that must be set lies in the sector at s. */
  ghost predicate MustSet(mem: seq<Byte>, addr: nat, data: seq<Byte>, s: nat) {
    exists i: nat :: SetsAt(mem, addr, data, s, i)
  }

  /** A chunk ends with its sector or with the data. */
  lemma ChunkEnds(addr: nat, length: nat, n: nat)
    requires n == ChunkLength(addr, length) && length > 0
    ensures SectorOf(addr) % 4096 == 0 && SectorOf(addr) <= addr < addr + n <= SectorOf(addr) + 4096
    ensures n < length ==> addr + n == SectorOf(addr) + 4096 && SectorOf(addr + n) == addr + n
  {
    var q := addr / 4096;
    assert SectorOf(addr) == 4096 * q;
  }

  lemma {:induction false} MustSetSplit(mem: seq<Byte>, addr: nat, data: seq<Byte>, n: nat, at: nat, s: nat)
    requires n <= |data| && at == addr + n
    ensures MustSet(mem, addr, data, s) <==> MustSet(mem, addr, data[..n], s) || MustSet(mem, at, data[n..], s)
  {
    if MustSet(mem, addr, data, s) {
      var i: nat :| SetsAt(mem, addr, data, s, i);
      if i < n { assert SetsAt(mem, addr, data[..n], s, i); } else { assert SetsAt(mem, at, data[n..], s, i - n); }
    }
    if MustSet(mem, addr, data[..n], s) {
      var i: nat :| SetsAt(mem, addr, data[..n], s, i);
      assert SetsAt(mem, addr, data, s, i);
    }
    if MustSet(mem, at, data[n..], s) {
      var i: nat :| SetsAt(mem, at, data[n..], s, i);
      assert SetsAt(mem, addr, data, s, n + i);
    }
  }

  /** What lies in one sector must set bits there and nowhere else. */
  lemma {:induction false} MustSetHere(mem: seq<Byte>, addr: nat, data: seq<Byte>, base: nat, s: nat)
    requires addr + |data| <= |mem| && base <= addr && addr + |data| <= base + 4096 && base % 4096 == 0 && s % 4096 == 0
    ensures MustSet(mem, addr, data, s) <==> s == base && NeedsErase(mem, addr, data)
  {
    if MustSet(mem, addr, data, s) {
      var i: nat :| SetsAt(mem, addr, data, s, i);
      NewOneIs(data[i], mem[addr + i]);
    }
    if NeedsErase(mem, addr, data) {
      var i :| 0 <= i < |data| && data[i] != data[i] & mem[addr + i];
      NewOneIs(data[i], mem[addr + i]);
      assert SetsAt(mem, addr, data, base, i);
    }
  }

  /** Exactly the sectors in which the data has a one where the memory has a zero are erased,
      each once, from the lowest to the highest. */
  lemma {:induction false} MustEraseIs(mem: seq<Byte>, addr: nat, data: seq<Byte>, s: nat)
    requires addr + |data| <= |mem|
    ensures s in MustErase(mem, addr, data) <==> s % 4096 == 0 && MustSet(mem, addr, data, s)
    decreases |data|
  {
    if data != [] {
      var n := ChunkLength(addr, |data|);
      var base, first, rest, at := SectorOf(addr), data[..n], data[n..], addr + n;
      ChunkEnds(addr, |data|, n);
      MustEraseIs(mem, at, rest, s);
      MustSetSplit(mem, addr, data, n, at, s);
      if s % 4096 == 0 { MustSetHere(mem, addr, first, base, s); }
    }
  }

  /** The list ascends, from lo on. */
  predicate Ascends(list: seq<nat>, lo: nat) {
    list != [] ==> lo <= list[0] && Ascends(list[1..], list[0] + 1)
  }

  lemma {:induction false} AscendsBelow(list: seq<nat>, lo: nat, less: nat)
    requires Ascends(list, lo) && less <= lo
    ensures Ascends(list, less)
  {
  }

  lemma {:induction false} MustEraseAscends(mem: seq<Byte>, addr: nat, data: seq<Byte>)
    requires addr + |data| <= |mem|
    ensures Ascends(MustErase(mem, addr, data), SectorOf(addr))
    decreases |data|
  {
    if data != [] {
      var n := ChunkLength(addr, |data|);
      ChunkEnds(addr, |data|, n);
      var base, at, rest := SectorOf(addr), addr + n, data[n..];
      var tail := MustErase(mem, at, rest);
      MustEraseAscends(mem, at, rest);
      if rest != [] {
        AscendsBelow(tail, SectorOf(at), base + 1);
      }
      AscendsBelow(tail, base + 1, base);
      assert ([base] + tail)[1..] == tail && [] + tail == tail;
    }
  }

  /** Programming over an erased byte, or one that has all the ones of the new byte. */
  lemma ByteWritten(was: Byte, byte: Byte, erased: bool)
    requires erased || byte == byte & was
    ensures (if erased then 0xFF else was) & byte == byte
  {
  }

  /** A sector erased or not. */
  function Prepared(was: Byte, needs: bool, inSector: bool): Byte {
    if needs && inSector then 0xFF else was
  }

  predicate IsPrepared(mem: seq<Byte>, before: seq<Byte>, base: nat, needs: bool) {
    |mem| == |before| && forall j :: 0 <= j < |mem| ==> before[j] == Prepared(mem[j], needs, base <= j < base + SECTOR_SIZE)
  }

  /** Programming what the sector held, with the data in place, over a sector that was erased
      or needed no erase, leaves exactly the data in place. */
  lemma {:induction false} SectorWritten(mem: seq<Byte>, before: seq<Byte>, base: nat, addr: nat, data: seq<Byte>, buf: seq<Byte>)
    requires base <= addr && addr + |data| <= base + SECTOR_SIZE <= |mem| && |buf| == SECTOR_SIZE
    requires IsPrepared(mem, before, base, NeedsErase(mem, addr, data))
    requires buf == Overlay(mem, addr, data)[base..base + SECTOR_SIZE]
    ensures AndAt(before, base, buf) == Overlay(mem, addr, data)
  {
    var after := Overlay(mem, addr, data);
    forall j | 0 <= j < |mem| ensures AndAt(before, base, buf)[j] == after[j] {
      if base <= j < base + SECTOR_SIZE {
        ByteOfSector(mem, addr, data, j, before[j], after[j]);
        assert buf[j - base] == after[j];
      }
    }
  }

  lemma ByteOfSector(mem: seq<Byte>, addr: nat, data: seq<Byte>, j: nat, was: Byte, byte: Byte)
    requires addr + |data| <= |mem| && j < |mem| && was == Prepared(mem[j], NeedsErase(mem, addr, data), true)
    requires byte == if addr <= j < addr + |data| then data[j - addr] else mem[j]
    ensures was & byte == byte
  {
    var needs := NeedsErase(mem, addr, data);
    if !needs {
      if addr <= j < addr + |data| {
        var i := j - addr;
        assert data[i] == data[i] & mem[addr + i];
      }
      NoNewOnes(mem[j], byte, addr <= j < addr + |data|);
    }
    ByteWritten(mem[j], byte, needs);
  }

  lemma NoNewOnes(was: Byte, byte: Byte, written: bool)
    requires if written then byte == byte & was else byte == was
    ensures byte == byte & was
  {
  }

  lemma {:induction false} SectorInside(addr: nat, size: nat)
    requires addr < size && size % SECTOR_SIZE == 0
    ensures SectorOf(addr) % PAGE_SIZE == 0 && SectorOf(addr) + SECTOR_SIZE <= size
    ensures SectorOf(SectorOf(addr)) == SectorOf(addr)
  {
    var q, m := addr / SECTOR_SIZE, size / SECTOR_SIZE;
    assert SectorOf(addr) == 4096 * q && size == 4096 * m;
    assert q + 1 <= m;
    assert SectorOf(addr) % 4096 == 0;
  }

  method EraseAndWait(chip: Chip, addr: nat)
    requires chip.busy == 0 && addr < ADDRESS_SPACE
    modifies chip
    ensures chip.mem == EraseSector(old(chip.mem), addr) && chip.erased == old(chip.erased) + [SectorOf(addr)]
    ensures chip.refused == old(chip.refused) && chip.busy == 0
  {
    SectorEraseDma(chip, addr);
    WaitIdle(chip);
  }

  /** Compares a chunk with what the sector holds and erases the sector if a bit must be set. */
  method PrepareSector(chip: Chip, addr: nat, data: seq<Byte>, swap: seq<Byte>)
    requires chip.busy == 0 && 0 < |data| && addr + |data| <= SectorOf(addr) + SECTOR_SIZE <= |chip.mem| <= ADDRESS_SPACE
    requires SectorOf(SectorOf(addr)) == SectorOf(addr)
    requires swap == chip.mem[SectorOf(addr)..SectorOf(addr) + SECTOR_SIZE]
    modifies chip
    ensures chip.busy == 0 && chip.refused == old(chip.refused)
    ensures var needs := NeedsErase(old(chip.mem), addr, data);
      && chip.mem == (if needs then EraseSector(old(chip.mem), SectorOf(addr)) else old(chip.mem))
      && chip.erased == old(chip.erased) + if needs then [SectorOf(addr)] else []
  {
    var base, offset := SectorOf(addr), addr - SectorOf(addr);
    ghost var mem := chip.mem;
    var index := 0;
    while index < |data|
      invariant 0 <= index <= |data| && chip.mem == mem && chip.busy == 0
      invariant chip.refused == old(chip.refused) && chip.erased == old(chip.erased)
      invariant forall i :: 0 <= i < index ==> data[i] == data[i] & mem[addr + i]
    {
      assert swap[offset + index] == mem[addr + index];
      if data[index] != data[index] & swap[offset + index] {
        EraseAndWait(chip, base);
        return;
      }
      index := index + 1;
    }
  }

  /** The sector's contents with the chunk in place, as the swap buffer or the chunk alone. */
  lemma {:induction false} SwapIs(mem: seq<Byte>, base: nat, addr: nat, offset: nat, data: seq<Byte>, swap: seq<Byte>)
    requires base + offset == addr && addr + |data| <= base + SECTOR_SIZE <= |mem| && swap == mem[base..base + SECTOR_SIZE]
    ensures Overlay(mem, addr, data)[base..base + SECTOR_SIZE] == swap[..offset] + data + swap[offset + |data|..]
  {
    var after := Overlay(mem, addr, data)[base..base + SECTOR_SIZE];
    forall k | 0 <= k < SECTOR_SIZE ensures after[k] == (swap[..offset] + data + swap[offset + |data|..])[k] {
      if k < offset { assert mem[..addr][base + k] == swap[k]; }
    }
  }

  /** Programs the sector with the chunk in place: the chunk itself when it is a whole sector,
      else the swap buffer. */
  method ProgramChunk(chip: Chip, base: nat, offset: nat, data: seq<Byte>, swap: array<Byte>,
                      ghost before: seq<Byte>, ghost after: seq<Byte>)
    requires chip.mem == before
    requires chip.busy == 0 && base % PAGE_SIZE == 0 && swap.Length == SECTOR_SIZE && offset + |data| <= SECTOR_SIZE
    requires base + SECTOR_SIZE <= ADDRESS_SPACE && swap[..offset] + data + swap[offset + |data|..] == after
    modifies chip`mem, chip`wel, chip`busy, chip`refused, swap
    ensures chip.busy == 0 && chip.refused == old(chip.refused) && |after| == SECTOR_SIZE
    ensures chip.mem == AndAt(before, base, after)
  {
    if |data| == SECTOR_SIZE {
      assert after == data;
      SectorProgram(chip, base, data);
    } else {
      CopyInto(swap, offset, data);
      SectorProgram(chip, base, swap[..]);
    }
  }

  /** Writes a chunk within one sector: reads the sector back, erases it if need be, and
      programs it with the chunk in place. */
  method WriteChunk(chip: Chip, addr: nat, data: seq<Byte>, swap: array<Byte>, ghost mem: seq<Byte>)
    requires chip.mem == mem
    requires chip.busy == 0 && |chip.mem| % SECTOR_SIZE == 0 && |chip.mem| <= ADDRESS_SPACE && swap.Length == SECTOR_SIZE
    requires 0 < |data| && addr + |data| <= |chip.mem| && |data| == ChunkLength(addr, |data|)
    modifies chip, swap
    ensures chip.busy == 0 && chip.refused == old(chip.refused)
    ensures chip.mem == Overlay(mem, addr, data)
    ensures chip.erased == old(chip.erased) + if NeedsErase(mem, addr, data) then [SectorOf(addr)] else []
  {
    var base := SectorOf(addr);
    SectorInside(addr, |mem|);
    var was := ReadData(chip, base, SECTOR_SIZE);
    CopyInto(swap, 0, was);
    assert swap[..] == was;
    PrepareSector(chip, addr, data, was);
    var offset := addr - base;
    SwapIs(mem, base, addr, offset, data, was);
    ghost var after := Overlay(mem, addr, data)[base..base + SECTOR_SIZE];
    ghost var before := chip.mem;
    SectorWritten(mem, before, base, addr, data, after);
    ProgramChunk(chip, base, offset, data, swap, before, after);
  }

  lemma {:induction false} OverlayNext(mem: seq<Byte>, addr: nat, data: seq<Byte>, n: nat, m: nat, at: nat)
    requires addr + |data| <= |mem| && n <= m <= |data| && at == addr + n
    ensures Overlay(Overlay(mem, addr, data[..n]), at, data[n..m]) == Overlay(mem, addr, data[..m])
  {
    var before, chunk := Overlay(mem, addr, data[..n]), data[n..m];
    assert before[..at] == mem[..addr] + data[..n];
    assert before[at + |chunk|..] == mem[addr + m..];
    assert data[..n] + chunk == data[..m];
  }

  /** A chunk changes only its own bytes, so it leaves what the rest needs as it was. */
  lemma {:induction false} MustEraseNext(mem: seq<Byte>, addr: nat, data: seq<Byte>, n: nat, at: nat)
    requires addr + |data| <= |mem| && data != [] && n == ChunkLength(addr, |data|) && at == addr + n
    ensures MustErase(mem, addr, data)
         == (if NeedsErase(mem, addr, data[..n]) then [SectorOf(addr)] else [])
            + MustErase(Overlay(mem, addr, data[..n]), at, data[n..])
  {
    var after := Overlay(mem, addr, data[..n]);
    assert after[at..] == mem[at..];
    MustEraseLocal(mem, after, at, data[n..]);
  }

  /** Writes data of any length at any address in range, from an idle chip: afterwards the
      range holds the data and no other byte has changed, the sectors erased are exactly those
      where some bit had to be set, and the chip has obeyed every command. */
  method WriteData(chip: Chip, addr0: nat, data: seq<Byte>)
    requires chip.busy == 0 && |chip.mem| % SECTOR_SIZE == 0 && addr0 + |data| <= |chip.mem| <= ADDRESS_SPACE
    modifies chip
    ensures chip.busy == 0 && chip.refused == old(chip.refused)
    ensures chip.mem == Overlay(old(chip.mem), addr0, data)
    ensures chip.erased == old(chip.erased) + MustErase(old(chip.mem), addr0, data)
  {
    var swap := new Byte[SECTOR_SIZE](_ => 0);
    var addr, done, length := addr0, 0, |data|;
    assert Overlay(chip.mem, addr0, data[..0]) == chip.mem;
    assert data[0..] == data;
    ghost var mem, left := chip.mem, MustErase(chip.mem, addr0, data);
    ghost var was, all := mem, chip.erased + left;
    while length > 0
      invariant 0 <= done <= |data| && done + length == |data| && addr == addr0 + done
      invariant chip.busy == 0 && chip.refused == old(chip.refused) && chip.mem == mem && |mem| == |was|
      invariant mem == Overlay(was, addr0, data[..done])
      invariant left == MustErase(mem, addr, data[done..]) && chip.erased + left == all
    {
      var n := ChunkLength(addr, length);
      var next, addr' := done + n, addr + n;
      ghost var before := mem;
      mem, left := WriteNext(was, mem, addr0, addr, data, done, n, next, addr', chip.erased, left);
      WriteChunk(chip, addr, data[done..next], swap, before);
      length := length - n;
      addr, done := addr', next;
    }
    assert data[..done] == data;
    assert data[done..] == [];
  }

  /** What a chunk leaves of the memory and of the sectors to be erased. */
  lemma {:induction false} WriteNext(was: seq<Byte>, mem: seq<Byte>, addr0: nat, addr: nat, data: seq<Byte>, done: nat, n: nat,
                                     next: nat, addr': nat, erased: seq<nat>, left: seq<nat>)
    returns (mem': seq<Byte>, left': seq<nat>)
    requires addr0 + |data| <= |was| && done < |data| && addr == addr0 + done && n == ChunkLength(addr, |data| - done)
    requires mem == Overlay(was, addr0, data[..done]) && left == MustErase(mem, addr, data[done..]) && next == done + n && addr' == addr + n
    ensures next <= |data| && mem' == Overlay(mem, addr, data[done..next]) == Overlay(was, addr0, data[..next])
    ensures left' == MustErase(mem', addr', data[next..])
    ensures (erased + if NeedsErase(mem, addr, data[done..next]) then [SectorOf(addr)] else []) + left' == erased + left
  {
    var rest, chunk := data[done..], data[done..next];
    assert rest[..n] == chunk && rest[n..] == data[next..];
    OverlayNext(was, addr0, data, done, next, addr);
    MustEraseNext(mem, addr, rest, n, addr');
    mem' := Overlay(mem, addr, chunk);
    left' := MustErase(mem', addr', data[next..]);
    Assoc(erased, if NeedsErase(mem, addr, chunk) then [SectorOf(addr)] else [], left');
  }
}
