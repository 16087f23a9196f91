/** The flash writer of bootloader/rp2350/flash_program.c on a NOR flash: erasing sets all bits of
    a sector, programming can only clear bits. */
module Flash {
  import opened Machine

  const CHUNK: nat := 256
  const FLASH_SIZE: nat := 0x40_0000

  /** How many pages 32-bit byte addresses tell apart. */
  const PAGES: nat := 0x10_0000

  /** The flash chip. */
  class Chip {
    const cells: array<bv8>

    constructor ()
      ensures cells.Length == FLASH_SIZE && fresh(cells)
    {
      cells := new bv8[FLASH_SIZE];
    }

    /** flash_range_erase of one sector */
    method Erase(offset: nat)
      requires cells.Length == FLASH_SIZE && offset + PAGE_SIZE <= FLASH_SIZE
      modifies cells
      ensures
        forall a :: 0 <= a < FLASH_SIZE ==>
          cells[a] == if offset <= a < offset + PAGE_SIZE then 0xFF else old(cells[a])
    {
      forall a | offset <= a < offset + PAGE_SIZE {
        cells[a] := 0xFF;
      }
    }

    /** flash_range_program of one chunk */
    method Program(offset: nat, data: array<bv8>, from: nat)
      requires cells.Length == FLASH_SIZE && offset + CHUNK <= FLASH_SIZE
      requires from + CHUNK <= data.Length && data != cells
      modifies cells
      ensures
        forall a :: 0 <= a < FLASH_SIZE ==>
          cells[a]
          == if offset <= a < offset + CHUNK then old(cells[a]) & data[from + (a - offset)] else old(cells[a])
    {
      forall a | offset <= a < offset + CHUNK {
        cells[a] := cells[a] & data[from + (a - offset)];
      }
    }
  }

  /** struct flash_page */
  class FlashPage {
    var pageNumber: u32
    const buffer: array<bv8>
    var dirty: bool

    constructor ()
      ensures buffer.Length == PAGE_SIZE && fresh(buffer)
    {
      buffer := new bv8[PAGE_SIZE];
      pageNumber := 0;
      dirty := false;
    }
  }

  /** The guard of Flash_Write_Page, in 32-bit arithmetic. */
  predicate PageCheck(p: u32) {
    U32((p + 1) * PAGE_SIZE) <= FLASH_SIZE
  }

  /** The byte address of a page, in 32-bit arithmetic. */
  function SectorOf(p: u32): u32 {
    U32(p * PAGE_SIZE)
  }

  /** An accepted page lies in the flash exactly when its number is below 2^20 - 1; from there
      on the byte address wraps around. */
  lemma PageCheckExact(p: u32)
    requires PageCheck(p)
    ensures (p + 1) * PAGE_SIZE <= FLASH_SIZE <==> p < PAGES - 1
  {
  }

  /** The page that is really written is the one with the same number modulo 2^20; it lies in the
      flash, unless it is the last one that 32-bit addresses reach. */
  lemma SectorExactly(p: u32)
    ensures SectorOf(p) == p % PAGES * PAGE_SIZE
    ensures PageCheck(p) <==> SectorOf(p) + PAGE_SIZE <= FLASH_SIZE || p % PAGES == PAGES - 1
    ensures PageCheck(p) <==> p % 0x10_0000 < 1024 || p % 0x10_0000 == 0xF_FFFF
  {
    Wrapped(p);
    Wrapped(p + 1);
    NextPage(p);
  }

  lemma NextPage(p: nat)
    ensures (p + 1) % PAGES == if p % PAGES == PAGES - 1 then 0 else p % PAGES + 1
  {
  }

  lemma Wrapped(p: nat)
    ensures U32(p * PAGE_SIZE) == p % PAGES * PAGE_SIZE
  {
    assert p == p / PAGES * PAGES + p % PAGES;
    assert p * PAGE_SIZE == p / PAGES * TWO32 + p % PAGES * PAGE_SIZE;
  }

  lemma InSector(p: u32, k: nat)
    requires SectorOf(p) + k < TWO32
    ensures U32(p * PAGE_SIZE + k) == SectorOf(p) + k
  {
  }

  /** Two page numbers name the same sector exactly when they agree modulo 2^20. */
  lemma SectorsMeet(p: u32, q: u32)
    ensures SectorOf(p) == SectorOf(q) <==> p % PAGES == q % PAGES
  {
    SectorExactly(p);
    SectorExactly(q);
  }

  /** Page 2^20 is accepted, and writing it overwrites the first sector. */
  lemma PageCheckTooLoose()
    ensures PageCheck(PAGES) && SectorOf(PAGES) == SectorOf(0) == 0
  {
  }

  /** Flash_Write_one_Page: sixteen chunks are programmed into an erased sector. */
  method WriteOnePage(chip: Chip, page: FlashPage)
    requires chip.cells.Length == FLASH_SIZE && page.buffer.Length == PAGE_SIZE && page.buffer != chip.cells
    requires SectorOf(page.pageNumber) + PAGE_SIZE <= FLASH_SIZE
    requires
      var offset := SectorOf(page.pageNumber);
      forall a :: offset <= a < offset + PAGE_SIZE ==> chip.cells[a] == 0xFF
    modifies chip.cells
    ensures
      var offset := SectorOf(page.pageNumber);
      forall a :: 0 <= a < FLASH_SIZE ==>
        chip.cells[a] == if offset <= a < offset + PAGE_SIZE then page.buffer[a - offset] else old(chip.cells[a])
  {
    ghost var offset := SectorOf(page.pageNumber);
    for i := 0 to 16
      invariant forall a :: 0 <= a < FLASH_SIZE ==>
                  chip.cells[a]
                  == if offset <= a < offset + i * CHUNK then page.buffer[a - offset] else old(chip.cells[a])
    {
      InSector(page.pageNumber, i * CHUNK);
      chip.Program(U32(page.pageNumber * 4096 + i * 256), page.buffer, i * CHUNK);
    }
  }

  /** Flash_Write_Page.  The page that ends where 32-bit addresses do is left out: the source
      would erase behind the end of the flash. */
  method WritePage(chip: Chip, page: FlashPage)
    requires chip.cells.Length == FLASH_SIZE && page.buffer.Length == PAGE_SIZE && page.buffer != chip.cells
    requires page.pageNumber % PAGES != PAGES - 1
    modifies chip.cells, page
    ensures page.pageNumber == old(page.pageNumber)
    ensures page.dirty <==> old(page.dirty) && page.pageNumber % 0x10_0000 >= 1024
    ensures
      var offset := SectorOf(page.pageNumber);
      forall a :: 0 <= a < FLASH_SIZE ==>
        chip.cells[a]
        == if old(page.dirty) && offset <= a < offset + PAGE_SIZE then page.buffer[a - offset] else old(chip.cells[a])
  {
    SectorExactly(page.pageNumber);
    if !page.dirty {
      return;
    }
    if U32((page.pageNumber + 1) * 4096) > FLASH_SIZE {
      return;
    }
    chip.Erase(U32(page.pageNumber * 4096));
    WriteOnePage(chip, page);
    page.dirty := false;
  }

  /** The number of pages that write_to_flash goes through; the sum wraps at 32 bits. */
  function TotalPages(size: u32): nat {
    U32(size + PAGE_SIZE - 1) / PAGE_SIZE
  }

  /** The byte that belongs at position k of the data when it is padded to whole pages. */
  function Padded(data: seq<bv8>, k: nat): bv8 {
    if k < |data| then data[k] else 0xFF
  }

  /** The page buffer for one page of the data: its bytes, then 0xFF. */
  method FillPage(page: FlashPage, data: seq<bv8>, offset: nat)
    requires page.buffer.Length == PAGE_SIZE && offset <= |data|
    modifies page, page.buffer
    ensures page.pageNumber == old(page.pageNumber) && page.dirty
    ensures
      forall j :: 0 <= j < PAGE_SIZE ==> page.buffer[j] == if offset + j < |data| then data[offset + j] else 0xFF
  {
    var chunk := if |data| - offset > PAGE_SIZE then PAGE_SIZE else |data| - offset;
    forall j | 0 <= j < PAGE_SIZE {
      page.buffer[j] := 0xFF;
    }
    forall j | 0 <= j < chunk {
      page.buffer[j] := data[offset + j];
    }
    page.dirty := true;
  }

  /** write_to_flash: whatever the flash held before, the pages from `pageNumber` on that exist
      hold the data and then 0xFF up to the end of the last page; no other page changes.  Page
      numbers count modulo 2^20, and the last one of these must not be among them. */
  method WriteToFlash(chip: Chip, data: seq<bv8>, pageNumber: int, page: FlashPage?) returns (code: int)
    requires chip.cells.Length == FLASH_SIZE
    requires page != null ==> page.buffer.Length == PAGE_SIZE && page.buffer != chip.cells
    requires |data| < TWO32
    requires pageNumber % PAGES + TotalPages(|data|) < PAGES
    modifies chip.cells, page, if page == null then {} else {page.buffer}
    ensures code == if page == null || data == [] then -1 else 0
    ensures
      var first, total := pageNumber % PAGES * PAGE_SIZE, if page == null then 0 else TotalPages(|data|) * PAGE_SIZE;
      forall a :: 0 <= a < FLASH_SIZE ==>
        chip.cells[a]
        == if first <= a < first + total then if a - first < |data| then data[a - first] else 0xFF
           else old(chip.cells[a])
  {
    if page == null || data == [] {
      return -1;
    }
    ghost var first := pageNumber % PAGES * PAGE_SIZE;
    var offset, total := 0, TotalPages(|data|);
    for i := 0 to total
      invariant page.buffer.Length == PAGE_SIZE
      invariant offset == Min(i * PAGE_SIZE, |data|)
      invariant forall a :: 0 <= a < FLASH_SIZE ==>
                  chip.cells[a]
                  == if first <= a < first + i * PAGE_SIZE then Padded(data, a - first) else old(chip.cells[a])
    {
      page.pageNumber, page.dirty := U32(pageNumber + i), false;
      PageAfter(pageNumber, i);
      FillPage(page, data, offset);
      WritePage(chip, page);
      offset := offset + (if |data| - offset > PAGE_SIZE then PAGE_SIZE else |data| - offset);
    }
    code := 0;
  }

  /** The number of the i-th page, as the 32-bit variable keeps it. */
  lemma PageAfter(pageNumber: int, i: nat)
    requires pageNumber % PAGES + i < PAGES - 1
    ensures U32(pageNumber + i) % PAGES == pageNumber % PAGES + i
    ensures SectorOf(U32(pageNumber + i)) == (pageNumber % PAGES + i) * PAGE_SIZE
  {
    var x := pageNumber + i;
    Residue(x, pageNumber / PAGES, pageNumber % PAGES + i);
    Residue(U32(x), x / PAGES - x / TWO32 * 4096, x % PAGES);
    SectorExactly(U32(x));
  }

  lemma Residue(x: int, q: int, r: int)
    requires x == q * PAGES + r && 0 <= r < PAGES
    ensures x % PAGES == r
  {
  }

  /** All of the data is covered, unless its size is within one page of 2^32. */
  lemma PagesCoverData(size: u32)
    ensures size <= TotalPages(size) * PAGE_SIZE < size + PAGE_SIZE <==> (size == 0 || size + PAGE_SIZE - 1 < TWO32)
  {
  }
}
