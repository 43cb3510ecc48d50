/** Two-level page directories, as in section 4.3 of the Intel SDM, Volume 3A (32-bit paging). */
module PageDir {

  const PAGE := 0x1000        // bytes in a page
  const ENTRIES := 1024       // entries in a table, tables in a directory
  const PAGES := 0x10_0000    // pages in the address space
  const TOP := 0x1_0000_0000  // bytes in the address space
  const USER_CODE := 0xFFFF_0000  // START_OF_USER_CODE

  /** A page table entry: `address` is the frame, i.e. the physical address over 0x1000. */
  datatype Entry = Entry(present: bool, rw: bool, user: bool, address: int)

  const ZERO := Entry(false, false, false, 0)

  datatype Table = Absent | Table(pages: seq<Entry>)

  type Dir = d: seq<Table> | |d| == ENTRIES && forall t :: 0 <= t < ENTRIES && d[t].Table? ==> |d[t].pages| == ENTRIES
    witness seq(ENTRIES, _ => Absent)

  predicate IsPage(p: int) { 0 <= p < PAGES }

  /** The entry of page p, that is of table p / 1024 at index p % 1024; a missing table holds no page. */
  function Lookup(d: Dir, p: int): Entry
    requires IsPage(p)
  {
    match d[p / ENTRIES]
    case Absent => ZERO
    case Table(pages) => pages[p % ENTRIES]
  }

  /** Writing one entry, through `get_page`, which makes a zeroed table when there is none. */
  function Update(d: Dir, p: int, e: Entry): (r: Dir)
    requires IsPage(p)
    ensures forall q :: IsPage(q) ==> Lookup(r, q) == if q == p then e else Lookup(d, q)
  {
    var pages := match d[p / ENTRIES] case Absent => seq(ENTRIES, _ => ZERO) case Table(ps) => ps;
    d[p / ENTRIES := Table(pages[p % ENTRIES := e])]
  }

  /** `get_physical_address`: bits 31-22 select the table, 21-12 the entry, 11-0 are kept; 0 when not mapped. */
  function PhysicalAddress(d: Dir, va: int): int
    requires 0 <= va < TOP
  {
    var page := va / PAGE;
    if d[page / ENTRIES].Table? && d[page / ENTRIES].pages[page % ENTRIES].present then
      PAGE * d[page / ENTRIES].pages[page % ENTRIES].address + va % PAGE
    else 0
  }

  predicate Present(d: Dir, p: int)
    requires IsPage(p)
  {
    Lookup(d, p).present
  }

  function Frame(d: Dir, p: int): int
    requires IsPage(p)
  {
    Lookup(d, p).address
  }

  /**
   * Frame 0 is never mapped, so the answer 0 means "not mapped" and every other one is a translation: by the entry of
   * table va / 2^22 with the number that the next ten bits are, to the same offset in its frame.
   */
  lemma PhysicalAddressMeans(d: Dir, va: int)
    requires 0 <= va < TOP
    requires Present(d, va / PAGE) ==> Frame(d, va / PAGE) > 0
    ensures PhysicalAddress(d, va) != 0 <==> Present(d, va / PAGE)
    ensures Present(d, va / PAGE) ==> PhysicalAddress(d, va) / PAGE == Frame(d, va / PAGE)
                                      && PhysicalAddress(d, va) % PAGE == va % PAGE
    ensures Present(d, va / PAGE) ==>
              d[va / 0x40_0000].Table? && PhysicalAddress(d, va) == 0x1000 * d[va / 0x40_0000].pages[va / 0x1000 % 0x400].address + va % 0x1000
    ensures !Present(d, va / PAGE) && d[va / 0x40_0000].Table? ==> !d[va / 0x40_0000].pages[va / 0x1000 % 0x400].present
  {
    assert va / PAGE / ENTRIES == va / 0x40_0000;
  }
}
