// kernel/src/arch/x86/mmu.rs: two-level page tables, as the processor walks them
// (Intel SDM Volume 3A, section 4.3) and as `map_region` and `unmap_region` edit them.
module PageTables {
  import opened Bits

  const ENTRIES := 1024
  const PT_POOL_COUNT := 64
  /** Pages of the 32-bit address space. */
  const PAGES := 0x10_0000

  const X86_PRESENT := 1
  const X86_WRITABLE := 2
  const X86_USER := 4
  const X86_PWT := 8
  const X86_PCD := 16
  const X86_PS := 128

  predicate Has(entry: nat, bit: nat) {
    And(entry, bit) != 0
  }

  /** `entry & PHYS_ADDR_MASK`, on 32-bit words */
  function Frame(entry: nat): nat {
    AndNot(entry, 0xFFF)
  }

  datatype MapFlags = MapFlags(read: bool, write: bool, exec: bool, user: bool, device: bool, cached: bool)

  /** `map_flags_to_x86` */
  function MapFlagsToX86(flags: MapFlags): nat {
    var bits := X86_PRESENT;
    var bits := if flags.write then Or(bits, X86_WRITABLE) else bits;
    var bits := if flags.user then Or(bits, X86_USER) else bits;
    if flags.device then Or(bits, Or(X86_PCD, X86_PWT)) else bits
  }

  /** What the processor finds for a page. */
  datatype Translation =
    | Fault
    | Mapped(frame: nat, write: bool, user: bool, uncached: bool)

  /** The translation a 4 KB page-table entry gives, under a directory entry. */
  function FromEntries(pde: nat, pte: nat): Translation {
    if !Has(pte, X86_PRESENT) then Fault
    else Mapped(Frame(pte),
                Has(pde, X86_WRITABLE) && Has(pte, X86_WRITABLE),
                Has(pde, X86_USER) && Has(pte, X86_USER),
                Has(pte, X86_PCD))
  }

  /** The part of a 4 MB page that a 4 KB page is. */
  function FromLarge(pde: nat, page: nat): Translation {
    Mapped(pde - pde % 0x40_0000 + page % ENTRIES * PAGE_SIZE, Has(pde, X86_WRITABLE), Has(pde, X86_USER), Has(pde, X86_PCD))
  }

  predicate IsTable(pde: nat) {
    Has(pde, X86_PRESENT) && !Has(pde, X86_PS)
  }

  predicate IsLarge(pde: nat) {
    Has(pde, X86_PRESENT) && Has(pde, X86_PS)
  }

  // ---- Entry arithmetic ----

  lemma Pow12()
    ensures Pow2(12) == 4096
  {
    assert Pow2(6) == 64;
    assert Pow2(12) == 64 * 64 by { assert Pow2(9) == 512; }
  }

  /** A word put together from a frame address and flags comes apart again. */
  lemma EntryParts(frame: nat, bits: nat)
    requires frame % PAGE_SIZE == 0 && bits < PAGE_SIZE
    ensures Or(frame, bits) == frame + bits
    ensures Frame(frame + bits) == frame
    ensures forall m: nat :: m < PAGE_SIZE ==> And(frame + bits, m) == And(bits, m)
  {
    Pow12();
    OrDisjoint(frame, bits, 12);
    AndNotMask(frame + bits, 12);
    var q, r := DivMod(frame, PAGE_SIZE);
    DivModUnique(frame + bits, PAGE_SIZE, q, bits);
    forall m: nat | m < PAGE_SIZE
      ensures And(frame + bits, m) == And(bits, m)
    {
      AndLow(q, bits, m, 12);
    }
  }

  lemma BitAt0(x: nat, c: nat)
    requires c < 2
    ensures And(2 * x + c, 1) == c
  {
    AndZero(x);
  }

  lemma BitAbove(x: nat, c: nat, m: nat)
    requires c < 2
    ensures And(2 * x + c, 2 * m) == 2 * And(x, m)
  {
  }

  lemma AndZeroLeft(m: nat)
    ensures And(0, m) == 0
  {
  }

  /** The bit tests of the source on a word with bits `w`, `u` and `d` in the places of the flags. */
  lemma BitTests(w: nat, u: nat, d: nat)
    requires w < 2 && u < 2 && d < 2
    ensures var bits := 1 + 2 * w + 4 * u + 24 * d;
            && And(bits, X86_PRESENT) == 1 && And(bits, X86_WRITABLE) == 2 * w && And(bits, X86_USER) == 4 * u
            && And(bits, X86_PWT) == 8 * d && And(bits, X86_PCD) == 16 * d && And(bits, X86_PS) == 0
  {
    hide And;
    var x3 := 2 * d + d;
    var x2 := 2 * x3 + u;
    var x1 := 2 * x2 + w;
    BitAt0(x1, 1);
    BitAt0(x2, w);
    BitAbove(x1, 1, 1);
    BitAt0(x3, u);
    BitAbove(x2, w, 1);
    BitAbove(x1, 1, 2);
    BitAt0(d, d);
    BitAbove(x3, u, 1);
    BitAbove(x2, w, 2);
    BitAbove(x1, 1, 4);
    HighBits(w, u, d);
  }

  lemma HighBits(w: nat, u: nat, d: nat)
    requires w < 2 && u < 2 && d < 2
    ensures var bits := 1 + 2 * w + 4 * u + 24 * d;
            And(bits, X86_PCD) == 16 * d && And(bits, X86_PS) == 0
  {
    hide And;
    var x3 := 2 * d + d;
    var x2 := 2 * x3 + u;
    var x1 := 2 * x2 + w;
    AndZeroLeft(8);
    AndZeroLeft(4);
    BitAt0(0, d);
    BitAbove(0, d, 4);
    BitAbove(d, d, 1);
    BitAbove(d, d, 8);
    BitAbove(x3, u, 2);
    BitAbove(x3, u, 16);
    BitAbove(x2, w, 4);
    BitAbove(x2, w, 32);
    BitAbove(x1, 1, 8);
    BitAbove(x1, 1, 64);
  }

  lemma FlagSum(flags: MapFlags)
    ensures MapFlagsToX86(flags) ==
            1 + (if flags.write then 2 else 0) + (if flags.user then 4 else 0) + (if flags.device then 24 else 0)
  {
    assert Or(16, 8) == 24;
    assert Or(1, 2) == 3 && Or(1, 4) == 5 && Or(3, 4) == 7;
    OrSmall();
  }

  lemma OrSmall()
    ensures Or(1, 24) == 25 && Or(3, 24) == 27 && Or(5, 24) == 29 && Or(7, 24) == 31
  {
  }

  /** The flag word is small and says exactly what was asked for; READ, EXEC and CACHED leave no mark. */
  lemma FlagBits(flags: MapFlags)
    ensures var bits := MapFlagsToX86(flags);
            && bits < 32 && Has(bits, X86_PRESENT)
            && (Has(bits, X86_WRITABLE) <==> flags.write)
            && (Has(bits, X86_USER) <==> flags.user)
            && (Has(bits, X86_PCD) <==> flags.device) && (Has(bits, X86_PWT) <==> flags.device)
            && !Has(bits, X86_PS)
  {
    FlagSum(flags);
    BitTests(if flags.write then 1 else 0, if flags.user then 1 else 0, if flags.device then 1 else 0);
  }

  lemma TableBits()
    ensures Or(Or(X86_WRITABLE, X86_USER), X86_PRESENT) == 7
    ensures Has(7, X86_PRESENT) && Has(7, X86_WRITABLE) && Has(7, X86_USER) && !Has(7, X86_PS) && !Has(7, X86_PCD)
  {
    BitTests(1, 1, 0);
  }

  /** The directory entry for a table frame. */
  lemma TableWord(frame: nat)
    requires frame % PAGE_SIZE == 0
    ensures Or(Or(Or(frame, X86_WRITABLE), X86_USER), X86_PRESENT) == frame + 7
    ensures IsTable(frame + 7) && Frame(frame + 7) == frame && Has(frame + 7, X86_WRITABLE) && Has(frame + 7, X86_USER)
  {
    OrSeven(frame);
    EntryParts(frame, 7);
    TableBits();
    hide And, Or;
  }

  lemma OrSeven(frame: nat)
    requires frame % PAGE_SIZE == 0
    ensures Or(Or(Or(frame, 2), 4), 1) == frame + 7
  {
    OrAssoc(Or(frame, 2), 4, 1);
    OrAssoc(frame, 2, Or(4, 1));
    assert Or(4, 1) == 5 && Or(2, 5) == 7;
    EntryParts(frame, 7);
  }

  lemma ZeroEntry(m: nat)
    ensures !Has(0, m)
  {
  }

  /** The flag tests, as the binary digits of the word. */
  lemma DigitTests(x: nat)
    ensures Has(x, X86_PRESENT) <==> x % 2 == 1
    ensures Has(x, X86_WRITABLE) <==> x / 2 % 2 == 1
    ensures Has(x, X86_USER) <==> x / 4 % 2 == 1
    ensures Has(x, X86_PCD) <==> x / 16 % 2 == 1
    ensures Has(x, X86_PS) <==> x / 128 % 2 == 1
  {
    hide And;
    ThreeDigits(x);
    FourDigitsDown(x, 1);
    FourDigitsDown(x, 8);
    ThreeDigitsDown(x / 16);
    Digit(x / 16, 1);
    Digit(x / 128, 1);
  }

  lemma ThreeDigits(x: nat)
    ensures And(x, 1) == x % 2 && And(x, 2) == 2 * (x / 2 % 2) && And(x, 4) == 4 * (x / 4 % 2)
  {
    hide And;
    Digit(x, 1);
    Halve(x, 1);
    Digit(x / 2, 1);
    Halve(x, 2);
    Halve(x / 2, 1);
    Digit(x / 2 / 2, 1);
    DivModUnique(x, 4, x / 2 / 2, x % 2 + 2 * (x / 2 % 2));
  }

  lemma ThreeDigitsDown(x: nat)
    ensures And(x, 8) == 8 * And(x / 8, 1)
  {
    hide And;
    var a, b := x / 2, x / 2 / 2;
    Halve(x, 4);
    Halve(a, 2);
    Halve(b, 1);
    DivModUnique(x, 8, b / 2, x % 2 + 2 * (a % 2) + 4 * (b % 2));
  }

  /** A digit of the word is lost with the mask's, which is zero. */
  lemma Halve(x: nat, m: nat)
    ensures And(x, 2 * m) == 2 * And(x / 2, m)
  {
    BitAbove(x / 2, x % 2, m);
  }

  lemma Digit(x: nat, one: nat)
    requires one == 1
    ensures And(x, one) == x % 2
  {
    BitAt0(x / 2, x % 2);
  }

  lemma FourDigitsDown(x: nat, m: nat)
    ensures And(x, 16 * m) == 16 * And(x / 16, m)
  {
    hide And;
    var a, b, c := x / 2, x / 2 / 2, x / 2 / 2 / 2;
    Halve(x, 8 * m);
    Halve(a, 4 * m);
    Halve(b, 2 * m);
    Halve(c, m);
    DivModUnique(x, 16, c / 2, x % 2 + 2 * (a % 2) + 4 * (b % 2) + 8 * (c % 2));
  }

  lemma FrameMeans(x: nat)
    ensures Frame(x) == x - x % 0x1000
  {
    Pow12();
    AndNotMask(x, 12);
  }

  // ---- The walk ----

  /** Directory, pool of table frames at `base`, and how many frames of it are taken. */
  datatype Tables = Tables(base: nat, pd: seq<nat>, pool: seq<nat>, next: nat) {

    predicate Shaped() {
      |pd| == ENTRIES && |pool| == PT_POOL_COUNT * ENTRIES && base % PAGE_SIZE == 0
    }

    /** Which pool frame a directory entry points at. */
    function Slot(pde: nat): int {
      (Frame(pde) - base) / PAGE_SIZE
    }

    /** Place in the pool of the table entry for `page` under `pde`. */
    function Index(pde: nat, page: nat): int {
      Slot(pde) * ENTRIES + page % ENTRIES
    }

    /** The two-level walk, for the page with a given number. */
    function Walk(page: nat): Translation
      requires Shaped() && page < PAGES
    {
      var pde := pd[page / ENTRIES];
      if !Has(pde, X86_PRESENT) then Fault
      else if Has(pde, X86_PS) then FromLarge(pde, page)
      else if 0 <= Index(pde, page) < |pool| then FromEntries(pde, pool[Index(pde, page)])
      else Fault
    }

    /** Where a byte address leads, and with which rights. */
    function Translate(va: nat): Translation
      requires Shaped() && va / PAGE_SIZE < PAGES
    {
      match Walk(va / PAGE_SIZE)
      case Fault => Fault
      case Mapped(frame, w, u, c) => Mapped(frame + va % PAGE_SIZE, w, u, c)
    }

    /** Under a 4 MB entry an address keeps its low 22 bits, and no table has a say in it. */
    lemma LargeTranslation(va: nat, pool': seq<nat>)
      requires Shaped() && |pool'| == |pool| && va / PAGE_SIZE < PAGES && IsLarge(pd[va / PAGE_SIZE / ENTRIES])
      ensures var pde := pd[va / PAGE_SIZE / ENTRIES];
              Translate(va) == Mapped(pde - pde % 0x40_0000 + va % 0x40_0000,
                                      Has(pde, X86_WRITABLE), Has(pde, X86_USER), Has(pde, X86_PCD))
      ensures this.(pool := pool').Translate(va) == Translate(va)
    {
      hide And;
      assert va % 0x40_0000 == va / PAGE_SIZE % ENTRIES * PAGE_SIZE + va % PAGE_SIZE;
    }

    /**
     * The whole translation of an address, in the words of the directory and the pool: the top ten bits of the
     * address select the directory word, the next ten the word of the table; bit 0 of a word is PRESENT, bit 1
     * WRITABLE, bit 2 USER, bit 4 PCD, and bit 7 of a directory word the large page.
     */
    lemma TranslatedWords(va: nat)
      requires Valid() && va < 0x1_0000_0000
      ensures var pde := pd[va / 0x40_0000];
              var i := (pde - pde % 0x1000 - base) / 0x1000 * 1024 + va / 0x1000 % 1024;
              if pde % 2 == 0 then Translate(va) == Fault
              else if pde / 128 % 2 == 1 then
                Translate(va) == Mapped(pde - pde % 0x40_0000 + va % 0x40_0000, pde / 2 % 2 == 1, pde / 4 % 2 == 1, pde / 16 % 2 == 1)
              else
                && 0 <= i < |pool|
                && var pte := pool[i];
                   Translate(va) ==
                   if pte % 2 == 0 then Fault
                   else Mapped(pte - pte % 0x1000 + va % 0x1000,
                               pde / 2 % 2 == 1 && pte / 2 % 2 == 1, pde / 4 % 2 == 1 && pte / 4 % 2 == 1, pte / 16 % 2 == 1)
    {
      hide Has, Frame, And;
      var page := va / 0x1000;
      assert page / ENTRIES == va / 0x40_0000 && page < PAGES;
      var pde := pd[page / ENTRIES];
      DigitTests(pde);
      FrameMeans(pde);
      if IsLarge(pde) {
        LargeTranslation(va, pool);
      } else if IsTable(pde) {
        TableIndex(page);
        var pte := pool[Index(pde, page)];
        DigitTests(pte);
        FrameMeans(pte);
      }
    }

    /** A directory entry made by `map_region`: a taken pool frame, writable and user-accessible. */
    ghost predicate TableEntry(pde: nat) {
      && 0 <= Slot(pde) < next && Frame(pde) == base + Slot(pde) * PAGE_SIZE
      && Has(pde, X86_WRITABLE) && Has(pde, X86_USER)
    }

    /** Distinct table entries own distinct taken frames; frames not taken are still zero. */
    ghost predicate Valid() {
      && Shaped() && next <= PT_POOL_COUNT
      && (forall d :: 0 <= d < ENTRIES && IsTable(pd[d]) ==> TableEntry(pd[d]))
      && (forall d, e :: 0 <= d < ENTRIES && 0 <= e < ENTRIES && d != e && IsTable(pd[d]) && IsTable(pd[e]) ==>
            Slot(pd[d]) != Slot(pd[e]))
      && (forall i :: next * ENTRIES <= i < |pool| ==> pool[i] == 0)
    }

    lemma ShapeAndBounds()
      requires Valid()
      ensures Shaped() && next <= PT_POOL_COUNT
    {
    }

    lemma TableIndex(page: nat)
      requires Valid() && page < PAGES && IsTable(pd[page / ENTRIES])
      ensures 0 <= Index(pd[page / ENTRIES], page) < next * ENTRIES <= |pool|
    {
      assert TableEntry(pd[page / ENTRIES]);
    }

    /** Different pages have different table entries. */
    lemma IndicesDistinct(p: nat, q: nat)
      requires Valid() && p < PAGES && q < PAGES && p != q
      requires IsTable(pd[p / ENTRIES]) && IsTable(pd[q / ENTRIES])
      ensures Index(pd[p / ENTRIES], p) != Index(pd[q / ENTRIES], q)
    {
      assert TableEntry(pd[p / ENTRIES]) && TableEntry(pd[q / ENTRIES]);
      if p / ENTRIES != q / ENTRIES {
        assert Slot(pd[p / ENTRIES]) != Slot(pd[q / ENTRIES]);
      }
    }

    /** The page-table store: it changes the translation of one page, to what the entry says. */
    lemma SetEntry(page: nat, pte: nat)
      requires Valid() && page < PAGES && IsTable(pd[page / ENTRIES])
      ensures 0 <= Index(pd[page / ENTRIES], page) < |pool|
      ensures var after := this.(pool := pool[Index(pd[page / ENTRIES], page) := pte]);
              && after.Valid()
              && after.Walk(page) == FromEntries(pd[page / ENTRIES], pte)
              && forall q: nat :: q < PAGES && q != page ==> after.Walk(q) == Walk(q)
    {
      TableIndex(page);
      var after := this.(pool := pool[Index(pd[page / ENTRIES], page) := pte]);
      forall d | 0 <= d < ENTRIES && IsTable(pd[d])
        ensures after.TableEntry(after.pd[d])
      {
        assert TableEntry(pd[d]);
      }
      forall q: nat | q < PAGES && q != page
        ensures after.Walk(q) == Walk(q)
      {
        if IsTable(pd[q / ENTRIES]) {
          IndicesDistinct(page, q);
        }
      }
    }

    /** `pt_frame | WRITABLE | USER | PRESENT` */
    function NewPde(): nat {
      Or(Or(Or(base + next * PAGE_SIZE, X86_WRITABLE), X86_USER), X86_PRESENT)
    }

    lemma NewPdeParts()
      requires base % PAGE_SIZE == 0
      ensures NewPde() == base + next * PAGE_SIZE + 7
      ensures IsTable(NewPde()) && Frame(NewPde()) == base + next * PAGE_SIZE && Slot(NewPde()) == next
      ensures Has(NewPde(), X86_WRITABLE) && Has(NewPde(), X86_USER)
    {
      hide And, AndNot, Or, Frame, Has, IsTable;
      TableWord(base + next * PAGE_SIZE);
    }

    /** Hanging a fresh frame into the directory changes no translation: the frame is all zero. */
    lemma AddTable(d: nat)
      requires Valid() && d < ENTRIES && !Has(pd[d], X86_PRESENT) && next < PT_POOL_COUNT
      ensures var after := this.(pd := pd[d := NewPde()], next := next + 1);
              && after.Valid() && IsTable(after.pd[d])
              && forall q: nat :: q < PAGES ==> after.Walk(q) == Walk(q)
    {
      NewPdeParts();
      var after := this.(pd := pd[d := NewPde()], next := next + 1);
      hide Tables.NewPde;
      forall e | 0 <= e < ENTRIES && IsTable(after.pd[e])
        ensures after.TableEntry(after.pd[e])
        ensures e != d ==> after.Slot(after.pd[e]) < next
      {
        if e != d {
          assert TableEntry(pd[e]);
        }
      }
      forall q: nat | q < PAGES
        ensures after.Walk(q) == Walk(q)
      {
        if q / ENTRIES == d {
          ZeroEntry(X86_PRESENT);
          assert after.Index(after.pd[d], q) == next * ENTRIES + q % ENTRIES;
        }
      }
    }

    /** Clearing a directory entry unmaps the whole 4 MB and nothing else. */
    lemma ClearDirectoryEntry(d: nat)
      requires Valid() && d < ENTRIES
      ensures var after := this.(pd := pd[d := 0]);
              && after.Valid()
              && forall q: nat :: q < PAGES ==> after.Walk(q) == if q / ENTRIES == d then Fault else Walk(q)
    {
      ZeroEntry(X86_PRESENT);
      var after := this.(pd := pd[d := 0]);
      forall e | 0 <= e < ENTRIES && IsTable(after.pd[e])
        ensures after.TableEntry(after.pd[e]) && e != d
      {
        assert TableEntry(pd[e]);
      }
    }
  }
}
