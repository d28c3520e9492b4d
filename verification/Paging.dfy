// Page tables and page directories of source/kernel/paging.c.
module Paging {
  import opened Words
  import opened FrameBitmap

  const ENTRIES: nat := 1024
  const PAGE_SIZE: nat := 0x1000
  const PAGES: nat := 0x10_0000

  // Flag bits of a page entry: PAGEFLAG_PRESENT, _READWRITE, _USER, _ACCESSED and _DIRTY.
  const PRESENT: nat := 0
  const READWRITE: nat := 1
  const USER: nat := 2
  const ACCESSED: nat := 5
  const DIRTY: nat := 6

  /** The frame that an entry refers to: its bits from 12 on. */
  function FrameOf(entry: nat): nat {
    entry / PAGE_SIZE
  }

  lemma FrameIsShift(entry: nat)
    ensures FrameOf(entry) == Shr(entry, 12)
  {
    ShrBounds(entry, 12);
    assert Pow2(4) == 16;
    Pow2Add(4, 4);
    Pow2Add(8, 4);
  }

  lemma FlagKeepsFrame(entry: nat, flag: nat)
    requires flag < 12
    ensures FrameOf(SetBit(entry, flag)) == FrameOf(entry)
  {
    FrameIsShift(entry);
    FrameIsShift(SetBit(entry, flag));
    ShrSetBit(entry, flag, 12);
  }

  // ---------------------------------------------------------------------------
  // The entry of a copied page

  function WithFlag(entry: nat, on: bool, flag: nat): nat {
    if on then SetBit(entry, flag) else entry
  }

  /** What allocate_pageframe stores for a frame. */
  function NewEntry(frame: nat, rw: bool, level: bool): nat {
    WithFlag(WithFlag(SetBit(frame * PAGE_SIZE, PRESENT), rw, READWRITE), level, USER)
  }

  /** The entry of a copied page: its frame, and the flags taken from the source entry. */
  function CopiedEntry(src: nat, frame: nat): nat {
    var e0 := NewEntry(frame, false, false);
    var e1 := WithFlag(e0, Bit(src, PRESENT), PRESENT);
    var e2 := WithFlag(e1, Bit(src, READWRITE), READWRITE);
    var e3 := WithFlag(e2, Bit(src, USER), USER);
    var e4 := WithFlag(e3, Bit(src, ACCESSED), ACCESSED);
    WithFlag(e4, Bit(src, DIRTY), DIRTY)
  }

  lemma WithFlagBit(entry: nat, on: bool, flag: nat, bit: nat)
    requires flag < 12
    ensures Bit(WithFlag(entry, on, flag), bit) == (Bit(entry, bit) || (on && bit == flag))
    ensures FrameOf(WithFlag(entry, on, flag)) == FrameOf(entry)
  {
    BitSetBit(entry, flag, bit);
    FlagKeepsFrame(entry, flag);
  }

  lemma {:induction false} NoLowBits(frame: nat, n: nat, bit: nat)
    requires bit < n
    ensures !Bit(frame * Pow2(n), bit)
  {
    assert frame * Pow2(n) == 2 * (frame * Pow2(n - 1));
    if bit != 0 {
      NoLowBits(frame, n - 1, bit - 1);
    }
  }

  /** A copied page has the new frame and the five flags of its source; it is always marked as
      present.  So its flags agree with its source exactly when the source page is present. */
  lemma CopiedEntryFlags(src: nat, frame: nat, bit: nat)
    requires bit < 12
    ensures FrameOf(CopiedEntry(src, frame)) == frame
    ensures Bit(CopiedEntry(src, frame), bit) ==
              (bit == PRESENT || (bit in {READWRITE, USER, ACCESSED, DIRTY} && Bit(src, bit)))
  {
    hide Bit, SetBit, FrameOf;
    var e := frame * PAGE_SIZE;
    assert Pow2(12) == PAGE_SIZE by {
      assert Pow2(4) == 16;
      Pow2Add(4, 4);
      Pow2Add(8, 4);
    }
    assert FrameOf(e) == frame by {
      FrameOfAligned(frame);
    }
    NoLowBits(frame, 12, bit);
    WithFlagBit(e, true, PRESENT, bit);
    var e0 := NewEntry(frame, false, false);
    WithFlagBit(e0, Bit(src, PRESENT), PRESENT, bit);
    var e1 := WithFlag(e0, Bit(src, PRESENT), PRESENT);
    WithFlagBit(e1, Bit(src, READWRITE), READWRITE, bit);
    var e2 := WithFlag(e1, Bit(src, READWRITE), READWRITE);
    WithFlagBit(e2, Bit(src, USER), USER, bit);
    var e3 := WithFlag(e2, Bit(src, USER), USER);
    WithFlagBit(e3, Bit(src, ACCESSED), ACCESSED, bit);
    var e4 := WithFlag(e3, Bit(src, ACCESSED), ACCESSED);
    WithFlagBit(e4, Bit(src, DIRTY), DIRTY, bit);
  }

  lemma WithFlagValue(entry: nat, on: bool, flag: nat)
    requires !Bit(entry, flag)
    ensures WithFlag(entry, on, flag) == entry + if on then Pow2(flag) else 0
  {
    hide SetBit, Bit, Pow2;
    SetBitValue(entry, flag);
  }

  /** The flag bits as numbers. */
  lemma FlagValues(w: nat)
    ensures Bit(w, 0) <==> w % 2 == 1
    ensures Bit(w, 1) <==> w / 2 % 2 == 1
    ensures Bit(w, 2) <==> w / 4 % 2 == 1
    ensures Bit(w, 5) <==> w / 32 % 2 == 1
    ensures Bit(w, 6) <==> w / 64 % 2 == 1
    ensures Pow2(0) == 1 && Pow2(1) == 2 && Pow2(2) == 4 && Pow2(5) == 32 && Pow2(6) == 64
  {
    hide Bit;
    BitValue(w, 0);
    BitValue(w, 1);
    BitValue(w, 2);
    BitValue(w, 5);
    BitValue(w, 6);
  }

  /** A new entry has its frame from bit 12 on, is present, and writable and for users on demand. */
  lemma NewEntryValue(frame: nat, rw: bool, level: bool)
    ensures NewEntry(frame, rw, level) == frame * 4096 + 1 + (if rw then 2 else 0) + (if level then 4 else 0)
  {
    hide Bit, SetBit, Pow2, WithFlag;
    FlagValues(0);
    var e := frame * PAGE_SIZE;
    assert Pow2(12) == 4096 by {
      Pow2Twelve();
    }
    NoLowBits(frame, 12, 0);
    NoLowBits(frame, 12, 1);
    NoLowBits(frame, 12, 2);
    SetBitIsFlag(e, 0);
    WithFlagValue(e, true, 0);
    WithFlagBit(e, true, 0, 1);
    WithFlagBit(e, true, 0, 2);
    var e0 := WithFlag(e, true, 0);
    WithFlagValue(e0, rw, 1);
    WithFlagBit(e0, rw, 1, 2);
    WithFlagValue(WithFlag(e0, rw, 1), level, 2);
  }

  lemma SetBitIsFlag(entry: nat, flag: nat)
    ensures SetBit(entry, flag) == WithFlag(entry, true, flag)
  {
  }

  lemma Pow2Twelve()
    ensures Pow2(12) == 4096
  {
    assert Pow2(4) == 16;
    Pow2Add(4, 4);
    Pow2Add(8, 4);
  }

  /** The entry of a copied page as a number: the frame from bit 12 on, present, and bits 1, 2, 5 and 6 of
      the source entry: writable, user, accessed and dirty. */
  lemma CopiedEntryValue(src: nat, frame: nat)
    ensures CopiedEntry(src, frame) ==
            frame * 4096 + 1 + 2 * (src / 2 % 2) + 4 * (src / 4 % 2) + 32 * (src / 32 % 2) + 64 * (src / 64 % 2)
  {
    hide Bit, SetBit, Pow2, WithFlag;
    FlagValues(src);
    NewEntryValue(frame, false, false);
    var e0 := NewEntry(frame, false, false);
    NewEntryBits(frame);
    var e1 := WithFlag(e0, Bit(src, PRESENT), PRESENT);
    SetAgain(e0, Bit(src, 0), 0);
    WithFlagValue(e1, Bit(src, 1), 1);
    var e2 := WithFlag(e1, Bit(src, READWRITE), READWRITE);
    WithFlagBit(e1, Bit(src, 1), 1, 2);
    WithFlagBit(e1, Bit(src, 1), 1, 5);
    WithFlagBit(e1, Bit(src, 1), 1, 6);
    WithFlagValue(e2, Bit(src, 2), 2);
    var e3 := WithFlag(e2, Bit(src, USER), USER);
    WithFlagBit(e2, Bit(src, 2), 2, 5);
    WithFlagBit(e2, Bit(src, 2), 2, 6);
    WithFlagValue(e3, Bit(src, 5), 5);
    var e4 := WithFlag(e3, Bit(src, ACCESSED), ACCESSED);
    WithFlagBit(e3, Bit(src, 5), 5, 6);
    WithFlagValue(e4, Bit(src, 6), 6);
  }

  lemma SetAgain(entry: nat, on: bool, flag: nat)
    requires Bit(entry, flag)
    ensures WithFlag(entry, on, flag) == entry
  {
    hide SetBit, Bit, Pow2;
    SetBitValue(entry, flag);
  }

  lemma NewEntryBits(frame: nat)
    ensures var e := NewEntry(frame, false, false);
            Bit(e, 0) && !Bit(e, 1) && !Bit(e, 2) && !Bit(e, 5) && !Bit(e, 6)
  {
    hide Bit, SetBit, Pow2;
    Pow2Twelve();
    var e := frame * PAGE_SIZE;
    assert NewEntry(frame, false, false) == SetBit(e, 0);
    BitSetBit(e, 0, 0);
    forall bit | bit in {1, 2, 5, 6} ensures !Bit(SetBit(e, 0), bit) {
      NoLowBits(frame, 12, bit);
      BitSetBit(e, 0, bit);
    }
  }

  lemma FrameOfAligned(frame: nat)
    ensures FrameOf(frame * PAGE_SIZE) == frame
  {
  }

  /** The five flags are copied faithfully exactly for pages that are present. */
  lemma FlagsFaithful(src: nat, frame: nat)
    ensures Bit(src, PRESENT) <==>
              forall bit :: bit in {PRESENT, READWRITE, USER, ACCESSED, DIRTY} ==>
                Bit(CopiedEntry(src, frame), bit) == Bit(src, bit)
  {
    hide CopiedEntry;
    forall bit: nat | bit < 12
      ensures Bit(CopiedEntry(src, frame), bit) ==
              (bit == PRESENT || (bit in {READWRITE, USER, ACCESSED, DIRTY} && Bit(src, bit)))
    {
      CopiedEntryFlags(src, frame, bit);
    }
  }

  // ---------------------------------------------------------------------------
  // Directories and physical memory

  type Frame = seq<nat>

  /** pagedirectory_t; a page table is an array of entries. */
  class PageDirectory {
    const phystables: array<nat>
    const tables: array<array?<nat>>
    var physicalAddress: nat

    constructor (physicalAddress: nat)
      ensures fresh(phystables) && fresh(tables) && Sized()
      ensures forall i :: 0 <= i < ENTRIES ==> phystables[i] == 0 && tables[i] == null
      ensures this.physicalAddress == physicalAddress
    {
      this.physicalAddress := physicalAddress;
      phystables := new nat[ENTRIES](_ => 0);
      tables := new array?<nat>[ENTRIES](_ => null);
    }

    ghost predicate Sized()
      reads tables
    {
      && phystables.Length == ENTRIES && tables.Length == ENTRIES
      && forall i :: 0 <= i < ENTRIES && tables[i] != null ==> tables[i].Length == ENTRIES
    }

    /** The page tables of the directory. */
    ghost function Tables(): set<object>
      reads tables
    {
      set i | 0 <= i < tables.Length && tables[i] != null :: tables[i]
    }

    /** No two slots share a table, so that a page has one virtual address per directory entry. */
    ghost predicate Separate()
      requires Sized()
      reads tables
    {
      && phystables !in Tables()
      && forall i, j :: 0 <= i < j < ENTRIES && tables[i] != null ==> tables[i] != tables[j]
    }

    /** The entry for the page of a virtual page number. */
    ghost function PageEntry(n: nat): nat
      requires Sized() && n < PAGES
      reads tables, Tables()
    {
      Entry(n / ENTRIES, n % ENTRIES)
    }

    /** The entry for page j of table i; 0 when there is no table. */
    ghost function Entry(i: nat, j: nat): nat
      requires Sized() && i < ENTRIES && j < ENTRIES
      reads tables, Tables()
    {
      if tables[i] == null then 0 else tables[i][j]
    }
  }

  /** A table is copied by a clone when it is not the kernel's table for the same addresses. */
  ghost predicate IsCopied(d: PageDirectory, kernel: PageDirectory, i: nat)
    requires d.Sized() && kernel.Sized() && i < ENTRIES
    reads d.tables, d.phystables, kernel.tables, kernel.phystables
  {
    d.tables[i] != null && FrameOf(d.phystables[i]) != FrameOf(kernel.phystables[i])
  }

  /** The pages that a clone copies, with their entries. */
  ghost function UserPages(d: PageDirectory, kernel: PageDirectory): map<(nat, nat), nat>
    requires d.Sized() && kernel.Sized()
    reads d.tables, d.phystables, kernel.tables, kernel.phystables, d.Tables()
  {
    map i: nat, j: nat | i < ENTRIES && j < ENTRIES && IsCopied(d, kernel, i) && d.Entry(i, j) != 0 ::
      (i, j) := d.Entry(i, j)
  }

  /** The pages of table i are those with an entry. */
  ghost predicate PagesOf(pages: map<(nat, nat), nat>, i: nat, table: array<nat>)
    requires table.Length == ENTRIES
    reads table
  {
    && (forall k :: k in pages && k.0 == i ==> k.1 < ENTRIES)
    && forall j: nat :: j < ENTRIES ==>
         ((i, j) in pages <==> table[j] != 0) && (table[j] != 0 ==> pages[(i, j)] == table[j])
  }

  lemma UserPagesOf(d: PageDirectory, kernel: PageDirectory, i: nat)
    requires d.Sized() && kernel.Sized() && i < ENTRIES
    ensures IsCopied(d, kernel, i) ==> PagesOf(UserPages(d, kernel), i, d.tables[i])
    ensures !IsCopied(d, kernel, i) ==> forall k :: k in UserPages(d, kernel) ==> k.0 != i
  {
    hide FrameOf;
  }

  lemma UserPagesRange(d: PageDirectory, kernel: PageDirectory)
    requires d.Sized() && kernel.Sized()
    ensures forall k :: k in UserPages(d, kernel) ==> k.0 < ENTRIES && k.1 < ENTRIES
  {
  }

  // ---------------------------------------------------------------------------
  // The progress of a clone: which frames have been handed out for which pages

  /** The entry of page k in a clone. */
  function ClonedEntry(pages: map<(nat, nat), nat>, alloc: map<(nat, nat), nat>, k: (nat, nat)): nat {
    if k in pages && k in alloc then CopiedEntry(pages[k], alloc[k]) else 0
  }

  /** So far the pages in alloc have been copied, each to a frame of its own that was free. */
  ghost predicate Copied(pages: map<(nat, nat), nat>, used0: set<nat>, frames0: seq<Frame>,
                         alloc: map<(nat, nat), nat>, used: set<nat>, frames: seq<Frame>) {
    && alloc.Keys <= pages.Keys
    && (forall k, l :: k in alloc && l in alloc && alloc[k] == alloc[l] ==> k == l)
    && alloc.Values !! used0 && used == used0 + alloc.Values
    && |frames| == |frames0|
    && (forall k :: k in alloc ==>
         alloc[k] < |frames| && FrameOf(pages[k]) < |frames| && frames[alloc[k]] == frames0[FrameOf(pages[k])])
    && (forall f :: 0 <= f < |frames| && f !in alloc.Values ==> frames[f] == frames0[f])
  }

  lemma CopyOne(pages: map<(nat, nat), nat>, used0: set<nat>, frames0: seq<Frame>,
                alloc: map<(nat, nat), nat>, used: set<nat>, frames: seq<Frame>, k: (nat, nat), f: nat)
    requires Copied(pages, used0, frames0, alloc, used, frames)
    requires k in pages && k !in alloc && FrameOf(pages[k]) in used0
    requires FrameOf(pages[k]) < |frames| && f < |frames| && f !in used
    ensures Copied(pages, used0, frames0, alloc[k := f], used + {f}, frames[f := frames[FrameOf(pages[k])]])
  {
    var alloc' := alloc[k := f];
    assert alloc'.Values == alloc.Values + {f} by {
      assert forall l :: l in alloc ==> l in alloc' && alloc'[l] == alloc[l];
      assert alloc'[k] == f;
    }
  }

  lemma CopiedStart(pages: map<(nat, nat), nat>, used: set<nat>, frames: seq<Frame>)
    ensures Copied(pages, used, frames, map[], used, frames)
  {
  }

  lemma CopiedLength(pages: map<(nat, nat), nat>, used0: set<nat>, frames0: seq<Frame>,
                     alloc: map<(nat, nat), nat>, used: set<nat>, frames: seq<Frame>)
    requires Copied(pages, used0, frames0, alloc, used, frames)
    ensures |frames| == |frames0|
  {
  }

  /** The clone cannot go on: some page is left over, and every frame is in use. */
  ghost predicate OutOfFrames(pages: map<(nat, nat), nat>, used0: set<nat>, frames0: seq<Frame>,
                              alloc: map<(nat, nat), nat>, used: set<nat>, frames: seq<Frame>, capacity: nat) {
    Copied(pages, used0, frames0, alloc, used, frames) && pages.Keys - alloc.Keys != {} && AllUsed(used, capacity)
  }

  /** Slot i of a clone: a table of its own with the copied pages, or the source's table. */
  ghost predicate ClonedSlot(srcTable: array?<nat>, srcPhys: nat, kernelPhys: nat, table: array?<nat>, phys: nat,
                             i: nat, pages: map<(nat, nat), nat>, alloc: map<(nat, nat), nat>)
    reads table
  {
    if srcTable == null then
      table == null && phys == 0
    else if FrameOf(srcPhys) == FrameOf(kernelPhys) then
      table == srcTable && phys == srcPhys
    else
      && table != null && table != srcTable && table.Length == ENTRIES
      && phys % PAGE_SIZE == 7
      && forall j: nat :: j < ENTRIES ==> table[j] == ClonedEntry(pages, alloc, (i, j))
  }

  /** Copying the pages of other tables does not change a slot. */
  lemma ClonedSlotGrows(srcTable: array?<nat>, srcPhys: nat, kernelPhys: nat, table: array?<nat>, phys: nat,
                        i: nat, pages: map<(nat, nat), nat>, alloc: map<(nat, nat), nat>, alloc': map<(nat, nat), nat>)
    requires ClonedSlot(srcTable, srcPhys, kernelPhys, table, phys, i, pages, alloc)
    requires forall k :: k in alloc ==> k in alloc' && alloc'[k] == alloc[k]
    requires forall k :: k in alloc' && k.0 == i ==> k in alloc
    ensures ClonedSlot(srcTable, srcPhys, kernelPhys, table, phys, i, pages, alloc')
  {
    hide CopiedEntry, FrameOf;
  }

  // ---------------------------------------------------------------------------
  // What a clone means for the processes that use it

  /** dst is a clone of src: what CloneDirectory establishes, in the state it leaves. */
  ghost predicate IsClone(src: PageDirectory, dst: PageDirectory, kernel: PageDirectory,
                          used0: set<nat>, frames0: seq<Frame>, alloc: map<(nat, nat), nat>,
                          used: set<nat>, frames: seq<Frame>)
    requires src.Sized() && dst.Sized() && kernel.Sized()
    reads src.tables, src.phystables, src.Tables(), kernel.tables, kernel.phystables, dst.tables, dst.phystables,
          dst.Tables()
  {
    var pages := UserPages(src, kernel);
    && (forall i: nat :: i < ENTRIES ==>
          ClonedSlot(src.tables[i], src.phystables[i], kernel.phystables[i], dst.tables[i], dst.phystables[i], i,
                     pages, alloc))
    && alloc.Keys == pages.Keys
    && (forall k :: k in pages ==> FrameOf(pages[k]) in used0)
    && Copied(pages, used0, frames0, alloc, used, frames)
  }

  /** A page is mapped in the clone if and only if it is mapped in the source, and reads the same
      bytes there; copied pages have frames of their own, which were free. */
  lemma CloneReads(src: PageDirectory, dst: PageDirectory, kernel: PageDirectory, used0: set<nat>, frames0: seq<Frame>,
                   alloc: map<(nat, nat), nat>, used: set<nat>, frames: seq<Frame>, i: nat, j: nat)
    requires src.Sized() && dst.Sized() && kernel.Sized() && i < ENTRIES && j < ENTRIES
    requires IsClone(src, dst, kernel, used0, frames0, alloc, used, frames)
    ensures dst.Entry(i, j) != 0 <==> src.Entry(i, j) != 0
    ensures FrameOf(src.Entry(i, j)) < |frames| && src.Entry(i, j) != 0 ==>
              && FrameOf(dst.Entry(i, j)) < |frames|
              && frames[FrameOf(dst.Entry(i, j))] == frames[FrameOf(src.Entry(i, j))]
    ensures !IsCopied(src, kernel, i) ==> dst.Entry(i, j) == src.Entry(i, j)
    ensures IsCopied(src, kernel, i) && src.Entry(i, j) != 0 ==>
              && FrameOf(dst.Entry(i, j)) == alloc[(i, j)] && alloc[(i, j)] !in used0
              && FrameOf(src.Entry(i, j)) in used0
              && frames[FrameOf(src.Entry(i, j))] == frames0[FrameOf(src.Entry(i, j))]
  {
    hide FrameOf, CopiedEntry;
    var pages, k := UserPages(src, kernel), (i, j);
    assert ClonedSlot(src.tables[i], src.phystables[i], kernel.phystables[i], dst.tables[i], dst.phystables[i], i,
                      pages, alloc);
    if IsCopied(src, kernel, i) && src.Entry(i, j) != 0 {
      assert k in pages && k in alloc;
      CopiedEntryFlags(pages[k], alloc[k], PRESENT);
      NotZero(pages[k], alloc[k]);
      assert alloc[k] in alloc.Values;
    }
  }

  lemma NotZero(src: nat, frame: nat)
    ensures CopiedEntry(src, frame) != 0
  {
    hide CopiedEntry;
    CopiedEntryFlags(src, frame, PRESENT);
    NoBits(PRESENT);
  }

  /** What the processor sees in the clone: a copied page has its own frame and is present, and it is
      writable, for users, accessed and dirty exactly if the page of the source is; other pages keep
      their entries. */
  lemma CloneFlags(src: PageDirectory, dst: PageDirectory, kernel: PageDirectory, used0: set<nat>, frames0: seq<Frame>,
                   alloc: map<(nat, nat), nat>, used: set<nat>, frames: seq<Frame>, i: nat, j: nat)
    requires src.Sized() && dst.Sized() && kernel.Sized() && i < ENTRIES && j < ENTRIES
    requires IsClone(src, dst, kernel, used0, frames0, alloc, used, frames)
    ensures var e := src.Entry(i, j);
            if e == 0 then dst.Entry(i, j) == 0
            else if src.phystables[i] / 4096 == kernel.phystables[i] / 4096 then dst.Entry(i, j) == e
            else
              && (i, j) in alloc && dst.Entry(i, j) / 4096 == alloc[(i, j)]
              && dst.Entry(i, j) % 4096 ==
                 1 + 2 * (e / 2 % 2) + 4 * (e / 4 % 2) + 32 * (e / 32 % 2) + 64 * (e / 64 % 2)
  {
    hide CopiedEntry, Copied;
    var e := src.Entry(i, j);
    assert ClonedSlot(src.tables[i], src.phystables[i], kernel.phystables[i], dst.tables[i], dst.phystables[i], i,
                      UserPages(src, kernel), alloc);
    if e != 0 && src.phystables[i] / 4096 != kernel.phystables[i] / 4096 {
      assert (i, j) in UserPages(src, kernel);
      CopiedEntryValue(e, alloc[(i, j)]);
    }
  }

  /** Writing to a frame through a copied page of the clone leaves alone every frame that was in
      use before, so every page of the source, and every other copied page of the clone. */
  lemma CloneIsolated(src: PageDirectory, dst: PageDirectory, kernel: PageDirectory,
                      used0: set<nat>, frames0: seq<Frame>, alloc: map<(nat, nat), nat>,
                      used: set<nat>, frames: seq<Frame>, i: nat, j: nat, written: Frame, g: nat)
    requires src.Sized() && dst.Sized() && kernel.Sized() && i < ENTRIES && j < ENTRIES
    requires IsClone(src, dst, kernel, used0, frames0, alloc, used, frames)
    requires IsCopied(src, kernel, i) && src.Entry(i, j) != 0 && g < |frames|
    ensures FrameOf(dst.Entry(i, j)) < |frames|
    ensures var frames' := frames[FrameOf(dst.Entry(i, j)) := written];
            && (g in used0 ==> frames'[g] == frames[g])
            && (forall k :: k in alloc && k != (i, j) && alloc[k] == g ==> frames'[g] == frames[g])
  {
    hide FrameOf, CopiedEntry;
    CloneReads(src, dst, kernel, used0, frames0, alloc, used, frames, i, j);
    assert (i, j) in alloc;
  }

  /** Writing through a page of the source is invisible in every copied page of the clone. */
  lemma SourceIsolated(src: PageDirectory, dst: PageDirectory, kernel: PageDirectory,
                       used0: set<nat>, frames0: seq<Frame>, alloc: map<(nat, nat), nat>,
                       used: set<nat>, frames: seq<Frame>, g: nat, written: Frame, i: nat, j: nat)
    requires src.Sized() && dst.Sized() && kernel.Sized() && i < ENTRIES && j < ENTRIES
    requires IsClone(src, dst, kernel, used0, frames0, alloc, used, frames)
    requires g in used0 && g < |frames|
    requires IsCopied(src, kernel, i) && src.Entry(i, j) != 0
    ensures FrameOf(dst.Entry(i, j)) < |frames|
    ensures frames[g := written][FrameOf(dst.Entry(i, j))] == frames[FrameOf(dst.Entry(i, j))]
  {
    hide FrameOf, CopiedEntry;
    CloneReads(src, dst, kernel, used0, frames0, alloc, used, frames, i, j);
  }

  /** Each copied page has taken one frame. */
  lemma CopiedCount(pages: map<(nat, nat), nat>, used0: set<nat>, frames0: seq<Frame>,
                    alloc: map<(nat, nat), nat>, used: set<nat>, frames: seq<Frame>)
    requires Copied(pages, used0, frames0, alloc, used, frames)
    ensures |used| == |used0| + |alloc.Keys| && alloc.Keys <= pages.Keys
  {
    hide FrameOf;
    ValuesOfInjective(alloc);
    assert |alloc| == |alloc.Keys|;
  }

  /** A clone takes exactly as many frames as it copies pages. */
  lemma CloneTakes(pages: map<(nat, nat), nat>, used0: set<nat>, frames0: seq<Frame>,
                   alloc: map<(nat, nat), nat>, used: set<nat>, frames: seq<Frame>)
    requires Copied(pages, used0, frames0, alloc, used, frames) && alloc.Keys == pages.Keys
    ensures |used| == |used0| + |pages|
  {
    CopiedCount(pages, used0, frames0, alloc, used, frames);
    hide Copied;
    assert |pages| == |pages.Keys|;
  }

  /** A clone that runs out of frames had more pages to copy than there were free frames. */
  lemma TooManyPages(pages: map<(nat, nat), nat>, used0: set<nat>, frames0: seq<Frame>,
                     alloc: map<(nat, nat), nat>, used: set<nat>, frames: seq<Frame>, capacity: nat)
    requires OutOfFrames(pages, used0, frames0, alloc, used, frames, capacity)
    requires forall f :: f in used ==> f < capacity
    ensures |pages| > capacity - |used0|
  {
    hide Copied, AllUsed;
    CopiedCount(pages, used0, frames0, alloc, used, frames);
    CountFrames(used, capacity);
    FewerKeys(alloc.Keys, pages.Keys);
    assert |pages| == |pages.Keys|;
  }

  lemma FewerKeys(a: set<(nat, nat)>, b: set<(nat, nat)>)
    requires a <= b && b - a != {}
    ensures |a| < |b|
  {
    assert b == a + (b - a);
  }

  lemma {:induction false} ValuesOfInjective(m: map<(nat, nat), nat>)
    requires forall k, l :: k in m && l in m && m[k] == m[l] ==> k == l
    ensures |m.Values| == |m|
  {
    if |m| > 0 {
      var k :| k in m;
      var m' := m - {k};
      ValuesOfInjective(m');
      assert m.Values == m'.Values + {m[k]} && m[k] !in m'.Values by {
        assert forall l :: l in m ==> l == k || (l in m' && m'[l] == m[l]);
      }
    } else {
      assert m.Values == {};
    }
  }

  // ---------------------------------------------------------------------------
  // The machine: frame bitmap, physical memory and the kernel's directory

  class Machine {
    const bitmap: Bitmap
    const kernel: PageDirectory
    var frames: seq<Frame>

    constructor (bitmap: Bitmap, kernel: PageDirectory, frames: seq<Frame>)
      ensures this.bitmap == bitmap && this.kernel == kernel && this.frames == frames
    {
      this.bitmap, this.kernel, this.frames := bitmap, kernel, frames;
    }

    ghost predicate Valid()
      reads this, bitmap, bitmap.words
    {
      bitmap.Valid() && bitmap.Capacity() <= |frames|
    }

    /** kmalloc_pageboundary_physical: some page-aligned address. */
    method KmallocPageboundary() returns (phys: nat)
      ensures phys % PAGE_SIZE == 0 && 0 < phys <= WORD_MAX
    {
      assert PAGE_SIZE % PAGE_SIZE == 0;
      phys :| phys % PAGE_SIZE == 0 && 0 < phys <= WORD_MAX;
    }

    /** allocate_pageframe; it fails where the kernel panics. */
    method AllocatePageframe(table: array<nat>, j: nat, rw: bool, level: bool) returns (ok: bool, ghost f: nat)
      requires Valid() && j < table.Length && table != bitmap.words
      modifies bitmap, bitmap.words, table
      ensures Valid()
      ensures old(table[j]) != 0 ==> ok && table[..] == old(table[..]) && bitmap.Frames() == old(bitmap.Frames())
      ensures old(table[j]) == 0 && ok ==>
                && LeastFree(old(bitmap.Frames()), f) && f < bitmap.Capacity()
                && bitmap.Frames() == old(bitmap.Frames()) + {f}
                && table[..] == old(table[..])[j := NewEntry(f, rw, level)]
      ensures !ok ==> table[..] == old(table[..]) && bitmap.Frames() == old(bitmap.Frames())
      ensures !ok ==> old(table[j]) == 0 && AllUsed(bitmap.Frames(), bitmap.Capacity())
    {
      hide Bitmap.Frames;
      f := 0;
      if table[j] != 0 {
        return true, f;
      }
      var index := bitmap.FindFirst();
      if index == -1 {
        return false, f;
      }
      f := index;
      bitmap.Mark(index);
      table[j] := index * PAGE_SIZE;
      table[j] := SetBit(table[j], PRESENT);
      if rw {
        table[j] := SetBit(table[j], READWRITE);
      }
      if level {
        table[j] := SetBit(table[j], USER);
      }
      ok := true;
    }

    /** copy_physical_pageframe_data: copies a whole frame. */
    method CopyFrame(src: nat, dst: nat)
      requires src < |frames| && dst < |frames|
      modifies this`frames
      ensures frames == old(frames)[dst := old(frames)[src]]
    {
      frames := frames[dst := frames[src]];
    }

    /** The inner loop of clone_pagedirectory: copies the pages of table i into the empty table dst. */
    method CloneTable(src: array<nat>, dst: array<nat>, ghost i: nat, ghost pages: map<(nat, nat), nat>,
                      ghost used0: set<nat>, ghost frames0: seq<Frame>, ghost alloc0: map<(nat, nat), nat>)
      returns (ok: bool, ghost alloc: map<(nat, nat), nat>)
      requires Valid() && src != dst && src != bitmap.words && dst != bitmap.words
      requires src.Length == ENTRIES && dst.Length == ENTRIES
      requires forall j :: 0 <= j < ENTRIES ==> dst[j] == 0
      requires PagesOf(pages, i, src)
      requires forall k :: k in pages ==> FrameOf(pages[k]) in used0 && FrameOf(pages[k]) < |frames|
      requires Copied(pages, used0, frames0, alloc0, bitmap.Frames(), frames)
      requires forall k :: k in alloc0 ==> k.0 != i
      modifies this`frames, bitmap, bitmap.words, dst
      ensures Valid()
      ensures ok ==>
                && Copied(pages, used0, frames0, alloc, bitmap.Frames(), frames)
                && (forall k :: k in alloc <==> k in alloc0 || (k in pages && k.0 == i))
                && (forall k :: k in alloc0 ==> alloc[k] == alloc0[k])
                && (forall j: nat :: j < ENTRIES ==> dst[j] == ClonedEntry(pages, alloc, (i, j)))
      ensures !ok ==> OutOfFrames(pages, used0, frames0, alloc, bitmap.Frames(), frames, bitmap.Capacity())
    {
      hide CopiedEntry, FrameOf, Copied, NewEntry, AllUsed, Bitmap.Frames, Bitmap.Valid;
      CopiedLength(pages, used0, frames0, alloc0, bitmap.Frames(), frames);
      alloc := alloc0;
      for j := 0 to ENTRIES
        invariant Valid() && |frames| == |frames0|
        invariant src[..] == old(src[..])
        invariant Copied(pages, used0, frames0, alloc, bitmap.Frames(), frames)
        invariant forall k :: k in alloc <==> k in alloc0 || (k in pages && k.0 == i && k.1 < j)
        invariant forall k :: k in alloc0 ==> alloc[k] == alloc0[k]
        invariant forall l: nat :: l < j ==> dst[l] == ClonedEntry(pages, alloc, (i, l))
        invariant forall l: nat :: j <= l < ENTRIES ==> dst[l] == 0
      {
        if src[j] == 0 {
          continue;
        }
        ghost var k := (i, j);
        ghost var f;
        ok, f := AllocatePageframe(dst, j, false, false);
        if !ok {
          assert k in pages.Keys - alloc.Keys;
          return;
        }
        CopyFlags(src[j], dst, j, f);
        CopyOne(pages, used0, frames0, alloc, bitmap.Frames() - {f}, frames, k, f);
        CopyFrame(FrameOf(src[j]), FrameOf(dst[j]));
        alloc := alloc[k := f];
      }
      ok := true;
    }

    /** Copies the five flags of a source entry one by one. */
    method CopyFlags(src: nat, dst: array<nat>, j: nat, ghost f: nat)
      requires j < dst.Length && dst[j] == NewEntry(f, false, false)
      modifies dst
      ensures dst[..] == old(dst[..])[j := CopiedEntry(src, f)]
      ensures FrameOf(dst[j]) == f
    {
      if Bit(src, PRESENT) {
        dst[j] := SetBit(dst[j], PRESENT);
      }
      if Bit(src, READWRITE) {
        dst[j] := SetBit(dst[j], READWRITE);
      }
      if Bit(src, USER) {
        dst[j] := SetBit(dst[j], USER);
      }
      if Bit(src, ACCESSED) {
        dst[j] := SetBit(dst[j], ACCESSED);
      }
      if Bit(src, DIRTY) {
        dst[j] := SetBit(dst[j], DIRTY);
      }
      CopiedEntryFlags(src, f, 0);
    }

    /** The body of the outer loop of clone_pagedirectory. */
    method CloneSlot(src: PageDirectory, dst: PageDirectory, i: nat, ghost pages: map<(nat, nat), nat>,
                     ghost used0: set<nat>, ghost frames0: seq<Frame>, ghost alloc0: map<(nat, nat), nat>)
      returns (ok: bool, ghost alloc: map<(nat, nat), nat>)
      requires Valid() && src.Sized() && dst.Sized() && kernel.Sized() && i < ENTRIES
      requires bitmap.words !in src.Tables() && bitmap.words !in {src.phystables, kernel.phystables, dst.phystables}
      requires dst.tables !in {src.tables, kernel.tables} && dst.phystables !in {src.phystables, kernel.phystables}
      requires dst.phystables !in src.Tables()
      requires dst.tables[i] == null && dst.phystables[i] == 0
      requires IsCopied(src, kernel, i) ==> PagesOf(pages, i, src.tables[i])
      requires !IsCopied(src, kernel, i) ==> forall k :: k in pages ==> k.0 != i
      requires forall k :: k in pages ==> FrameOf(pages[k]) in used0
      requires Copied(pages, used0, frames0, alloc0, bitmap.Frames(), frames)
      requires forall k :: k in alloc0 <==> k in pages && k.0 < i
      modifies this`frames, bitmap, bitmap.words, dst.tables, dst.phystables
      ensures Valid() && dst.Sized()
      ensures dst.tables[..] == old(dst.tables[..])[i := dst.tables[i]]
      ensures dst.phystables[..] == old(dst.phystables[..])[i := dst.phystables[i]]
      ensures dst.tables[i] == src.tables[i] || (dst.tables[i] != null && fresh(dst.tables[i]))
      ensures ok ==>
                ClonedSlot(src.tables[i], src.phystables[i], kernel.phystables[i], dst.tables[i], dst.phystables[i], i,
                           pages, alloc)
      ensures ok ==> Copied(pages, used0, frames0, alloc, bitmap.Frames(), frames)
      ensures ok ==> forall k :: k in alloc <==> k in pages && k.0 <= i
      ensures ok ==> forall k :: k in alloc0 ==> alloc[k] == alloc0[k]
      ensures !ok ==> OutOfFrames(pages, used0, frames0, alloc, bitmap.Frames(), frames, bitmap.Capacity())
    {
      hide CopiedEntry, Copied, ClonedEntry, PagesOf, OutOfFrames;
      CopiedLength(pages, used0, frames0, alloc0, bitmap.Frames(), frames);
      assert forall k :: k in pages ==> FrameOf(pages[k]) < |frames| by {
        CopiedUsed(pages, used0, frames0, alloc0, bitmap.Frames(), frames);
      }
      ok, alloc := true, alloc0;
      if src.tables[i] == null {
        return;
      }
      if FrameOf(src.phystables[i]) != FrameOf(kernel.phystables[i]) {
        var table := new nat[ENTRIES](_ => 0);
        var phys := KmallocPageboundary();
        dst.tables[i] := table;
        dst.phystables[i] := phys + 7;
        ok, alloc := CloneTable(src.tables[i], table, i, pages, used0, frames0, alloc);
      } else {
        dst.phystables[i] := src.phystables[i];
        dst.tables[i] := src.tables[i];
      }
    }

    /** The outer loop of clone_pagedirectory, over a directory dst that is still empty. */
    method CloneSlots(src: PageDirectory, dst: PageDirectory, ghost pages: map<(nat, nat), nat>)
      returns (ok: bool, ghost alloc: map<(nat, nat), nat>)
      requires Valid() && src.Sized() && dst.Sized() && kernel.Sized() && pages == UserPages(src, kernel)
      requires bitmap.words !in src.Tables() && bitmap.words !in {src.phystables, kernel.phystables, dst.phystables}
      requires dst.tables !in {src.tables, kernel.tables} && dst.phystables !in {src.phystables, kernel.phystables}
      requires dst.phystables !in src.Tables()
      requires forall l: nat :: l < ENTRIES ==> dst.tables[l] == null && dst.phystables[l] == 0
      requires forall k :: k in pages ==> FrameOf(pages[k]) in bitmap.Frames()
      modifies this`frames, bitmap, bitmap.words, dst.tables, dst.phystables
      ensures Valid() && dst.Sized()
      ensures ok ==> IsClone(src, dst, kernel, old(bitmap.Frames()), old(frames), alloc, bitmap.Frames(), frames)
      ensures !ok ==>
                OutOfFrames(pages, old(bitmap.Frames()), old(frames), alloc, bitmap.Frames(), frames, bitmap.Capacity())
    {
      hide CopiedEntry, FrameOf, Copied, UserPages, ClonedSlot, PagesOf, Bitmap.Frames, Bitmap.Valid, OutOfFrames;
      UserPagesRange(src, kernel);
      ghost var used0, frames0 := bitmap.Frames(), frames;
      forall l: nat | l < ENTRIES
        ensures IsCopied(src, kernel, l) ==> PagesOf(pages, l, src.tables[l])
        ensures !IsCopied(src, kernel, l) ==> forall k :: k in pages ==> k.0 != l
      {
        UserPagesOf(src, kernel, l);
      }
      ok, alloc := true, map[];
      CopiedStart(pages, used0, frames0);
      for i := 0 to ENTRIES
        invariant ok && dst.Sized()
        invariant Valid() && Copied(pages, used0, frames0, alloc, bitmap.Frames(), frames)
        invariant forall l: nat :: i <= l < ENTRIES ==> dst.tables[l] == null && dst.phystables[l] == 0
        invariant forall l: nat :: l < i ==>
                    dst.tables[l] == src.tables[l] || (dst.tables[l] != null && fresh(dst.tables[l]))
        invariant forall l: nat :: l < i ==>
                    ClonedSlot(src.tables[l], src.phystables[l], kernel.phystables[l],
                               dst.tables[l], dst.phystables[l], l, pages, alloc)
        invariant forall k :: k in alloc <==> k in pages && k.0 < i
      {
        ghost var alloc0 := alloc;
        ok, alloc := CloneSlot(src, dst, i, pages, used0, frames0, alloc);
        if !ok {
          return;
        }
        forall l: nat | l < i
          ensures ClonedSlot(src.tables[l], src.phystables[l], kernel.phystables[l],
                             dst.tables[l], dst.phystables[l], l, pages, alloc)
        {
          ClonedSlotGrows(src.tables[l], src.phystables[l], kernel.phystables[l],
                          dst.tables[l], dst.phystables[l], l, pages, alloc0, alloc);
        }
      }
      assert alloc.Keys == pages.Keys;
    }

    /** clone_pagedirectory.  It returns null where the kernel panics: exactly when there are more
        pages to copy than free frames. */
    method CloneDirectory(src: PageDirectory) returns (dst: PageDirectory?, ghost alloc: map<(nat, nat), nat>)
      requires Valid() && src.Sized() && kernel.Sized()
      requires bitmap.words !in src.Tables() && bitmap.words !in {src.phystables, kernel.phystables}
      requires forall k :: k in UserPages(src, kernel) ==> FrameOf(UserPages(src, kernel)[k]) in bitmap.Frames()
      modifies this`frames, bitmap, bitmap.words
      ensures Valid()
      ensures dst == null <==> |UserPages(src, kernel)| > bitmap.Capacity() - |old(bitmap.Frames())|
      ensures dst != null ==> fresh(dst) && dst.Sized()
      ensures dst != null ==>
                IsClone(src, dst, kernel, old(bitmap.Frames()), old(frames), alloc, bitmap.Frames(), frames)
    {
      hide FrameOf, UserPages, Bitmap.Frames, Bitmap.Valid, OutOfFrames, IsClone;
      ghost var pages, used0, frames0 := UserPages(src, kernel), bitmap.Frames(), frames;
      var phys := KmallocPageboundary();
      dst := new PageDirectory(phys);
      var ok;
      ok, alloc := CloneSlots(src, dst, pages);
      FramesBelow();
      if ok {
        EnoughFrames(src, dst, used0, frames0, alloc);
      } else {
        TooManyPages(pages, used0, frames0, alloc, bitmap.Frames(), frames, bitmap.Capacity());
        dst := null;
      }
    }

    lemma EnoughFrames(src: PageDirectory, dst: PageDirectory, used0: set<nat>, frames0: seq<Frame>,
                       alloc: map<(nat, nat), nat>)
      requires Valid() && src.Sized() && dst.Sized() && kernel.Sized()
      requires IsClone(src, dst, kernel, used0, frames0, alloc, bitmap.Frames(), frames)
      ensures |UserPages(src, kernel)| <= bitmap.Capacity() - |used0|
    {
      FramesBelow();
      hide FrameOf, UserPages, ClonedSlot, Copied, Bitmap.Frames;
      CloneTakes(UserPages(src, kernel), used0, frames0, alloc, bitmap.Frames(), frames);
      CountFrames(bitmap.Frames(), bitmap.Capacity());
    }

    lemma FramesBelow()
      requires Valid()
      ensures forall f :: f in bitmap.Frames() ==> f < bitmap.Capacity()
    {
    }

    /** The directory entry of a new table is present, writable and for users; an existing table
        keeps its entry, and so do all others. */
    static ghost predicate TableEntered(table: array?<nat>, before: seq<nat>, after: seq<nat>, i: nat)
      requires i < |before|
    {
      if table != null then after == before
      else exists phys :: phys > 0 && phys % PAGE_SIZE == 0 && after == before[i := phys + 7]
    }

    /** An empty table for slot i if there is none. */
    method CreateTable(d: PageDirectory, i: nat)
      requires d.Sized() && d.Separate() && i < ENTRIES
      modifies d.tables, d.phystables
      ensures d.Sized() && d.Separate() && d.tables[i] != null
      ensures fresh(d.Tables() - old(d.Tables()))
      ensures forall n: nat :: n < PAGES ==> d.PageEntry(n) == old(d.PageEntry(n))
      ensures TableEntered(old(d.tables[i]), old(d.phystables[..]), d.phystables[..], i)
    {
      if d.tables[i] == null {
        var table := new nat[ENTRIES](_ => 0);
        d.tables[i] := table;
        var phys := KmallocPageboundary();
        d.phystables[i] := phys + 7;
      }
    }

    method SetPage(d: PageDirectory, n: nat, entry: nat)
      requires d.Sized() && d.Separate() && n < PAGES && d.tables[n / ENTRIES] != null
      modifies d.tables[n / ENTRIES]
      ensures forall m: nat :: m < PAGES ==> d.PageEntry(m) == if m == n then entry else old(d.PageEntry(m))
    {
      d.tables[n / ENTRIES][n % ENTRIES] := entry;
    }

    /** map_virtual_memory: makes one page refer to a frame, with a new table where needed. */
    method MapVirtualMemory(d: PageDirectory, srcAddress: nat, dstAddress: nat, levels: nat, setBitmap: bool)
      requires Valid() && d.Sized() && d.Separate() && bitmap.words !in d.Tables() && bitmap.words != d.phystables
      requires dstAddress <= WORD_MAX && levels < PAGE_SIZE
      requires setBitmap ==> srcAddress / PAGE_SIZE < bitmap.Capacity()
      modifies bitmap.words, d.tables, d.phystables, d.Tables()
      ensures Valid() && d.Sized() && d.Separate()
      ensures fresh(d.Tables() - old(d.Tables()))
      ensures d.physicalAddress == 0 ==> bitmap.Frames() == old(bitmap.Frames())
      ensures d.physicalAddress != 0 ==>
                var i := dstAddress / PAGE_SIZE / ENTRIES;
                TableEntered(old(d.tables[i]), old(d.phystables[..]), d.phystables[..], i)
      ensures forall n: nat :: n < PAGES ==>
                (d.PageEntry(n) == if d.physicalAddress != 0 && n == dstAddress / PAGE_SIZE
                                   then srcAddress / PAGE_SIZE * PAGE_SIZE + levels
                                   else old(d.PageEntry(n)))
      ensures d.physicalAddress != 0 ==>
                bitmap.Frames() == if setBitmap then old(bitmap.Frames()) + {srcAddress / PAGE_SIZE}
                                    else old(bitmap.Frames())
    {
      if d.physicalAddress == 0 {
        return;
      }
      var srcFrame, dstFrame := srcAddress / PAGE_SIZE, dstAddress / PAGE_SIZE;
      CreateTable(d, dstFrame / ENTRIES);
      SetPage(d, dstFrame, srcFrame * PAGE_SIZE + levels);
      if setBitmap {
        bitmap.Mark(srcFrame);
      }
    }

    /** allocate_virtual_memory, for the directory of the current task: maps size / 0x1000 + 1
        pages; addresses are 32-bit numbers that wrap around. */
    method AllocateVirtualMemory(d: PageDirectory, physicalAddress: nat, size: nat, virtualAddress: nat)
      requires Valid() && d.Sized() && d.Separate() && bitmap.words !in d.Tables() && bitmap.words != d.phystables
      requires d.physicalAddress != 0
      requires physicalAddress <= WORD_MAX && size <= WORD_MAX && virtualAddress <= WORD_MAX
      requires forall k: nat :: k <= size / PAGE_SIZE ==> NthPage(physicalAddress, k) < bitmap.Capacity()
      modifies bitmap.words, d.tables, d.phystables, d.Tables()
      ensures Valid() && d.Sized() && d.Separate()
      ensures forall n: nat :: n < PAGES ==>
                d.PageEntry(n) == MappedEntry(old(d.PageEntry(n)), physicalAddress, virtualAddress,
                                              size / PAGE_SIZE + 1, n)
      ensures bitmap.Frames() == old(bitmap.Frames()) + FirstPages(physicalAddress, size / PAGE_SIZE + 1)
    {
      hide NthPage, PageDirectory.PageEntry, PageDirectory.Entry, Bitmap.Frames;
      var off := 0;
      var count := size / PAGE_SIZE + 1;
      ghost var k := 0;
      while true
        invariant k + count == size / PAGE_SIZE + 1 && count > 0
        invariant off == k * PAGE_SIZE % ADDRESSES
        invariant Valid() && d.Sized() && d.Separate() && bitmap.words !in d.Tables() && bitmap.words != d.phystables
        invariant fresh(d.Tables() - old(d.Tables()))
        invariant forall n: nat :: n < PAGES ==>
                    d.PageEntry(n) == MappedEntry(old(d.PageEntry(n)), physicalAddress, virtualAddress, k, n)
        invariant bitmap.Frames() == old(bitmap.Frames()) + FirstPages(physicalAddress, k)
        decreases count
      {
        PageStep(physicalAddress, k, off);
        PageStep(virtualAddress, k, off);
        MapVirtualMemory(d, (physicalAddress + off) % ADDRESSES, (virtualAddress + off) % ADDRESSES, USER_PAGE, true);
        off := (off + PAGE_SIZE) % ADDRESSES;
        count := count - 1;
        k := k + 1;
        if count == 0 {
          break;
        }
      }
    }

    /** create_pageframe: gives a page that is not mapped the least free frame. */
    method CreatePageframe(d: PageDirectory, address: nat, levels: nat) returns (ok: bool)
      requires Valid() && d.Sized() && d.Separate() && bitmap.words !in d.Tables() && bitmap.words != d.phystables
      requires address <= WORD_MAX && levels < PAGE_SIZE
      modifies bitmap, bitmap.words, d.tables, d.phystables, d.Tables()
      ensures Valid() && d.Sized() && d.Separate()
      ensures fresh(d.Tables() - old(d.Tables()))
      ensures forall n: nat :: n < PAGES && n != address / PAGE_SIZE ==> d.PageEntry(n) == old(d.PageEntry(n))
      ensures var n, used := address / PAGE_SIZE, old(bitmap.Frames());
              if old(d.PageEntry(n)) != 0 || !ok then
                d.PageEntry(n) == old(d.PageEntry(n)) && bitmap.Frames() == used
              else
                && d.PageEntry(n) % PAGE_SIZE == levels
                && LeastFree(used, FrameOf(d.PageEntry(n)))
                && bitmap.Frames() == used + {FrameOf(d.PageEntry(n))}
      ensures !ok ==> AllUsed(bitmap.Frames(), bitmap.Capacity())
      ensures var i := address / PAGE_SIZE / ENTRIES;
              TableEntered(old(d.tables[i]), old(d.phystables[..]), d.phystables[..], i)
    {
      hide Bitmap.Frames, LeastFree, Bitmap.Valid, PageDirectory.Separate;
      var dstFrame := address / PAGE_SIZE;
      var table, page := dstFrame / ENTRIES, dstFrame % ENTRIES;
      CreateTable(d, table);
      if d.tables[table][page] != 0 {
        return true;
      }
      var index := bitmap.FindFirst();
      if index == -1 {
        return false;
      }
      bitmap.Mark(index);
      SetPage(d, dstFrame, index * PAGE_SIZE + levels);
      ok := true;
    }

    /** get_physical_address */
    method GetPhysicalAddress(d: PageDirectory, v: nat) returns (r: nat)
      requires d.Sized() && v <= WORD_MAX && d.tables[v / PAGE_SIZE / ENTRIES] != null
      ensures r == FrameOf(d.PageEntry(v / PAGE_SIZE)) * PAGE_SIZE + v % PAGE_SIZE
    {
      var frame := v / PAGE_SIZE;
      var table, page := frame / ENTRIES, frame % ENTRIES;
      r := d.tables[table][page] / PAGE_SIZE * PAGE_SIZE + v % PAGE_SIZE;
    }
  }

  // ---------------------------------------------------------------------------
  // Page numbers

  /** The number of addresses: a 32-bit address wraps around here. */
  const ADDRESSES: nat := 0x1_0000_0000

  /** PAGEFLAG_USER | PAGEFLAG_PRESENT | PAGEFLAG_READWRITE */
  const USER_PAGE: nat := 7

  /** The k-th page from an address on. */
  function NthPage(address: nat, k: nat): (n: nat)
    ensures n < PAGES
  {
    (address / PAGE_SIZE + k) % PAGES
  }

  /** The first n pages from an address on. */
  function FirstPages(address: nat, n: nat): set<nat> {
    if n == 0 then {} else FirstPages(address, n - 1) + {NthPage(address, n - 1)}
  }

  lemma {:induction false} InFirstPages(address: nat, n: nat, f: nat)
    ensures f in FirstPages(address, n) <==> exists k: nat :: k < n && f == NthPage(address, k)
  {
    if n > 0 {
      InFirstPages(address, n - 1, f);
    }
  }

  lemma PageStep(address: nat, k: nat, off: nat)
    requires off == k * PAGE_SIZE % ADDRESSES
    ensures (address + off) % ADDRESSES / PAGE_SIZE == NthPage(address, k)
  {
    var q, r := address / PAGE_SIZE, address % PAGE_SIZE;
    var n := (q + k) % PAGES;
    OffsetPages(k);
    SumPages(q, k);
    var wraps := (q + k % PAGES) / PAGES;
    assert address + off == wraps * ADDRESSES + (n * PAGE_SIZE + r);
    WrapAround(address + off, wraps, n * PAGE_SIZE + r);
    PageOf(n, r);
  }

  /** A number of pages, in bytes and modulo the address space. */
  lemma OffsetPages(k: nat)
    ensures k * PAGE_SIZE % ADDRESSES == k % PAGES * PAGE_SIZE
  {
    var q, r := k / PAGES, k % PAGES;
    assert k * PAGE_SIZE == q * ADDRESSES + r * PAGE_SIZE;
    WrapAround(k * PAGE_SIZE, q, r * PAGE_SIZE);
  }

  lemma SumPages(q: nat, k: nat)
    ensures (q + k % PAGES) % PAGES == (q + k) % PAGES
  {
    var a, b := k / PAGES, (q + k % PAGES) / PAGES;
    assert q + k == (a + b) * PAGES + (q + k % PAGES) % PAGES;
  }

  lemma WrapAround(x: nat, q: nat, r: nat)
    requires x == q * ADDRESSES + r && r < ADDRESSES
    ensures x % ADDRESSES == r
  {
  }

  lemma PageOf(n: nat, r: nat)
    requires r < PAGE_SIZE
    ensures (n * PAGE_SIZE + r) / PAGE_SIZE == n
  {
  }

  /** The entry of page n after k pages from virt on have been mapped to those from phys on. */
  function MappedEntry(before: nat, phys: nat, virt: nat, k: nat, n: nat): nat {
    if k == 0 then before
    else if n == NthPage(virt, k - 1) then NthPage(phys, k - 1) * PAGE_SIZE + USER_PAGE
    else MappedEntry(before, phys, virt, k - 1, n)
  }

  /** Each of the k pages refers to the corresponding frame ... */
  lemma {:induction false} MappedPage(before: nat, phys: nat, virt: nat, k: nat, l: nat)
    requires l < k <= PAGES
    ensures MappedEntry(before, phys, virt, k, NthPage(virt, l)) == NthPage(phys, l) * PAGE_SIZE + USER_PAGE
  {
    if l < k - 1 {
      PagesDiffer(virt, l, k - 1);
      MappedPage(before, phys, virt, k - 1, l);
    }
  }

  /** As numbers: page virt/4096 + l refers to frame phys/4096 + l, both modulo 2^20, and is present, writable
      and for users. */
  lemma MappedValue(before: nat, phys: nat, virt: nat, k: nat, l: nat)
    requires l < k <= 0x10_0000
    ensures MappedEntry(before, phys, virt, k, (virt / 4096 + l) % 0x10_0000) ==
            (phys / 4096 + l) % 0x10_0000 * 4096 + 7
  {
    MappedPage(before, phys, virt, k, l);
  }

  lemma NthPageValue(address: nat, k: nat)
    ensures NthPage(address, k) == (address / 4096 + k) % 0x10_0000
  {
  }

  /** ... and no other page changes. */
  lemma {:induction false} OtherPage(before: nat, phys: nat, virt: nat, k: nat, n: nat)
    requires forall l: nat :: l < k ==> n != NthPage(virt, l)
    ensures MappedEntry(before, phys, virt, k, n) == before
  {
    if k > 0 {
      OtherPage(before, phys, virt, k - 1, n);
    }
  }

  /** The physical address that an entry gives for a virtual address, as GetPhysicalAddress computes it. */
  function Physical(entry: nat, v: nat): nat {
    FrameOf(entry) * PAGE_SIZE + v % PAGE_SIZE
  }

  /** After allocate_virtual_memory(phys, size, virt) the address virt + k is phys + k, for every k
      in the pages that were mapped: if and only if both addresses have the same offset in a page. */
  lemma MappedAddress(before: nat, phys: nat, virt: nat, size: nat, k: nat)
    requires phys + k < ADDRESSES && virt + k < ADDRESSES && size < ADDRESSES
    requires virt % PAGE_SIZE + k < (size / PAGE_SIZE + 1) * PAGE_SIZE
    ensures Physical(MappedEntry(before, phys, virt, size / PAGE_SIZE + 1, (virt + k) / PAGE_SIZE), virt + k)
            == phys + k
            <==> phys % PAGE_SIZE == virt % PAGE_SIZE
  {
    hide MappedEntry;
    var l := (virt % PAGE_SIZE + k) / PAGE_SIZE;
    assert (virt + k) / PAGE_SIZE == virt / PAGE_SIZE + l == NthPage(virt, l);
    MappedPage(before, phys, virt, size / PAGE_SIZE + 1, l);
    var f := NthPage(phys, l);
    assert FrameOf(f * PAGE_SIZE + USER_PAGE) == f;
  }

  /** Where the entry of an address lies: bits 22 to 31 of the address choose the table, bits 12 to 21 the
      place in it. */
  lemma EntryPlace(d: PageDirectory, v: nat)
    requires d.Sized() && v < 0x1_0000_0000
    ensures v / 0x40_0000 < d.tables.Length
    ensures d.PageEntry(v / 4096) ==
            if d.tables[v / 0x40_0000] == null then 0 else d.tables[v / 0x40_0000][v / 4096 % 1024]
  {
  }

  lemma PagesDiffer(address: nat, l: nat, k: nat)
    requires l < k < l + PAGES
    ensures NthPage(address, l) != NthPage(address, k)
  {
  }

  lemma CopiedUsed(pages: map<(nat, nat), nat>, used0: set<nat>, frames0: seq<Frame>,
                   alloc: map<(nat, nat), nat>, used: set<nat>, frames: seq<Frame>)
    requires Copied(pages, used0, frames0, alloc, used, frames)
    ensures used0 <= used
  {
  }
}
