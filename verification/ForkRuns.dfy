// Address spaces over runs of forks, new pages and writes (source/kernel/paging.c).
module ForkRuns {
  import opened FrameBitmap
  import opened Paging

  /** The user pages of a directory and the frames that hold them. */
  type Space = map<(nat, nat), nat>

  /** The address spaces of all processes, the frames in use, and physical memory. */
  datatype Memory = Memory(spaces: seq<Space>, used: set<nat>, frames: seq<Frame>)

  /** A fork of space i, a new page for it, or a write through one of its pages. */
  datatype Step =
    | Fork(i: nat, alloc: Space)
    | Create(i: nat, page: (nat, nat), f: nat)
    | Write(i: nat, page: (nat, nat))

  function WithPage(space: Space, page: (nat, nat), f: nat): Space {
    space[page := f]
  }

  /** What a step leaves alone and what it does. */
  ghost predicate StepTo(m: Memory, s: Step, m': Memory) {
    && s.i < |m.spaces| && |m'.frames| == |m.frames|
    && match s
       case Fork(i, alloc) =>
         && alloc.Keys == m.spaces[i].Keys && alloc.Values !! m.used
         && (forall k, l :: k in alloc && l in alloc && alloc[k] == alloc[l] ==> k == l)
         && m'.spaces == m.spaces + [alloc] && m'.used == m.used + alloc.Values
         && (forall k :: k in alloc ==> Holds(m', alloc[k], m, m.spaces[i][k]))
         && (forall f :: 0 <= f < |m.frames| && f !in alloc.Values ==> m'.frames[f] == m.frames[f])
       case Create(i, page, f) =>
         && page !in m.spaces[i] && f !in m.used && f < |m.frames|
         && m'.spaces == m.spaces[i := WithPage(m.spaces[i], page, f)] && m'.used == m.used + {f}
         && m'.frames == m.frames
       case Write(i, page) =>
         && page in m.spaces[i] && m'.spaces == m.spaces && m'.used == m.used
         && forall f :: 0 <= f < |m.frames| && f != m.spaces[i][page] ==> m'.frames[f] == m.frames[f]
  }

  /** Frame f' of m' holds what frame f of m holds. */
  ghost predicate Holds(m': Memory, f': nat, m: Memory, f: nat) {
    f' < |m'.frames| && f < |m.frames| && m'.frames[f'] == m.frames[f]
  }

  ghost predicate InSpace(m: Memory, i: nat, k: (nat, nat)) {
    i < |m.spaces| && k in m.spaces[i]
  }

  ghost predicate InUse(m: Memory, i: nat, k: (nat, nat))
    requires InSpace(m, i, k)
  {
    m.spaces[i][k] in m.used && m.spaces[i][k] < |m.frames|
  }

  ghost predicate Apart(m: Memory, i: nat, k: (nat, nat), j: nat, l: (nat, nat))
    requires InSpace(m, i, k) && InSpace(m, j, l)
  {
    m.spaces[i][k] == m.spaces[j][l] ==> i == j && k == l
  }

  /** No two pages of any processes share a frame, and their frames are in use. */
  ghost predicate Isolated(m: Memory) {
    && (forall i: nat, k :: InSpace(m, i, k) ==> InUse(m, i, k))
    && forall i: nat, k, j: nat, l :: InSpace(m, i, k) && InSpace(m, j, l) ==> Apart(m, i, k, j, l)
  }

  /** Where a page of the memory after a step comes from. */
  lemma Origin(m: Memory, s: Step, m': Memory, i: nat, k: (nat, nat))
    requires Isolated(m) && StepTo(m, s, m') && InSpace(m', i, k)
    ensures InUse(m', i, k)
    ensures
      || (InSpace(m, i, k) && m'.spaces[i][k] == m.spaces[i][k] && m.spaces[i][k] in m.used)
      || (s.Fork? && i == |m.spaces| && k in s.alloc && m'.spaces[i][k] == s.alloc[k] && s.alloc[k] !in m.used)
      || (s.Create? && i == s.i && k == s.page && m'.spaces[i][k] == s.f && s.f !in m.used)
  {
    if s.Fork? && i == |m.spaces| {
      assert Holds(m', s.alloc[k], m, m.spaces[s.i][k]);
      assert s.alloc[k] in s.alloc.Values;
    } else if InSpace(m, i, k) {
      assert InUse(m, i, k);
    }
  }

  lemma IsolatedKept(m: Memory, s: Step, m': Memory)
    requires Isolated(m) && StepTo(m, s, m')
    ensures Isolated(m')
  {
    forall i: nat, k | InSpace(m', i, k) ensures InUse(m', i, k) {
      Origin(m, s, m', i, k);
    }
    forall i: nat, k, j: nat, l | InSpace(m', i, k) && InSpace(m', j, l) ensures Apart(m', i, k, j, l) {
      ApartKept(m, s, m', i, k, j, l);
    }
  }

  lemma ApartKept(m: Memory, s: Step, m': Memory, i: nat, k: (nat, nat), j: nat, l: (nat, nat))
    requires Isolated(m) && StepTo(m, s, m') && InSpace(m', i, k) && InSpace(m', j, l)
    ensures Apart(m', i, k, j, l)
  {
    Origin(m, s, m', i, k);
    Origin(m, s, m', j, l);
    if InSpace(m, i, k) && InSpace(m, j, l) {
      assert Apart(m, i, k, j, l);
    }
  }

  /** A run: the memory before each step and after the last one. */
  ghost predicate IsRun(ms: seq<Memory>, steps: seq<Step>) {
    |ms| == |steps| + 1 && forall n :: 0 <= n < |steps| ==> StepTo(ms[n], steps[n], ms[n + 1])
  }

  /** In every run no two user pages, of whatever processes, ever share a frame. */
  lemma {:induction false} NeverShared(ms: seq<Memory>, steps: seq<Step>, n: nat)
    requires IsRun(ms, steps) && Isolated(ms[0]) && n < |ms|
    ensures Isolated(ms[n])
  {
    if n > 0 {
      NeverShared(ms, steps, n - 1);
      IsolatedKept(ms[n - 1], steps[n - 1], ms[n]);
    }
  }

  /** What page k of space j reads. */
  ghost function Reads(m: Memory, j: nat, k: (nat, nat)): Frame
    requires Isolated(m) && j < |m.spaces| && k in m.spaces[j]
  {
    assert InSpace(m, j, k) && InUse(m, j, k);
    m.frames[m.spaces[j][k]]
  }

  /** A step other than a write through the page itself changes neither its frame nor what it reads. */
  lemma PageKept(m: Memory, s: Step, m': Memory, j: nat, k: (nat, nat))
    requires Isolated(m) && StepTo(m, s, m') && j < |m.spaces| && k in m.spaces[j]
    requires !(s.Write? && s.i == j && s.page == k)
    ensures Isolated(m') && j < |m'.spaces| && k in m'.spaces[j] && m'.spaces[j][k] == m.spaces[j][k]
    ensures Reads(m', j, k) == Reads(m, j, k)
  {
    IsolatedKept(m, s, m');
    assert InSpace(m, j, k) && InUse(m, j, k);
    if s.Write? {
      assert InSpace(m, s.i, s.page) && Apart(m, s.i, s.page, j, k);
    }
  }

  /** Isolation over runs: what a process reads in a page changes only by its own writes to that
      page, whatever forks, new pages and writes of other processes there are. */
  lemma {:induction false} OwnWritesOnly(ms: seq<Memory>, steps: seq<Step>, n: nat, j: nat, k: (nat, nat))
    requires IsRun(ms, steps) && Isolated(ms[0]) && n < |ms|
    requires j < |ms[0].spaces| && k in ms[0].spaces[j]
    requires forall a :: 0 <= a < n && steps[a].Write? && steps[a].i == j ==> steps[a].page != k
    ensures Isolated(ms[n]) && j < |ms[n].spaces| && k in ms[n].spaces[j]
    ensures Reads(ms[n], j, k) == Reads(ms[0], j, k)
  {
    if n > 0 {
      OwnWritesOnly(ms, steps, n - 1, j, k);
      PageKept(ms[n - 1], steps[n - 1], ms[n], j, k);
    }
  }

  /** Right after a fork the new space reads what the old one reads. */
  lemma ForkReads(m: Memory, i: nat, alloc: Space, m': Memory, k: (nat, nat))
    requires Isolated(m) && StepTo(m, Fork(i, alloc), m') && k in m.spaces[i]
    ensures Isolated(m') && k in m'.spaces[|m.spaces|]
    ensures Reads(m', |m.spaces|, k) == Reads(m, i, k) == Reads(m', i, k)
  {
    IsolatedKept(m, Fork(i, alloc), m');
    PageKept(m, Fork(i, alloc), m', i, k);
    assert Holds(m', alloc[k], m, m.spaces[i][k]);
  }

  // ---------------------------------------------------------------------------
  // The methods of the machine take these steps

  /** The space of a directory: the pages that are not the kernel's. */
  ghost function SpaceOf(d: PageDirectory, kernel: PageDirectory): Space
    requires d.Sized() && kernel.Sized()
    reads d.tables, d.phystables, kernel.tables, kernel.phystables, d.Tables()
  {
    map k | k in UserPages(d, kernel) :: FrameOf(UserPages(d, kernel)[k])
  }

  /** The tables that a clone has of its own do not lie where tables of the kernel do. */
  ghost predicate OwnTables(src: PageDirectory, dst: PageDirectory, kernel: PageDirectory)
    requires src.Sized() && dst.Sized() && kernel.Sized()
    reads src.tables, src.phystables, dst.tables, dst.phystables, kernel.tables, kernel.phystables
  {
    forall i: nat :: i < ENTRIES && IsCopied(src, kernel, i) ==>
             FrameOf(dst.phystables[i]) != FrameOf(kernel.phystables[i])
  }

  /** The space of a clone. */
  lemma CloneSpace(src: PageDirectory, dst: PageDirectory, kernel: PageDirectory, used0: set<nat>, frames0: seq<Frame>,
                   alloc: Space, used: set<nat>, frames: seq<Frame>)
    requires src.Sized() && dst.Sized() && kernel.Sized() && OwnTables(src, dst, kernel)
    requires IsClone(src, dst, kernel, used0, frames0, alloc, used, frames)
    ensures SpaceOf(dst, kernel) == alloc && alloc.Keys == SpaceOf(src, kernel).Keys
  {
    hide FrameOf, Copied, ClonedSlot, CopiedEntry;
    forall i: nat, j: nat | i < ENTRIES && j < ENTRIES
      ensures (i, j) in UserPages(dst, kernel) <==> (i, j) in alloc
      ensures (i, j) in alloc ==> FrameOf(dst.Entry(i, j)) == alloc[(i, j)]
    {
      CloneSlotSpace(src, dst, kernel, used0, frames0, alloc, used, frames, i, j);
    }
  }

  lemma CloneSlotSpace(src: PageDirectory, dst: PageDirectory, kernel: PageDirectory,
                       used0: set<nat>, frames0: seq<Frame>, alloc: Space,
                       used: set<nat>, frames: seq<Frame>, i: nat, j: nat)
    requires src.Sized() && dst.Sized() && kernel.Sized() && OwnTables(src, dst, kernel) && i < ENTRIES && j < ENTRIES
    requires IsClone(src, dst, kernel, used0, frames0, alloc, used, frames)
    ensures (i, j) in UserPages(dst, kernel) <==> (i, j) in alloc
    ensures (i, j) in alloc ==> FrameOf(dst.Entry(i, j)) == alloc[(i, j)]
  {
    hide FrameOf, CopiedEntry;
    CloneReads(src, dst, kernel, used0, frames0, alloc, used, frames, i, j);
    assert ClonedSlot(src.tables[i], src.phystables[i], kernel.phystables[i],
                      dst.tables[i], dst.phystables[i], i, UserPages(src, kernel), alloc);
  }

  /** What clone_pagedirectory does is a fork step: in particular the frames of the clone are in use,
      as the next clone demands. */
  lemma CloneIsFork(src: PageDirectory, dst: PageDirectory, kernel: PageDirectory, alloc: Space,
                    m: Memory, i: nat, used: set<nat>, frames: seq<Frame>)
    requires src.Sized() && dst.Sized() && kernel.Sized() && OwnTables(src, dst, kernel)
    requires IsClone(src, dst, kernel, m.used, m.frames, alloc, used, frames)
    requires i < |m.spaces| && m.spaces[i] == SpaceOf(src, kernel) && Isolated(m)
    ensures SpaceOf(dst, kernel) == alloc
    ensures StepTo(m, Fork(i, alloc), Memory(m.spaces + [alloc], used, frames))
    ensures forall k :: k in UserPages(dst, kernel) ==> FrameOf(UserPages(dst, kernel)[k]) in used
  {
    hide FrameOf, ClonedSlot, CopiedEntry, Copied, StepTo, Isolated;
    var pages := UserPages(src, kernel);
    CloneSpace(src, dst, kernel, m.used, m.frames, alloc, used, frames);
    CopiedIsFork(m, i, pages, alloc, used, frames);
    forall k | k in UserPages(dst, kernel) ensures FrameOf(UserPages(dst, kernel)[k]) in used {
      assert SpaceOf(dst, kernel)[k] == alloc[k];
    }
  }

  lemma CopiedIsFork(m: Memory, i: nat, pages: map<(nat, nat), nat>, alloc: Space, used: set<nat>, frames: seq<Frame>)
    requires i < |m.spaces| && m.spaces[i].Keys == pages.Keys == alloc.Keys
    requires forall k :: k in pages ==> m.spaces[i][k] == FrameOf(pages[k])
    requires Copied(pages, m.used, m.frames, alloc, used, frames) && Isolated(m)
    ensures StepTo(m, Fork(i, alloc), Memory(m.spaces + [alloc], used, frames))
    ensures forall k :: k in alloc ==> alloc[k] in used
  {
    hide FrameOf;
    var m' := Memory(m.spaces + [alloc], used, frames);
    forall k | k in alloc ensures Holds(m', alloc[k], m, m.spaces[i][k]) && alloc[k] in used {
      assert k in pages && InSpace(m, i, k) && InUse(m, i, k);
      assert alloc[k] in alloc.Values;
      CopiedPage(pages, m.used, m.frames, alloc, used, frames, k);
    }
  }

  lemma CopiedPage(pages: map<(nat, nat), nat>, used0: set<nat>, frames0: seq<Frame>, alloc: Space, used: set<nat>,
                   frames: seq<Frame>, k: (nat, nat))
    requires Copied(pages, used0, frames0, alloc, used, frames) && k in alloc
    ensures k in pages && alloc[k] < |frames| == |frames0| && FrameOf(pages[k]) < |frames|
    ensures frames[alloc[k]] == frames0[FrameOf(pages[k])]
  {
    hide FrameOf;
  }

  /** The pages of a space, by their entries. */
  lemma MembersOf(d: PageDirectory, kernel: PageDirectory)
    requires d.Sized() && kernel.Sized()
    ensures forall k: (nat, nat) :: k in SpaceOf(d, kernel) <==>
              && k.0 < ENTRIES && k.1 < ENTRIES && d.Entry(k.0, k.1) != 0
              && FrameOf(d.phystables[k.0]) != FrameOf(kernel.phystables[k.0])
    ensures forall k: (nat, nat) :: k in SpaceOf(d, kernel) ==> SpaceOf(d, kernel)[k] == FrameOf(d.Entry(k.0, k.1))
  {
    hide FrameOf;
    forall k: (nat, nat)
      ensures k in UserPages(d, kernel) <==>
                k.0 < ENTRIES && k.1 < ENTRIES && IsCopied(d, kernel, k.0) && d.Entry(k.0, k.1) != 0
    {
      assert k == (k.0, k.1);
    }
  }

  lemma PageIndex(i: nat, j: nat)
    requires i < ENTRIES && j < ENTRIES
    ensures (i * ENTRIES + j) / ENTRIES == i && (i * ENTRIES + j) % ENTRIES == j && i * ENTRIES + j < PAGES
  {
  }

  /** create_pageframe in a table that is there, by entries. */
  method CreateEntry(machine: Machine, d: PageDirectory, i: nat, j: nat, levels: nat) returns (ok: bool)
    requires machine.Valid() && d.Sized() && d.Separate() && i < ENTRIES && j < ENTRIES
    requires machine.bitmap.words !in d.Tables() && machine.bitmap.words != d.phystables
    requires d.tables[i] != null && 0 < levels < PAGE_SIZE
    modifies machine.bitmap, machine.bitmap.words, d.tables, d.phystables, d.Tables()
    ensures machine.Valid() && d.Sized() && d.Separate() && d.phystables[..] == old(d.phystables[..])
    ensures fresh(d.Tables() - old(d.Tables()))
    ensures forall k: (nat, nat) :: k.0 < ENTRIES && k.1 < ENTRIES && k != (i, j) ==>
              d.Entry(k.0, k.1) == old(d.Entry(k.0, k.1))
    ensures if old(d.Entry(i, j)) != 0 || !ok then
              d.Entry(i, j) == old(d.Entry(i, j)) && machine.bitmap.Frames() == old(machine.bitmap.Frames())
            else
              && d.Entry(i, j) != 0 && LeastFree(old(machine.bitmap.Frames()), FrameOf(d.Entry(i, j)))
              && machine.bitmap.Frames() == old(machine.bitmap.Frames()) + {FrameOf(d.Entry(i, j))}
    ensures !ok ==> AllUsed(machine.bitmap.Frames(), machine.bitmap.Capacity())
  {
    hide FrameOf, LeastFree, AllUsed, Bitmap.Frames, Bitmap.Valid;
    var n := i * ENTRIES + j;
    PageIndex(i, j);
    assert n * PAGE_SIZE / PAGE_SIZE == n;
    ok := machine.CreatePageframe(d, n * PAGE_SIZE, levels);
    assert d.PageEntry(n) == d.Entry(i, j) && old(d.PageEntry(n)) == old(d.Entry(i, j));
    forall k: (nat, nat) | k.0 < ENTRIES && k.1 < ENTRIES && k != (i, j)
      ensures d.Entry(k.0, k.1) == old(d.Entry(k.0, k.1))
    {
      PageIndex(k.0, k.1);
      assert d.PageEntry(k.0 * ENTRIES + k.1) == old(d.PageEntry(k.0 * ENTRIES + k.1));
    }
  }

  /** create_pageframe in a user table that is there: a page that is not mapped gets the least free
      frame, which is a create step; otherwise the space stays as it is. */
  method CreateUserPage(machine: Machine, d: PageDirectory, i: nat, j: nat, levels: nat)
    returns (ok: bool, ghost f: nat)
    requires machine.Valid() && d.Sized() && d.Separate() && machine.kernel.Sized() && i < ENTRIES && j < ENTRIES
    requires machine.bitmap.words !in d.Tables() && machine.bitmap.words !in {d.phystables, machine.kernel.phystables}
    requires d.tables != machine.kernel.tables && d.phystables != machine.kernel.phystables
    requires machine.kernel.phystables !in d.Tables()
    requires IsCopied(d, machine.kernel, i) && 0 < levels < PAGE_SIZE
    modifies machine.bitmap, machine.bitmap.words, d.tables, d.phystables, d.Tables()
    ensures machine.Valid() && d.Sized() && d.Separate()
    ensures if (i, j) in old(SpaceOf(d, machine.kernel)) || !ok then
              && SpaceOf(d, machine.kernel) == old(SpaceOf(d, machine.kernel))
              && machine.bitmap.Frames() == old(machine.bitmap.Frames())
            else
              && LeastFree(old(machine.bitmap.Frames()), f)
              && SpaceOf(d, machine.kernel) == WithPage(old(SpaceOf(d, machine.kernel)), (i, j), f)
              && machine.bitmap.Frames() == old(machine.bitmap.Frames()) + {f}
    ensures !ok ==> AllUsed(machine.bitmap.Frames(), machine.bitmap.Capacity())
  {
    hide FrameOf, LeastFree, AllUsed, SpaceOf, Bitmap.Frames, Bitmap.Valid, PageDirectory.Entry;
    MembersOf(d, machine.kernel);
    ghost var space := SpaceOf(d, machine.kernel);
    ok := CreateEntry(machine, d, i, j, levels);
    f := FrameOf(d.Entry(i, j));
    MembersOf(d, machine.kernel);
    assert forall a :: 0 <= a < ENTRIES ==> d.phystables[a] == old(d.phystables[..])[a];
    ghost var space' := SpaceOf(d, machine.kernel);
    assert forall k: (nat, nat) :: k != (i, j) ==>
             (k in space' <==> k in space) && (k in space ==> space'[k] == space[k]);
  }
}
