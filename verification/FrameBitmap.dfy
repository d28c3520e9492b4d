// The bitmap of page frames of source/kernel/paging.c, and its hint for the first free frame.
module FrameBitmap {
  import opened Words

  const BITSIZE: nat := 32

  /** bitmap_t; its map is called words here. */
  class Bitmap {
    const size: nat
    const words: array<nat>
    var firstempty: int

    /** The bitmap as paging_init sets it up: no frame is in use. */
    constructor (size: nat)
      ensures this.size == size && fresh(words)
      ensures Valid() && Frames() == {}
    {
      this.size := size;
      words := new nat[size](_ => 0);
      firstempty := 0;
      new;
      forall f | 0 <= f < BITSIZE * size ensures !Bit(words[f / BITSIZE], f % BITSIZE) {
        NoBits(f % BITSIZE);
      }
    }

    /** Words are words, and every word before the hint is full. */
    ghost predicate Valid()
      reads this, words
    {
      && words.Length == size
      && (forall i :: 0 <= i < size ==> words[i] <= WORD_MAX)
      && -1 <= firstempty <= size
      && (forall i :: 0 <= i < firstempty ==> words[i] == WORD_MAX)
    }

    ghost predicate IsMarked(f: nat)
      reads words
    {
      f / BITSIZE < words.Length && Bit(words[f / BITSIZE], f % BITSIZE)
    }

    ghost function Capacity(): nat {
      BITSIZE * size
    }

    /** The frames that are marked as in use. */
    ghost function Frames(): set<nat>
      reads words
    {
      set f: nat | f < BITSIZE * words.Length && IsMarked(f)
    }

    /** Where the bit of a frame is. */
    lemma FrameBit(f: nat)
      requires Valid()
      ensures f in Frames() <==> f < 32 * size && words[f / 32] / Pow2(f % 32) % 2 == 1
    {
      hide Bit, Pow2;
      if f < 32 * size {
        BitValue(words[f / 32], f % 32);
      }
    }

    method Mark(frame: nat)
      requires Valid() && frame < Capacity()
      modifies words
      ensures Valid() && Frames() == old(Frames()) + {frame}
    {
      var index, offset := frame / BITSIZE, frame % BITSIZE;
      SetBitInWord(words[index], offset);
      words[index] := SetBit(words[index], offset);
      forall f: nat ensures IsMarked(f) <==> old(IsMarked(f)) || f == frame {
        if f / BITSIZE == index {
          BitSetBit(old(words[index]), offset, f % BITSIZE);
        }
      }
      assert Frames() == old(Frames()) + {frame};
    }

    method Unmark(frame: nat)
      requires Valid() && frame < Capacity()
      modifies this, words
      ensures Valid() && Frames() == old(Frames()) - {frame}
    {
      var index, offset := frame / BITSIZE, frame % BITSIZE;
      ClearBitBound(words[index], offset);
      words[index] := ClearBit(words[index], offset);
      forall f: nat ensures IsMarked(f) <==> old(IsMarked(f)) && f != frame {
        if f / BITSIZE == index {
          BitClearBit(old(words[index]), offset, f % BITSIZE);
        }
      }
      assert Frames() == old(Frames()) - {frame};
      if index < firstempty {
        firstempty := index;
      }
    }

    method PerformOne(r: Request) returns (ghost e: Event)
      requires Valid() && (!r.TakeFrame? ==> r.f < Capacity())
      modifies this, words
      ensures Valid() && Answers(r, e) && (e.Exhausted? ==> e.capacity == Capacity())
      ensures Possible(old(Frames()), e) && Frames() == After(old(Frames()), e)
    {
      match r {
        case MarkFrame(f) =>
          Mark(f);
          e := Marked(f);
        case ClearFrame(f) =>
          Unmark(f);
          e := Unmarked(f);
        case TakeFrame =>
          var f := FindFirst();
          if f == -1 {
            e := Exhausted(Capacity());
          } else {
            Mark(f);
            e := Allocated(f);
          }
      }
    }

    /** Any sequence of calls is a run: each search finds the least free frame, or all are in use. */
    method Perform(requests: seq<Request>) returns (ghost es: seq<Event>)
      requires Valid()
      requires forall i :: 0 <= i < |requests| && !requests[i].TakeFrame? ==> requests[i].f < Capacity()
      modifies this, words
      ensures Valid() && |es| == |requests|
      ensures forall i :: 0 <= i < |requests| ==> Answers(requests[i], es[i])
      ensures forall i :: 0 <= i < |es| && es[i].Exhausted? ==> es[i].capacity == Capacity()
      ensures IsRun(old(Frames()), es) && Frames() == AfterAll(old(Frames()), es)
    {
      hide IsMarked, LeastFree, AllUsed;
      ghost var used := Frames();
      hide Frames, Possible;
      es := [];
      for i := 0 to |requests|
        invariant Valid() && |es| == i
        invariant forall k :: 0 <= k < i ==> Answers(requests[k], es[k])
        invariant forall k :: 0 <= k < i && es[k].Exhausted? ==> es[k].capacity == Capacity()
        invariant IsRun(used, es) && Frames() == AfterAll(used, es)
      {
        ghost var e := PerformOne(requests[i]);
        RunGrows(used, es, e);
        es := es + [e];
      }
    }

    method Test(frame: nat) returns (r: bool)
      requires Valid() && frame < Capacity()
      ensures r <==> frame in Frames()
    {
      var index, offset := frame / BITSIZE, frame % BITSIZE;
      r := Bit(words[index], offset);
    }

    /** The least free frame, or -1 if there is none: starting at the hint loses nothing. */
    method FindFirst() returns (r: int)
      requires Valid()
      modifies this
      ensures Valid() && -1 <= r < Capacity()
      ensures r == -1 ==> AllUsed(Frames(), Capacity())
      ensures r >= 0 ==> !AllUsed(Frames(), Capacity())
      ensures r >= 0 ==> LeastFree(Frames(), r)
    {
      var sf := if firstempty < 0 then 0 else firstempty;
      for i := sf to size
        invariant Valid() && firstempty == old(firstempty)
        invariant forall k :: 0 <= k < i ==> words[k] == WORD_MAX
      {
        if words[i] != WORD_MAX {
          for j := 0 to BITSIZE
            invariant Valid() && firstempty == old(firstempty)
            invariant forall k: nat :: k < j ==> Bit(words[i], k)
          {
            if !Bit(words[i], j) {
              firstempty := i - 1;
              FullBefore(i, j);
              assert i * BITSIZE + j !in Frames() && i * BITSIZE + j < Capacity();
              return i * BITSIZE + j;
            }
          }
          NotFull(words[i]);
          assert AllSet(words[i], BITSIZE);
          assert false;
        }
      }
      FullBefore(size, 0);
      r := -1;
    }

    /** Frames in full words, and below a run of set bits, are marked. */
    lemma FullBefore(i: nat, j: nat)
      requires i <= words.Length && j < BITSIZE
      requires forall k :: 0 <= k < i ==> words[k] == WORD_MAX
      requires j > 0 ==> i < words.Length && forall k: nat :: k < j ==> Bit(words[i], k)
      ensures forall f: nat :: f < i * BITSIZE + j ==> f in Frames()
    {
      forall f: nat | f < i * BITSIZE + j ensures f in Frames() {
        if f / BITSIZE < i {
          FullWord(f % BITSIZE);
        }
      }
    }
  }

  lemma NoBits(j: nat)
    ensures !Bit(0, j)
  {
  }

  lemma SetBitInWord(w: nat, j: nat)
    requires w <= WORD_MAX && j < BITSIZE
    ensures w <= SetBit(w, j) <= WORD_MAX
  {
    WordMax();
    SetBitBound(w, j, BITSIZE);
  }

  lemma FullWord(j: nat)
    requires j < BITSIZE
    ensures Bit(WORD_MAX, j)
  {
    WordMax();
    BitOfAllOnes(BITSIZE, j);
  }

  lemma NotFull(w: nat)
    requires w < WORD_MAX
    ensures !AllSet(w, BITSIZE)
  {
    WordMax();
    AllOnes(w, BITSIZE);
  }

  // ---------------------------------------------------------------------------
  // Runs of the bitmap

  /** What is asked of the bitmap. */
  datatype Request = MarkFrame(f: nat) | ClearFrame(f: nat) | TakeFrame

  /** What happens to the bitmap; Allocated(f) is a search that found f, after which f is marked. */
  datatype Event = Marked(f: nat) | Unmarked(f: nat) | Allocated(f: nat) | Exhausted(capacity: nat)

  ghost predicate LeastFree(used: set<nat>, f: nat) {
    f !in used && forall g: nat :: g < f ==> g in used
  }

  ghost predicate AllUsed(used: set<nat>, capacity: nat) {
    forall f: nat :: f < capacity ==> f in used
  }

  ghost predicate Possible(used: set<nat>, e: Event) {
    && (e.Allocated? ==> LeastFree(used, e.f))
    && (e.Exhausted? ==> AllUsed(used, e.capacity))
  }

  ghost function After(used: set<nat>, e: Event): set<nat> {
    match e
    case Marked(f) => used + {f}
    case Unmarked(f) => used - {f}
    case Allocated(f) => used + {f}
    case Exhausted(_) => used
  }

  /** The event that answers a request. */
  ghost predicate Answers(r: Request, e: Event) {
    match r
    case MarkFrame(f) => e == Marked(f)
    case ClearFrame(f) => e == Unmarked(f)
    case TakeFrame => e.Allocated? || e.Exhausted?
  }

  ghost function AfterAll(used: set<nat>, es: seq<Event>): set<nat>
    decreases |es|
  {
    if |es| == 0 then used else AfterAll(After(used, es[0]), es[1..])
  }

  lemma {:induction false} RunGrows(used: set<nat>, es: seq<Event>, e: Event)
    requires IsRun(used, es) && Possible(AfterAll(used, es), e)
    ensures IsRun(used, es + [e]) && AfterAll(used, es + [e]) == After(AfterAll(used, es), e)
    decreases |es|
  {
    if |es| == 0 {
      assert (es + [e])[1..] == [];
    } else {
      RunGrows(After(used, es[0]), es[1..], e);
      assert (es + [e])[1..] == es[1..] + [e];
    }
  }

  /** Frames below a capacity are not more than the capacity, and as many only if all are used. */
  lemma {:induction false} CountFrames(used: set<nat>, capacity: nat)
    requires forall f :: f in used ==> f < capacity
    ensures |used| <= capacity
    ensures |used| == capacity <==> AllUsed(used, capacity)
  {
    if capacity == 0 {
      assert used == {};
    } else {
      var rest := used - {capacity - 1};
      CountFrames(rest, capacity - 1);
      if capacity - 1 in used {
        assert |rest| == |used| - 1;
      } else {
        assert rest == used;
      }
    }
  }

  /** A run that starts with the given frames in use. */
  ghost predicate IsRun(used: set<nat>, es: seq<Event>)
    decreases |es|
  {
    |es| == 0 || (Possible(used, es[0]) && IsRun(After(used, es[0]), es[1..]))
  }

  /** A frame in use is not handed out before it has been cleared. */
  lemma {:induction false} InUseUntilCleared(used: set<nat>, es: seq<Event>, f: nat, j: nat)
    requires IsRun(used, es) && f in used && j < |es| && es[j] == Allocated(f)
    ensures exists k :: 0 <= k < j && es[k] == Unmarked(f)
    decreases |es|
  {
    if es[0] == Unmarked(f) {
      assert j != 0;
    } else {
      InUseUntilCleared(After(used, es[0]), es[1..], f, j - 1);
      var k :| 0 <= k < j - 1 && es[1..][k] == Unmarked(f);
      assert es[k + 1] == Unmarked(f);
    }
  }

  /** Between two allocations of a frame the frame has been cleared. */
  lemma {:induction false} NoReuse(used: set<nat>, es: seq<Event>, i: nat, j: nat)
    requires IsRun(used, es) && i < j < |es|
    requires es[i].Allocated? && es[j] == es[i]
    ensures exists k :: i < k < j && es[k] == Unmarked(es[i].f)
    decreases |es|
  {
    var used', rest := After(used, es[0]), es[1..];
    if i == 0 {
      InUseUntilCleared(used', rest, es[0].f, j - 1);
      var k :| 0 <= k < j - 1 && rest[k] == Unmarked(es[0].f);
      assert es[k + 1] == Unmarked(es[0].f);
    } else {
      NoReuse(used', rest, i - 1, j - 1);
      var k :| i - 1 < k < j - 1 && rest[k] == Unmarked(es[i].f);
      assert es[k + 1] == Unmarked(es[i].f);
    }
  }
}
