/** First-fit allocation from a list of free segments, and giving segments back. */
module BufferAllocator {
  import opened Wrappers

  const WORD: nat := 0x1_0000_0000_0000_0000

  /** Unsigned 64-bit addition and subtraction, which wrap around. */
  function Add(a: nat, b: nat): nat {
    (a + b) % WORD
  }

  function Sub(a: nat, b: nat): nat {
    (a - b) % WORD
  }

  datatype Segment = Segment(start: nat, size: nat)

  /** The next multiple of the alignment. */
  function AlignMemoryOffset(offset: nat, alignment: nat): nat
    requires alignment > 0
  {
    var remainder := offset % alignment;
    if remainder != 0 then Add(offset, Sub(alignment, remainder)) else offset
  }

  lemma {:induction false} AtLeastOnce(times: nat, a: nat)
    requires times > 0
    ensures times * a >= a
  {
    if times > 1 {
      AtLeastOnce(times - 1, a);
      assert times * a == (times - 1) * a + a;
    }
  }

  lemma SmallMultiple(times: int, a: nat)
    requires a > 0 && 0 - a < times * a < a
    ensures times == 0
  {
    if times > 0 {
      AtLeastOnce(times, a);
    }
  }

  lemma MultipleLeavesNothing(times: nat, a: nat)
    requires a > 0
    ensures (times * a) % a == 0
  {
    var x := times * a;
    assert (times - x / a) * a == x % a;
    SmallMultiple(times - x / a, a);
  }

  lemma NextMultiple(offset: nat, alignment: nat)
    requires alignment > 0
    ensures (offset + (alignment - offset % alignment)) % alignment == 0
  {
    var times := offset / alignment;
    assert offset == times * alignment + offset % alignment;
    Distribute(times, alignment);
    MultipleLeavesNothing(times + 1, alignment);
  }

  lemma Distribute(times: int, a: nat)
    ensures (times + 1) * a == times * a + a
  {
  }

  /** Sums and differences wrap around at 64 bits. */
  lemma WordsWrap(a: nat, b: nat)
    requires a < 0x1_0000_0000_0000_0000 && b < 0x1_0000_0000_0000_0000
    ensures Add(a, b) == if a + b < 0x1_0000_0000_0000_0000 then a + b else a + b - 0x1_0000_0000_0000_0000
    ensures Sub(a, b) == if b <= a then a - b else a - b + 0x1_0000_0000_0000_0000
  {
  }

  lemma NoWrap(a: nat, b: nat)
    ensures a + b < WORD ==> Add(a, b) == a + b
    ensures b <= a < WORD ==> Sub(a, b) == a - b
  {
  }

  /** Where the sum fits a word, the result is the smallest multiple that is not below the offset. */
  lemma Aligned(offset: nat, alignment: nat)
    requires alignment > 0 && offset + alignment <= WORD
    ensures var r := AlignMemoryOffset(offset, alignment);
            r % alignment == 0 && offset <= r < offset + alignment
  {
    var remainder := offset % alignment;
    if remainder != 0 {
      NoWrap(alignment, remainder);
      NoWrap(offset, alignment - remainder);
      NextMultiple(offset, alignment);
      assert AlignMemoryOffset(offset, alignment) == offset + (alignment - remainder);
    }
  }

  // ---------------------------------------------------------------- the segments of a buffer

  ghost predicate Holds(s: Segment, address: int) {
    s.start <= address < s.start + s.size
  }

  ghost predicate Overlap(s: Segment, t: Segment) {
    exists address :: Holds(s, address) && Holds(t, address)
  }

  ghost predicate Covered(segments: set<Segment>, address: int) {
    exists s :: s in segments && Holds(s, address)
  }

  /** The segments cut the range from `low` to `high` into pieces: none is empty or sticks out, no two
      overlap, and every address is in one. */
  ghost predicate Tiles(segments: set<Segment>, low: int, high: int) {
    && (forall s | s in segments :: s.size > 0 && low <= s.start && s.start + s.size <= high)
    && (forall s, t | s in segments && t in segments && s != t :: !Overlap(s, t))
    && (forall address | low <= address < high :: Covered(segments, address))
  }

  /** Cutting a part of a tiling differently gives a tiling again. */
  lemma Recut(segments: set<Segment>, low: int, high: int, old': set<Segment>, new': set<Segment>, a: int, b: int)
    requires Tiles(segments, low, high) && old' <= segments && low <= a && b <= high
    requires Tiles(old', a, b) && Tiles(new', a, b)
    ensures Tiles(segments - old' + new', low, high)
    ensures forall s | s in segments - old' :: s !in new'
  {
    var after := segments - old' + new';
    forall s, t | s in segments - old' && t in new'
      ensures !Overlap(s, t)
    {
      forall address
        ensures !(Holds(s, address) && Holds(t, address))
      {
        if Holds(t, address) {
          assert Covered(old', address);
          var u :| u in old' && Holds(u, address);
          assert !Overlap(s, u);
        }
      }
    }
    forall s | s in segments - old'
      ensures s !in new'
    {
      assert Holds(s, s.start);
    }
    forall s, t | s in after && t in after && s != t
      ensures !Overlap(s, t)
    {
      if s in new' && t !in new' {
        assert !Overlap(t, s);
      }
    }
    forall address | low <= address < high
      ensures Covered(after, address)
    {
      assert Covered(segments, address);
      var s :| s in segments && Holds(s, address);
      if s in old' {
        assert Covered(new', address);
        var t :| t in new' && Holds(t, address);
        assert t in after;
      } else {
        assert s in after;
      }
    }
  }

  lemma OneTiles(s: Segment)
    requires s.size > 0
    ensures Tiles({s}, s.start, s.start + s.size)
  {
    forall address | s.start <= address < s.start + s.size
      ensures Covered({s}, address)
    {
      assert s in {s} && Holds(s, address);
    }
  }

  /** Two tilings side by side are one. */
  lemma SideBySide(left: set<Segment>, right: set<Segment>, a: int, b: int, c: int)
    requires Tiles(left, a, b) && Tiles(right, b, c) && a <= b <= c
    ensures Tiles(left + right, a, c)
  {
    var both := left + right;
    forall s, t | s in both && t in both && s != t
      ensures !Overlap(s, t)
    {
      if (s in left && t in right) || (s in right && t in left) {
        assert forall address :: !(Holds(s, address) && Holds(t, address));
      }
    }
    forall address | a <= address < c
      ensures Covered(both, address)
    {
      var part := if address < b then left else right;
      assert Covered(part, address);
      var s :| s in part && Holds(s, address);
      assert s in both;
    }
  }

  // ---------------------------------------------------------------- free and live segments

  /** The free and the live segments are a partition of the buffer, and no two free ones touch. */
  ghost predicate Sound(free: set<Segment>, live: set<Segment>, size: nat) {
    && size < WORD && free !! live && Tiles(free + live, 0, size)
    && forall s, t | s in free && t in free :: s.start + s.size != t.start
  }

  ghost function Elements(list: seq<Segment>): set<Segment> {
    set s | s in list
  }

  ghost predicate NoDuplicates(list: seq<Segment>) {
    forall i, j | 0 <= i < j < |list| :: list[i] != list[j]
  }

  ghost predicate Consistent(free: seq<Segment>, live: set<Segment>, size: nat) {
    NoDuplicates(free) && Sound(Elements(free), live, size)
  }

  lemma OnlyOneHolds(all: set<Segment>, total: nat, s: Segment, t: Segment, address: nat)
    requires Tiles(all, 0, total) && s in all && t in all && Holds(s, address) && Holds(t, address)
    ensures s == t
  {
  }

  lemma Holder(all: set<Segment>, total: nat, address: nat) returns (holder: Segment)
    requires Tiles(all, 0, total) && address < total
    ensures holder in all && Holds(holder, address)
  {
    assert Covered(all, address);
    holder :| holder in all && Holds(holder, address);
  }

  lemma FirstIsAll(all: set<Segment>, first: Segment, size: nat)
    requires Sound(all, {}, size) && first in all && Holds(first, 0)
    ensures first == Segment(0, size)
    ensures forall s | s in all :: s == first
  {
    FirstIsWhole(all, first, size);
    assert all + {} == all;
    forall s | s in all
      ensures s == first
    {
      assert Holds(s, s.start) && Holds(first, s.start);
    }
  }

  lemma FirstIsWhole(all: set<Segment>, first: Segment, size: nat)
    requires Sound(all, {}, size) && first in all && Holds(first, 0)
    ensures first == Segment(0, size)
  {
    assert all + {} == all;
    assert first.size > 0 && first.size <= size;
    hide Tiles;
    if first.size < size {
      var next := Holder(all, size, first.size);
      if next.start < first.size {
        OnlyOneHolds(all, size, first, next, next.start);
      }
    }
  }

  lemma TwoDiffer(list: seq<Segment>)
    requires NoDuplicates(list) && |list| > 1
    ensures list[0] != list[1]
  {
  }

  /** Once nothing is live, all of the buffer is one free segment. */
  lemma NothingLive(free: seq<Segment>, size: nat)
    requires Consistent(free, {}, size) && size > 0
    ensures free == [Segment(0, size)]
  {
    var all := Elements(free);
    assert all + {} == all;
    assert Covered(all, 0);
    var first :| first in all && Holds(first, 0);
    FirstIsAll(all, first, size);
    forall i | 0 <= i < |free|
      ensures free[i] == first
    {
      assert free[i] in all;
    }
    if |free| > 1 {
      TwoDiffer(free);
    }
  }

  /** The sizes of the free and the live segments add up to the size of the buffer. */
  function TotalSize(list: seq<Segment>): nat {
    if list == [] then 0 else list[0].size + TotalSize(list[1..])
  }

  function Range(low: int, size: nat): set<int> {
    if size == 0 then {} else Range(low, size - 1) + {low + size - 1}
  }

  lemma {:induction false} RangeIs(low: int, size: nat)
    ensures |Range(low, size)| == size
    ensures forall address :: address in Range(low, size) <==> low <= address < low + size
  {
    if size > 0 {
      RangeIs(low, size - 1);
    }
  }

  function AllAddresses(list: seq<Segment>): set<int> {
    if list == [] then {} else Range(list[0].start, list[0].size) + AllAddresses(list[1..])
  }

  lemma {:induction false} AddressesOf(list: seq<Segment>, address: int)
    ensures address in AllAddresses(list) <==> Covered(Elements(list), address)
  {
    if list != [] {
      AddressesOf(list[1..], address);
      RangeIs(list[0].start, list[0].size);
      assert Elements(list) == {list[0]} + Elements(list[1..]);
      if Holds(list[0], address) {
        assert list[0] in Elements(list);
      }
    }
  }

  lemma {:induction false} DisjointSizesAddUp(list: seq<Segment>)
    requires NoDuplicates(list)
    requires forall s, t | s in list && t in list && s != t :: !Overlap(s, t)
    ensures |AllAddresses(list)| == TotalSize(list)
  {
    if list != [] {
      var first, rest := list[0], list[1..];
      DisjointSizesAddUp(rest);
      RangeIs(first.start, first.size);
      forall address | address in AllAddresses(rest)
        ensures address !in Range(first.start, first.size)
      {
        AddressesOf(rest, address);
        var t :| t in Elements(rest) && Holds(t, address);
        assert first != t && !Overlap(first, t);
        assert !Holds(first, address);
      }
      assert Range(first.start, first.size) !! AllAddresses(rest);
    }
  }

  lemma SizesAddUp(free: seq<Segment>, live: seq<Segment>, size: nat)
    requires NoDuplicates(live) && Consistent(free, Elements(live), size)
    ensures TotalSize(free + live) == size
  {
    var all := free + live;
    assert Elements(all) == Elements(free) + Elements(live);
    assert NoDuplicates(all) by {
      forall i, j | 0 <= i < j < |all|
        ensures all[i] != all[j]
      {
        assert i < |free| ==> all[i] in Elements(free);
        assert j >= |free| ==> all[j] in Elements(live);
      }
    }
    forall s, t | s in all && t in all && s != t
      ensures !Overlap(s, t)
    {
      assert s in Elements(all) && t in Elements(all);
    }
    DisjointSizesAddUp(all);
    RangeIs(0, size);
    forall address
      ensures address in AllAddresses(all) <==> address in Range(0, size)
    {
      AddressesOf(all, address);
    }
    assert AllAddresses(all) == Range(0, size);
  }

  // ---------------------------------------------------------------- the vector of free segments

  /** swap(back, list[at]) and pop_back. */
  function SwapPop(list: seq<Segment>, at: nat): seq<Segment>
    requires at < |list|
  {
    list[at := list[|list| - 1]][..|list| - 1]
  }

  lemma SwapPopRemoves(list: seq<Segment>, at: nat)
    requires at < |list| && NoDuplicates(list)
    ensures NoDuplicates(SwapPop(list, at)) && Elements(SwapPop(list, at)) == Elements(list) - {list[at]}
  {
    var after := SwapPop(list, at);
    forall s
      ensures s in after <==> s in list && s != list[at]
    {
      if s in list && s != list[at] {
        var k :| 0 <= k < |list| && list[k] == s;
        assert after[if k == |list| - 1 then at else k] == s;
      }
    }
  }

  lemma UpdateReplaces(list: seq<Segment>, at: nat, s: Segment)
    requires at < |list| && NoDuplicates(list) && s !in list
    ensures NoDuplicates(list[at := s]) && Elements(list[at := s]) == Elements(list) - {list[at]} + {s}
  {
    var after := list[at := s];
    forall t
      ensures t in after <==> (t in list && t != list[at]) || t == s
    {
      if t in list && t != list[at] {
        var k :| 0 <= k < |list| && list[k] == t;
        assert after[k] == t;
      }
      assert after[at] == s;
    }
  }

  lemma PushAdds(list: seq<Segment>, s: Segment)
    requires NoDuplicates(list) && s !in list
    ensures NoDuplicates(list + [s]) && Elements(list + [s]) == Elements(list) + {s}
  {
  }

  // ---------------------------------------------------------------- allocating

  /** The test of the search loop, in wrapping arithmetic. */
  predicate Fits(slot: Segment, size: nat, alignment: nat)
    requires alignment > 0
  {
    slot.size >= alignment &&
    Sub(Add(slot.start, slot.size), AlignMemoryOffset(slot.start, alignment)) >= size
  }

  /** The list after cutting an allocation out of one of its slots, as the code does it. */
  function Carve(free: seq<Segment>, at: nat, size: nat, alignment: nat): seq<Segment>
    requires at < |free| && alignment > 0
  {
    var slot := free[at];
    var aligned := AlignMemoryOffset(slot.start, alignment);
    var gap := Sub(aligned, slot.start);
    var left := Segment(Add(aligned, size), Sub(slot.size, Add(size, gap)));
    var updated := free[at := left];
    var kept := if left.size == 0 then SwapPop(updated, at) else updated;
    if gap > 0 then kept + [Segment(Sub(aligned, gap), gap)] else kept
  }

  /** The pieces a slot is cut into: the gap in front, if any, and the rest behind, if any. */
  function FreePieces(slot: Segment, start: nat, size: nat): set<Segment>
    requires slot.start <= start && start + size <= slot.start + slot.size
  {
    Piece(slot.start, start) + Piece(start + size, slot.start + slot.size)
  }

  function Piece(from: nat, to: nat): set<Segment>
    requires from <= to
  {
    if from < to then {Segment(from, to - from)} else {}
  }

  /** No step of the arithmetic wraps for a slot of the buffer: what fits is inside the slot. */
  lemma FitsInside(slot: Segment, size: nat, alignment: nat)
    requires alignment > 0 && slot.start + slot.size < WORD && slot.size > 0
    ensures slot.size >= alignment ==> AlignMemoryOffset(slot.start, alignment) < slot.start + slot.size
    ensures Fits(slot, size, alignment) <==>
      slot.size >= alignment && AlignMemoryOffset(slot.start, alignment) + size <= slot.start + slot.size
  {
    hide AlignMemoryOffset, Sub, Add;
    if slot.size >= alignment {
      Aligned(slot.start, alignment);
      NoWrap(slot.start, slot.size);
      NoWrap(slot.start + slot.size, AlignMemoryOffset(slot.start, alignment));
    }
  }

  lemma PieceTiles(from: nat, to: nat)
    requires from <= to
    ensures Tiles(Piece(from, to), from, to)
  {
    if from < to {
      OneTiles(Segment(from, to - from));
    }
  }

  lemma PiecesTile(slot: Segment, start: nat, size: nat)
    requires size > 0 && slot.start <= start && start + size <= slot.start + slot.size
    ensures Tiles(FreePieces(slot, start, size) + {Segment(start, size)}, slot.start, slot.start + slot.size)
  {
    hide Tiles, Piece;
    var taken, end := Segment(start, size), slot.start + slot.size;
    var front, back := Piece(slot.start, start), Piece(start + size, end);
    PieceTiles(slot.start, start);
    PieceTiles(start + size, end);
    OneTiles(taken);
    SideBySide(front, {taken}, slot.start, start, start + size);
    SideBySide(front + {taken}, back, slot.start, start + size, end);
    assert front + {taken} + back == FreePieces(slot, start, size) + {taken};
  }

  lemma PiecesApart(slot: Segment, start: nat, size: nat)
    requires size > 0 && slot.start <= start && start + size <= slot.start + slot.size
    ensures forall s | s in FreePieces(slot, start, size) ::
      slot.start <= s.start && s.start + s.size <= slot.start + slot.size
    ensures forall s, t | s in FreePieces(slot, start, size) && t in FreePieces(slot, start, size) ::
      s.start + s.size != t.start
  {
  }

  /** Cutting a live segment out of a free slot keeps free and live a partition. */
  lemma CutOut(free: set<Segment>, live: set<Segment>, total: nat, slot: Segment, start: nat, size: nat)
    requires Sound(free, live, total) && slot in free
    requires size > 0 && slot.start <= start && start + size <= slot.start + slot.size
    ensures Sound(free - {slot} + FreePieces(slot, start, size), live + {Segment(start, size)}, total)
    ensures forall s | s in FreePieces(slot, start, size) :: s !in free - {slot}
  {
    var taken, pieces := Segment(start, size), FreePieces(slot, start, size);
    var low, high := slot.start, slot.start + slot.size;
    PiecesTile(slot, start, size);
    PiecesApart(slot, start, size);
    OneTiles(slot);
    hide Tiles, FreePieces;
    Recut(free + live, 0, total, {slot}, pieces + {taken}, low, high);
    var newFree, newLive := free - {slot} + pieces, live + {taken};
    assert free + live - {slot} + (pieces + {taken}) == newFree + newLive;
    forall s, t | s in newFree && t in newFree
      ensures s.start + s.size != t.start
    {
      if s in free - {slot} && t in pieces {
        NoneTouches(free, live, total, slot, s);
      }
      if t in free - {slot} && s in pieces {
        NoneTouches(free, live, total, slot, t);
      }
    }
  }

  /** No other free slot touches the range of a slot. */
  lemma NoneTouches(free: set<Segment>, live: set<Segment>, total: nat, slot: Segment, other: Segment)
    requires Sound(free, live, total) && slot in free && other in free && other != slot
    ensures other.start + other.size < slot.start || other.start > slot.start + slot.size
  {
    assert slot in free + live && other in free + live && !Overlap(other, slot);
    var address := if other.start < slot.start then slot.start else other.start;
    assert !(Holds(other, address) && Holds(slot, address));
  }

  /** The slot that was shortened stays, unless nothing is left of it. */
  function Shorten(free: seq<Segment>, at: nat, left: Segment): seq<Segment>
    requires at < |free|
  {
    if left.size == 0 then SwapPop(free[at := left], at) else free[at := left]
  }

  lemma ShortenElements(free: seq<Segment>, at: nat, left: Segment)
    requires at < |free| && NoDuplicates(free) && (left.size > 0 ==> left !in free)
    ensures NoDuplicates(Shorten(free, at, left))
    ensures Elements(Shorten(free, at, left)) ==
            Elements(free) - {free[at]} + (if left.size > 0 then {left} else {})
  {
    if left.size == 0 {
      assert SwapPop(free[at := left], at) == SwapPop(free, at);
      SwapPopRemoves(free, at);
    } else {
      UpdateReplaces(free, at, left);
    }
  }

  /** The arithmetic of the code when nothing wraps. */
  lemma CarveArithmetic(free: seq<Segment>, at: nat, size: nat, alignment: nat, start: nat)
    requires at < |free| && alignment > 0 && free[at].start + free[at].size < WORD
    requires start == AlignMemoryOffset(free[at].start, alignment)
    requires free[at].start <= start && start + size <= free[at].start + free[at].size
    ensures var slot := free[at];
      var kept := Shorten(free, at, Segment(start + size, slot.start + slot.size - (start + size)));
      Carve(free, at, size, alignment) ==
      if start > slot.start then kept + [Segment(slot.start, start - slot.start)] else kept
  {
    hide AlignMemoryOffset, SwapPop, Add, Sub;
    var slot := free[at];
    var gap := start - slot.start;
    NoWrap(start, size);
    NoWrap(start, slot.start);
    NoWrap(size, gap);
    NoWrap(slot.size, size + gap);
    NoWrap(start, gap);
  }

  lemma CarveElements(free: seq<Segment>, at: nat, size: nat, alignment: nat, start: nat)
    requires at < |free| && alignment > 0 && NoDuplicates(free)
    requires size > 0 && free[at].start + free[at].size < WORD
    requires start == AlignMemoryOffset(free[at].start, alignment)
    requires free[at].start <= start && start + size <= free[at].start + free[at].size
    requires forall s | s in FreePieces(free[at], start, size) :: s !in Elements(free) - {free[at]}
    ensures NoDuplicates(Carve(free, at, size, alignment))
    ensures Elements(Carve(free, at, size, alignment)) ==
            Elements(free) - {free[at]} + FreePieces(free[at], start, size)
  {
    hide AlignMemoryOffset, Carve, Shorten, NoDuplicates;
    var slot := free[at];
    var left := Segment(start + size, slot.start + slot.size - (start + size));
    var front := Segment(slot.start, start - slot.start);
    CarveArithmetic(free, at, size, alignment, start);
    assert left.size > 0 ==> left in FreePieces(slot, start, size);
    ShortenElements(free, at, left);
    if start > slot.start {
      assert front in FreePieces(slot, start, size);
      assert front !in Elements(Shorten(free, at, left));
      PushAdds(Shorten(free, at, left), front);
    }
  }

  /** An allocation cut out of a slot that fits is aligned and was wholly free, and nothing is lost. */
  lemma CarveKeeps(free: seq<Segment>, live: set<Segment>, total: nat, at: nat, size: nat, alignment: nat)
    requires Consistent(free, live, total) && at < |free| && alignment > 0 && size > 0
    requires Fits(free[at], size, alignment)
    ensures var taken := Segment(AlignMemoryOffset(free[at].start, alignment), size);
            && taken.start % alignment == 0
            && free[at].start <= taken.start && taken.start + size <= free[at].start + free[at].size
            && Consistent(Carve(free, at, size, alignment), live + {taken}, total)
  {
    var slot := free[at];
    assert slot in Elements(free) + live;
    FitsInside(slot, size, alignment);
    Aligned(slot.start, alignment);
    var start := AlignMemoryOffset(slot.start, alignment);
    CutOut(Elements(free), live, total, slot, start, size);
    CarveElements(free, at, size, alignment, start);
  }

  /** The first slot that fits. */
  function FirstFit(free: seq<Segment>, size: nat, alignment: nat): (at: Option<nat>)
    requires alignment > 0
    ensures at.Some? ==> at.value < |free| && Fits(free[at.value], size, alignment)
    ensures at.Some? ==> forall i | 0 <= i < at.value :: !Fits(free[i], size, alignment)
    ensures at.None? ==> forall i | 0 <= i < |free| :: !Fits(free[i], size, alignment)
  {
    if free == [] then None
    else if Fits(free[0], size, alignment) then Some(0)
    else
      var at := FirstFit(free[1..], size, alignment);
      if at.None? then None else Some(at.value + 1)
  }

  /** What a request for memory ends with: an exception, an empty segment, or the segment it got. */
  datatype Allocation = TooLarge | NoSpace | Allocated(segment: Segment)

  // ---------------------------------------------------------------- giving segments back

  /** The free slot that ends where the segment starts; the last one of the list, like the loop finds it. */
  function PreviousOf(free: seq<Segment>, segment: Segment): (at: Option<nat>)
    ensures at.Some? ==> at.value < |free| && Add(free[at.value].start, free[at.value].size) == segment.start
    ensures at.None? ==> forall i | 0 <= i < |free| :: Add(free[i].start, free[i].size) != segment.start
  {
    if free == [] then None
    else
      var last := |free| - 1;
      if Add(free[last].start, free[last].size) == segment.start then Some(last) else PreviousOf(free[..last], segment)
  }

  /** The free slot that starts where the segment ends. */
  function NextOf(free: seq<Segment>, segment: Segment): (at: Option<nat>)
    ensures at.Some? ==> at.value < |free| && Add(segment.start, segment.size) == free[at.value].start
    ensures at.None? ==> forall i | 0 <= i < |free| :: Add(segment.start, segment.size) != free[i].start
  {
    if free == [] then None
    else
      var last := |free| - 1;
      if Add(segment.start, segment.size) == free[last].start then Some(last) else NextOf(free[..last], segment)
  }

  function Swap(memory: seq<Segment>, i: nat, j: nat): (swapped: seq<Segment>)
    requires i < |memory| && j < |memory|
    ensures |swapped| == |memory|
  {
    memory[i := memory[j]][j := memory[i]]
  }

  /** The list after a segment was given back. A popped slot stays readable, as its destructor does
      nothing: `nextSlot` may point to one. With `relocate`, it follows the slot when the swap moves it. */
  function Release(free: seq<Segment>, segment: Segment, relocate: bool): seq<Segment>
    requires PreviousOf(free, segment).Some? && NextOf(free, segment).Some? ==> |free| >= 2
  {
    var previous, next := PreviousOf(free, segment), NextOf(free, segment);
    var last := |free| - 1;
    var memory := if previous.Some? then Swap(free, previous.value, last) else free;
    var count := if previous.Some? then last else |free|;
    var joined :=
      if previous.Some? then Segment(free[previous.value].start, Add(segment.size, free[previous.value].size))
      else segment;
    if next.None? then memory[..count] + [joined]
    else
      var at := if relocate && previous.Some? && next.value == last then previous.value else next.value;
      Swap(memory, at, count - 1)[..count - 1] + [joined.(size := Add(joined.size, memory[at].size))]
  }

  /** Both neighbours are free, and the next one is the last slot, which the first removal moves. The one
      harmless case is that the previous slot is right before it and has the same size. */
  predicate Confused(free: seq<Segment>, segment: Segment) {
    var previous, next := PreviousOf(free, segment), NextOf(free, segment);
    && previous.Some? && next.Some? && next.value == |free| - 1
    && !(previous.value == |free| - 2 && free[previous.value].size == free[next.value].size)
  }

  /** Joining a live segment with its free neighbours keeps free and live a partition. */
  lemma Join(free: set<Segment>, live: set<Segment>, total: nat, segment: Segment, gone: set<Segment>, joined: Segment)
    requires Sound(free, live, total) && segment in live && gone <= free && joined.size > 0
    requires 0 <= joined.start && joined.start + joined.size <= total
    requires Tiles(gone + {segment}, joined.start, joined.start + joined.size)
    requires forall s | s in free - gone ::
      s.start + s.size != joined.start && joined.start + joined.size != s.start
    ensures Sound(free - gone + {joined}, live - {segment}, total)
    ensures joined !in free - gone
  {
    OneTiles(joined);
    Recut(free + live, 0, total, gone + {segment}, {joined}, joined.start, joined.start + joined.size);
    assert free + live - (gone + {segment}) + {joined} == (free - gone + {joined}) + (live - {segment});
    assert joined !in free + live - (gone + {segment});
  }

  lemma SlotsInside(free: seq<Segment>, live: set<Segment>, total: nat)
    requires Consistent(free, live, total)
    ensures forall i | 0 <= i < |free| ::
      free[i].size > 0 && free[i].start + free[i].size <= total && free[i] in Elements(free)
    ensures forall s | s in live :: s.size > 0 && s.start + s.size <= total < WORD
  {
    var all := Elements(free) + live;
    assert forall i | 0 <= i < |free| :: free[i] in all;
    assert forall s | s in live :: s in all;
  }

  /** The slot at a place that may be none. */
  function SlotAt(free: seq<Segment>, at: Option<nat>): Option<Segment>
    requires at.Some? ==> at.value < |free|
  {
    if at.None? then None else Some(free[at.value])
  }

  /** What the loop takes for the previous slot is the free neighbour in front. */
  lemma PreviousTouches(free: seq<Segment>, live: set<Segment>, total: nat, segment: Segment)
    requires Consistent(free, live, total) && segment in live
    ensures var before := SlotAt(free, PreviousOf(free, segment));
      && (before.Some? ==> before.value in Elements(free) && before.value.start + before.value.size == segment.start)
      && (before.None? ==> forall s | s in Elements(free) :: s.start + s.size != segment.start)
  {
    SlotsInside(free, live, total);
    forall i | 0 <= i < |free|
      ensures Add(free[i].start, free[i].size) == free[i].start + free[i].size
    {
      NoWrap(free[i].start, free[i].size);
    }
  }

  /** What the loop takes for the next slot is the free neighbour behind. */
  lemma NextTouches(free: seq<Segment>, live: set<Segment>, total: nat, segment: Segment)
    requires Consistent(free, live, total) && segment in live
    ensures var after := SlotAt(free, NextOf(free, segment));
      && (after.Some? ==> after.value in Elements(free) && segment.start + segment.size == after.value.start)
      && (after.None? ==> forall s | s in Elements(free) :: segment.start + segment.size != s.start)
  {
    SlotsInside(free, live, total);
    NoWrap(segment.start, segment.size);
  }

  /** The segment joined with its free neighbours. */
  ghost function Joined(before: Option<Segment>, segment: Segment, after: Option<Segment>): Segment {
    Segment(if before.Some? then before.value.start else segment.start,
            (if before.Some? then before.value.size else 0) + segment.size +
            (if after.Some? then after.value.size else 0))
  }

  ghost function Slots(slot: Option<Segment>): set<Segment> {
    if slot.Some? then {slot.value} else {}
  }

  ghost predicate Neighbours(
    free: set<Segment>, before: Option<Segment>, segment: Segment, after: Option<Segment>)
  {
    && (before.Some? ==> before.value in free && before.value.start + before.value.size == segment.start)
    && (before.None? ==> forall s | s in free :: s.start + s.size != segment.start)
    && (after.Some? ==> after.value in free && segment.start + segment.size == after.value.start)
    && (after.None? ==> forall s | s in free :: segment.start + segment.size != s.start)
  }

  lemma JoinedTiles(before: Option<Segment>, segment: Segment, after: Option<Segment>)
    requires segment.size > 0
    requires before.Some? ==> before.value.size > 0 && before.value.start + before.value.size == segment.start
    requires after.Some? ==> after.value.size > 0 && segment.start + segment.size == after.value.start
    ensures var joined := Joined(before, segment, after);
      Tiles(Slots(before) + Slots(after) + {segment}, joined.start, joined.start + joined.size)
  {
    var joined := Joined(before, segment, after);
    if before.Some? {
      OneTiles(before.value);
    }
    if after.Some? {
      OneTiles(after.value);
    }
    OneTiles(segment);
    SideBySide(Slots(before), {segment}, joined.start, segment.start, segment.start + segment.size);
    SideBySide(Slots(before) + {segment}, Slots(after),
               joined.start, segment.start + segment.size, joined.start + joined.size);
    assert Slots(before) + {segment} + Slots(after) == Slots(before) + Slots(after) + {segment};
  }

  /** Joining a live segment with its free neighbours keeps free and live a partition. */
  lemma JoinKeeps(
    free: set<Segment>, live: set<Segment>, total: nat,
    before: Option<Segment>, segment: Segment, after: Option<Segment>)
    requires Sound(free, live, total) && segment in live && Neighbours(free, before, segment, after)
    ensures var joined, gone := Joined(before, segment, after), Slots(before) + Slots(after);
      && Sound(free - gone + {joined}, live - {segment}, total) && joined !in free - gone
  {
    var joined, gone := Joined(before, segment, after), Slots(before) + Slots(after);
    assert segment in free + live;
    assert before.Some? ==> before.value in free + live;
    assert after.Some? ==> after.value in free + live;
    JoinedTiles(before, segment, after);
    forall s | s in free - gone
      ensures s.start + s.size != joined.start && joined.start + joined.size != s.start
    {
    }
    Join(free, live, total, segment, gone, joined);
  }

  // ---------------------------------------------------------------- the list when nothing is confused

  /** The removal of the neighbours, where the second one is found at `at` after the first is gone. */
  lemma RemoveTwo(free: seq<Segment>, p: nat, n: nat, at: nat)
    requires NoDuplicates(free) && p < |free| && n < |free| && p != n
    requires at < |free| - 1 && at == if n == |free| - 1 then p else n
    ensures SwapPop(free, p)[at] == free[n]
    ensures NoDuplicates(SwapPop(SwapPop(free, p), at))
    ensures Elements(SwapPop(SwapPop(free, p), at)) == Elements(free) - {free[p], free[n]}
  {
    SwapPopRemoves(free, p);
    SwapPopRemoves(SwapPop(free, p), at);
  }

  /** The wrapping additions of the code add up to the joined segment. */
  lemma JoinedArithmetic(before: Option<Segment>, segment: Segment, after: Option<Segment>)
    requires Joined(before, segment, after).size < WORD
    ensures var first := if before.Some? then Segment(before.value.start, Add(segment.size, before.value.size)) else segment;
      (if after.Some? then first.(size := Add(first.size, after.value.size)) else first) == Joined(before, segment, after)
  {
  }

  /** When the next slot is found where it is, the list is the one with the neighbours joined. */
  lemma ReleaseList(free: seq<Segment>, segment: Segment, relocate: bool) returns (left: seq<Segment>)
    requires NoDuplicates(free)
    requires var previous, next := PreviousOf(free, segment), NextOf(free, segment);
      && (previous.Some? && next.Some? ==> previous.value != next.value)
      && (relocate || previous.None? || next.None? || next.value != |free| - 1)
      && Joined(SlotAt(free, previous), segment, SlotAt(free, next)).size < WORD
    ensures PreviousOf(free, segment).Some? && NextOf(free, segment).Some? ==> |free| >= 2
    ensures var before, after := SlotAt(free, PreviousOf(free, segment)), SlotAt(free, NextOf(free, segment));
      && NoDuplicates(left) && Elements(left) == Elements(free) - (Slots(before) + Slots(after))
      && Release(free, segment, relocate) == left + [Joined(before, segment, after)]
  {
    hide SwapPop, Swap, PreviousOf, NextOf, NoDuplicates, Elements;
    var previous, next := PreviousOf(free, segment), NextOf(free, segment);
    var last := |free| - 1;
    JoinedArithmetic(SlotAt(free, previous), segment, SlotAt(free, next));
    if previous.None? && next.None? {
      left := free;
    } else if next.None? {
      left := SwapPop(free, previous.value);
      SwapOnce(free, previous.value);
      SwapPopRemoves(free, previous.value);
    } else if previous.None? {
      left := SwapPop(free, next.value);
      SwapOnce(free, next.value);
      SwapPopRemoves(free, next.value);
    } else {
      var p, n := previous.value, next.value;
      var at := if n == last then p else n;
      SwapTwice(free, p, at);
      left := SwapPop(SwapPop(free, p), at);
      RemoveTwo(free, p, n, at);
    }
  }

  lemma SwapTwice(free: seq<Segment>, p: nat, at: nat)
    requires p < |free| && at < |free| - 1
    ensures var last := |free| - 1;
      && |SwapPop(free, p)| == last && Swap(free, p, last)[at] == SwapPop(free, p)[at]
      && Swap(Swap(free, p, last), at, last - 1)[..last - 1] == SwapPop(SwapPop(free, p), at)
  {
    SwapOnce(free, p);
  }

  lemma SwapOnce(free: seq<Segment>, at: nat)
    requires at < |free|
    ensures |SwapPop(free, at)| == |free| - 1
    ensures Swap(free, at, |free| - 1)[..|free| - 1] == SwapPop(free, at)
  {
  }

  /** Then free and live stay a partition. */
  lemma ReleaseKeeps(free: seq<Segment>, live: set<Segment>, total: nat, segment: Segment, relocate: bool)
    requires Consistent(free, live, total) && segment in live
    requires var previous, next := PreviousOf(free, segment), NextOf(free, segment);
      relocate || previous.None? || next.None? || next.value != |free| - 1
    ensures PreviousOf(free, segment).Some? && NextOf(free, segment).Some? ==> |free| >= 2
    ensures Consistent(Release(free, segment, relocate), live - {segment}, total)
  {
    var before, after := SlotAt(free, PreviousOf(free, segment)), SlotAt(free, NextOf(free, segment));
    PreviousTouches(free, live, total, segment);
    NextTouches(free, live, total, segment);
    SlotsInside(free, live, total);
    JoinKeeps(Elements(free), live, total, before, segment, after);
    var joined := Joined(before, segment, after);
    assert joined in Elements(free) - (Slots(before) + Slots(after)) + {joined} + (live - {segment});
    var left := ReleaseList(free, segment, relocate);
    PushAdds(left, joined);
  }

  // ---------------------------------------------------------------- the list when the next slot has moved

  /** The last slot was moved away before it is read: its place still holds the previous slot. */
  lemma StaleRelease(free: seq<Segment>, segment: Segment, p: nat, n: nat)
    requires PreviousOf(free, segment) == Some(p) && NextOf(free, segment) == Some(n)
    requires n == |free| - 1 && p != n
    ensures Release(free, segment, false) ==
            free[p := free[n]][..n - 1] +
            [Segment(free[p].start, Add(Add(segment.size, free[p].size), free[p].size))]
  {
    var memory := Swap(free, p, n);
    assert memory[n] == free[p];
    assert Swap(memory, n, n - 1)[..n - 1] == memory[..n - 1];
    assert memory[..n - 1] == free[p := free[n]][..n - 1];
  }

  /** A tiling leaves no choice for the size of one of its pieces. */
  lemma SameSize(others: set<Segment>, x: Segment, y: Segment, low: int, high: int)
    requires Tiles(others + {x}, low, high) && Tiles(others + {y}, low, high)
    requires x !in others && y !in others && x.start == y.start
    ensures x.size <= y.size
  {
    if y.size < x.size {
      var end := y.start + y.size;
      assert Holds(x, end);
      assert Covered(others + {y}, end);
      var u :| u in others + {y} && Holds(u, end);
    }
  }

  lemma TwiceThePrevious(segment: nat, before: nat, after: nat)
    requires segment + before + after < WORD
    ensures Add(Add(segment, before), before) == segment + before + after <==> before == after
  {
  }

  /** Only the right segment completes the list. */
  lemma OnlyOneCompletes(rest: seq<Segment>, live: set<Segment>, total: nat, read: Segment, joined: Segment)
    requires NoDuplicates(rest) && Sound(Elements(rest) + {joined}, live, total)
    requires joined !in Elements(rest) && read.start == joined.start
    ensures Consistent(rest + [read], live, total) <==> read == joined
  {
    if read == joined {
      PushAdds(rest, joined);
    } else if Consistent(rest + [read], live, total) {
      ReadIsJoined(rest, live, total, read, joined);
    }
  }

  lemma ReadIsJoined(rest: seq<Segment>, live: set<Segment>, total: nat, read: Segment, joined: Segment)
    requires Consistent(rest + [read], live, total) && Sound(Elements(rest) + {joined}, live, total)
    requires joined !in Elements(rest) && read.start == joined.start
    ensures read == joined
  {
    var list := rest + [read];
    assert Elements(list) == Elements(rest) + {read};
    assert read !in Elements(rest) by {
      assert list[|rest|] == read && forall i | 0 <= i < |rest| :: list[i] == rest[i];
    }
    assert read in Elements(list) && joined in Elements(rest) + {joined};
    var others := Elements(rest) + live;
    assert Elements(list) + live == others + {read} && Elements(rest) + {joined} + live == others + {joined};
    SameSize(others, read, joined, 0, total);
    SameSize(others, joined, read, 0, total);
  }

  lemma DropTwo(free: seq<Segment>)
    requires NoDuplicates(free) && |free| >= 2
    ensures var rest := free[..|free| - 2];
      NoDuplicates(rest) && Elements(rest) == Elements(free) - {free[|free| - 2], free[|free| - 1]}
  {
    var rest, before, after := free[..|free| - 2], free[|free| - 2], free[|free| - 1];
    assert free == rest + [before] + [after];
    assert before !in rest && after !in rest + [before];
    PushAdds(rest, before);
    PushAdds(rest + [before], after);
  }

  /** The previous slot is right before the last one: only the size that was read can be wrong. */
  lemma StaleNextToLast(free: seq<Segment>, live: set<Segment>, total: nat, segment: Segment)
    requires Consistent(free, live, total) && segment in live && |free| >= 2
    requires PreviousOf(free, segment) == Some((|free| - 2) as nat) && NextOf(free, segment) == Some((|free| - 1) as nat)
    ensures Consistent(Release(free, segment, false), live - {segment}, total) <==>
            free[|free| - 2].size == free[|free| - 1].size
  {
    hide Release, PreviousOf, NextOf, Tiles;
    var n := |free| - 1;
    var rest, before, after := free[..n - 1], free[n - 1], free[n];
    PreviousTouches(free, live, total, segment);
    NextTouches(free, live, total, segment);
    SlotsInside(free, live, total);
    JoinKeeps(Elements(free), live, total, Some(before), segment, Some(after));
    DropTwo(free);
    StaleRelease(free, segment, n - 1, n);
    assert free[n - 1 := free[n]][..n - 1] == rest;
    var joined := Joined(Some(before), segment, Some(after));
    var read := Segment(before.start, Add(Add(segment.size, before.size), before.size));
    assert Slots(Some(before)) + Slots(Some(after)) == {before, after};
    assert joined in Elements(rest) + {joined} + (live - {segment});
    TwiceThePrevious(segment.size, before.size, after.size);
    OnlyOneCompletes(rest, live - {segment}, total, read, joined);
  }

  /** The previous slot is further in front: the next slot stays in the list, under the joined segment. */
  lemma StaleFurther(free: seq<Segment>, live: set<Segment>, total: nat, segment: Segment, p: nat)
    requires Consistent(free, live, total) && segment in live && p < |free| - 2
    requires PreviousOf(free, segment) == Some(p) && NextOf(free, segment) == Some((|free| - 1) as nat)
    ensures !Consistent(Release(free, segment, false), live - {segment}, total)
  {
    hide Release, PreviousOf, NextOf, Tiles, NoDuplicates, Add;
    var n := |free| - 1;
    PreviousTouches(free, live, total, segment);
    NextTouches(free, live, total, segment);
    SlotsInside(free, live, total);
    StaleRelease(free, segment, p, n);
    var rest := free[p := free[n]][..n - 1];
    var before, after := free[p], free[n];
    var read := Segment(before.start, Add(Add(segment.size, before.size), before.size));
    assert rest[p] == after;
    assert Elements(rest) <= Elements(free);
    ReadIsLate(rest, Elements(free), live, total, before, segment, after, read);
  }

  /** If what was read reaches the segment at all, it reaches into the slot behind it. */
  lemma ReadReaches(before: Segment, segment: Segment, after: Segment, read: Segment)
    requires before.start + before.size == segment.start && segment.start + segment.size == after.start
    requires segment.size + before.size < WORD && after.start < WORD && before.size > 0 && after.size > 0
    requires read == Segment(before.start, Add(Add(segment.size, before.size), before.size))
    ensures Holds(read, segment.start) ==> Holds(read, after.start)
    ensures Holds(after, after.start)
  {
  }

  lemma ReadIsLate(
    rest: seq<Segment>, free: set<Segment>, live: set<Segment>, total: nat,
    before: Segment, segment: Segment, after: Segment, read: Segment)
    requires Sound(free, live, total) && segment in live && before in free && after in rest && Elements(rest) <= free
    requires before.start + before.size == segment.start && segment.start + segment.size == after.start
    requires read == Segment(before.start, Add(Add(segment.size, before.size), before.size))
    ensures !Consistent(rest + [read], live - {segment}, total)
  {
    hide Add, NoDuplicates;
    var list := rest + [read];
    var others := Elements(list) + (live - {segment});
    assert segment in free + live && before in free + live && after in Elements(rest);
    assert after in free + live && segment.size > 0 && before.size > 0 && after.size > 0;
    ReadReaches(before, segment, after, read);
    if Consistent(list, live - {segment}, total) {
      hide Tiles;
      var u := Holder(others, total, segment.start);
      if u in Elements(rest) || u in live - {segment} {
        OnlyOneHolds(free + live, total, segment, u, segment.start);
      } else {
        OnlyOneHolds(others, total, read, after, after.start);
      }
    }
  }

  /** Giving a segment back, as the code does it, keeps the partition exactly when the next slot is not
      confused with another one. */
  lemma ReleaseIsSafe(free: seq<Segment>, live: set<Segment>, total: nat, segment: Segment)
    requires Consistent(free, live, total) && segment in live
    ensures PreviousOf(free, segment).Some? && NextOf(free, segment).Some? ==> |free| >= 2
    ensures Consistent(Release(free, segment, false), live - {segment}, total) <==> !Confused(free, segment)
  {
    hide Release, PreviousOf, NextOf, Sound, NoDuplicates;
    var previous, next := PreviousOf(free, segment), NextOf(free, segment);
    if previous.Some? && next.Some? && next.value == |free| - 1 {
      PreviousTouches(free, live, total, segment);
      NextTouches(free, live, total, segment);
      SlotsInside(free, live, total);
      if previous.value == |free| - 2 {
        StaleNextToLast(free, live, total, segment);
      } else {
        StaleFurther(free, live, total, segment, previous.value);
      }
    } else {
      ReleaseKeeps(free, live, total, segment, false);
    }
  }

  /** Three allocations of different sizes, the outer ones given back first: the middle one then joins a
      slot that was moved, and what is listed as free goes past the end of the buffer. */
  lemma ConfusedExample()
    ensures var free, live := [Segment(0, 60), Segment(80, 20)], {Segment(60, 20)};
      && Consistent(free, live, 100) && Confused(free, Segment(60, 20))
      && Release(free, Segment(60, 20), false) == [Segment(0, 140)]
      && Release(free, Segment(60, 20), true) == [Segment(0, 100)]
  {
    hide Tiles;
    var a, b, c := Segment(0, 60), Segment(80, 20), Segment(60, 20);
    var free, live := [a, b], {c};
    JoinedTiles(Some(a), c, Some(b));
    assert Slots(Some(a)) + Slots(Some(b)) + {c} == Elements(free) + live by {
      assert free[0] == a && free[1] == b;
    }
    assert free[..1] == [a] && free[..1][..0] == [];
    assert PreviousOf(free[..1], c) == Some(0);
    assert PreviousOf(free, c) == Some(0) && NextOf(free, c) == Some(1);
    StaleRelease(free, c, 0, 1);
    assert free[0 := b][..0] == [];
    assert Swap(free, 0, 1) == [b, a] && Swap([b, a], 0, 0)[..0] == [];
  }

  // ---------------------------------------------------------------- every run

  datatype Op = Allocate(size: nat, alignment: nat) | Free(segment: Segment)

  datatype State = State(free: seq<Segment>, live: set<Segment>)

  /** The state after a request: a request that no slot fits changes nothing. */
  ghost function AfterAllocate(s: State, size: nat, alignment: nat): State
    requires alignment > 0
  {
    match FirstFit(s.free, size, alignment)
    case None => s
    case Some(at) =>
      State(Carve(s.free, at, size, alignment),
            s.live + {Segment(AlignMemoryOffset(s.free[at].start, alignment), size)})
  }

  /** One call; only live segments are given back. */
  ghost predicate Next(s: State, op: Op, t: State, relocate: bool) {
    match op
    case Allocate(size, alignment) => size > 0 && alignment > 0 && t == AfterAllocate(s, size, alignment)
    case Free(segment) =>
      && segment in s.live
      && (PreviousOf(s.free, segment).Some? && NextOf(s.free, segment).Some? ==> |s.free| >= 2)
      && t == State(Release(s.free, segment, relocate), s.live - {segment})
  }

  ghost predicate IsRun(states: seq<State>, ops: seq<Op>, relocate: bool) {
    |states| == |ops| + 1 && forall i | 0 <= i < |ops| :: Next(states[i], ops[i], states[i + 1], relocate)
  }

  ghost predicate NeverConfused(states: seq<State>, ops: seq<Op>)
    requires |states| == |ops| + 1
  {
    forall i | 0 <= i < |ops| && ops[i].Free? :: !Confused(states[i].free, ops[i].segment)
  }

  lemma StepKeepsPartition(s: State, op: Op, t: State, total: nat, relocate: bool)
    requires Consistent(s.free, s.live, total) && Next(s, op, t, relocate)
    requires op.Free? ==> relocate || !Confused(s.free, op.segment)
    ensures Consistent(t.free, t.live, total)
  {
    match op
    case Allocate(size, alignment) =>
      var at := FirstFit(s.free, size, alignment);
      if at.Some? {
        CarveKeeps(s.free, s.live, total, at.value, size, alignment);
      }
    case Free(segment) =>
      if relocate {
        ReleaseKeeps(s.free, s.live, total, segment, true);
      } else {
        ReleaseIsSafe(s.free, s.live, total, segment);
      }
  }

  /** From the new buffer on, through any allocations and frees, free and live are a partition, and once
      everything was given back, in whatever order, the buffer is one free segment. This takes the
      relocated pointer, or frees that never confuse the next slot. */
  lemma {:induction false} RunKeepsPartition(states: seq<State>, ops: seq<Op>, total: nat, relocate: bool)
    requires 0 < total < WORD && IsRun(states, ops, relocate)
    requires relocate || NeverConfused(states, ops)
    requires states[0] == State([Segment(0, total)], {})
    ensures var last := states[|ops|];
      && Consistent(last.free, last.live, total)
      && (last.live == {} ==> last.free == [Segment(0, total)])
    decreases |ops|
  {
    var n := |ops|;
    if n == 0 {
      OneTiles(Segment(0, total));
      assert Elements([Segment(0, total)]) + {} == {Segment(0, total)};
    } else {
      RunKeepsPartition(states[..n], ops[..n - 1], total, relocate);
      StepKeepsPartition(states[n - 1], ops[n - 1], states[n], total, relocate);
    }
    if states[n].live == {} {
      NothingLive(states[n].free, total);
    }
  }

  /** An allocation without alignment out of the only slot. */
  lemma OnlySlotCut(slot: Segment, live: set<Segment>, size: nat)
    requires 0 < size <= slot.size && slot.start + slot.size < WORD
    ensures AfterAllocate(State([slot], live), size, 1) ==
            State(if slot.size == size then [] else [Segment(slot.start + size, slot.size - size)],
                  live + {Segment(slot.start, size)})
  {
    NoWrap(slot.start, slot.size);
    NoWrap(slot.start + slot.size, slot.start);
    NoWrap(slot.start, slot.start);
    NoWrap(slot.start, size);
    NoWrap(size, 0);
    NoWrap(slot.size, size);
    assert AlignMemoryOffset(slot.start, 1) == slot.start;
    assert [slot][..0] == [];
    assert Fits(slot, size, 1);
    assert FirstFit([slot], size, 1) == Some(0);
    var left := Segment(slot.start + size, slot.size - size);
    assert [slot][0 := left] == [left];
    assert [left][0 := left][..0] == [];
  }

  /** Giving a segment back that has no free neighbour. */
  lemma LoneRelease(free: seq<Segment>, segment: Segment)
    requires PreviousOf(free, segment).None? && NextOf(free, segment).None?
    ensures Release(free, segment, false) == free + [segment]
  {
    assert free[..|free|] == free;
  }

  /** The example comes up: three allocations fill a new buffer, the outer ones are given back, and then the middle
      one. The run lists free space past the end of the buffer. */
  lemma ConfusedIsReached() returns (states: seq<State>, ops: seq<Op>)
    ensures IsRun(states, ops, false) && states[0] == State([Segment(0, 100)], {})
    ensures ops == [Allocate(60, 1), Allocate(20, 1), Allocate(20, 1), Free(Segment(0, 60)), Free(Segment(80, 20)),
                    Free(Segment(60, 20))]
    ensures states[|ops| - 1].free == [Segment(0, 60), Segment(80, 20)]
    ensures states[|ops|] == State([Segment(0, 140)], {})
  {
    hide Release, AfterAllocate, PreviousOf, NextOf, Next, IsRun;
    var a, b, c := Segment(0, 60), Segment(80, 20), Segment(60, 20);
    states, ops := [State([Segment(0, 100)], {})], [];
    NoCalls(states);
    OnlySlotIsNext(Segment(0, 100), {}, 60);
    states, ops := OneMoreCall(states, ops, Allocate(60, 1), State([Segment(60, 40)], {} + {a}));
    OnlySlotIsNext(Segment(60, 40), {} + {a}, 20);
    states, ops := OneMoreCall(states, ops, Allocate(20, 1), State([b], {} + {a} + {c}));
    OnlySlotIsNext(b, {} + {a} + {c}, 20);
    var live := {} + {a} + {c} + {b};
    states, ops := OneMoreCall(states, ops, Allocate(20, 1), State([], live));
    LoneIsNext([], live, a);
    states, ops := OneMoreCall(states, ops, Free(a), State([] + [a], live - {a}));
    LastIsNoNeighbour(a, b);
    assert [] + [a] == [a] && [a] + [b] == [a, b];
    LoneIsNext([a], live - {a}, b);
    states, ops := OneMoreCall(states, ops, Free(b), State([a, b], live - {a} - {b}));
    ConfusedIsNext(live - {a} - {b});
    states, ops := OneMoreCall(states, ops, Free(c), State([Segment(0, 140)], live - {a} - {b} - {c}));
    assert live - {a} - {b} - {c} == {};
  }

  lemma NoCalls(states: seq<State>)
    requires |states| == 1
    ensures IsRun(states, [], false)
  {
  }

  lemma OneMoreCall(states: seq<State>, ops: seq<Op>, op: Op, t: State) returns (longer: seq<State>, more: seq<Op>)
    requires IsRun(states, ops, false) && |states| == |ops| + 1 && Next(states[|ops|], op, t, false)
    ensures longer == states + [t] && more == ops + [op] && IsRun(longer, more, false)
  {
    hide Next;
    longer, more := states + [t], ops + [op];
  }

  lemma OnlySlotIsNext(slot: Segment, live: set<Segment>, size: nat)
    requires 0 < size <= slot.size && slot.start + slot.size < WORD
    ensures Next(State([slot], live), Allocate(size, 1),
                 State(if slot.size == size then [] else [Segment(slot.start + size, slot.size - size)],
                       live + {Segment(slot.start, size)}), false)
  {
    hide AfterAllocate;
    OnlySlotCut(slot, live, size);
  }

  lemma LoneIsNext(free: seq<Segment>, live: set<Segment>, segment: Segment)
    requires segment in live && PreviousOf(free, segment).None? && NextOf(free, segment).None?
    ensures Next(State(free, live), Free(segment), State(free + [segment], live - {segment}), false)
  {
    hide Release, PreviousOf, NextOf;
    LoneRelease(free, segment);
  }

  lemma ConfusedIsNext(live: set<Segment>)
    requires Segment(60, 20) in live
    ensures Next(State([Segment(0, 60), Segment(80, 20)], live), Free(Segment(60, 20)),
                 State([Segment(0, 140)], live - {Segment(60, 20)}), false)
  {
    hide Release, PreviousOf, NextOf;
    ConfusedExample();
  }

  lemma LastIsNoNeighbour(a: Segment, b: Segment)
    requires a.start + a.size < WORD && b.start + b.size < WORD
    requires a.start + a.size != b.start && b.start + b.size != a.start
    ensures PreviousOf([a], b) == None && NextOf([a], b) == None
  {
    assert [a][..0] == [];
  }

  // ---------------------------------------------------------------- the allocator

  class BufferAllocator {
    const size: nat
    var freeSpace: seq<Segment>
    /** The segments that were handed out and not given back. */
    ghost var live: set<Segment>

    ghost predicate Valid()
      reads this
    {
      Consistent(freeSpace, live, size) && size > 0
    }

    constructor (size: nat)
      requires 0 < size < WORD
      ensures Valid() && this.size == size && freeSpace == [Segment(0, size)] && live == {}
    {
      this.size, freeSpace, live := size, [Segment(0, size)], {};
      OneTiles(Segment(0, size));
      assert Elements([Segment(0, size)]) + {} == {Segment(0, size)};
    }

    /** The search loop. */
    method FindSlot(request: nat, alignment: nat) returns (at: Option<nat>)
      requires alignment > 0
      ensures at == FirstFit(freeSpace, request, alignment)
    {
      var i := 0;
      while i < |freeSpace|
        invariant i <= |freeSpace|
        invariant forall j | 0 <= j < i :: !Fits(freeSpace[j], request, alignment)
      {
        if Fits(freeSpace[i], request, alignment) {
          return Some(i);
        }
        i := i + 1;
      }
      at := None;
    }

    /** The first slot that fits loses the segment; a request is only turned down if no slot fits. */
    method TryAllocate(request: nat, alignment: nat) returns (result: Allocation)
      requires Valid() && request > 0 && alignment > 0
      modifies this
      ensures Valid() && Next(State(old(freeSpace), old(live)), Allocate(request, alignment), State(freeSpace, live), false)
      ensures result.TooLarge? <==> old(freeSpace) != [] && request > size
      ensures result.Allocated? <==> FirstFit(old(freeSpace), request, alignment).Some?
      ensures result.Allocated? ==>
        && live == old(live) + {result.segment} && result.segment !in old(live)
        && result.segment.size == request && result.segment.start % alignment == 0
    {
      if freeSpace == [] {
        return NoSpace;
      }
      FitsAtMostAll(freeSpace, live, size, request, alignment);
      if request > size {
        return TooLarge;
      }
      var at := FindSlot(request, alignment);
      if at.None? {
        return NoSpace;
      }
      CarveKeeps(freeSpace, live, size, at.value, request, alignment);
      var segment := Segment(AlignMemoryOffset(freeSpace[at.value].start, alignment), request);
      NotLiveYet(freeSpace, live, size, at.value, segment);
      freeSpace := Carve(freeSpace, at.value, request, alignment);
      live := live + {segment};
      result := Allocated(segment);
    }

    /** The loop that looks for neighbours. */
    method FindNeighbours(segment: Segment) returns (previous: Option<nat>, next: Option<nat>)
      ensures previous == PreviousOf(freeSpace, segment) && next == NextOf(freeSpace, segment)
    {
      previous, next := None, None;
      for i := 0 to |freeSpace|
        invariant previous == PreviousOf(freeSpace[..i], segment) && next == NextOf(freeSpace[..i], segment)
      {
        assert freeSpace[..i + 1][..i] == freeSpace[..i];
        if Add(segment.start, segment.size) == freeSpace[i].start {
          next := Some(i);
        }
        if Add(freeSpace[i].start, freeSpace[i].size) == segment.start {
          previous := Some(i);
        }
      }
      assert freeSpace[..|freeSpace|] == freeSpace;
    }

    /** The partition survives exactly when the next slot is not confused with another one. */
    method Deallocate(segment: Segment)
      requires Valid() && segment in live
      modifies this
      ensures Next(State(old(freeSpace), old(live)), Free(segment), State(freeSpace, live), false)
      ensures Valid() <==> !Confused(old(freeSpace), segment)
    {
      hide Consistent, Confused, Swap, Add, PreviousOf, NextOf;
      ReleaseIsSafe(freeSpace, live, size, segment);
      live := live - {segment};
      var previous, next := FindNeighbours(segment);
      var memory, count, joined := freeSpace, |freeSpace|, segment;
      if previous.Some? {
        joined := Segment(memory[previous.value].start, Add(joined.size, memory[previous.value].size));
        memory := Swap(memory, previous.value, count - 1);
        count := count - 1;
      }
      if next.Some? {
        joined := joined.(size := Add(joined.size, memory[next.value].size));
        memory := Swap(memory, next.value, count - 1);
        count := count - 1;
      }
      freeSpace := memory[..count] + [joined];
    }
  }

  lemma FitsAtMostAll(free: seq<Segment>, live: set<Segment>, total: nat, size: nat, alignment: nat)
    requires Consistent(free, live, total) && alignment > 0
    ensures FirstFit(free, size, alignment).Some? ==> size <= total
  {
    SlotsInside(free, live, total);
    var at := FirstFit(free, size, alignment);
    if at.Some? {
      FitsInside(free[at.value], size, alignment);
    }
  }

  /** A slot with room for the request and the largest possible gap fits, so such a request succeeds. */
  lemma EnoughFits(free: seq<Segment>, live: set<Segment>, total: nat, i: nat, size: nat, alignment: nat)
    requires Consistent(free, live, total) && size > 0 && alignment > 0
    requires i < |free| && free[i].size >= size + alignment - 1
    ensures FirstFit(free, size, alignment).Some?
  {
    SlotsInside(free, live, total);
    FitsInside(free[i], size, alignment);
    Aligned(free[i].start, alignment);
  }

  lemma NotLiveYet(free: seq<Segment>, live: set<Segment>, total: nat, at: nat, segment: Segment)
    requires Consistent(free, live, total) && at < |free| && segment.size > 0
    requires free[at].start <= segment.start && segment.start + segment.size <= free[at].start + free[at].size
    ensures segment !in live
  {
    assert free[at] in Elements(free) + live;
    if segment in live {
      assert segment in Elements(free) + live;
      assert Holds(segment, segment.start) && Holds(free[at], segment.start);
    }
  }
}
