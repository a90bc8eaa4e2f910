/** The room query repository: the number of rooms a search matches, and one
    page of them. The search predicate is taken as given. `Page` and
    `PageSize` are 32-bit integers, and `(Page - 1) * PageSize` is computed in
    unchecked 32-bit arithmetic before it reaches `Skip`. */
module RoomQueries {
  import opened Entities
  import opened Sequences

  const Int32Min: int := -0x8000_0000
  const Int32Max: int := 0x7FFF_FFFF

  type Int32 = x: int | -0x8000_0000 <= x <= 0x7FFF_FFFF

  /** Unchecked 32-bit wrap-around of an integer result. */
  function Wrap32(x: int): (r: Int32)
    ensures Int32Min <= x <= Int32Max ==> r == x
    ensures (x - r) % 0x1_0000_0000 == 0
  {
    (x + 0x8000_0000) % 0x1_0000_0000 - 0x8000_0000
  }

  /** `CountAsync`: how many rooms the search matches. */
  function Count(rooms: seq<Room>, keep: Room -> bool): (n: nat)
    ensures n <= |rooms|
    ensures n == 0 <==> forall i :: 0 <= i < |rooms| ==> !keep(rooms[i])
  {
    var matched := Filter(rooms, keep);
    assert matched != [] ==> matched[0] in matched;
    |matched|
  }

  /** The number of matches before page `page`, in exact arithmetic. */
  function PageStart(page: int, pageSize: int): int {
    (page - 1) * pageSize
  }

  /** The `Skip`/`Take` step of `SearchAsync`, on the matches of the
      search, with the skip count in exact arithmetic: at most `PageSize`
      of them. */
  function PageOf(matched: seq<Room>, page: Int32, pageSize: Int32): (r: seq<Room>)
    ensures |r| <= if pageSize > 0 then pageSize else 0
  {
    Take(Skip(matched, PageStart(page, pageSize)), pageSize)
  }

  /** `SearchAsync` as written: the skip count wraps around in 32 bits. */
  function SearchAsWritten(rooms: seq<Room>, keep: Room -> bool, page: Int32, pageSize: Int32): (r: seq<Room>)
    ensures |r| <= if pageSize > 0 then pageSize else 0
  {
    Take(Skip(Filter(rooms, keep), Wrap32(Wrap32(page - 1) * pageSize)), pageSize)
  }

  /** `SearchAsync` with the skip count computed without wrap-around. */
  function Search(rooms: seq<Room>, keep: Room -> bool, page: Int32, pageSize: Int32): (r: seq<Room>)
    ensures |r| <= if pageSize > 0 then pageSize else 0
  {
    PageOf(Filter(rooms, keep), page, pageSize)
  }

  /** Every room on a page is a stored room the search keeps. */
  lemma SearchReturnsMatches(rooms: seq<Room>, keep: Room -> bool, page: Int32, pageSize: Int32)
    ensures forall x :: x in Search(rooms, keep, page, pageSize) ==> x in rooms && keep(x)
  {
    var matched := Filter(rooms, keep);
    var skipped := Skip(matched, PageStart(page, pageSize));
    assert forall x :: x in skipped ==> x in matched;
    assert forall x :: x in Take(skipped, pageSize) ==> x in skipped;
  }

  /** The two agree whenever the skip count fits in 32 bits. */
  lemma SearchAsWrittenAgreesWithoutOverflow(rooms: seq<Room>, keep: Room -> bool, page: Int32, pageSize: Int32)
    requires page > Int32Min
    requires Int32Min <= PageStart(page, pageSize) <= Int32Max
    ensures SearchAsWritten(rooms, keep, page, pageSize) == Search(rooms, keep, page, pageSize)
  {
  }

  /** With the page count past 2^31 / 20, page 107374184 of size 20 wraps to
      a negative skip count and repeats page 1 instead of coming back
      empty. */
  lemma OverflowRepeatsFirstPage(rooms: seq<Room>, keep: Room -> bool)
    requires 0 < Count(rooms, keep) <= Int32Max
    ensures Wrap32(PageStart(107374184, 20)) < 0
    ensures SearchAsWritten(rooms, keep, 107374184, 20) == SearchAsWritten(rooms, keep, 1, 20) != []
    ensures Search(rooms, keep, 107374184, 20) == []
  {
    assert PageStart(107374184, 20) == 2147483660;
    assert Wrap32(2147483660) == -2147483636;
  }

  /** The slice `[start, end)` of `s`, clipped to its end. */
  function Window<T>(s: seq<T>, start: int, end: int): seq<T>
    requires 0 <= start <= end
  {
    if start >= |s| then [] else s[start..Min(end, |s|)]
  }

  /** `Skip(start).Take(size)` is the slice from `start`, clipped to the
      end. */
  lemma SkipTakeIsSlice<T>(s: seq<T>, start: int, size: int)
    requires 0 <= start && 0 <= size
    ensures Take(Skip(s, start), size) == Window(s, start, start + size)
  {
    if start < |s| {
      var rest := s[start..];
      if size < |rest| {
        assert rest[..size] == s[start..start + size];
      }
    }
  }

  lemma PageStartNonNegative(page: int, pageSize: int)
    requires page >= 1 && pageSize >= 0
    ensures PageStart(page, pageSize) >= 0
  {
    assert (page - 1) * pageSize >= 0 by {
      assert page - 1 >= 0;
    }
  }

  /** Page `page` (from 1) is the slice of the matches from
      `(page - 1) * pageSize`, clipped to the end; past the end it is empty. */
  lemma PageIsSlice(matched: seq<Room>, page: Int32, pageSize: Int32)
    requires page >= 1 && pageSize >= 0
    ensures 0 <= PageStart(page, pageSize)
    ensures var start := PageStart(page, pageSize);
            PageOf(matched, page, pageSize) == Window(matched, start, start + pageSize)
  {
    PageStartNonNegative(page, pageSize);
    SkipTakeIsSlice(matched, PageStart(page, pageSize), pageSize);
  }

  /** Page 1 starts at the first match. */
  lemma FirstPageStartsAtFirstMatch(rooms: seq<Room>, keep: Room -> bool, pageSize: Int32)
    requires pageSize > 0 && Count(rooms, keep) > 0
    ensures Search(rooms, keep, 1, pageSize)[0] == Filter(rooms, keep)[0]
  {
    PageIsSlice(Filter(rooms, keep), 1, pageSize);
  }

  /** A page that starts at or past the number of matches is empty. */
  lemma PastTheEndIsEmpty(rooms: seq<Room>, keep: Room -> bool, page: Int32, pageSize: Int32)
    requires PageStart(page, pageSize) >= Count(rooms, keep)
    ensures Search(rooms, keep, page, pageSize) == []
  {
  }

  /** Pages 1 to `k` of the matches, one after the other. */
  function PagesUpTo(matched: seq<Room>, k: nat, pageSize: Int32): seq<Room>
    requires k <= Int32Max
  {
    if k == 0 then [] else PagesUpTo(matched, k - 1, pageSize) + PageOf(matched, k, pageSize)
  }

  /** Appending the window `[start, end)` to the prefix before `start` gives
      the prefix before `end`, all clipped to the end of `s`. */
  lemma PrefixThenSlice<T>(s: seq<T>, prefix: seq<T>, window: seq<T>, start: int, end: int)
    requires 0 <= start <= end
    requires prefix == s[..Min(start, |s|)] && window == Window(s, start, end)
    ensures prefix + window == s[..Min(end, |s|)]
  {
    if start < |s| {
      assert s[..start] + s[start..Min(end, |s|)] == s[..Min(end, |s|)];
    }
  }

  lemma PageStartStep(k: int, pageSize: int)
    requires k >= 1 && pageSize >= 0
    ensures 0 <= PageStart(k, pageSize) <= PageStart(k, pageSize) + pageSize == k * pageSize
  {
    PageStartNonNegative(k, pageSize);
  }

  lemma {:induction false} PageStartsApart(p: int, q: int, pageSize: int)
    requires 1 <= p < q && pageSize >= 0
    ensures 0 <= PageStart(p, pageSize) && PageStart(p, pageSize) + pageSize <= PageStart(q, pageSize)
    decreases q - p
  {
    PageStartStep(p, pageSize);
    PageStartStep(q - 1, pageSize);
    if p < q - 1 {
      PageStartsApart(p, q - 1, pageSize);
    }
  }

  /** How many matches pages 1 to `k` can hold, counted page by page. */
  function PagesSpan(k: nat, pageSize: int): (n: int)
    ensures pageSize >= 0 ==> n >= 0
  {
    if k == 0 then 0 else PagesSpan(k - 1, pageSize) + pageSize
  }

  /** Counted page by page, `k` pages hold `k * pageSize` matches, and page
      `k` starts where the first `k - 1` pages end. */
  lemma {:induction false} PagesSpanIsProduct(k: nat, pageSize: int)
    ensures PagesSpan(k, pageSize) == k * pageSize
    ensures k >= 1 ==> PageStart(k, pageSize) == PagesSpan(k - 1, pageSize)
  {
    if k > 0 {
      PagesSpanIsProduct(k - 1, pageSize);
      assert k * pageSize == (k - 1) * pageSize + pageSize;
    }
  }

  /** Page `k` is the window between what `k - 1` pages and `k` pages
      hold. */
  lemma PageIsNextWindow(matched: seq<Room>, k: nat, pageSize: Int32)
    requires 1 <= k <= Int32Max && pageSize >= 0
    ensures PageOf(matched, k, pageSize) == Window(matched, PagesSpan(k - 1, pageSize), PagesSpan(k, pageSize))
  {
    PageIsSlice(matched, k, pageSize);
    PagesSpanIsProduct(k, pageSize);
  }

  /** Pages 1 to `k` together are the first `k * pageSize` matches. */
  lemma {:induction false} PagesArePrefix(matched: seq<Room>, k: nat, pageSize: Int32)
    requires k <= Int32Max && pageSize >= 0
    ensures 0 <= k * pageSize
    ensures PagesUpTo(matched, k, pageSize) == matched[..Min(k * pageSize, |matched|)]
  {
    PagesSpanIsProduct(k, pageSize);
    if k > 0 {
      PagesSpanIsProduct(k - 1, pageSize);
      PagesArePrefix(matched, k - 1, pageSize);
      PageIsNextWindow(matched, k, pageSize);
      PrefixThenSlice(matched, PagesUpTo(matched, k - 1, pageSize), PageOf(matched, k, pageSize),
                      PagesSpan(k - 1, pageSize), PagesSpan(k, pageSize));
    }
  }

  /** Enough pages of the search hold every match: together they are the
      matches, as many as `CountAsync` reports. */
  lemma PagesCoverCount(rooms: seq<Room>, keep: Room -> bool, k: nat, pageSize: Int32)
    requires k <= Int32Max && pageSize >= 0
    requires k * pageSize >= Count(rooms, keep)
    ensures PagesUpTo(Filter(rooms, keep), k, pageSize) == Filter(rooms, keep)
    ensures |PagesUpTo(Filter(rooms, keep), k, pageSize)| == Count(rooms, keep)
  {
    PagesSpanIsProduct(k, pageSize);
    PagesArePrefix(Filter(rooms, keep), k, pageSize);
  }

  /** Two windows of a sequence without repeats, the first ending where or
      before the second begins, share no element. */
  lemma SlicesDisjoint<T>(m: seq<T>, a: int, b: int, c: int, d: int)
    requires Distinct(m)
    requires 0 <= a <= b <= c <= d
    ensures forall x :: x in Window(m, a, b) ==> x !in Window(m, c, d)
  {
    forall x | x in Window(m, a, b)
      ensures x !in Window(m, c, d)
    {
      var i :| 0 <= i < |Window(m, a, b)| && Window(m, a, b)[i] == x;
      assert m[a + i] == x;
    }
  }

  /** Two different pages never hold the same room, for a table in which
      every room row is distinct. */
  lemma PagesDisjoint(rooms: seq<Room>, keep: Room -> bool, p: Int32, q: Int32, pageSize: Int32)
    requires Distinct(rooms)
    requires 1 <= p < q && pageSize >= 0
    ensures forall x :: x in Search(rooms, keep, p, pageSize) ==> x !in Search(rooms, keep, q, pageSize)
  {
    var matched := Filter(rooms, keep);
    FilterDistinct(rooms, keep);
    PageIsSlice(matched, p, pageSize);
    PageIsSlice(matched, q, pageSize);
    PageStartsApart(p, q, pageSize);
    var sp, sq := PageStart(p, pageSize), PageStart(q, pageSize);
    SlicesDisjoint(matched, sp, sp + pageSize, sq, sq + pageSize);
  }
}
