/**
 * The window of awaited ids (packages/gateway/src/polling.ts): ids below start are of no more
 * interest, end is exclusive, and collected items are kept.
 */
module Windows {
  import opened Wrappers

  /** The value of a window object. */
  datatype State<T> = State(start: int, end: int, collected: map<int, T>) {

    predicate IsClosed() {
      start == end
    }

    function Item(id: int): Option<T> {
      if id in collected then Some(collected[id]) else None
    }

    /** Starts a closed window at id, or pushes out whichever edge excludes id. */
    function Extend(id: int): State<T> {
      if IsClosed() then this.(start := id, end := id + 1)
      else if id >= end then this.(end := id + 1)
      else if id < start then this.(start := id)
      else this
    }

    /** Keeps the item and, if it is the next one, moves start over everything collected. */
    function Slide(id: int, item: T): State<T> {
      var kept := collected[id := item];
      State(if id == start then FirstGap(kept.Keys, start, end) else start, end, kept)
    }

    /** Closed, or waiting for start. */
    predicate Settled() {
      start <= end && (IsClosed() || start !in collected)
    }
  }

  /** The least id of [lo, hi) that is not in ids, or hi if there is none. */
  function FirstGap(ids: set<int>, lo: int, hi: int): (gap: int)
    ensures lo <= gap
    ensures lo <= hi ==> gap <= hi && (gap < hi ==> gap !in ids)
    ensures hi <= lo ==> gap == lo
    ensures forall k :: lo <= k < gap ==> k in ids
    decreases hi - lo
  {
    if lo < hi && lo in ids then FirstGap(ids, lo + 1, hi) else lo
  }

  lemma {:induction false} FirstGapUnique(ids: set<int>, lo: int, hi: int, gap: int)
    requires lo <= gap <= hi
    requires forall k :: lo <= k < gap ==> k in ids
    requires gap < hi ==> gap !in ids
    ensures FirstGap(ids, lo, hi) == gap
  {
  }

  // ---------------------------------------------------------------------------
  // Order of arrival
  // ---------------------------------------------------------------------------

  function SlideAll<T>(w: State<T>, items: seq<(int, T)>): State<T> {
    if items == [] then w
    else
      var n := |items| - 1;
      SlideAll(w, items[..n]).Slide(items[n].0, items[n].1)
  }

  function Ids<T>(items: seq<(int, T)>): set<int> {
    set i | 0 <= i < |items| :: items[i].0
  }

  /**
   * Sliding any items over a settled window: end stays, exactly their ids become collected, and
   * start becomes the least uncollected id of the old window, or end.
   */
  lemma {:induction false} SlideAllIsFirstGap<T>(w: State<T>, items: seq<(int, T)>)
    requires w.Settled()
    ensures var r := SlideAll(w, items);
      && r.Settled()
      && r.end == w.end
      && r.collected.Keys == w.collected.Keys + Ids(items)
      && r.start == FirstGap(r.collected.Keys, w.start, w.end)
  {
    if items == [] {
      assert Ids(items) == {};
    } else {
      var n := |items| - 1;
      SlideAllIsFirstGap(w, items[..n]);
      assert Ids(items) == Ids(items[..n]) + {items[n].0};
      var before, after := SlideAll(w, items[..n]), SlideAll(w, items);
      assert after.collected.Keys == before.collected.Keys + {items[n].0};
      FirstGapUnique(after.collected.Keys, w.start, w.end, after.start);
    }
  }

  lemma PermutationHasSameIds<T>(items: seq<(int, T)>, permuted: seq<(int, T)>)
    requires multiset(items) == multiset(permuted)
    ensures Ids(items) == Ids(permuted)
  {
    forall id | id in Ids(items)
      ensures id in Ids(permuted)
    {
      var i :| 0 <= i < |items| && items[i].0 == id;
      assert items[i] in multiset(permuted);
    }
    forall id | id in Ids(permuted)
      ensures id in Ids(items)
    {
      var i :| 0 <= i < |permuted| && permuted[i].0 == id;
      assert permuted[i] in multiset(items);
    }
  }

  /** Items with one id are equal, as when the server's event is determined by its id. */
  predicate Consistent<T(==)>(items: seq<(int, T)>) {
    forall i, j :: 0 <= i < |items| && 0 <= j < |items| && items[i].0 == items[j].0 ==> items[i] == items[j]
  }

  lemma {:induction false} CollectedItems<T>(w: State<T>, items: seq<(int, T)>)
    requires Consistent(items)
    ensures forall i :: 0 <= i < |items| ==>
      items[i].0 in SlideAll(w, items).collected && SlideAll(w, items).collected[items[i].0] == items[i].1
    ensures forall k :: k in w.collected && k !in Ids(items) ==>
      k in SlideAll(w, items).collected && SlideAll(w, items).collected[k] == w.collected[k]
  {
    if items != [] {
      var n := |items| - 1;
      CollectedItems(w, items[..n]);
      assert Ids(items) == Ids(items[..n]) + {items[n].0};
    }
  }

  /**
   * The window does not depend on the order in which items arrive: the edges and the collected ids
   * never do, and the collected items do not either when items with one id are equal.
   */
  lemma {:induction false} OrderIndependence<T>(w: State<T>, items: seq<(int, T)>, permuted: seq<(int, T)>)
    requires w.Settled() && multiset(items) == multiset(permuted)
    ensures var r, s := SlideAll(w, items), SlideAll(w, permuted);
      && r.start == s.start && r.end == s.end && r.collected.Keys == s.collected.Keys
      && (Consistent(items) ==> r == s)
  {
    SlideAllIsFirstGap(w, items);
    SlideAllIsFirstGap(w, permuted);
    PermutationHasSameIds(items, permuted);
    if Consistent(items) {
      PermutationConsistent(items, permuted);
      CollectedItems(w, items);
      CollectedItems(w, permuted);
      var r, s := SlideAll(w, items), SlideAll(w, permuted);
      forall k | k in r.collected
        ensures k in s.collected && r.collected[k] == s.collected[k]
      {
        assert k in r.collected.Keys;
        if k in Ids(items) {
          var i :| 0 <= i < |items| && items[i].0 == k;
          assert items[i] in multiset(permuted);
        }
      }
      assert r.collected == s.collected;
    }
  }

  lemma PermutationConsistent<T>(items: seq<(int, T)>, permuted: seq<(int, T)>)
    requires multiset(items) == multiset(permuted) && Consistent(items)
    ensures Consistent(permuted)
  {
    forall i, j | 0 <= i < |permuted| && 0 <= j < |permuted| && permuted[i].0 == permuted[j].0
      ensures permuted[i] == permuted[j]
    {
      assert permuted[i] in multiset(items) && permuted[j] in multiset(items);
    }
  }

  /** After any items, the window is closed exactly when every id of the old window is collected. */
  lemma {:induction false} ClosedWhenAllCollected<T>(w: State<T>, items: seq<(int, T)>)
    requires w.Settled()
    ensures SlideAll(w, items).IsClosed()
        <==> forall k :: w.start <= k < w.end ==> k in w.collected || k in Ids(items)
  {
    SlideAllIsFirstGap(w, items);
    var r := SlideAll(w, items);
    assert r.start < r.end ==> w.start <= r.start && r.start !in r.collected.Keys;
    assert forall k :: k in r.collected.Keys <==> k in w.collected || k in Ids(items);
  }

  /** Extending keeps a window settled and takes the id in, if the id is not collected yet. */
  lemma ExtendSettled<T>(w: State<T>, id: int)
    requires w.Settled() && id !in w.collected
    ensures w.Extend(id).Settled() && !w.Extend(id).IsClosed()
    ensures w.Extend(id).start <= id < w.Extend(id).end
    ensures w.IsClosed() || (w.Extend(id).start <= w.start && w.end <= w.Extend(id).end)
  {
  }

  /** Extending gives the least window with the id and the old window, if that was open. */
  lemma ExtendLeast<T>(w: State<T>, id: int, lo: int, hi: int)
    requires w.start <= w.end && lo <= id < hi && (w.IsClosed() || (lo <= w.start && w.end <= hi))
    ensures lo <= w.Extend(id).start && w.Extend(id).end <= hi
    ensures w.Extend(id).collected == w.collected
  {
  }

  /** An item elsewhere moves nothing; the item at start moves it past everything collected. */
  lemma SlideMoves<T>(w: State<T>, id: int, item: T)
    requires w.start <= w.end
    ensures var r := w.Slide(id, item);
      && (id != w.start ==> r.start == w.start)
      && (id == w.start ==>
            && w.start <= r.start <= w.end && (forall k :: w.start <= k < r.start ==> k in r.collected)
            && (r.start < w.end ==> r.start !in r.collected))
  {
    var kept := w.collected[id := item];
    assert forall k :: k in kept <==> k in kept.Keys;
  }

  /** Of several items with one id the last one is kept, and nothing else changes what is collected. */
  lemma {:induction false} LastItemIsKept<T>(w: State<T>, items: seq<(int, T)>, i: nat)
    requires i < |items| && forall j :: i < j < |items| ==> items[j].0 != items[i].0
    ensures var r := SlideAll(w, items);
      items[i].0 in r.collected && r.collected[items[i].0] == items[i].1
  {
    var n := |items| - 1;
    if i < n {
      LastItemIsKept(w, items[..n], i);
    }
  }

  lemma {:induction false} OthersAreKept<T>(w: State<T>, items: seq<(int, T)>, k: int)
    requires k !in Ids(items)
    ensures var r := SlideAll(w, items);
      (k in r.collected <==> k in w.collected) && (k in w.collected ==> r.collected[k] == w.collected[k])
  {
    if items != [] {
      var n := |items| - 1;
      assert Ids(items) == Ids(items[..n]) + {items[n].0};
      OthersAreKept(w, items[..n], k);
    }
  }

  // ---------------------------------------------------------------------------
  // The program's own form
  // ---------------------------------------------------------------------------

  class Window<T> {
    var collected: map<int, T>
    var start: int
    var end: int

    ghost function Model(): State<T>
      reads this
    {
      State(start, end, collected)
    }

    constructor (start: Option<int>, end: Option<int>)
      ensures Model() == State(if start.Some? then start.value else -1, if end.Some? then end.value else -1, map[])
    {
      collected := map[];
      this.start := if start.Some? then start.value else -1;
      this.end := if end.Some? then end.value else -1;
    }

    method Extend(id: int)
      modifies this
      ensures Model() == old(Model()).Extend(id)
    {
      var closed := IsClosed();
      if closed {
        start := id;
        end := id + 1;
      } else if id >= end {
        end := id + 1;
      } else if id < start {
        start := id;
      }
    }

    method Slide(id: int, item: T)
      modifies this
      ensures Model() == old(Model()).Slide(id, item)
    {
      collected := collected[id := item];
      if id == start {
        var k := start;
        while k < end
          invariant start == k
          invariant FirstGap(collected.Keys, old(start), end) == FirstGap(collected.Keys, k, end)
          invariant collected == old(collected)[id := item] && end == old(end)
        {
          if k in collected {
            start := start + 1;
          } else {
            break;
          }
          k := k + 1;
        }
      }
    }

    method IsClosed() returns (closed: bool)
      ensures closed == Model().IsClosed()
    {
      closed := start == end;
    }

    method Item(id: int) returns (item: Option<T>)
      ensures item == Model().Item(id)
    {
      item := if id in collected then Some(collected[id]) else None;
    }
  }
}
