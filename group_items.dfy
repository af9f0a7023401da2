/** The values the line-grouping helpers return: Python lists whose items are
    either a bare line index or a list of consecutive line indices. */
module GroupItems {

  /** One item of a grouping result: `Single(i)` is the bare int `i`,
      `Run(ps)` the Python list `ps`. */
  datatype Item = Single(index: int) | Run(indices: seq<int>)

  /** `list(range(lo, hi))`. */
  function Range(lo: int, hi: int): seq<int>
    requires lo <= hi
    decreases hi - lo
  {
    if lo == hi then [] else Range(lo, hi - 1) + [hi - 1]
  }

  /** The indices an item contributes when the result is flattened. */
  function Elems(it: Item): seq<int>
  {
    match it
    case Single(p) => [p]
    case Run(ps) => ps
  }

  /** All indices of a grouping result, left to right. */
  function Flatten(items: seq<Item>): seq<int>
  {
    if items == [] then [] else Flatten(items[..|items| - 1]) + Elems(items[|items| - 1])
  }

  lemma {:induction false} FlattenSnoc(items: seq<Item>, it: Item)
    ensures Flatten(items + [it]) == Flatten(items) + Elems(it)
  {
    assert (items + [it])[..|items|] == items;
  }

  lemma {:induction false} FlattenAppend(a: seq<Item>, b: seq<Item>)
    ensures Flatten(a + b) == Flatten(a) + Flatten(b)
    decreases |b|
  {
    if b == [] {
      assert a + b == a;
    } else {
      var init, last := b[..|b| - 1], b[|b| - 1];
      assert a + b == (a + init) + [last];
      assert b == init + [last];
      FlattenAppend(a, init);
      FlattenSnoc(a + init, last);
      FlattenSnoc(init, last);
    }
  }

  lemma {:induction false} FlattenCons(it: Item, items: seq<Item>)
    ensures Flatten([it] + items) == Elems(it) + Flatten(items)
  {
    FlattenAppend([it], items);
    FlattenSnoc([], it);
    assert [] + [it] == [it];
  }

  /** `range(lo, hi)` holds `hi - lo` consecutive integers from `lo`. */
  lemma {:induction false} RangeAt(lo: int, hi: int)
    requires lo <= hi
    ensures |Range(lo, hi)| == hi - lo
    ensures forall i :: 0 <= i < hi - lo ==> Range(lo, hi)[i] == lo + i
    decreases hi - lo
  {
    if lo < hi {
      RangeAt(lo, hi - 1);
    }
  }

  lemma {:induction false} RangeLast(lo: int, hi: int)
    requires lo < hi
    ensures |Range(lo, hi)| == hi - lo && Range(lo, hi)[hi - lo - 1] == hi - 1
  {
    RangeAt(lo, hi - 1);
  }

  lemma {:induction false} RangeSplit(lo: int, mid: int, hi: int)
    requires lo <= mid <= hi
    ensures Range(lo, mid) + Range(mid, hi) == Range(lo, hi)
    decreases hi - mid
  {
    if mid < hi {
      RangeSplit(lo, mid, hi - 1);
    }
  }

  lemma {:induction false} RangeOne(p: int)
    ensures Range(p, p + 1) == [p]
  {
    assert Range(p, p) == [];
  }

  lemma {:induction false} RangeSnoc(lo: int, hi: int)
    requires lo <= hi
    ensures Range(lo, hi) + [hi] == Range(lo, hi + 1)
  {
  }
}
