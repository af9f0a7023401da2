/**
  The boundary-attached run groupers `subgroups_creator_bef` and
  `subgroups_creator_aft`. They read a marker string in which `'0'` means "an
  ordinary line" and any other character "a line of a block". Each maximal
  block of non-`'0'` lines becomes one list of indices, extended by the line
  just before the block (`bef`) or just after it (`aft`); the ordinary lines
  not absorbed that way stay bare indices.
*/
module BoundaryGroups {
  import opened GroupItems

  /** Which neighbouring line a block absorbs. */
  datatype Edge = Before | After

  /** The first line of the block of non-`'0'` lines that contains line `k`. */
  function RunStart(x: string, k: nat): (s: nat)
    requires k < |x| && x[k] != '0'
    ensures s <= k && (s == 0 || x[s - 1] == '0')
    ensures forall j :: s <= j <= k ==> x[j] != '0'
    decreases k
  {
    if k > 0 && x[k - 1] != '0' then RunStart(x, k - 1) else k
  }

  /** Line `k` is the last line of the string or is followed by a `'0'`. */
  predicate EndsSegment(x: string, k: nat)
    requires k < |x|
  {
    k + 1 == |x| || x[k + 1] == '0'
  }

  /** Lines `s..e` form a maximal block of non-`'0'` lines. */
  predicate MaximalRun(x: string, s: int, e: int)
  {
    && 0 <= s <= e < |x|
    && (s == 0 || x[s - 1] == '0')
    && (e + 1 == |x| || x[e + 1] == '0')
    && forall j :: s <= j <= e ==> x[j] != '0'
  }

  /** The list a block `s..e` becomes. */
  function RunItem(edge: Edge, s: int, e: int): Item
    requires s <= e
  {
    match edge
    case Before => Run(Range(s - 1, e + 1))
    case After => Run(Range(s, e + 2))
  }

  /** What the loop appends while it reads line `k`. */
  function Emit(edge: Edge, x: string, k: nat): seq<Item>
    requires k < |x|
  {
    if x[k] == '0' then
      match edge
      case Before => if EndsSegment(x, k) then [Single(k)] else []
      case After => if k + 1 < |x| && x[k + 1] == '0' then [Single(k + 1)] else []
    else if EndsSegment(x, k) then [RunItem(edge, RunStart(x, k), k)]
    else []
  }

  /** What the loop has appended after reading the first `m` lines. */
  function UpTo(edge: Edge, x: string, m: nat): seq<Item>
    requires m <= |x|
    decreases m
  {
    if m == 0 then [] else UpTo(edge, x, m - 1) + Emit(edge, x, m - 1)
  }

  /** The result of `subgroups_creator_bef`. */
  function Bef(x: string): seq<Item>
  {
    UpTo(Before, x, |x|)
  }

  /** The result of `subgroups_creator_aft`. */
  function Aft(x: string): seq<Item>
  {
    [Single(0)] + UpTo(After, x, |x|)
  }

  /** `subgroups_creator_bef`. `start` and `end` are assigned before their
      first use in the source; here they start at 0. */
  method SubgroupsCreatorBef(groups: string) returns (lsubgroups: seq<Item>)
    ensures lsubgroups == Bef(groups)
  {
    lsubgroups := [];
    var onecounter := 0;
    var start, end := 0, 0;
    var index := 0;
    while index < |groups|
      invariant 0 <= index <= |groups|
      invariant lsubgroups == UpTo(Before, groups, index)
      invariant onecounter == 1 <==>
        index > 0 && groups[index - 1] != '0' && (index == |groups| || groups[index] != '0')
      invariant index > 0 && groups[index - 1] != '0' ==>
        start == RunStart(groups, index - 1) - 1 && end == index - 1
    {
      var word := groups[index];
      if word == '0' {
        if index != |groups| - 1 {
          if groups[index + 1] == '0' {
            lsubgroups := lsubgroups + [Single(index)];
          }
        } else {
          lsubgroups := lsubgroups + [Single(index)];
        }
      } else {
        if onecounter == 0 {
          onecounter := 1;
          start := index - 1;
          end := index;
        } else {
          end := end + 1;
        }
        if index != |groups| - 1 {
          if groups[index + 1] == '0' {
            onecounter := 0;
            lsubgroups := lsubgroups + [Run(Range(start, end + 1))];
          }
        } else {
          lsubgroups := lsubgroups + [Run(Range(start, end + 1))];
        }
      }
      index := index + 1;
    }
  }

  /** `subgroups_creator_aft`. `start` and `end` are assigned before their
      first use in the source; here they start at 0. */
  method SubgroupsCreatorAft(groups: string) returns (result: seq<Item>)
    ensures result == Aft(groups)
  {
    var lsubgroups := [];
    var onecounter := 0;
    var start, end := 0, 0;
    var index := 0;
    while index < |groups|
      invariant 0 <= index <= |groups|
      invariant lsubgroups == UpTo(After, groups, index)
      invariant onecounter == 1 <==>
        index > 0 && groups[index - 1] != '0' && (index == |groups| || groups[index] != '0')
      invariant index > 0 && groups[index - 1] != '0' ==>
        start == RunStart(groups, index - 1) && end == index
    {
      var word := groups[index];
      if word == '0' {
        if index != |groups| - 1 {
          if groups[index + 1] == '0' {
            lsubgroups := lsubgroups + [Single(index + 1)];
          }
        }
      } else {
        if onecounter == 0 {
          onecounter := 1;
          start := index;
          end := index + 1;
        } else {
          end := end + 1;
        }
        if index != |groups| - 1 {
          if groups[index + 1] == '0' {
            onecounter := 0;
            lsubgroups := lsubgroups + [Run(Range(start, end + 1))];
          }
        } else {
          lsubgroups := lsubgroups + [Run(Range(start, end + 1))];
        }
      }
      index := index + 1;
    }
    result := [Single(0)] + lsubgroups;
  }

  /** Where the indices covered so far by `subgroups_creator_bef` stop after
      `m` lines: they reach up to the line before the block in progress. */
  function BefEnd(x: string, m: nat): int
    requires m <= |x|
  {
    if m < |x| && x[m] != '0' then RunStart(x, m) - 1 else m
  }

  /** The first index `subgroups_creator_bef` emits: -1 when the string starts with a block. */
  function BefLow(x: string): int
  {
    if |x| > 0 && x[0] != '0' then -1 else 0
  }

  lemma {:induction false} BefFlattenUpTo(x: string, m: nat)
    requires m <= |x|
    ensures BefLow(x) <= BefEnd(x, m)
    ensures Flatten(UpTo(Before, x, m)) == Range(BefLow(x), BefEnd(x, m))
    decreases m
  {
    if m > 0 {
      var k := m - 1;
      BefFlattenUpTo(x, k);
      var prev := UpTo(Before, x, k);
      if Emit(Before, x, k) != [] {
        var it := Emit(Before, x, k)[0];
        assert UpTo(Before, x, m) == prev + [it];
        FlattenSnoc(prev, it);
        if x[k] == '0' {
          RangeSnoc(BefLow(x), k);
        } else {
          RangeSplit(BefLow(x), BefEnd(x, k), m);
        }
      } else {
        assert UpTo(Before, x, m) == prev;
      }
    }
  }

  /** Flattening the result of `subgroups_creator_bef` gives every index from
      `BefLow(x)` to the last line exactly once, in increasing order. */
  lemma {:induction false} BefFlatten(x: string)
    ensures Flatten(Bef(x)) == Range(BefLow(x), |x|)
    ensures (|x| == 0 || x[0] == '0') ==> Flatten(Bef(x)) == Range(0, |x|)
  {
    BefFlattenUpTo(x, |x|);
  }

  /** Where the indices covered so far by `subgroups_creator_aft` (after its
      leading 0) stop after `m` lines. */
  function AftEnd(x: string, m: nat): int
    requires m <= |x|
  {
    if m < |x| then (if x[m] != '0' then RunStart(x, m) else m + 1)
    else if |x| > 0 && x[|x| - 1] != '0' then |x| + 1
    else if |x| == 0 then 1
    else |x|
  }

  /** The first index after the leading 0 of `subgroups_creator_aft`. */
  function AftLow(x: string): int
  {
    if |x| > 0 && x[0] != '0' then 0 else 1
  }

  lemma {:induction false} AftFlattenUpTo(x: string, m: nat)
    requires m <= |x|
    ensures AftLow(x) <= AftEnd(x, m)
    ensures Flatten(UpTo(After, x, m)) == Range(AftLow(x), AftEnd(x, m))
    decreases m
  {
    if m > 0 {
      var k := m - 1;
      AftFlattenUpTo(x, k);
      var prev := UpTo(After, x, k);
      if Emit(After, x, k) != [] {
        var it := Emit(After, x, k)[0];
        assert UpTo(After, x, m) == prev + [it];
        FlattenSnoc(prev, it);
        if x[k] == '0' {
          RangeSnoc(AftLow(x), k + 1);
        } else {
          RangeSplit(AftLow(x), AftEnd(x, k), m + 1);
        }
      } else {
        assert UpTo(After, x, m) == prev;
      }
    }
  }

  /** Flattening the result of `subgroups_creator_aft` gives its leading 0 and
      then every index from `AftLow(x)` on exactly once, in increasing order;
      for a string that starts and ends with `'0'` that is exactly the line
      indices. */
  lemma {:induction false} AftFlatten(x: string)
    ensures Flatten(Aft(x)) == [0] + Range(AftLow(x), AftEnd(x, |x|))
    ensures |x| > 0 && x[0] == '0' && x[|x| - 1] == '0' ==> Flatten(Aft(x)) == Range(0, |x|)
    ensures x == [] ==> Aft(x) == [Single(0)]
  {
    AftFlattenUpTo(x, |x|);
    FlattenCons(Single(0), UpTo(After, x, |x|));
    if |x| > 0 && x[0] == '0' && x[|x| - 1] == '0' {
      RangeSplit(0, 1, |x|);
    }
  }

  /** The items appended after `m` lines are those appended at each of them. */
  lemma {:induction false} UpToMembers(edge: Edge, x: string, m: nat)
    requires m <= |x|
    ensures forall it :: it in UpTo(edge, x, m) <==> exists k :: 0 <= k < m && it in Emit(edge, x, k)
    decreases m
  {
    if m > 0 {
      UpToMembers(edge, x, m - 1);
    }
  }

  /** A block that starts at `s` is reported as starting there from each of its lines. */
  lemma {:induction false} RunStartOf(x: string, s: nat, e: nat)
    requires s <= e < |x| && (s == 0 || x[s - 1] == '0')
    requires forall j :: s <= j <= e ==> x[j] != '0'
    ensures RunStart(x, e) == s
    decreases e
  {
    if e > s {
      RunStartOf(x, s, e - 1);
    }
  }

  /** Lines `s..e` are a maximal block exactly when line `e` ends a block
      that starts at `s`. */
  lemma {:induction false} MaximalRunAt(x: string, s: int, e: int)
    ensures MaximalRun(x, s, e) <==>
      0 <= e < |x| && x[e] != '0' && EndsSegment(x, e) && s == RunStart(x, e)
  {
    if MaximalRun(x, s, e) {
      RunStartOf(x, s, e);
    }
  }

  /** The items of `subgroups_creator_bef`: a bare index for each `'0'` that
      is last or followed by a `'0'`, and for each maximal block `s..e` the
      list `s-1..e`; nothing else. */
  lemma {:induction false} BefMembers(x: string)
    ensures forall k :: Single(k) in Bef(x) <==> 0 <= k < |x| && x[k] == '0' && EndsSegment(x, k)
    ensures forall s, e :: MaximalRun(x, s, e) ==> RunItem(Before, s, e) in Bef(x)
    ensures forall it :: it in Bef(x) && it.Run? ==>
      exists s, e :: MaximalRun(x, s, e) && it == RunItem(Before, s, e)
  {
    UpToMembers(Before, x, |x|);
    forall k | 0 <= k < |x| && x[k] == '0' && EndsSegment(x, k) ensures Single(k) in Bef(x) {
      assert Single(k) in Emit(Before, x, k);
    }
    forall s, e | MaximalRun(x, s, e) ensures RunItem(Before, s, e) in Bef(x) {
      MaximalRunAt(x, s, e);
      assert RunItem(Before, s, e) in Emit(Before, x, e);
    }
    forall it | it in Bef(x) && it.Run?
      ensures exists s, e :: MaximalRun(x, s, e) && it == RunItem(Before, s, e)
    {
      var k :| 0 <= k < |x| && it in Emit(Before, x, k);
      MaximalRunAt(x, RunStart(x, k), k);
    }
  }

  /** The items of `subgroups_creator_aft`: the leading 0, the bare index
      `k+1` for each `'0'` at `k` followed by a `'0'`, and for each maximal
      block `s..e` the list `s..e+1`; nothing else. */
  lemma {:induction false} AftMembers(x: string)
    ensures Aft(x)[0] == Single(0)
    ensures forall j :: Single(j) in Aft(x) <==>
      j == 0 || (1 <= j < |x| && x[j - 1] == '0' && x[j] == '0')
    ensures forall s, e :: MaximalRun(x, s, e) ==> RunItem(After, s, e) in Aft(x)
    ensures forall it :: it in Aft(x) && it.Run? ==>
      exists s, e :: MaximalRun(x, s, e) && it == RunItem(After, s, e)
  {
    UpToMembers(After, x, |x|);
    forall j | 1 <= j < |x| && x[j - 1] == '0' && x[j] == '0' ensures Single(j) in Aft(x) {
      assert Single(j) in Emit(After, x, j - 1);
    }
    forall s, e | MaximalRun(x, s, e) ensures RunItem(After, s, e) in Aft(x) {
      MaximalRunAt(x, s, e);
      assert RunItem(After, s, e) in Emit(After, x, e);
    }
    forall it | it in Aft(x) && it.Run?
      ensures exists s, e :: MaximalRun(x, s, e) && it == RunItem(After, s, e)
    {
      assert it in UpTo(After, x, |x|);
      var k :| 0 <= k < |x| && it in Emit(After, x, k);
      MaximalRunAt(x, RunStart(x, k), k);
    }
  }

  /** Small inputs: a block inside ordinary lines, a leading block, and the
      empty string. */
  lemma {:induction false} BoundaryExamples()
    ensures Bef("0110") == [Run([0, 1, 2]), Single(3)]
    ensures Aft("0110") == [Single(0), Run([1, 2, 3])]
    ensures Bef("1") == [Run([-1, 0])]
    ensures Aft("00") == [Single(0), Single(1)]
    ensures Aft("") == [Single(0)]
  {
    assert Range(0, 3) == [0, 1, 2];
    assert Range(1, 4) == [1, 2, 3];
    assert Range(-1, 1) == [-1, 0];
  }
}
