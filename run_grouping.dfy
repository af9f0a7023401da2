/** The run grouper of the JavaScript-to-Python translator: `yield_subgroups`
    cuts a marker string into runs, and `from_bin_to_list` turns those runs into
    line indices, bare for a `'0'` line and grouped for a run of `'1'` lines. */
module RunGrouping {
  import opened GroupItems

  /** An element of a Python list built by `yield_subgroups`: the int `0` that
      seeds the first buffer, or a one-character string taken from the input. */
  datatype Elem = Num(n: int) | Chr(c: char)

  /** The input string as list elements. */
  function Cells(s: string): seq<Elem>
  {
    seq(|s|, i requires 0 <= i < |s| => Chr(s[i]))
  }

  /** The concatenation of the yielded groups. */
  function Concat(gs: seq<seq<Elem>>): seq<Elem>
  {
    if gs == [] then [] else Concat(gs[..|gs| - 1]) + gs[|gs| - 1]
  }

  predicate IsBinary(s: string)
  {
    forall i :: 0 <= i < |s| ==> s[i] == '0' || s[i] == '1'
  }

  /** Every element of the group equals its first one. */
  predicate Constant(g: seq<Elem>)
  {
    forall i :: 0 <= i < |g| ==> g[i] == g[0]
  }

  /** `gs` is a sequence of maximal runs of equal elements: each group is
      non-empty and constant, and neighbouring groups differ. */
  predicate IsRunPartition(gs: seq<seq<Elem>>)
  {
    && (forall k :: 0 <= k < |gs| ==> gs[k] != [] && Constant(gs[k]))
    && (forall k :: 0 <= k < |gs| - 1 ==> gs[k][0] != gs[k + 1][0])
  }

  lemma {:induction false} ConcatSnoc(gs: seq<seq<Elem>>, g: seq<Elem>)
    ensures Concat(gs + [g]) == Concat(gs) + g
  {
    assert (gs + [g])[..|gs|] == gs;
  }

  /** Concatenating the first `k` groups gives a prefix of the concatenation of all. */
  lemma {:induction false} ConcatPrefix(gs: seq<seq<Elem>>, k: nat)
    requires k <= |gs|
    ensures Concat(gs[..k]) <= Concat(gs)
    decreases |gs|
  {
    if k < |gs| {
      var init := gs[..|gs| - 1];
      assert init[..k] == gs[..k];
      ConcatPrefix(init, k);
    } else {
      assert gs[..k] == gs;
    }
  }

  /** The number of elements at the end of the first `n` of `s` that equal the `n`-th. */
  function TrailingRun(s: seq<Elem>, n: nat): nat
    requires n <= |s|
  {
    if n == 0 then 0
    else if n >= 2 && s[n - 2] == s[n - 1] then 1 + TrailingRun(s, n - 1)
    else 1
  }

  /** A constant group that does not continue the element before it is the
      trailing run of the concatenation, already after its first `j` elements. */
  lemma {:induction false} TrailingRunOf(pre: seq<Elem>, g: seq<Elem>, j: nat)
    requires 0 < j <= |g| && Constant(g)
    requires pre != [] ==> pre[|pre| - 1] != g[0]
    ensures TrailingRun(pre + g, |pre| + j) == j
    decreases j
  {
    var s := pre + g;
    if j > 1 {
      assert s[|pre| + j - 2] == g[j - 2] && s[|pre| + j - 1] == g[j - 1];
      TrailingRunOf(pre, g, j - 1);
    } else if pre != [] {
      assert s[|pre| - 1] == pre[|pre| - 1] && s[|pre|] == g[0];
    }
  }

  /** Dropping the last group of a run partition leaves a run partition. */
  lemma {:induction false} PartitionInit(gs: seq<seq<Elem>>)
    requires IsRunPartition(gs) && gs != []
    ensures IsRunPartition(gs[..|gs| - 1])
  {
  }

  /** The last element of a concatenation is the last element of its last group. */
  lemma {:induction false} ConcatLast(gs: seq<seq<Elem>>)
    requires gs != [] && gs[|gs| - 1] != []
    ensures var s, g := Concat(gs), gs[|gs| - 1]; s != [] && s[|s| - 1] == g[|g| - 1]
  {
  }

  /** The last group of a run partition, seen from the partition's concatenation. */
  lemma {:induction false} LastRun(gs: seq<seq<Elem>>)
    requires IsRunPartition(gs) && gs != []
    ensures var s, g := Concat(gs), gs[|gs| - 1];
      && IsRunPartition(gs[..|gs| - 1])
      && s == Concat(gs[..|gs| - 1]) + g
      && TrailingRun(s, |s|) == |g|
  {
    PartitionInit(gs);
    var gi, g := gs[..|gs| - 1], gs[|gs| - 1];
    var pre := Concat(gi);
    assert Concat(gs) == pre + g;
    if gi != [] {
      ConcatLast(gi);
      var p := gi[|gi| - 1];
      assert p == gs[|gs| - 2];
      assert pre[|pre| - 1] == p[0];
    }
    TrailingRunOf(pre, g, |g|);
  }

  /** Two run partitions of the same sequence are the same partition. */
  lemma {:induction false} RunPartitionUnique(gs: seq<seq<Elem>>, hs: seq<seq<Elem>>)
    requires IsRunPartition(gs) && IsRunPartition(hs)
    requires Concat(gs) == Concat(hs)
    ensures gs == hs
    decreases |gs|
  {
    if gs != [] && hs != [] {
      LastRun(gs);
      LastRun(hs);
      var s := Concat(gs);
      var g, h := gs[|gs| - 1], hs[|hs| - 1];
      assert g == s[|s| - |g|..] == h;
      RunPartitionUnique(gs[..|gs| - 1], hs[..|hs| - 1]);
      assert gs == gs[..|gs| - 1] + [g] && hs == hs[..|hs| - 1] + [h];
    } else if gs != [] {
      LastRun(gs);
    } else if hs != [] {
      LastRun(hs);
    }
  }

  /** Adding an element equal to the last run extends that run. */
  lemma {:induction false} PartitionExtend(parts: seq<seq<Elem>>, buffer: seq<Elem>, e: Elem)
    requires IsRunPartition(parts + [buffer]) && buffer != [] && buffer[0] == e
    ensures IsRunPartition(parts + [buffer + [e]])
  {
    var before, after := parts + [buffer], parts + [buffer + [e]];
    assert before[|parts|] == buffer;
    forall t | 0 <= t < |after| ensures after[t] != [] && Constant(after[t]) {
      if t < |parts| { assert after[t] == before[t]; }
    }
    forall t | 0 <= t < |after| - 1 ensures after[t][0] != after[t + 1][0] {
      assert after[t] == before[t];
      assert after[t + 1][0] == before[t + 1][0];
    }
  }

  /** Adding an element different from the last run starts a new run. */
  lemma {:induction false} PartitionPush(parts: seq<seq<Elem>>, buffer: seq<Elem>, e: Elem)
    requires IsRunPartition(parts + [buffer]) && buffer != [] && buffer[0] != e
    ensures IsRunPartition((parts + [buffer]) + [[e]])
  {
    var before := parts + [buffer];
    assert before[|parts|] == buffer;
  }

  lemma {:induction false} CellsSnoc(s: string, k: nat)
    requires k < |s|
    ensures Cells(s[..k + 1]) == Cells(s[..k]) + [Chr(s[k])]
  {
  }

  /** The test at the heart of `yield_subgroups`: the two characters `str(i)`
      and `str(j)` concatenated form `"00"` or `"01"`. */
  predicate InactivePair(i: char, j: char)
  {
    [i, j] == "00" || [i, j] == "01"
  }

  /** Whether `yield_subgroups` appends the `k`-th character to the buffer
      (rather than yielding the buffer and starting a new one): the buffer's
      last element must be `"0"` after an inactive pair and `"1"` otherwise. */
  function Extends(group: string, k: nat, subgroup: seq<Elem>): bool
    requires k < |group| && subgroup != []
  {
    var i, j := group[k], if k + 1 < |group| then group[k + 1] else '0';
    if InactivePair(i, j) then subgroup[|subgroup| - 1] == Chr('0')
    else subgroup[|subgroup| - 1] == Chr('1')
  }

  /** The state of `yield_subgroups` after reading `k` characters: the seed
      group comes first, the yielded groups and the buffer together spell the
      characters read, and for a binary string they form a run partition. */
  ghost predicate YieldState(group: string, k: nat, yielded: seq<seq<Elem>>, subgroup: seq<Elem>)
    requires k <= |group|
  {
    && (k == 0 ==> yielded == [] && subgroup == [Num(0)])
    && (k > 0 ==>
          && |yielded| >= 1 && yielded[0] == [Num(0)]
          && subgroup != [] && subgroup[|subgroup| - 1] == Chr(group[k - 1])
          && Concat(yielded[1..]) + subgroup == Cells(group[..k]))
    && (forall t :: 1 <= t < |yielded| ==> yielded[t] != [])
    && (IsBinary(group) && k > 0 ==> IsRunPartition(yielded[1..] + [subgroup]))
  }

  /** The groups spell the characters read after one more step. */
  lemma {:induction false} YieldStepConcat(group: string, k: nat, yielded: seq<seq<Elem>>, subgroup: seq<Elem>)
    requires 0 < k < |group| && |yielded| >= 1 && subgroup != []
    requires Concat(yielded[1..]) + subgroup == Cells(group[..k])
    ensures Concat(yielded[1..]) + (subgroup + [Chr(group[k])]) == Cells(group[..k + 1])
    ensures Concat((yielded + [subgroup])[1..]) + [Chr(group[k])] == Cells(group[..k + 1])
  {
    var parts := yielded[1..];
    CellsSnoc(group, k);
    assert (yielded + [subgroup])[1..] == parts + [subgroup];
    ConcatSnoc(parts, subgroup);
  }

  /** For a binary string the groups stay a run partition after one more step. */
  lemma {:induction false} YieldStepPartition(group: string, k: nat, yielded: seq<seq<Elem>>, subgroup: seq<Elem>)
    requires IsBinary(group) && 0 < k < |group| && |yielded| >= 1 && subgroup != []
    requires subgroup[|subgroup| - 1] == Chr(group[k - 1])
    requires IsRunPartition(yielded[1..] + [subgroup])
    ensures Extends(group, k, subgroup) ==> IsRunPartition(yielded[1..] + [subgroup + [Chr(group[k])]])
    ensures !Extends(group, k, subgroup) ==> IsRunPartition((yielded + [subgroup])[1..] + [[Chr(group[k])]])
  {
    var parts, e := yielded[1..], Chr(group[k]);
    var j := if k + 1 < |group| then group[k + 1] else '0';
    assert InactivePair(group[k], j) <==> group[k] == '0';
    assert (parts + [subgroup])[|parts|] == subgroup;
    assert subgroup[0] == subgroup[|subgroup| - 1];
    if Extends(group, k, subgroup) {
      PartitionExtend(parts, subgroup, e);
    } else {
      assert (yielded + [subgroup])[1..] == parts + [subgroup];
      PartitionPush(parts, subgroup, e);
    }
  }

  /** After the last character the buffer is yielded too. */
  lemma {:induction false} YieldFinish(group: string, yielded: seq<seq<Elem>>, subgroup: seq<Elem>)
    requires YieldState(group, |group|, yielded, subgroup) && subgroup != []
    ensures var all := yielded + [subgroup];
      && |all| >= 1 && all[0] == [Num(0)]
      && (|all| == 1 <==> group == [])
      && (forall t :: 1 <= t < |all| ==> all[t] != [])
      && Concat(all[1..]) == Cells(group)
      && (IsBinary(group) ==> IsRunPartition(all[1..]))
  {
    var all := yielded + [subgroup];
    if group != [] {
      assert all[1..] == yielded[1..] + [subgroup];
      ConcatSnoc(yielded[1..], subgroup);
      assert group[..|group|] == group;
    }
  }

  /** One step of `yield_subgroups` keeps its state: `yielded1` and
      `subgroup1` are what the step makes of `yielded0` and `subgroup0`. */
  lemma {:induction false} YieldStep(group: string, k: nat, yielded0: seq<seq<Elem>>, subgroup0: seq<Elem>,
                                     yielded1: seq<seq<Elem>>, subgroup1: seq<Elem>)
    requires k < |group| && YieldState(group, k, yielded0, subgroup0) && subgroup0 != []
    requires Extends(group, k, subgroup0) ==> yielded1 == yielded0 && subgroup1 == subgroup0 + [Chr(group[k])]
    requires !Extends(group, k, subgroup0) ==> yielded1 == yielded0 + [subgroup0] && subgroup1 == [Chr(group[k])]
    ensures YieldState(group, k + 1, yielded1, subgroup1) && subgroup1 != []
  {
    if k == 0 {
      CellsSnoc(group, 0);
      assert !Extends(group, k, subgroup0);
      assert (yielded0 + [subgroup0])[1..] == [];
    } else {
      YieldStepConcat(group, k, yielded0, subgroup0);
      if IsBinary(group) {
        YieldStepPartition(group, k, yielded0, subgroup0);
      }
    }
  }

  /** `yield_subgroups(group, lambda i, j: i + j)`, with every yielded list
      collected. `zip_longest` pairs each character with its successor, and the
      last one with the fill value `0`, whose `str` is `"0"`. */
  method YieldSubgroups(group: string) returns (yielded: seq<seq<Elem>>)
    ensures |yielded| >= 1 && yielded[0] == [Num(0)]
    ensures |yielded| == 1 <==> group == []
    ensures forall k :: 1 <= k < |yielded| ==> yielded[k] != []
    ensures Concat(yielded[1..]) == Cells(group)
    ensures IsBinary(group) ==> IsRunPartition(yielded[1..])
  {
    var subgroup: seq<Elem> := [Num(0)];
    yielded := [];
    var k := 0;
    while k < |group|
      invariant 0 <= k <= |group| && subgroup != []
      invariant YieldState(group, k, yielded, subgroup)
    {
      var i := group[k];
      var j := if k + 1 < |group| then group[k + 1] else '0';
      ghost var yielded0, subgroup0 := yielded, subgroup;
      var extend: bool;
      if InactivePair(i, j) {
        extend := subgroup[|subgroup| - 1] == Chr('0');
      } else {
        extend := subgroup[|subgroup| - 1] == Chr('1');
      }
      if extend {
        subgroup := subgroup + [Chr(i)];
      } else {
        yielded := yielded + [subgroup];
        subgroup := [Chr(i)];
      }
      YieldStep(group, k, yielded0, subgroup0, yielded, subgroup);
      k := k + 1;
    }
    YieldFinish(group, yielded, subgroup);
    yielded := yielded + [subgroup];
  }

  /** `int(i)` for a one-character digit string. */
  function DigitValue(e: Elem): int
    requires e.Chr? && '0' <= e.c <= '9'
  {
    e.c as int - '0' as int
  }

  predicate AllDigits(g: seq<Elem>)
  {
    forall i :: 0 <= i < |g| ==> g[i].Chr? && '0' <= g[i].c <= '9'
  }

  /** `sum([int(i) for i in g])`. */
  function DigitSum(g: seq<Elem>): int
    requires AllDigits(g)
  {
    if g == [] then 0 else DigitValue(g[0]) + DigitSum(g[1..])
  }

  /** A constant group of zero digits sums to 0; one of one digits to its length. */
  lemma {:induction false} DigitSumConstant(g: seq<Elem>)
    requires Constant(g) && (forall i :: 0 <= i < |g| ==> g[i] == Chr('0') || g[i] == Chr('1'))
    ensures AllDigits(g)
    ensures g != [] && g[0] == Chr('0') ==> DigitSum(g) == 0
    ensures g != [] && g[0] == Chr('1') ==> DigitSum(g) == |g|
  {
    if g != [] {
      assert Constant(g[1..]);
      DigitSumConstant(g[1..]);
      if |g| > 1 { assert g[1..][0] == g[0]; }
    }
  }

  /** The grouping result for the first `n` lines of a binary marker string,
      built one line at a time: a `'0'` adds its bare index, a `'1'` after a
      `'1'` extends the last list, and any other `'1'` starts a new list. */
  function Grouped(x: string, n: nat): (r: seq<Item>)
    requires IsBinary(x) && n <= |x|
    ensures |r| == 0 <==> n == 0
    ensures n > 0 ==> (r[|r| - 1].Run? <==> x[n - 1] == '1')
    decreases n
  {
    if n == 0 then []
    else
      var r := Grouped(x, n - 1);
      if x[n - 1] == '0' then r + [Single(n - 1)]
      else if n > 1 && x[n - 2] == '1' then r[..|r| - 1] + [Run(r[|r| - 1].indices + [n - 1])]
      else r + [Run([n - 1])]
  }

  /** The grouping result for the whole marker string. */
  function BinToList(x: string): seq<Item>
    requires IsBinary(x)
  {
    Grouped(x, |x|)
  }

  /** A `'0'` line adds its bare index. */
  lemma {:induction false} GroupedZero(x: string, n: nat)
    requires IsBinary(x) && n < |x| && x[n] == '0'
    ensures Grouped(x, n + 1) == Grouped(x, n) + [Single(n)]
  {
  }

  /** A run of `m` ones starting at `c` after a `'0'` (or at the start)
      appends one list of its positions. */
  lemma {:induction false} GroupedOnes(x: string, c: nat, m: nat)
    requires IsBinary(x) && 1 <= m && c + m <= |x|
    requires forall j :: c <= j < c + m ==> x[j] == '1'
    requires c == 0 || x[c - 1] == '0'
    ensures Grouped(x, c + m) == Grouped(x, c) + [Run(Range(c, c + m))]
  {
    if m == 1 {
      RangeOne(c);
    } else {
      GroupedOnes(x, c, m - 1);
      var r := Grouped(x, c + m - 1);
      assert r == Grouped(x, c) + [Run(Range(c, c + m - 1))];
      assert r[..|r| - 1] == Grouped(x, c);
      assert r[|r| - 1].indices == Range(c, c + m - 1);
      RangeSnoc(c, c + m - 1);
    }
  }

  /** The `k`-th group of a run partition of a binary string, located in the
      string: it covers the positions right after the earlier groups, which all
      hold the same character, different from the one before them. */
  lemma {:induction false} GroupInInput(gl: seq<seq<Elem>>, x: string, k: nat)
    requires IsBinary(x) && IsRunPartition(gl) && Concat(gl) == Cells(x) && k < |gl|
    ensures var c, g := |Concat(gl[..k])|, gl[k];
      && c + |g| <= |x|
      && |Concat(gl[..k + 1])| == c + |g|
      && g != [] && Constant(g) && (g[0] == Chr('0') || g[0] == Chr('1'))
      && (forall p :: c <= p < c + |g| ==> Chr(x[p]) == g[0])
      && (k > 0 ==> c > 0 && x[c - 1] != x[c])
  {
    var g := gl[k];
    ConcatPrefix(gl, k + 1);
    assert gl[..k + 1] == gl[..k] + [g];
    ConcatSnoc(gl[..k], g);
    var pre := Concat(gl[..k]);
    var c := |pre|;
    assert pre + g <= Cells(x);
    forall j | 0 <= j < |g| ensures g[j] == Chr(x[c + j]) {
      assert (pre + g)[c + j] == g[j];
    }
    forall p | c <= p < c + |g| ensures Chr(x[p]) == g[0] {
      assert g[p - c] == g[0];
    }
    if k > 0 {
      var h := gl[k - 1];
      assert gl[..k] == gl[..k - 1] + [h];
      ConcatSnoc(gl[..k - 1], h);
      assert pre[c - 1] == h[|h| - 1] == h[0];
      assert (pre + g)[c - 1] == pre[c - 1];
      assert h[0] != g[0];
    }
  }

  /** Group `g` of digit characters sits at positions `c` to `c + |g|` of `x`:
      a group summing to zero covers lines holding `'0'`, any other group
      covers lines holding `'1'` that do not continue a run of ones. */
  predicate GroupFits(x: string, c: nat, g: seq<Elem>)
  {
    && 0 < |g| && c + |g| <= |x| && AllDigits(g)
    && (DigitSum(g) == 0 ==> forall p :: c <= p < c + |g| ==> x[p] == '0')
    && (DigitSum(g) != 0 ==> (forall p :: c <= p < c + |g| ==> x[p] == '1') && (c == 0 || x[c - 1] == '0'))
  }

  /** A constant group of `'0'` or `'1'` characters read from positions `c`
      onwards, and not continuing a run of ones before `c`, fits the input. */
  lemma {:induction false} GroupFitsAt(x: string, c: nat, g: seq<Elem>)
    requires g != [] && Constant(g) && c + |g| <= |x|
    requires g[0] == Chr('0') || g[0] == Chr('1')
    requires forall p :: c <= p < c + |g| ==> Chr(x[p]) == g[0]
    requires g[0] == Chr('1') ==> c == 0 || x[c - 1] == '0'
    ensures GroupFits(x, c, g)
  {
    DigitSumConstant(g);
    if g[0] == Chr('1') {
      assert DigitSum(g) != 0;
      forall j | c <= j < c + |g| ensures x[j] == '1' {
        assert Chr(x[j]) == Chr('1');
      }
    } else {
      assert DigitSum(g) == 0;
      forall p | c <= p < c + |g| ensures x[p] == '0' {
        assert Chr(x[p]) == Chr('0');
      }
    }
  }

  /** Every group of the partition fits the input after the groups before it. */
  lemma {:induction false} GroupStep(gl: seq<seq<Elem>>, x: string, k: nat)
    requires IsBinary(x) && IsRunPartition(gl) && Concat(gl) == Cells(x) && k < |gl|
    ensures GroupFits(x, |Concat(gl[..k])|, gl[k])
    ensures |Concat(gl[..k + 1])| == |Concat(gl[..k])| + |gl[k]|
  {
    var c, g := |Concat(gl[..k])|, gl[k];
    GroupInInput(gl, x, k);
    if g[0] == Chr('1') {
      assert Chr(x[c]) == g[0];
    }
    GroupFitsAt(x, c, g);
  }

  /** A group of zeros that fits the input covers lines marked `'0'`. */
  lemma {:induction false} ZerosFit(x: string, c: nat, g: seq<Elem>)
    requires GroupFits(x, c, g) && DigitSum(g) == 0
    ensures c + |g| <= |x| && forall p :: c <= p < c + |g| ==> x[p] == '0'
  {
  }

  /** A group of ones that fits the input covers lines marked `'1'` that
      follow a `'0'` line or the start. */
  lemma {:induction false} OnesFit(x: string, c: nat, g: seq<Elem>)
    requires GroupFits(x, c, g) && DigitSum(g) != 0
    ensures 1 <= |g| && c + |g| <= |x| && forall p :: c <= p < c + |g| ==> x[p] == '1'
    ensures c == 0 || x[c - 1] == '0'
  {
  }

  /** Such a run of `m` ones adds one list of its line indices, the last of
      which is the line before the next group. */
  lemma {:induction false} OnesAppend(x: string, c: nat, m: nat)
    requires IsBinary(x) && 1 <= m && c + m <= |x|
    requires forall j :: c <= j < c + m ==> x[j] == '1'
    requires c == 0 || x[c - 1] == '0'
    ensures var run := Range(c, c + m);
      && Grouped(x, c + m) == Grouped(x, c) + [Run(run)]
      && |run| == m && run[m - 1] + 1 == c + m
  {
    GroupedOnes(x, c, m);
    RangeLast(c, c + m);
  }

  /** One pass of `from_bin_to_list`'s loop: a group of zeros adds one bare
      index per line, a group of ones one list of its line indices, and the
      counter moves past the group. */
  method NumberGroup(x: string, value2: seq<Elem>, list0: seq<Item>, counter0: nat)
    returns (list01: seq<Item>, counter: nat)
    requires IsBinary(x) && GroupFits(x, counter0, value2) && list0 == Grouped(x, counter0)
    ensures counter == counter0 + |value2| && list01 == Grouped(x, counter)
  {
    list01, counter := list0, counter0;
    var len := |value2|;
    if DigitSum(value2) == 0 {
      ZerosFit(x, counter, value2);
      var j := 0;
      while j < len
        invariant 0 <= j <= len
        invariant counter == counter0 + j
        invariant list01 == Grouped(x, counter)
      {
        GroupedZero(x, counter);
        list01 := list01 + [Single(counter)];
        counter := counter + 1;
        j := j + 1;
      }
    } else {
      OnesFit(x, counter, value2);
      OnesAppend(x, counter, len);
      var run := Range(counter, counter + len);
      list01 := list01 + [Run(run)];
      counter := run[len - 1] + 1;
      assert list01 == Grouped(x, counter0 + len);
    }
  }

  /** `from_bin_to_list`: runs `yield_subgroups`, drops its seed group, and
      numbers the lines of each run with a running counter. */
  method FromBinToList(x: string) returns (list01: seq<Item>)
    requires IsBinary(x)
    ensures list01 == BinToList(x)
    ensures Flatten(list01) == Range(0, |x|)
  {
    var groups := YieldSubgroups(x);
    var groupList := groups[1..];
    list01 := [];
    var counter := 0;
    var k := 0;
    while k < |groupList|
      invariant 0 <= k <= |groupList|
      invariant counter == |Concat(groupList[..k])| <= |x|
      invariant list01 == Grouped(x, counter)
    {
      GroupStep(groupList, x, k);
      list01, counter := NumberGroup(x, groupList[k], list01, counter);
      k := k + 1;
    }
    assert groupList[..k] == groupList;
    GroupedFlattens(x, |x|);
  }

  /** Taking in one more line adds exactly its index to the flattened result. */
  lemma {:induction false} GroupedFlattenStep(x: string, n: nat)
    requires IsBinary(x) && 0 < n <= |x|
    ensures Flatten(Grouped(x, n)) == Flatten(Grouped(x, n - 1)) + [n - 1]
  {
    var r := Grouped(x, n - 1);
    if x[n - 1] == '1' && n > 1 && x[n - 2] == '1' {
      var init, ps := r[..|r| - 1], r[|r| - 1].indices;
      assert r == init + [Run(ps)];
      FlattenSnoc(init, Run(ps));
      FlattenSnoc(init, Run(ps + [n - 1]));
    } else {
      var it := if x[n - 1] == '0' then Single(n - 1) else Run([n - 1]);
      FlattenSnoc(r, it);
    }
  }

  /** Flattening the result gives 0, 1, ..., n - 1, each once and in order. */
  lemma {:induction false} GroupedFlattens(x: string, n: nat)
    requires IsBinary(x) && n <= |x|
    ensures Flatten(Grouped(x, n)) == Range(0, n)
    decreases n
  {
    if n > 0 {
      GroupedFlattens(x, n - 1);
      GroupedFlattenStep(x, n);
      RangeSnoc(0, n - 1);
    }
  }

  /** `[lo, hi)` is a maximal run of `'1'` lines among the first `n` lines. */
  predicate IsOneRun(x: string, n: nat, lo: int, hi: int)
    requires n <= |x|
  {
    && 0 <= lo < hi <= n
    && (forall j :: lo <= j < hi ==> x[j] == '1')
    && (lo == 0 || x[lo - 1] == '0')
    && (hi == n || x[hi] == '0')
  }

  /** A bare index is a `'0'` line; a list is exactly the positions of a
      maximal run of `'1'` lines (among the first `n`). */
  predicate Describes(x: string, n: nat, it: Item)
    requires n <= |x|
  {
    match it
    case Single(p) => 0 <= p < n && x[p] == '0'
    case Run(ps) => |ps| > 0 && ps == Range(ps[0], ps[0] + |ps|) && IsOneRun(x, n, ps[0], ps[0] + |ps|)
  }

  /** The largest index an item holds. */
  function Last(it: Item): int
  {
    match it
    case Single(p) => p
    case Run(ps) => if ps == [] then -1 else ps[|ps| - 1]
  }

  /** Every item describes the first `n` lines (a `'0'` line or a whole
      maximal run of `'1'` lines), no two lists are neighbours, and the items
      end in increasing order with the last one at line `n - 1`. */
  predicate WellShaped(x: string, n: nat, r: seq<Item>)
    requires n <= |x|
  {
    && (forall t :: 0 <= t < |r| ==> Describes(x, n, r[t]))
    && (forall t :: 0 <= t < |r| - 1 ==> !(r[t].Run? && r[t + 1].Run?))
    && (forall t :: 0 <= t < |r| - 1 ==> Last(r[t]) < n - 1)
    && (|r| > 0 ==> Last(r[|r| - 1]) == n - 1)
  }

  /** An item keeps describing the lines when one more is taken in, unless it
      is a list reaching the end and the new line is not a `'0'`. */
  lemma {:induction false} DescribesGrow(x: string, n: nat, it: Item)
    requires n < |x| && Describes(x, n, it)
    requires it.Run? && Last(it) == n - 1 ==> x[n] == '0'
    ensures Describes(x, n + 1, it)
  {
    if it.Run? {
      var ps := it.indices;
      assert ps[|ps| - 1] == ps[0] + |ps| - 1;
    }
  }

  /** A list describing the lines ends at a `'1'` line right after its first
      index plus its length. */
  lemma {:induction false} RunLast(x: string, n: nat, it: Item)
    requires n <= |x| && Describes(x, n, it) && it.Run?
    ensures Last(it) == it.indices[0] + |it.indices| - 1 < n
    ensures x[Last(it)] == '1'
  {
    var ps := it.indices;
    RangeAt(ps[0], ps[0] + |ps|);
  }

  /** The item a `'0'` line, or a `'1'` line that starts a new list, appends. */
  predicate Appends(x: string, m: nat, it: Item)
    requires m < |x|
  {
    || (x[m] == '0' && it == Single(m))
    || (x[m] == '1' && (m == 0 || x[m - 1] == '0') && it == Run([m]))
  }

  /** An item keeps describing the lines when the next line is a `'0'` or
      follows a `'0'`. */
  lemma {:induction false} KeepDescribes(x: string, m: nat, it: Item)
    requires m < |x| && Describes(x, m, it)
    requires x[m] != '0' ==> m == 0 || x[m - 1] == '0'
    ensures Describes(x, m + 1, it)
  {
    if it.Run? {
      RunLast(x, m, it);
    }
    DescribesGrow(x, m, it);
  }

  /** After such a line every item still describes the lines. */
  lemma {:induction false} AppendDescribes(x: string, m: nat, r: seq<Item>, it: Item)
    requires m < |x| && WellShaped(x, m, r) && Appends(x, m, it)
    ensures forall t :: 0 <= t < |r + [it]| ==> Describes(x, m + 1, (r + [it])[t])
  {
    var r' := r + [it];
    forall t | 0 <= t < |r'| ensures Describes(x, m + 1, r'[t]) {
      if t < |r| {
        assert r'[t] == r[t];
        KeepDescribes(x, m, r[t]);
      } else {
        NewItemDescribes(x, m, it);
      }
    }
  }

  /** The item such a line appends describes the lines up to it. */
  lemma {:induction false} NewItemDescribes(x: string, m: nat, it: Item)
    requires m < |x| && Appends(x, m, it)
    ensures Describes(x, m + 1, it)
  {
    RangeOne(m);
  }

  /** After such a line no two lists are neighbours and the items end in order. */
  lemma {:induction false} AppendOrder(x: string, m: nat, r: seq<Item>, it: Item)
    requires m < |x| && WellShaped(x, m, r) && Appends(x, m, it)
    ensures forall t :: 0 <= t < |r + [it]| - 1 ==> !((r + [it])[t].Run? && (r + [it])[t + 1].Run?)
    ensures forall t :: 0 <= t < |r + [it]| - 1 ==> Last((r + [it])[t]) < m
    ensures Last(it) == m
  {
    var r' := r + [it];
    if r != [] && r[|r| - 1].Run? {
      RunLast(x, m, r[|r| - 1]);
    }
    forall t | 0 <= t < |r'| - 1 ensures !(r'[t].Run? && r'[t + 1].Run?) {
      if t < |r| - 1 {
        assert r'[t] == r[t] && r'[t + 1] == r[t + 1];
      }
    }
    forall t | 0 <= t < |r'| - 1 ensures Last(r'[t]) < m {
      assert r'[t] == r[t];
    }
  }

  /** Taking in a `'0'` line, or a `'1'` line that starts a new list, appends
      one item to a well-shaped result and keeps it well shaped. */
  lemma {:induction false} ShapeAppend(x: string, m: nat, it: Item)
    requires IsBinary(x) && m < |x| && WellShaped(x, m, Grouped(x, m)) && Appends(x, m, it)
    ensures WellShaped(x, m + 1, Grouped(x, m) + [it])
  {
    AppendDescribes(x, m, Grouped(x, m), it);
    AppendOrder(x, m, Grouped(x, m), it);
  }

  /** The result for the first `n` lines is well shaped. */
  lemma {:induction false} GroupedShape(x: string, n: nat)
    requires IsBinary(x) && n <= |x|
    ensures WellShaped(x, n, Grouped(x, n))
    decreases n
  {
    if n > 0 {
      var m := n - 1;
      GroupedShape(x, m);
      if x[m] == '0' {
        ShapeAppend(x, m, Single(m));
      } else if m > 0 && x[m - 1] == '1' {
        ShapeExtend(x, m);
      } else {
        ShapeAppend(x, m, Run([m]));
      }
    }
  }

  /** A `'1'` line after a `'1'` line extends the last list. */
  lemma {:induction false} ShapeExtend(x: string, m: nat)
    requires IsBinary(x) && 0 < m < |x| && x[m] == '1' && x[m - 1] == '1'
    requires WellShaped(x, m, Grouped(x, m))
    ensures WellShaped(x, m + 1, Grouped(x, m + 1))
  {
    var r := Grouped(x, m);
    var r' := Grouped(x, m + 1);
    var ps := r[|r| - 1].indices;
    assert r' == r[..|r| - 1] + [Run(ps + [m])];
    ExtendLast(x, m, ps);
    forall t | 0 <= t < |r| - 1 ensures Describes(x, m + 1, r'[t]) {
      assert r'[t] == r[t];
      DescribesGrow(x, m, r[t]);
    }
  }

  /** The list ending at the line before a `'1'` line grows by that line. */
  lemma {:induction false} ExtendLast(x: string, m: nat, ps: seq<int>)
    requires m < |x| && x[m] == '1' && Describes(x, m, Run(ps)) && Last(Run(ps)) == m - 1
    ensures Describes(x, m + 1, Run(ps + [m])) && Last(Run(ps + [m])) == m
  {
    var lo := ps[0];
    RunLast(x, m, Run(ps));
    RangeSnoc(lo, m);
    assert (ps + [m])[0] == lo;
  }

  /** The result for the whole string is well shaped. */
  lemma {:induction false} BinToListShape(x: string)
    requires IsBinary(x)
    ensures WellShaped(x, |x|, BinToList(x))
  {
    GroupedShape(x, |x|);
  }

  /** A string of zeros gives one bare index per line. */
  lemma {:induction false} GroupedAllZeros(x: string, n: nat)
    requires n <= |x| && forall i :: 0 <= i < |x| ==> x[i] == '0'
    ensures IsBinary(x)
    ensures Grouped(x, n) == seq(n, i => Single(i))
    decreases n
  {
    if n > 0 {
      GroupedAllZeros(x, n - 1);
      assert seq(n, i => Single(i)) == seq(n - 1, i => Single(i)) + [Single(n - 1)];
    }
  }

  /** A non-empty string of ones gives one list of all line indices. */
  lemma {:induction false} BinToListAllOnes(x: string)
    requires |x| >= 1 && forall i :: 0 <= i < |x| ==> x[i] == '1'
    ensures IsBinary(x)
    ensures BinToList(x) == [Run(Range(0, |x|))]
  {
    GroupedOnes(x, 0, |x|);
  }

  /** `range(2, 5)`, written out. */
  lemma {:induction false} RangeTwoFive()
    ensures Range(2, 5) == [2, 3, 4]
  {
    RangeOne(2);
    RangeSnoc(2, 3);
    RangeSnoc(2, 4);
    assert Range(2, 4) == [2, 3];
  }

  /** The marker string of `from_bin_to_list`'s documentation, `"001110101"`,
      described line by line. */
  predicate DocExampleLines(x: string)
  {
    && |x| == 9
    && x[0] == '0' && x[1] == '0' && x[2] == '1' && x[3] == '1' && x[4] == '1'
    && x[5] == '0' && x[6] == '1' && x[7] == '0' && x[8] == '1'
  }

  /** The example's first two lines are bare indices. */
  lemma {:induction false} DocExampleZeros(x: string)
    requires DocExampleLines(x)
    ensures IsBinary(x) && Grouped(x, 2) == [Single(0), Single(1)]
  {
    assert IsBinary(x);
    GroupedZero(x, 0);
    assert Grouped(x, 1) == [Single(0)];
    GroupedZero(x, 1);
  }

  /** The example's lines 2 to 4 form one list. */
  lemma {:induction false} DocExampleOnes(x: string)
    requires DocExampleLines(x)
    ensures IsBinary(x) && Grouped(x, 5) == Grouped(x, 2) + [Run([2, 3, 4])]
  {
    DocExampleZeros(x);
    GroupedOnes(x, 2, 3);
    RangeTwoFive();
  }

  /** The first six lines of the example. */
  lemma {:induction false} DocExamplePrefix(x: string)
    requires DocExampleLines(x)
    ensures IsBinary(x)
    ensures Grouped(x, 6) == [Single(0), Single(1), Run([2, 3, 4]), Single(5)]
  {
    DocExampleZeros(x);
    DocExampleOnes(x);
    GroupedZero(x, 5);
  }

  /** The whole example: after line 5 each `'1'` follows a `'0'` and starts a
      list of its own. */
  lemma {:induction false} DocExampleGrouping(x: string)
    requires DocExampleLines(x)
    ensures IsBinary(x)
    ensures BinToList(x) == [Single(0), Single(1), Run([2, 3, 4]), Single(5), Run([6]), Single(7), Run([8])]
  {
    DocExamplePrefix(x);
    GroupedOnes(x, 6, 1);
    RangeOne(6);
    GroupedZero(x, 7);
    GroupedOnes(x, 8, 1);
    RangeOne(8);
  }

  /** The example of `from_bin_to_list`'s documentation. */
  lemma {:induction false} BinToListDocExample()
    ensures IsBinary("001110101")
    ensures BinToList("001110101")
         == [Single(0), Single(1), Run([2, 3, 4]), Single(5), Run([6]), Single(7), Run([8])]
  {
    DocExampleGrouping("001110101");
  }

  /** The one-line strings: a single `'1'` line still becomes a list. */
  lemma {:induction false} BinToListOneLine()
    ensures BinToList("0") == [Single(0)] && BinToList("1") == [Run([0])]
  {
    GroupedZero("0", 0);
    GroupedOnes("1", 0, 1);
    RangeOne(0);
  }
}
