/**
  Removal of excess closing braces from a line of JavaScript before it is
  translated (`delete_brackets`). The string is read left to right with a
  counter of open braces; a `}` that would take the counter below zero is
  dropped and the counter restarts at zero.
*/
module Braces {

  /** How a character moves the brace counter. */
  function Step(ch: char): int
  {
    if ch == '{' then 1 else if ch == '}' then -1 else 0
  }

  /** Open braces minus closing braces in `s`. */
  function Depth(s: string): int
  {
    if s == [] then 0 else Depth(s[..|s| - 1]) + Step(s[|s| - 1])
  }

  /** No prefix of `s` closes more braces than it opened. */
  predicate NeverNegative(s: string)
  {
    forall i :: 0 <= i <= |s| ==> Depth(s[..i]) >= 0
  }

  /** `y` is `x` with some of its `}` characters deleted and nothing else changed. */
  predicate DeletesCloses(x: string, y: string)
    decreases |x|
  {
    if x == [] then y == []
    else
      || (y != [] && y[|y| - 1] == x[|x| - 1] && DeletesCloses(x[..|x| - 1], y[..|y| - 1]))
      || (x[|x| - 1] == '}' && DeletesCloses(x[..|x| - 1], y))
  }

  /** What the scan has produced after some characters: the kept text and the counter. */
  datatype Scanned = Scanned(kept: string, depth: nat)

  /** The scan over the first `n` characters of `x`. */
  function Scan(x: string, n: nat): Scanned
    requires n <= |x|
    decreases n
  {
    if n == 0 then Scanned("", 0)
    else
      var prev := Scan(x, n - 1);
      var d := prev.depth + Step(x[n - 1]);
      if d >= 0 then Scanned(prev.kept + [x[n - 1]], d) else Scanned(prev.kept, 0)
  }

  /** The result of `delete_brackets`. */
  function Balance(x: string): string
  {
    Scan(x, |x|).kept
  }

  /** `delete_brackets`. */
  method DeleteBrackets(x: string) returns (newstring: string)
    ensures newstring == Balance(x)
  {
    var counter := 0;
    newstring := "";
    var k := 0;
    while k < |x|
      invariant 0 <= k <= |x|
      invariant newstring == Scan(x, k).kept && counter == Scan(x, k).depth
    {
      var ch := x[k];
      if ch == '{' {
        counter := counter + 1;
      } else if ch == '}' {
        counter := counter - 1;
      }
      if counter >= 0 {
        newstring := newstring + [ch];
      } else {
        counter := 0;
      }
      k := k + 1;
    }
  }

  /** Appending one character adds its step to the depth and keeps earlier prefixes. */
  lemma {:induction false} DepthSnoc(s: string, ch: char)
    ensures Depth(s + [ch]) == Depth(s) + Step(ch)
    ensures forall i :: 0 <= i <= |s| ==> (s + [ch])[..i] == s[..i]
  {
    assert (s + [ch])[..|s|] == s;
  }

  /** The counter of the scan is the depth of what it kept. */
  lemma {:induction false} ScanDepth(x: string, n: nat)
    requires n <= |x|
    ensures Scan(x, n).depth == Depth(Scan(x, n).kept)
  {
    if n > 0 {
      ScanDepth(x, n - 1);
      DepthSnoc(Scan(x, n - 1).kept, x[n - 1]);
    }
  }

  /** What the scan keeps never goes below zero. */
  lemma {:induction false} ScanNeverNegative(x: string, n: nat)
    requires n <= |x|
    ensures NeverNegative(Scan(x, n).kept)
  {
    if n > 0 {
      ScanNeverNegative(x, n - 1);
      ScanDepth(x, n - 1);
      var prev := Scan(x, n - 1);
      if prev.depth + Step(x[n - 1]) >= 0 {
        NeverNegativeSnoc(prev.kept, x[n - 1]);
      }
    }
  }

  /** A character that keeps the depth at or above zero keeps a string that
      never goes below zero so. */
  lemma {:induction false} NeverNegativeSnoc(s: string, ch: char)
    requires NeverNegative(s) && Depth(s) + Step(ch) >= 0
    ensures NeverNegative(s + [ch])
  {
    var t := s + [ch];
    DepthSnoc(s, ch);
    forall i | 0 <= i <= |t| ensures Depth(t[..i]) >= 0 {
      if i == |t| {
        assert t[..i] == t;
      }
    }
  }

  /** What the scan keeps is what it read with some closing braces deleted. */
  lemma {:induction false} ScanDeletesCloses(x: string, n: nat)
    requires n <= |x|
    ensures DeletesCloses(x[..n], Scan(x, n).kept)
  {
    if n > 0 {
      ScanDeletesCloses(x, n - 1);
      var prev := Scan(x, n - 1);
      assert x[..n][..n - 1] == x[..n - 1];
      if prev.depth + Step(x[n - 1]) >= 0 {
        var t := prev.kept + [x[n - 1]];
        assert t[..|t| - 1] == prev.kept;
      }
    }
  }

  /** The output is balanced in the sense that no prefix closes a brace it did not open. */
  lemma {:induction false} BalanceNeverNegative(x: string)
    ensures NeverNegative(Balance(x))
    ensures Depth(Balance(x)) >= 0
  {
    ScanNeverNegative(x, |x|);
    assert Balance(x)[..|Balance(x)|] == Balance(x);
  }

  /** The output is the input with some closing braces deleted. */
  lemma {:induction false} BalanceDeletesCloses(x: string)
    ensures DeletesCloses(x, Balance(x))
  {
    ScanDeletesCloses(x, |x|);
    assert x[..|x|] == x;
  }

  /** Deleting closing braces never lengthens a string and never changes its
      other characters: the open braces are all still there. */
  lemma {:induction false} DeletesClosesCounts(x: string, y: string)
    requires DeletesCloses(x, y)
    ensures |y| <= |x|
    ensures Depth(y) >= Depth(x)
    ensures |x| - |y| == Depth(y) - Depth(x)
    decreases |x|
  {
    if x != [] {
      var x0 := x[..|x| - 1];
      if y != [] && y[|y| - 1] == x[|x| - 1] && DeletesCloses(x0, y[..|y| - 1]) {
        DeletesClosesCounts(x0, y[..|y| - 1]);
      } else {
        DeletesClosesCounts(x0, y);
      }
    }
  }

  /** A scan over a string that never goes below zero keeps everything. */
  lemma {:induction false} ScanKeepsNeverNegative(x: string, n: nat)
    requires n <= |x| && NeverNegative(x)
    ensures Scan(x, n) == Scanned(x[..n], Depth(x[..n]))
  {
    if n > 0 {
      ScanKeepsNeverNegative(x, n - 1);
      assert Depth(x[..n]) >= 0;
      ScanKeepsStep(x, n);
    }
  }

  /** One step of the scan over a prefix that never went below zero. */
  lemma {:induction false} ScanKeepsStep(x: string, n: nat)
    requires 0 < n <= |x| && Depth(x[..n - 1]) >= 0 && Scan(x, n - 1) == Scanned(x[..n - 1], Depth(x[..n - 1]))
    requires Depth(x[..n]) >= 0
    ensures Scan(x, n) == Scanned(x[..n], Depth(x[..n]))
  {
    assert x[..n] == x[..n - 1] + [x[n - 1]];
    DepthSnoc(x[..n - 1], x[n - 1]);
  }

  /** A string is left unchanged exactly when no prefix of it closes more
      braces than it opened. */
  lemma {:induction false} BalanceFixedPoints(x: string)
    ensures Balance(x) == x <==> NeverNegative(x)
  {
    if NeverNegative(x) {
      ScanKeepsNeverNegative(x, |x|);
      assert x[..|x|] == x;
    }
    BalanceNeverNegative(x);
  }

  /** Removing excess braces twice removes no more than once. */
  lemma {:induction false} BalanceIdempotent(x: string)
    ensures Balance(Balance(x)) == Balance(x)
  {
    BalanceNeverNegative(x);
    BalanceFixedPoints(Balance(x));
  }

  /** A prefix of a string that never goes below zero never does either. */
  lemma {:induction false} NeverNegativeInit(s: string)
    requires s != [] && NeverNegative(s)
    ensures NeverNegative(s[..|s| - 1])
  {
    var t := s[..|s| - 1];
    forall i | 0 <= i <= |t| ensures Depth(t[..i]) >= 0 {
      assert t[..i] == s[..i];
    }
  }

  /** However closing braces are deleted from the first `n` characters, a
      result that never goes below zero ends at least as deep as the scan. */
  lemma {:induction false} ScanMinimalDepth(x: string, n: nat, y: string)
    requires n <= |x| && DeletesCloses(x[..n], y) && NeverNegative(y)
    ensures Depth(y) >= Scan(x, n).depth
    decreases n
  {
    if n > 0 {
      var xs := x[..n];
      assert xs[..n - 1] == x[..n - 1];
      assert xs[n - 1] == x[n - 1];
      if y != [] && y[|y| - 1] == x[n - 1] && DeletesCloses(x[..n - 1], y[..|y| - 1]) {
        var y0 := y[..|y| - 1];
        NeverNegativeInit(y);
        ScanMinimalDepth(x, n - 1, y0);
        assert y == y0 + [x[n - 1]];
        DepthSnoc(y0, x[n - 1]);
        assert y[..|y|] == y;
      } else {
        ScanMinimalDepth(x, n - 1, y);
      }
    } else {
      assert y[..0] == y;
    }
  }

  /** `delete_brackets` deletes as few closing braces as possible: no other
      way of deleting closing braces that leaves no prefix below zero keeps
      a longer string. */
  lemma {:induction false} BalanceLongest(x: string, y: string)
    requires DeletesCloses(x, y) && NeverNegative(y)
    ensures |y| <= |Balance(x)|
  {
    assert x[..|x|] == x;
    ScanMinimalDepth(x, |x|, y);
    ScanDepth(x, |x|);
    BalanceDeletesCloses(x);
    DeletesClosesCounts(x, y);
    DeletesClosesCounts(x, Balance(x));
  }

  /** While the counter stays at or above zero the scan keeps every character. */
  lemma {:induction false} ScanCopies(x: string, n: nat, d: nat)
    requires n < |x| && Scan(x, n) == Scanned(x[..n], d) && d + Step(x[n]) >= 0
    ensures Scan(x, n + 1) == Scanned(x[..n + 1], d + Step(x[n]))
  {
    assert x[..n + 1] == x[..n] + [x[n]];
  }

  /** The example of `delete_brackets`'s documentation, read one character at a time. */
  lemma {:induction false} BalanceDocExample()
    ensures Balance("obj={'b':'a'}}") == "obj={'b':'a'}"
  {
    var x := "obj={'b':'a'}}";
    assert x[..0] == "";
    ScanCopies(x, 0, 0);
    ScanCopies(x, 1, 0);
    ScanCopies(x, 2, 0);
    ScanCopies(x, 3, 0);
    ScanCopies(x, 4, 0);
    ScanCopies(x, 5, 1);
    ScanCopies(x, 6, 1);
    ScanCopies(x, 7, 1);
    ScanCopies(x, 8, 1);
    ScanCopies(x, 9, 1);
    ScanCopies(x, 10, 1);
    ScanCopies(x, 11, 1);
    ScanCopies(x, 12, 1);
    assert x[..13] == "obj={'b':'a'}";
  }

  /** A lone closing brace is dropped; so are unmatched ones in the middle. */
  lemma {:induction false} BalanceSmallExamples()
    ensures Balance("}") == ""
    ensures Balance("a}}b") == "ab"
    ensures Balance("}{}") == "{}"
  {
    assert Scan("}", 1) == Scanned("", 0);
    var y := "a}}b";
    assert Scan(y, 1) == Scanned("a", 0);
    assert Scan(y, 2) == Scanned("a", 0);
    assert Scan(y, 3) == Scanned("a", 0);
  }

  /** Nested, balanced braces are kept. */
  lemma {:induction false} BalanceNestedExample()
    ensures Balance("{a{b}c}") == "{a{b}c}"
  {
    var z := "{a{b}c}";
    assert z[..0] == "";
    ScanCopies(z, 0, 0);
    ScanCopies(z, 1, 1);
    ScanCopies(z, 2, 1);
    ScanCopies(z, 3, 2);
    ScanCopies(z, 4, 2);
    ScanCopies(z, 5, 1);
    ScanCopies(z, 6, 1);
    assert z[..7] == z;
  }
}
