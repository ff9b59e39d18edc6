/** `itertools.combinations(listings_sorted, r)` for r = 1 .. max_comb_size, as used by
    `search_vehicle` (app/main.py): combinations are index sequences into the price-sorted
    listings, produced in lexicographic order. */
module Combinations {

  function PrependAll(x: nat, cs: seq<seq<nat>>): (r: seq<seq<nat>>)
    ensures |r| == |cs|
    ensures forall i :: 0 <= i < |cs| ==> r[i] == [x] + cs[i]
  {
    seq(|cs|, i requires 0 <= i < |cs| => [x] + cs[i])
  }

  /** The combinations of `r` indices drawn from `start .. n-1`, in the order
      `itertools.combinations` yields them. */
  function CombinationsFrom(start: nat, n: nat, r: nat): seq<seq<nat>>
    decreases n - start, r
  {
    if r == 0 then [[]]
    else if start >= n then []
    else PrependAll(start, CombinationsFrom(start + 1, n, r - 1)) + CombinationsFrom(start + 1, n, r)
  }

  /** All combinations of sizes 1 .. maxSize of the indices `0 .. n-1`, by size, then in
      lexicographic order: the order of the two loops of `search_vehicle`. */
  function Enumeration(n: nat, maxSize: int): seq<seq<nat>>
    decreases maxSize
  {
    if maxSize <= 0 then [] else Enumeration(n, maxSize - 1) + CombinationsFrom(0, n, maxSize)
  }

  /** `c` is a strictly increasing sequence of `r` indices from `start .. n-1`. */
  ghost predicate IsCombination(c: seq<nat>, start: nat, n: nat, r: nat)
  {
    |c| == r &&
    (forall k :: 0 <= k < |c| ==> start <= c[k] < n) &&
    (forall i, j :: 0 <= i < j < |c| ==> c[i] < c[j])
  }

  /** Lexicographic order on index sequences. */
  ghost predicate LexLess(a: seq<nat>, b: seq<nat>)
    decreases |a|
  {
    a != [] && b != [] && (a[0] < b[0] || (a[0] == b[0] && LexLess(a[1..], b[1..])))
  }

  lemma PrependAllMember(x: nat, cs: seq<seq<nat>>, c: seq<nat>)
    ensures c in PrependAll(x, cs) <==> |c| > 0 && c[0] == x && c[1..] in cs
  {
    if |c| > 0 && c[0] == x && c[1..] in cs {
      var i :| 0 <= i < |cs| && cs[i] == c[1..];
      assert PrependAll(x, cs)[i] == c;
    }
  }

  /** A combination starting at `start` continues with one from `start + 1`; any other
      combination is drawn from `start + 1 ..` altogether. */
  lemma CombinationSplit(c: seq<nat>, start: nat, n: nat, r: nat)
    requires 0 < r == |c| && start < n
    ensures IsCombination(c, start, n, r) <==>
      (c[0] == start && IsCombination(c[1..], start + 1, n, r - 1)) ||
      (c[0] != start && IsCombination(c, start + 1, n, r))
  {
    if IsCombination(c, start, n, r) {
      forall k | 0 < k < |c| ensures c[0] < c[k] {
      }
    }
    if c[0] == start && IsCombination(c[1..], start + 1, n, r - 1) {
      forall i, j | 0 <= i < j < |c| ensures c[i] < c[j] {
        if i > 0 {
          assert c[i] == c[1..][i - 1] && c[j] == c[1..][j - 1];
        } else {
          assert c[j] == c[1..][j - 1];
        }
      }
      forall k | 0 <= k < |c| ensures start <= c[k] < n {
        if k > 0 {
          assert c[k] == c[1..][k - 1];
        }
      }
    }
  }

  lemma {:induction false} CombinationsFromLength(start: nat, n: nat, r: nat, c: seq<nat>)
    ensures c in CombinationsFrom(start, n, r) ==> |c| == r
    decreases n - start, r
  {
    if r > 0 && start < n {
      var inner := CombinationsFrom(start + 1, n, r - 1);
      PrependAllMember(start, inner, c);
      if |c| > 0 {
        CombinationsFromLength(start + 1, n, r - 1, c[1..]);
      }
      CombinationsFromLength(start + 1, n, r, c);
    }
  }

  lemma CombinationsFromStep(start: nat, n: nat, r: nat, c: seq<nat>)
    requires 0 < r == |c| && start < n
    requires c[1..] in CombinationsFrom(start + 1, n, r - 1) <==> IsCombination(c[1..], start + 1, n, r - 1)
    requires c in CombinationsFrom(start + 1, n, r) <==> IsCombination(c, start + 1, n, r)
    ensures c in CombinationsFrom(start, n, r) <==> IsCombination(c, start, n, r)
  {
    var inner := CombinationsFrom(start + 1, n, r - 1);
    assert CombinationsFrom(start, n, r) == PrependAll(start, inner) + CombinationsFrom(start + 1, n, r);
    PrependAllMember(start, inner, c);
    CombinationSplit(c, start, n, r);
    if c[0] == start {
      assert !IsCombination(c, start + 1, n, r);
    }
  }

  /** The generator yields every combination, and nothing else. */
  lemma {:induction false} CombinationsFromExact(start: nat, n: nat, r: nat, c: seq<nat>)
    ensures c in CombinationsFrom(start, n, r) <==> IsCombination(c, start, n, r)
    decreases n - start, r, 1
  {
    if r == 0 {
    } else if start >= n {
      assert !IsCombination(c, start, n, r) by {
        if |c| == r {
          assert !(start <= c[0] < n);
        }
      }
    } else if |c| != r {
      CombinationsFromLength(start, n, r, c);
    } else {
      CombinationsFromExactStep(start, n, r, c);
    }
  }

  /** The inductive step of `CombinationsFromExact`, for a candidate of the right length. */
  lemma {:induction false} CombinationsFromExactStep(start: nat, n: nat, r: nat, c: seq<nat>)
    requires 0 < r == |c| && start < n
    ensures c in CombinationsFrom(start, n, r) <==> IsCombination(c, start, n, r)
    decreases n - start, r, 0
  {
    CombinationsFromExact(start + 1, n, r - 1, c[1..]);
    CombinationsFromExact(start + 1, n, r, c);
    CombinationsFromStep(start, n, r, c);
  }

  /** The enumeration holds exactly the combinations of sizes 1 .. maxSize. */
  lemma {:induction false} EnumerationExact(n: nat, maxSize: int, c: seq<nat>)
    ensures c in Enumeration(n, maxSize) <==> 1 <= |c| <= maxSize && IsCombination(c, 0, n, |c|)
    decreases maxSize
  {
    if maxSize > 0 {
      EnumerationExact(n, maxSize - 1, c);
      CombinationsFromExact(0, n, maxSize, c);
    }
  }

  lemma {:induction false} LexLessPrepend(x: nat, a: seq<nat>, b: seq<nat>)
    requires LexLess(a, b)
    ensures LexLess([x] + a, [x] + b)
  {
    assert ([x] + a)[1..] == a && ([x] + b)[1..] == b;
  }

  /** The generator yields its combinations in strictly increasing lexicographic order, so
      in particular never the same one twice. */
  lemma {:induction false} CombinationsFromOrdered(start: nat, n: nat, r: nat)
    ensures forall i, j :: 0 <= i < j < |CombinationsFrom(start, n, r)| ==>
      LexLess(CombinationsFrom(start, n, r)[i], CombinationsFrom(start, n, r)[j])
    decreases n - start, r
  {
    if r > 0 && start < n {
      var inner := CombinationsFrom(start + 1, n, r - 1);
      var first := PrependAll(start, inner);
      var later := CombinationsFrom(start + 1, n, r);
      var all := first + later;
      CombinationsFromOrdered(start + 1, n, r - 1);
      CombinationsFromOrdered(start + 1, n, r);
      forall i, j | 0 <= i < j < |all| ensures LexLess(all[i], all[j]) {
        if j < |first| {
          LexLessPrepend(start, inner[i], inner[j]);
        } else if i >= |first| {
          assert all[i] == later[i - |first|] && all[j] == later[j - |first|];
        } else {
          var b := later[j - |first|];
          assert b in later;
          CombinationsFromExact(start + 1, n, r, b);
          assert all[i][0] == start < b[0];
        }
      }
    }
  }
  /** Leaving one index out of a combination leaves a combination. */
  lemma CombinationDrop(c: seq<nat>, n: nat, j: nat)
    requires IsCombination(c, 0, n, |c|) && j < |c|
    ensures IsCombination(c[..j] + c[j + 1..], 0, n, |c| - 1)
  {
    var d := c[..j] + c[j + 1..];
    assert forall i :: 0 <= i < |d| ==> d[i] == c[if i < j then i else i + 1];
  }
}
