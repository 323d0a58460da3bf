/** Rust's `Iterator::filter_map` on sequences, and what it keeps. */
module FilterMaps {
  import opened Common

  /** Applies `f` to each element in order, keeping the `Some` results. */
  function FilterMap<A, B>(xs: seq<A>, f: A -> Option<B>): (r: seq<B>)
    ensures |r| <= |xs|
    ensures forall y :: y in r ==> exists i :: 0 <= i < |xs| && f(xs[i]) == Some(y)
  {
    if |xs| == 0 then []
    else
      var rest := FilterMap(xs[1..], f);
      assert forall y :: y in rest ==> exists i :: 0 <= i < |xs| && f(xs[i]) == Some(y) by {
        forall y | y in rest
          ensures exists i :: 0 <= i < |xs| && f(xs[i]) == Some(y)
        {
          var j :| 0 <= j < |xs[1..]| && f(xs[1..][j]) == Some(y);
          assert xs[1..][j] == xs[j + 1];
        }
      }
      match f(xs[0])
      case Some(y) => [y] + rest
      case None => rest
  }

  /** `idx` lists, in increasing order, exactly the positions where `f`
      gives `Some`, and `r` holds those results in that order. */
  ghost predicate IsSelection<A, B>(xs: seq<A>, f: A -> Option<B>, r: seq<B>, idx: seq<int>) {
    && |idx| == |r|
    && (forall k :: 0 <= k < |idx| ==> 0 <= idx[k] < |xs| && f(xs[idx[k]]) == Some(r[k]))
    && (forall k, l :: 0 <= k < l < |idx| ==> idx[k] < idx[l])
    && (forall i :: 0 <= i < |xs| && f(xs[i]).Some? ==> i in idx)
  }

  /** `filter_map` keeps exactly the elements `f` maps to `Some`, mapped, in
      their original order. */
  lemma {:induction false} FilterMapSelects<A, B>(xs: seq<A>, f: A -> Option<B>) returns (idx: seq<int>)
    ensures IsSelection(xs, f, FilterMap(xs, f), idx)
    decreases |xs|
  {
    if |xs| == 0 {
      idx := [];
    } else {
      var rest := FilterMap(xs[1..], f);
      var idx' := FilterMapSelects(xs[1..], f);
      var shifted := ShiftSelection(xs, f, rest, idx');
      match f(xs[0])
      case Some(y) =>
        idx := [0] + shifted;
        assert FilterMap(xs, f) == [y] + rest;
        ConsSelection(xs, f, y, rest, shifted);
      case None =>
        idx := shifted;
        assert FilterMap(xs, f) == rest;
        assert forall i :: 0 <= i < |xs| && f(xs[i]).Some? ==> i in idx;
    }
  }

  /** A selection from the tail, with positions shifted by one, selects from
      the whole sequence everything past its head. */
  lemma ShiftSelection<A, B>(xs: seq<A>, f: A -> Option<B>, rest: seq<B>, idx': seq<int>)
    returns (shifted: seq<int>)
    requires |xs| > 0
    requires IsSelection(xs[1..], f, rest, idx')
    ensures |shifted| == |rest|
    ensures forall k :: 0 <= k < |shifted| ==> 1 <= shifted[k] < |xs| && f(xs[shifted[k]]) == Some(rest[k])
    ensures forall k, l :: 0 <= k < l < |shifted| ==> shifted[k] < shifted[l]
    ensures forall i :: 1 <= i < |xs| && f(xs[i]).Some? ==> i in shifted
  {
    var tail := xs[1..];
    shifted := seq(|idx'|, k requires 0 <= k < |idx'| => idx'[k] + 1);
    forall k | 0 <= k < |shifted|
      ensures 1 <= shifted[k] < |xs| && f(xs[shifted[k]]) == Some(rest[k])
    {
      assert tail[idx'[k]] == xs[shifted[k]];
    }
    forall i | 1 <= i < |xs| && f(xs[i]).Some?
      ensures i in shifted
    {
      assert tail[i - 1] == xs[i];
      assert i - 1 in idx';
      var k :| 0 <= k < |idx'| && idx'[k] == i - 1;
      assert shifted[k] == i;
    }
  }

  /** Prepending a kept head to a selection from the rest. */
  lemma ConsSelection<A, B>(xs: seq<A>, f: A -> Option<B>, y: B, rest: seq<B>, shifted: seq<int>)
    requires |xs| > 0 && f(xs[0]) == Some(y)
    requires |shifted| == |rest|
    requires forall k :: 0 <= k < |shifted| ==> 1 <= shifted[k] < |xs| && f(xs[shifted[k]]) == Some(rest[k])
    requires forall k, l :: 0 <= k < l < |shifted| ==> shifted[k] < shifted[l]
    requires forall i :: 1 <= i < |xs| && f(xs[i]).Some? ==> i in shifted
    ensures IsSelection(xs, f, [y] + rest, [0] + shifted)
  {
    var idx := [0] + shifted;
    var r := [y] + rest;
    forall k | 1 <= k < |idx| ensures idx[k] == shifted[k - 1] && r[k] == rest[k - 1] {}
    forall i | 0 <= i < |xs| && f(xs[i]).Some? ensures i in idx {
      if i > 0 {
        var k :| 0 <= k < |shifted| && shifted[k] == i;
        assert idx[k + 1] == i;
      }
    }
  }

  /** An element is kept iff `f` maps some element to it. */
  lemma FilterMapIff<A, B>(xs: seq<A>, f: A -> Option<B>, y: B)
    ensures y in FilterMap(xs, f) <==> exists i :: 0 <= i < |xs| && f(xs[i]) == Some(y)
  {
    var idx := FilterMapSelects(xs, f);
    var r := FilterMap(xs, f);
    if i :| 0 <= i < |xs| && f(xs[i]) == Some(y) {
      assert i in idx;
      var k :| 0 <= k < |idx| && idx[k] == i;
      assert r[k] == y;
    }
  }

  /** As many elements are kept as there are positions where `f` gives
      `Some`. */
  lemma FilterMapCount<A, B>(xs: seq<A>, f: A -> Option<B>, valid: set<int>)
    requires forall i :: i in valid <==> 0 <= i < |xs| && f(xs[i]).Some?
    ensures |FilterMap(xs, f)| == |valid|
  {
    var idx := FilterMapSelects(xs, f);
    var elems := set k | 0 <= k < |idx| :: idx[k];
    forall i ensures i in elems <==> i in valid {
      if i in valid {
        assert i in idx;
        var k :| 0 <= k < |idx| && idx[k] == i;
      }
    }
    assert elems == valid;
    IncreasingCard(idx);
  }

  /** A strictly increasing sequence has as many elements as its range. */
  lemma {:induction false} IncreasingCard(idx: seq<int>)
    requires forall k, l :: 0 <= k < l < |idx| ==> idx[k] < idx[l]
    ensures |set k | 0 <= k < |idx| :: idx[k]| == |idx|
    decreases |idx|
  {
    if |idx| > 0 {
      var front := idx[..|idx| - 1];
      IncreasingCard(front);
      var s := set k | 0 <= k < |front| :: front[k];
      var s' := set k | 0 <= k < |idx| :: idx[k];
      assert s' == s + {idx[|idx| - 1]};
      assert idx[|idx| - 1] !in s;
    }
  }
}
