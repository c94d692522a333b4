/** `Array.prototype.filter` and the facts about it that the rest of the model relies on. */
module Seqs {

  /** The elements of `s` that satisfy `keep`, in their original order. */
  function Filter<T>(s: seq<T>, keep: T -> bool): (r: seq<T>)
    ensures |r| <= |s|
    ensures forall i :: 0 <= i < |r| ==> keep(r[i])
  {
    if s == [] then []
    else (if keep(s[0]) then [s[0]] else []) + Filter(s[1..], keep)
  }

  /** The positions of `s` whose element satisfies `keep`, in increasing order. */
  function KeptIndices<T>(s: seq<T>, keep: T -> bool): seq<nat>
  {
    if s == [] then []
    else (if keep(s[0]) then [0] else []) + Shift(KeptIndices(s[1..], keep))
  }

  function Shift(ix: seq<nat>): (r: seq<nat>)
    ensures |r| == |ix| && forall k :: 0 <= k < |ix| ==> r[k] == ix[k] + 1
  {
    if ix == [] then [] else [ix[0] + 1] + Shift(ix[1..])
  }

  predicate StrictlyIncreasing(ix: seq<nat>)
  {
    forall a, b :: 0 <= a < b < |ix| ==> ix[a] < ix[b]
  }

  /** Filter keeps exactly the positions whose element passes, in increasing order:
      its k-th element is the element of `s` at the k-th such position. */
  lemma FilterIsOrderedSelection<T>(s: seq<T>, keep: T -> bool)
    ensures var r, ix := Filter(s, keep), KeptIndices(s, keep);
      && |r| == |ix|
      && StrictlyIncreasing(ix)
      && (forall k :: 0 <= k < |ix| ==> ix[k] < |s| && r[k] == s[ix[k]])
      && (forall i :: 0 <= i < |s| ==> (i in ix <==> keep(s[i])))
  {
    FilterAtKeptIndices(s, keep);
    KeptIndicesIncrease(s, keep);
    KeptIndicesMembership(s, keep);
  }

  /** `r` is the elements of `s` at the positions `ix`, in that order. */
  ghost predicate Selects<T>(s: seq<T>, r: seq<T>, ix: seq<nat>)
  {
    |r| == |ix| && forall k :: 0 <= k < |ix| ==> ix[k] < |s| && r[k] == s[ix[k]]
  }

  lemma {:induction false} FilterAtKeptIndices<T>(s: seq<T>, keep: T -> bool)
    ensures Selects(s, Filter(s, keep), KeptIndices(s, keep))
  {
    if s != [] {
      var r', ix' := Filter(s[1..], keep), KeptIndices(s[1..], keep);
      FilterAtKeptIndices(s[1..], keep);
      if keep(s[0]) {
        assert Filter(s, keep) == [s[0]] + r';
        assert KeptIndices(s, keep) == [0] + Shift(ix');
        SelectsKept(s, r', ix');
      } else {
        assert Filter(s, keep) == r';
        assert KeptIndices(s, keep) == Shift(ix');
        SelectsDropped(s, r', ix');
      }
    }
  }

  lemma SelectsKept<T>(s: seq<T>, r: seq<T>, ix: seq<nat>)
    requires s != [] && Selects(s[1..], r, ix)
    ensures Selects(s, [s[0]] + r, [0] + Shift(ix))
  {
    var r2, ix2 := [s[0]] + r, [0] + Shift(ix);
    forall k | 1 <= k < |ix2| ensures ix2[k] < |s| && r2[k] == s[ix2[k]] {
      assert ix2[k] == ix[k - 1] + 1 && r2[k] == r[k - 1];
    }
  }

  lemma SelectsDropped<T>(s: seq<T>, r: seq<T>, ix: seq<nat>)
    requires s != [] && Selects(s[1..], r, ix)
    ensures Selects(s, r, Shift(ix))
  {
  }

  lemma {:induction false} KeptIndicesIncrease<T>(s: seq<T>, keep: T -> bool)
    ensures StrictlyIncreasing(KeptIndices(s, keep))
  {
    if s != [] {
      KeptIndicesIncrease(s[1..], keep);
      var ix' := KeptIndices(s[1..], keep);
      var sh := Shift(ix');
      assert StrictlyIncreasing(sh) by {
        forall a, b | 0 <= a < b < |sh| ensures sh[a] < sh[b] {
          assert ix'[a] < ix'[b];
        }
      }
    }
  }

  lemma {:induction false} KeptIndicesMembership<T>(s: seq<T>, keep: T -> bool)
    ensures var ix := KeptIndices(s, keep);
      forall i :: 0 <= i < |s| ==> (i in ix <==> keep(s[i]))
  {
    if s != [] {
      KeptIndicesMembership(s[1..], keep);
      var ix' := KeptIndices(s[1..], keep);
      var ix := KeptIndices(s, keep);
      assert ix == (if keep(s[0]) then [0] else []) + Shift(ix');
      forall i | 0 <= i < |s| ensures i in ix <==> keep(s[i]) {
        if i == 0 {
          ShiftMembership(ix', 0);
        } else {
          ShiftMembership(ix', i);
          assert s[1..][i - 1] == s[i];
        }
      }
    }
  }

  lemma ShiftMembership(ix: seq<nat>, i: nat)
    ensures i in Shift(ix) <==> i > 0 && i - 1 in ix
  {
    var sh := Shift(ix);
    if i in sh {
      var k :| 0 <= k < |sh| && sh[k] == i;
      assert ix[k] == i - 1;
    }
    if i > 0 && i - 1 in ix {
      var k :| 0 <= k < |ix| && ix[k] == i - 1;
      assert sh[k] == i;
    }
  }

  /** Filtering distributes over concatenation. */
  lemma {:induction false} FilterAppend<T>(a: seq<T>, b: seq<T>, keep: T -> bool)
    ensures Filter(a + b, keep) == Filter(a, keep) + Filter(b, keep)
  {
    if a == [] {
      assert a + b == b;
    } else {
      assert (a + b)[1..] == a[1..] + b;
      FilterAppend(a[1..], b, keep);
    }
  }
}
