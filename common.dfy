/** Small shared vocabulary: optional values, results, and sequence helpers
    that stand for Python's slicing and "order-preserving subsequence". */
module Common {

  datatype Option<T> = None | Some(value: T)

  datatype Result<T, E> = Ok(value: T) | Err(error: E)

  /** Python's `s[:n]` for a non-negative `n`: the first `n` elements, or all of `s`. */
  function Take<T>(s: seq<T>, n: nat): (r: seq<T>)
    ensures |r| <= n && |r| <= |s|
    ensures |r| == n || r == s
    ensures r == s[..|r|]
  {
    if n < |s| then s[..n] else s
  }

  lemma AppendAssoc<T>(a: seq<T>, b: seq<T>, c: seq<T>)
    ensures a + b + c == a + (b + c)
  {
  }

  /** `a` can be obtained from `b` by deleting elements, keeping the order of the rest. */
  ghost predicate IsSubseq<T>(a: seq<T>, b: seq<T>)
    decreases |b|
  {
    if a == [] then true
    else if b == [] then false
    else (a[|a| - 1] == b[|b| - 1] && IsSubseq(a[..|a| - 1], b[..|b| - 1]))
         || IsSubseq(a, b[..|b| - 1])
  }

  /** A prefix of a subsequence is a subsequence. */
  lemma {:induction false} PrefixOfSubseq<T>(a: seq<T>, b: seq<T>, k: nat)
    requires IsSubseq(a, b) && k <= |a|
    ensures IsSubseq(a[..k], b)
    decreases |b|
  {
    if k == |a| {
      assert a[..k] == a;
    } else if k == 0 {
    } else if IsSubseq(a, b[..|b| - 1]) {
      PrefixOfSubseq(a, b[..|b| - 1], k);
    } else {
      var a', b' := a[..|a| - 1], b[..|b| - 1];
      PrefixOfSubseq(a', b', k);
      assert a'[..k] == a[..k];
      assert IsSubseq(a[..k], b');
    }
  }

  /** `r` lists, in order, `img[i]` for exactly the positions `i` where `keep[i]` holds:
      `pos` holds those positions, increasing, one entry each. This is what a Python
      list comprehension `[f(x) for x in xs if p(x)]` builds, with `img[i] == f(xs[i])` and
      `keep[i] == p(xs[i])`; it fixes order and multiplicity, not only membership. */
  ghost predicate PicksAt<T>(r: seq<T>, img: seq<T>, keep: seq<bool>, pos: seq<nat>) {
    && |img| == |keep| && |pos| == |r|
    && (forall j :: 0 <= j < |pos| ==> pos[j] < |img| && r[j] == img[pos[j]])
    && (forall j, l :: 0 <= j < l < |pos| ==> pos[j] < pos[l])
    && (forall i :: 0 <= i < |keep| ==> (keep[i] <==> i in pos))
  }

  ghost predicate Picks<T>(r: seq<T>, img: seq<T>, keep: seq<bool>) {
    exists pos :: PicksAt(r, img, keep, pos)
  }

  lemma PicksNil<T>()
    ensures Picks<T>([], [], [])
  {
    assert PicksAt<T>([], [], [], []);
  }

  /** One more element: its image joins the selection exactly when it is kept. */
  lemma PicksSnoc<T>(r: seq<T>, img: seq<T>, keep: seq<bool>, y: T, b: bool)
    requires Picks(r, img, keep)
    ensures Picks(r + (if b then [y] else []), img + [y], keep + [b])
  {
    var pos: seq<nat> :| PicksAt(r, img, keep, pos);
    var img', keep' := img + [y], keep + [b];
    if b {
      var pos' := pos + [|img|];
      forall i | 0 <= i < |keep'| ensures keep'[i] <==> i in pos' {
        if i < |keep| {
          assert keep'[i] == keep[i];
        }
      }
      assert PicksAt(r + [y], img', keep', pos');
    } else {
      forall i | 0 <= i < |keep'| ensures keep'[i] <==> i in pos {
        if i < |keep| {
          assert keep'[i] == keep[i];
        }
      }
      assert r + [] == r;
      assert PicksAt(r, img', keep', pos);
    }
  }

  lemma HeadIn<T>(q: seq<T>)
    ensures |q| > 0 ==> q[0] in q
  {
  }

  /** Two increasing sequences with the same elements are equal. */
  lemma {:induction false} IncreasingUnique(p: seq<nat>, q: seq<nat>)
    requires forall j, l :: 0 <= j < l < |p| ==> p[j] < p[l]
    requires forall j, l :: 0 <= j < l < |q| ==> q[j] < q[l]
    requires forall i :: i in p <==> i in q
    ensures p == q
    decreases |p|
  {
    if p == [] {
      HeadIn(q);
    } else {
      assert q != [] by {
        assert p[0] in p;
      }
      var m, n := p[|p| - 1], q[|q| - 1];
      assert m in q;
      assert n in p;
      assert m == n by {
        var a :| 0 <= a < |q| && q[a] == m;
        var b :| 0 <= b < |p| && p[b] == n;
        assert m <= n && n <= m;
      }
      var p', q' := p[..|p| - 1], q[..|q| - 1];
      forall i ensures i in p' <==> i in q' {
        if i in p' {
          var a :| 0 <= a < |p'| && p'[a] == i;
          assert i in q && i != n;
        }
        if i in q' {
          var a :| 0 <= a < |q'| && q'[a] == i;
          assert i in p && i != m;
        }
      }
      IncreasingUnique(p', q');
      assert p == p' + [m] && q == q' + [n];
    }
  }

  /** The selection is determined by the images and the flags: no other sequence (one with
      an element dropped, doubled or moved) is a selection of the same positions. */
  lemma PicksUnique<T>(r1: seq<T>, r2: seq<T>, img: seq<T>, keep: seq<bool>)
    requires Picks(r1, img, keep) && Picks(r2, img, keep)
    ensures r1 == r2
  {
    var p1: seq<nat> :| PicksAt(r1, img, keep, p1);
    var p2: seq<nat> :| PicksAt(r2, img, keep, p2);
    forall i ensures i in p1 <==> i in p2 {
      if i in p1 {
        var j :| 0 <= j < |p1| && p1[j] == i;
      }
      if i in p2 {
        var j :| 0 <= j < |p2| && p2[j] == i;
      }
    }
    IncreasingUnique(p1, p2);
  }

  /** Every element of a subsequence occurs in the sequence it was taken from. */
  lemma {:induction false} SubseqElements<T>(a: seq<T>, b: seq<T>)
    requires IsSubseq(a, b)
    ensures forall x :: x in a ==> x in b
    decreases |b|
  {
    if a == [] {
    } else if IsSubseq(a, b[..|b| - 1]) {
      SubseqElements(a, b[..|b| - 1]);
    } else {
      SubseqElements(a[..|a| - 1], b[..|b| - 1]);
      forall x | x in a ensures x in b {
        if x != a[|a| - 1] {
          assert x in a[..|a| - 1];
        }
      }
    }
  }
}
