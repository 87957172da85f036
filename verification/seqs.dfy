/** Sequence vocabulary shared by the playlist, notes and spreadsheet models:
    Array.prototype.filter, order-preserving subsequences, and Array.prototype.splice with
    JavaScript's clamping of the start index. */
module Seqs {
  import opened Common

  lemma AppendAssoc<T>(a: seq<T>, b: seq<T>, c: seq<T>)
    ensures a + (b + c) == (a + b) + c
  {
  }

  /** Array.prototype.filter: the elements that satisfy `keep`, in their original order. */
  function Filter<T(==)>(s: seq<T>, keep: T -> bool): (r: seq<T>)
    ensures |r| <= |s|
    ensures forall i :: 0 <= i < |r| ==> r[i] in s && keep(r[i])
    ensures forall i :: 0 <= i < |s| && keep(s[i]) ==> s[i] in r
  {
    if |s| == 0 then [] else (if keep(s[0]) then [s[0]] else []) + Filter(s[1..], keep)
  }

  /** Filtering keeps each element that satisfies `keep` as often as it occurs in `s`, and
      no other. */
  lemma {:induction false} FilterCounts<T(!new)>(s: seq<T>, keep: T -> bool)
    ensures forall x :: multiset(Filter(s, keep))[x] == (if keep(x) then multiset(s)[x] else 0)
    decreases |s|
  {
    if |s| > 0 {
      FilterCounts(s[1..], keep);
      assert s == [s[0]] + s[1..];
    }
  }

  /** `a` can be obtained from `b` by deleting elements, without reordering. */
  predicate IsSubseq<T(==)>(a: seq<T>, b: seq<T>)
    decreases |b|
  {
    if |a| == 0 then true
    else if |b| == 0 then false
    else if a[0] == b[0] then IsSubseq(a[1..], b[1..])
    else IsSubseq(a, b[1..])
  }

  lemma {:induction false} SubseqDropHead<T>(a: seq<T>, b: seq<T>)
    requires |a| > 0 && IsSubseq(a, b)
    ensures IsSubseq(a[1..], b)
    decreases |b|, 0
  {
    if a[0] == b[0] {
      SubseqCons(a[1..], b[1..], b[0]);
      assert [b[0]] + b[1..] == b;
    } else {
      SubseqDropHead(a, b[1..]);
      SubseqCons(a[1..], b[1..], b[0]);
      assert [b[0]] + b[1..] == b;
    }
  }

  lemma {:induction false} SubseqCons<T>(a: seq<T>, t: seq<T>, x: T)
    requires IsSubseq(a, t)
    ensures IsSubseq(a, [x] + t)
    decreases |t|, 1
  {
    var b := [x] + t;
    assert b[1..] == t;
    if |a| > 0 && a[0] == x {
      SubseqDropHead(a, t);
    }
  }

  lemma {:induction false} FilterIsSubseq<T>(s: seq<T>, keep: T -> bool)
    ensures IsSubseq(Filter(s, keep), s)
    decreases |s|
  {
    if |s| > 0 {
      FilterIsSubseq(s[1..], keep);
      if keep(s[0]) {
        var f := Filter(s, keep);
        assert f[0] == s[0] && f[1..] == Filter(s[1..], keep);
      } else {
        assert Filter(s, keep) == Filter(s[1..], keep);
        SubseqCons(Filter(s[1..], keep), s[1..], s[0]);
        assert [s[0]] + s[1..] == s;
      }
    }
  }

  lemma {:induction false} FilterConcat<T>(a: seq<T>, b: seq<T>, keep: T -> bool)
    ensures Filter(a + b, keep) == Filter(a, keep) + Filter(b, keep)
    decreases |a|
  {
    if |a| > 0 {
      assert (a + b)[1..] == a[1..] + b;
      FilterConcat(a[1..], b, keep);
    } else {
      assert a + b == b;
    }
  }

  /** Filtering one more element of a prefix appends it when it is kept. */
  lemma FilterSnoc<T>(s: seq<T>, i: nat, keep: T -> bool)
    requires i < |s|
    ensures Filter(s[..i + 1], keep) == Filter(s[..i], keep) + (if keep(s[i]) then [s[i]] else [])
  {
    assert s[..i + 1] == s[..i] + [s[i]];
    FilterConcat(s[..i], [s[i]], keep);
    assert [s[i]][1..] == [];
  }

  lemma {:induction false} FilterKeepsAll<T>(s: seq<T>, keep: T -> bool)
    requires forall i :: 0 <= i < |s| ==> keep(s[i])
    ensures Filter(s, keep) == s
    decreases |s|
  {
    if |s| > 0 {
      FilterKeepsAll(s[1..], keep);
    }
  }

  lemma {:induction false} FilterNoneKept<T>(s: seq<T>, keep: T -> bool)
    requires forall i :: 0 <= i < |s| ==> !keep(s[i])
    ensures Filter(s, keep) == []
    decreases |s|
  {
    if |s| > 0 {
      FilterNoneKept(s[1..], keep);
    }
  }

  /** Filtering out a single rejected element between kept ones removes just that element. */
  lemma FilterDropsOne<T>(front: seq<T>, x: T, back: seq<T>, keep: T -> bool)
    requires forall i :: 0 <= i < |front| ==> keep(front[i])
    requires forall i :: 0 <= i < |back| ==> keep(back[i])
    requires !keep(x)
    ensures Filter(front + [x] + back, keep) == front + back
  {
    var fx := front + [x];
    assert Filter([x], keep) == [] by {
      assert [x][1..] == [];
    }
    FilterConcat(front, [x], keep);
    FilterKeepsAll(front, keep);
    assert Filter(fx, keep) == front;
    FilterConcat(fx, back, keep);
    FilterKeepsAll(back, keep);
  }

  lemma {:induction false} FilterIdempotent<T>(s: seq<T>, keep: T -> bool)
    ensures Filter(Filter(s, keep), keep) == Filter(s, keep)
  {
    var f := Filter(s, keep);
    forall i | 0 <= i < |f|
      ensures keep(f[i])
    {
      assert f[i] in f;
    }
    FilterKeepsAll(f, keep);
  }

  /** The start index of Array.prototype.splice after JavaScript's clamping: a negative
      start counts from the end, and every start is clamped into [0, len]. */
  function SpliceStart(len: nat, start: int): (k: nat)
    ensures k <= len
    ensures 0 <= start <= len ==> k == start
  {
    if start < 0 then (if len + start < 0 then 0 else len + start)
    else if start > len then len
    else start
  }

  /** `s` after `s.splice(start, deleteCount, ...items)`. */
  function Splice<T>(s: seq<T>, start: int, deleteCount: nat, items: seq<T>): (r: seq<T>)
    ensures |r| == |s| - Min(deleteCount, |s| - SpliceStart(|s|, start)) + |items|
  {
    var k := SpliceStart(|s|, start);
    var d := Min(deleteCount, |s| - k);
    s[..k] + items + s[k + d..]
  }

  /** `s` with the element at index `i` removed. */
  function RemoveAt<T>(s: seq<T>, i: nat): (r: seq<T>)
    requires i < |s|
    ensures |r| == |s| - 1
  {
    s[..i] + s[i + 1..]
  }

  lemma MultisetRemoveAt<T>(s: seq<T>, i: nat)
    requires i < |s|
    ensures multiset(s) == multiset(RemoveAt(s, i)) + multiset{s[i]}
  {
    assert s == s[..i] + [s[i]] + s[i + 1..];
  }

  /** No element occurs twice, as in a JavaScript Set kept in insertion order. */
  predicate Distinct<T(==)>(s: seq<T>) {
    forall i, j :: 0 <= i < j < |s| ==> s[i] != s[j]
  }

  lemma DistinctConcat<T>(a: seq<T>, b: seq<T>)
    requires Distinct(a) && Distinct(b)
    requires forall x :: x in a ==> x !in b
    ensures Distinct(a + b)
  {
    forall i, j | 0 <= i < j < |a + b|
      ensures (a + b)[i] != (a + b)[j]
    {
      if i < |a| && j >= |a| {
        assert (a + b)[i] in a && (a + b)[j] in b;
      }
    }
  }
}
