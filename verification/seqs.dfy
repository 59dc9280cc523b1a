/** Generic sequence vocabulary: order-preserving filtering (the source's
    `Array.prototype.filter`), subsequences, suffixes, bounded tails and
    substring search (`String.prototype.includes`), and concatenation of
    blocks. */
module Seqs {

  function Min(a: int, b: int): int {
    if a <= b then a else b
  }

  /** `a` is obtained from `b` by deleting elements, keeping the rest in order. */
  predicate IsSubsequence<T(==)>(a: seq<T>, b: seq<T>)
    decreases |b|
  {
    if |a| == 0 then true
    else if |b| == 0 then false
    else if a[0] == b[0] then IsSubsequence(a[1..], b[1..])
    else IsSubsequence(a, b[1..])
  }

  /** `a` is a (contiguous) tail of `b`. */
  predicate IsSuffix<T(==)>(a: seq<T>, b: seq<T>) {
    |a| <= |b| && b[|b| - |a|..] == a
  }

  /** Keeps exactly the elements satisfying `keep`, in their original order,
      with their original multiplicities. */
  function Filter<T(==,!new)>(s: seq<T>, keep: T -> bool): (r: seq<T>)
    ensures |r| <= |s|
    ensures forall x :: x in r <==> x in s && keep(x)
    ensures forall x :: keep(x) ==> multiset(r)[x] == multiset(s)[x]
    ensures IsSubsequence(r, s)
  {
    if |s| == 0 then []
    else
      assert s == [s[0]] + s[1..];
      var rest := Filter(s[1..], keep);
      if keep(s[0]) then [s[0]] + rest else rest
  }

  /** Filtering a list with a new first element. */
  lemma FilterCons<T(!new)>(x: T, s: seq<T>, keep: T -> bool)
    ensures keep(x) ==> Filter([x] + s, keep) == [x] + Filter(s, keep)
    ensures !keep(x) ==> Filter([x] + s, keep) == Filter(s, keep)
  {
    assert ([x] + s)[1..] == s;
  }

  /** When every element is kept, filtering changes nothing. */
  lemma {:induction false} FilterAllKept<T(!new)>(s: seq<T>, keep: T -> bool)
    requires forall i :: 0 <= i < |s| ==> keep(s[i])
    ensures Filter(s, keep) == s
  {
    if |s| > 0 {
      FilterAllKept(s[1..], keep);
    }
  }

  /** The last `n` elements of `s` (all of `s` when it is shorter). */
  function LastN<T>(s: seq<T>, n: nat): (r: seq<T>)
    ensures |r| == Min(|s|, n)
    ensures IsSuffix(r, s)
  {
    if |s| <= n then s else s[|s| - n..]
  }

  /** Keeping the last `n` before or after appending more gives the same tail. */
  lemma LastNAppend<T>(a: seq<T>, b: seq<T>, n: nat)
    ensures LastN(LastN(a, n) + b, n) == LastN(a + b, n)
  {
    if |a| > n {
      var t := a[|a| - n..];
      var y := t + b;
      var s := a + b;
      var l := y[|y| - n..];
      var m := s[|s| - n..];
      forall i | 0 <= i < n ensures l[i] == m[i] {
        if |y| - n + i < |t| {
          assert l[i] == t[|y| - n + i];
        } else {
          assert l[i] == b[|y| - n + i - |t|];
        }
        assert m[i] == s[|s| - n + i];
      }
    }
  }

  /** `sub` occurs in `s` at position `i`. */
  predicate OccursAt<T(==)>(s: seq<T>, sub: seq<T>, i: int) {
    0 <= i && i + |sub| <= |s| && s[i..i + |sub|] == sub
  }

  /** `s` contains `sub` as a contiguous block (`s.includes(sub)`). */
  function Contains<T(==)>(s: seq<T>, sub: seq<T>): (b: bool)
    ensures b <==> exists i :: OccursAt(s, sub, i)
    decreases |s|
  {
    if sub <= s then
      assert OccursAt(s, sub, 0);
      true
    else if |s| == 0 then false
    else
      var b := Contains(s[1..], sub);
      if b then
        var i :| OccursAt(s[1..], sub, i);
        assert OccursAt(s, sub, i + 1);
        true
      else
        assert forall i :: OccursAt(s, sub, i) ==> i == 0 || OccursAt(s[1..], sub, i - 1);
        false
  }

  /** The blocks of `bs` laid end to end, in order. */
  function Concat<T>(bs: seq<seq<T>>): seq<T>
    decreases |bs|
  {
    if |bs| == 0 then [] else bs[0] + Concat(bs[1..])
  }

  /** Concatenating two runs of blocks concatenates their results. */
  lemma {:induction false} ConcatAppend<T>(a: seq<seq<T>>, b: seq<seq<T>>)
    ensures Concat(a + b) == Concat(a) + Concat(b)
    decreases |a|
  {
    if |a| == 0 {
      assert a + b == b;
    } else {
      ConcatAppend(a[1..], b);
      assert (a + b)[1..] == a[1..] + b;
    }
  }

  /** Block `k` sits in the concatenation right after the blocks before it. */
  lemma ConcatAt<T>(bs: seq<seq<T>>, k: nat)
    requires k < |bs|
    ensures |Concat(bs[..k])| + |bs[k]| <= |Concat(bs)|
    ensures Concat(bs)[|Concat(bs[..k])|..|Concat(bs[..k])| + |bs[k]|] == bs[k]
  {
    var before := Concat(bs[..k]);
    var after := Concat(bs[k + 1..]);
    assert bs == bs[..k] + ([bs[k]] + bs[k + 1..]);
    ConcatAppend(bs[..k], [bs[k]] + bs[k + 1..]);
    ConcatAppend([bs[k]], bs[k + 1..]);
    assert [bs[k]][1..] == [];
    var whole := before + (bs[k] + after);
    assert whole[|before|..|before| + |bs[k]|] == bs[k];
    SliceOfEqual(Concat(bs), whole, |before|, |before|, |bs[k]|, bs[k]);
  }

  /** Block `k`, found at a known offset. */
  lemma ConcatAtOffset<T>(bs: seq<seq<T>>, k: nat, o: nat, x: seq<T>)
    requires k < |bs| && bs[k] == x && |Concat(bs[..k])| == o
    ensures o + |x| <= |Concat(bs)| && Concat(bs)[o..o + |x|] == x
  {
    ConcatAt(bs, k);
  }

  /** What holds of every element of every block holds of every element of
      the concatenation. */
  lemma {:induction false} ConcatAll<T>(bs: seq<seq<T>>, P: T -> bool)
    requires forall k, j :: 0 <= k < |bs| && 0 <= j < |bs[k]| ==> P(bs[k][j])
    ensures forall i :: 0 <= i < |Concat(bs)| ==> P(Concat(bs)[i])
    decreases |bs|
  {
    if |bs| > 0 {
      var tail := bs[1..];
      forall k, j | 0 <= k < |tail| && 0 <= j < |tail[k]| ensures P(tail[k][j]) {
        assert tail[k] == bs[k + 1];
      }
      ConcatAll(tail, P);
      var c := Concat(bs);
      forall i | 0 <= i < |c| ensures P(c[i]) {
        if i < |bs[0]| {
          assert c[i] == bs[0][i];
        } else {
          assert c[i] == Concat(tail)[i - |bs[0]|];
        }
      }
    }
  }

  /** Rewriting a slice through equal sequences and equal offsets. */
  lemma SliceOfEqual<T>(s: seq<T>, t: seq<T>, a: nat, b: nat, len: nat, x: seq<T>)
    requires s == t && a == b && b + len <= |t| && t[b..b + len] == x
    ensures a + len <= |s| && s[a..a + len] == x
  {
  }

  /** A slice of `s` is unchanged by appending to `s`. */
  lemma SliceOfPrefix<T>(s: seq<T>, t: seq<T>, o: nat, len: nat, x: seq<T>)
    requires o + len <= |s| && s[o..o + len] == x
    ensures o + len + |t| <= |s + t|
    ensures (s + t)[o..o + len] == x
  {
    assert (s + t)[o..o + len] == s[o..o + len];
  }
}
