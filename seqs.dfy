/** Generic sequence operations that stand for the Vec methods the core calls. */
module Seqs {
  import opened Wrappers

  /** `Vec::retain`: the elements of `s` that satisfy `keep`, in their original order. */
  function Retain<T(==)>(s: seq<T>, keep: T -> bool): (r: seq<T>)
    ensures |r| <= |s|
    ensures forall i :: 0 <= i < |r| ==> r[i] in s && keep(r[i])
    ensures forall i :: 0 <= i < |s| && keep(s[i]) ==> s[i] in r
  {
    if s == [] then [] else (if keep(s[0]) then [s[0]] else []) + Retain(s[1..], keep)
  }

  /** Retaining distributes over concatenation: together with RetainSingleton this
      pins Retain down as the order-preserving filter. */
  lemma {:induction false} RetainAppend<T>(a: seq<T>, b: seq<T>, keep: T -> bool)
    ensures Retain(a + b, keep) == Retain(a, keep) + Retain(b, keep)
  {
    if a == [] {
      assert a + b == b;
    } else {
      assert (a + b)[1..] == a[1..] + b;
      RetainAppend(a[1..], b, keep);
    }
  }

  lemma RetainSingleton<T>(x: T, keep: T -> bool)
    ensures Retain([x], keep) == if keep(x) then [x] else []
  {
    assert [x][1..] == [];
  }

  /** Retaining what every element satisfies changes nothing. */
  lemma {:induction false} RetainAll<T>(s: seq<T>, keep: T -> bool)
    requires forall i :: 0 <= i < |s| ==> keep(s[i])
    ensures Retain(s, keep) == s
  {
    if s != [] {
      RetainAll(s[1..], keep);
    }
  }

  /** When exactly one element fails `keep`, retaining is removing that element. */
  lemma {:induction false} RetainRemovesOne<T>(s: seq<T>, keep: T -> bool, i: nat)
    requires i < |s| && !keep(s[i])
    requires forall k :: 0 <= k < |s| && k != i ==> keep(s[k])
    ensures RemoveAt(s, i) == Retain(s, keep)
  {
    var tail := s[1..];
    if i == 0 {
      forall k | 0 <= k < |tail| ensures keep(tail[k]) {
        assert tail[k] == s[k + 1];
      }
      RetainAll(tail, keep);
      assert RemoveAt(s, 0) == tail;
    } else {
      forall k | 0 <= k < |tail| && k != i - 1 ensures keep(tail[k]) {
        assert tail[k] == s[k + 1];
      }
      RetainRemovesOne(tail, keep, i - 1);
      assert RemoveAt(s, i) == [s[0]] + RemoveAt(tail, i - 1);
    }
  }

  /** `Iterator::position`: the index of the first element satisfying `p`. */
  function Position<T>(s: seq<T>, p: T -> bool): (r: Option<nat>)
    ensures r.Some? ==> r.value < |s| && p(s[r.value])
    ensures r.Some? ==> forall j :: 0 <= j < r.value ==> !p(s[j])
    ensures r.None? <==> forall j :: 0 <= j < |s| ==> !p(s[j])
  {
    if s == [] then None
    else if p(s[0]) then Some(0)
    else match Position(s[1..], p)
      case None => None
      case Some(i) => Some(i + 1)
  }

  /** `Vec::remove(i)`: `s` without its element at index `i`. */
  function RemoveAt<T>(s: seq<T>, i: nat): (r: seq<T>)
    requires i < |s|
    ensures |r| == |s| - 1
    ensures forall j :: 0 <= j < i ==> r[j] == s[j]
    ensures forall j :: i <= j < |r| ==> r[j] == s[j + 1]
  {
    s[..i] + s[i + 1..]
  }
}
