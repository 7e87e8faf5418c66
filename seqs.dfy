/** Sequence helpers shared by the lobby and the gateway: the
    `removeByIndex` helper of src/app.gateway.ts and an option type. */
module Seqs {

  datatype Option<+T> = None | Some(value: T)

  /** `removeByIndex`: a copy of the sequence without the element at the
      index, the others in order. Every caller passes an index it found. */
  function RemoveByIndex<T>(s: seq<T>, i: int): (r: seq<T>)
    requires 0 <= i < |s|
    ensures |r| == |s| - 1
    ensures forall k :: 0 <= k < i ==> r[k] == s[k]
    ensures forall k :: i <= k < |r| ==> r[k] == s[k + 1]
  {
    s[..i] + s[i + 1..]
  }

  /** `removeByIndex` drops exactly the element at the index: nothing is
      lost or duplicated. */
  lemma RemoveByIndexMultiset<T>(s: seq<T>, i: int)
    requires 0 <= i < |s|
    ensures multiset(RemoveByIndex(s, i)) + multiset{s[i]} == multiset(s)
  {
    assert s == s[..i] + [s[i]] + s[i + 1..];
  }

  /** Putting the removed element back at its index restores the sequence. */
  lemma RemoveByIndexInverse<T>(s: seq<T>, i: int)
    requires 0 <= i < |s|
    ensures RemoveByIndex(s, i)[..i] + [s[i]] + RemoveByIndex(s, i)[i..] == s
  {
    var r := RemoveByIndex(s, i);
    var t := r[..i] + [s[i]] + r[i..];
    assert |t| == |s|;
    forall k | 0 <= k < |s| ensures t[k] == s[k] {
      if k < i {
      } else if k == i {
      } else {
        assert t[k] == r[k - 1];
      }
    }
  }

  /** No element occurs twice. */
  predicate AllDistinct<T(==)>(s: seq<T>) {
    forall a, b :: 0 <= a < b < |s| ==> s[a] != s[b]
  }

  /** Removing one element of a sequence of pairwise distinct elements
      keeps them pairwise distinct. */
  lemma RemoveByIndexDistinct<T>(s: seq<T>, i: int)
    requires 0 <= i < |s| && AllDistinct(s)
    ensures AllDistinct(RemoveByIndex(s, i))
  {
    var r := RemoveByIndex(s, i);
    forall a, b | 0 <= a < b < |r| ensures r[a] != r[b] {
      var a' := if a < i then a else a + 1;
      var b' := if b < i then b else b + 1;
      assert r[a] == s[a'] && r[b] == s[b'] && a' < b';
    }
  }

  /** Appending an element not yet present keeps the elements pairwise distinct. */
  lemma AppendDistinct<T>(s: seq<T>, x: T)
    requires AllDistinct(s) && x !in s
    ensures AllDistinct(s + [x])
  {
    var r := s + [x];
    forall a, b | 0 <= a < b < |r| ensures r[a] != r[b] {
      assert r[a] == s[a];
      if b < |s| {
        assert r[b] == s[b];
      }
    }
  }
}
