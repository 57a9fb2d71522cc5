/** Python's built-in list operations that the core relies on:
    `list.index`, `del l[i]` and `list.remove`, and the list object itself. */
module PyLists {
  import opened Wrappers

  /** `s.index(x)`: the least index holding `x`, or None where Python raises ValueError. */
  function IndexOf<T(==)>(s: seq<T>, x: T): (r: Option<nat>)
    ensures r.None? <==> x !in s
    ensures r.Some? ==> r.value < |s| && s[r.value] == x && x !in s[..r.value]
  {
    if |s| == 0 then None
    else if s[0] == x then Some(0)
    else match IndexOf(s[1..], x)
      case None => None
      case Some(i) =>
        assert s[1..][..i] == s[1..i + 1];
        assert s[..i + 1] == [s[0]] + s[1..i + 1];
        Some(i + 1)
  }

  /** `del s[i]`. */
  function RemoveAt<T>(s: seq<T>, i: nat): (r: seq<T>)
    requires i < |s|
  {
    s[..i] + s[i + 1..]
  }

  /** `s.remove(x)`: deletes the first element equal to `x` (Python raises ValueError when there is none). */
  function RemoveFirst<T(==)>(s: seq<T>, x: T): (r: seq<T>)
    requires x in s
  {
    RemoveAt(s, IndexOf(s, x).value)
  }

  /** Deleting index `i` keeps the elements before `i`, shifts the ones after it down by one
      and removes exactly one copy of `s[i]`. */
  lemma RemoveAtShape<T>(s: seq<T>, i: nat)
    requires i < |s|
    ensures |RemoveAt(s, i)| == |s| - 1
    ensures forall k :: 0 <= k < i ==> RemoveAt(s, i)[k] == s[k]
    ensures forall k :: i <= k < |s| - 1 ==> RemoveAt(s, i)[k] == s[k + 1]
    ensures multiset(RemoveAt(s, i)) == multiset(s) - multiset{s[i]}
  {
    assert s == s[..i] + [s[i]] + s[i + 1..];
    calc {
      multiset(s);
      multiset(s[..i] + [s[i]] + s[i + 1..]);
      multiset(s[..i]) + multiset{s[i]} + multiset(s[i + 1..]);
      multiset(RemoveAt(s, i)) + multiset{s[i]};
    }
  }

  /** `s.remove(x)` deletes the first occurrence only: the earlier elements are unchanged,
      the later ones keep their order, the list is one shorter and holds one copy fewer of `x`. */
  lemma RemoveFirstShape<T>(s: seq<T>, x: T)
    requires x in s
    ensures var i := IndexOf(s, x).value;
      && RemoveFirst(s, x) == s[..i] + s[i + 1..]
      && x !in s[..i]
      && |RemoveFirst(s, x)| == |s| - 1
      && multiset(RemoveFirst(s, x)) == multiset(s) - multiset{x}
  {
    RemoveAtShape(s, IndexOf(s, x).value);
  }

  /** Putting `x` back where `s.remove(x)` took it out gives the original list. */
  lemma RemoveFirstUndone<T>(s: seq<T>, x: T)
    requires x in s
    ensures var i := IndexOf(s, x).value;
      RemoveFirst(s, x)[..i] + [x] + RemoveFirst(s, x)[i..] == s
  {
    var i := IndexOf(s, x).value;
    var r := RemoveFirst(s, x);
    assert r[..i] == s[..i];
    assert r[i..] == s[i + 1..];
    assert s == s[..i] + [s[i]] + s[i + 1..];
  }

  /** When no element before index `i` equals `s[i]`, `s.remove(s[i])` deletes exactly
      index `i`. */
  lemma RemoveFirstOfFirstHit<T>(s: seq<T>, i: nat)
    requires i < |s|
    requires forall j :: 0 <= j < i ==> s[j] != s[i]
    ensures RemoveFirst(s, s[i]) == RemoveAt(s, i)
  {
  }

  /** A Python list object: callers share it, and operations such as `del` change it in place. */
  class PyList<T> {
    var elems: seq<T>

    constructor (elems: seq<T>)
      ensures this.elems == elems
    {
      this.elems := elems;
    }
  }
}
