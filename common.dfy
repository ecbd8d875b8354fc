/** Small shared vocabulary: optional values, results with errors, and the
    sequence facts that Python's list and dict operations rely on. */
module Common {

  datatype Option<T> = None | Some(value: T)

  datatype Result<T, E> = Ok(value: T) | Err(error: E)

  /** No element occurs twice. */
  predicate Distinct<T(==)>(s: seq<T>)
  {
    forall i, j :: 0 <= i < j < |s| ==> s[i] != s[j]
  }

  lemma DistinctAppend<T>(s: seq<T>, x: T)
    requires Distinct(s) && x !in s
    ensures Distinct(s + [x])
  {
  }

  /** `list.index(x)`: the position of the first occurrence of `x`, or None
      where Python raises ValueError. */
  function FirstIndex<T(==)>(s: seq<T>, x: T): (r: Option<nat>)
    ensures r.None? <==> x !in s
    ensures r.Some? ==> r.value < |s| && s[r.value] == x
    ensures r.Some? ==> forall j :: 0 <= j < r.value ==> s[j] != x
  {
    if |s| == 0 then None
    else if s[0] == x then Some(0)
    else match FirstIndex(s[1..], x)
      case None => None
      case Some(j) => Some(j + 1)
  }

  /** In a sequence without repeats, the first occurrence of `s[i]` is `i`. */
  lemma FirstIndexOfDistinct<T>(s: seq<T>, i: nat)
    requires Distinct(s) && i < |s|
    ensures FirstIndex(s, s[i]) == Some(i)
  {
  }

  /** Appending an element other than `x` does not move the first `x`. */
  lemma FirstIndexAppend<T>(s: seq<T>, y: T, x: T)
    requires x != y
    ensures FirstIndex(s + [y], x) == FirstIndex(s, x)
  {
    var a, b := FirstIndex(s + [y], x), FirstIndex(s, x);
    if b.Some? {
      assert (s + [y])[b.value] == x;
    }
    if a.Some? {
      assert a.value < |s|;
      assert s[a.value] == x;
    }
  }

  /** `"".join(parts)`. */
  function Join(parts: seq<string>): string
  {
    if parts == [] then [] else parts[0] + Join(parts[1..])
  }
}
