/** The two small list and string helpers beside the codec. */
module Tools {
  import opened Common

  /** The in-order concatenation of lists. */
  function Concat<T>(lists: seq<seq<T>>): seq<T>
  {
    if lists == [] then [] else Concat(lists[..|lists| - 1]) + lists[|lists| - 1]
  }

  /** Concatenation distributes over splitting the argument lists. */
  lemma {:induction false} ConcatSplit<T>(a: seq<seq<T>>, b: seq<seq<T>>)
    ensures Concat(a + b) == Concat(a) + Concat(b)
    decreases |b|
  {
    if b == [] {
      assert a + b == a;
    } else {
      var b' := b[..|b| - 1];
      assert (a + b)[..|a + b| - 1] == a + b';
      ConcatSplit(a, b');
    }
  }

  /** An element is in the concatenation exactly when it is in one of the lists. */
  lemma {:induction false} ConcatMembers<T>(lists: seq<seq<T>>, x: T)
    ensures x in Concat(lists) <==> exists i :: 0 <= i < |lists| && x in lists[i]
    decreases |lists|
  {
    if lists != [] {
      var front := lists[..|lists| - 1];
      ConcatMembers(front, x);
      assert forall i :: 0 <= i < |front| ==> front[i] == lists[i];
    }
  }

  /** The length of the concatenation is the sum of the lengths. */
  function TotalLength<T>(lists: seq<seq<T>>): nat
  {
    if lists == [] then 0 else TotalLength(lists[..|lists| - 1]) + |lists[|lists| - 1]|
  }

  lemma {:induction false} ConcatLength<T>(lists: seq<seq<T>>)
    ensures |Concat(lists)| == TotalLength(lists)
    decreases |lists|
  {
    if lists != [] {
      ConcatLength(lists[..|lists| - 1]);
    }
  }

  /** `merge_list(*args, unique=...)`: `data += arg` for every argument in
      order; with `unique`, `list(set(data))`, whose order Python leaves
      unspecified, so only its elements are promised. */
  method MergeList<T(==)>(args: seq<seq<T>>, unique: bool) returns (data: seq<T>)
    ensures !unique ==> data == Concat(args)
    ensures unique ==> Distinct(data) && forall x :: x in data <==> x in Concat(args)
  {
    data := [];
    for i := 0 to |args|
      invariant data == Concat(args[..i])
    {
      assert args[..i + 1][..i] == args[..i];
      data := data + args[i];
    }
    assert args[..|args|] == args;
    if unique {
      var all := data;
      data := [];
      for i := 0 to |all|
        invariant Distinct(data)
        invariant forall x :: x in data <==> x in all[..i]
      {
        assert all[..i + 1] == all[..i] + [all[i]];
        if all[i] !in data {
          data := data + [all[i]];
        }
      }
      assert all[..|all|] == all;
    }
  }

  /** Python's `x in s` on strings: `x` occurs in `s` as a substring. */
  predicate Contains(s: string, x: string)
  {
    exists i :: 0 <= i <= |s| && x <= s[i..]
  }

  /** The empty string occurs in every string. */
  lemma ContainsEmpty(s: string)
    ensures Contains(s, "")
  {
    assert "" <= s[0..];
  }

  /** `verify_string(list_to_verify, string_to_verify)`: whether some element
      of the list occurs in the string. The loop looks at every element. */
  method VerifyString(listToVerify: seq<string>, stringToVerify: string) returns (found: bool)
    ensures found <==> exists k :: 0 <= k < |listToVerify| && Contains(stringToVerify, listToVerify[k])
    ensures |listToVerify| == 0 ==> !found
    ensures "" in listToVerify ==> found
  {
    found := false;
    for i := 0 to |listToVerify|
      invariant found <==> exists k :: 0 <= k < i && Contains(stringToVerify, listToVerify[k])
    {
      if Contains(stringToVerify, listToVerify[i]) {
        found := true;
      }
    }
    if "" in listToVerify {
      ContainsEmpty(stringToVerify);
    }
  }
}
