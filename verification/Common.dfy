/** What several components share: optional values, duplicate-free lists, and the part of a list
    above an id. */
module Common {

  datatype Option<+T> = None | Some(value: T)

  ghost predicate NoDup<T>(s: seq<T>) {
    forall i, j :: 0 <= i < j < |s| ==> s[i] != s[j]
  }

  /** The elements with an id greater than the argument, in order. */
  function Above<T>(s: seq<T>, key: T -> nat, id: nat): seq<T> {
    if s == [] then []
    else
      var rest := Above(s[..|s| - 1], key, id);
      if key(s[|s| - 1]) > id then rest + [s[|s| - 1]] else rest
  }

  /** Where the ids cross the argument at one point, these are the suffix from that point. */
  lemma {:induction false} AboveIsSuffix<T>(s: seq<T>, key: T -> nat, id: nat, k: nat)
    requires k <= |s| && forall i :: 0 <= i < |s| ==> (key(s[i]) > id <==> i >= k)
    ensures Above(s, key, id) == s[k..]
  {
    if s != [] {
      var front := s[..|s| - 1];
      if k < |s| {
        AboveIsSuffix(front, key, id, k);
        assert s[k..] == front[k..] + [s[|s| - 1]];
      } else {
        AboveIsSuffix(front, key, id, |front|);
      }
    }
  }
}
