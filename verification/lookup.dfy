/** `Array.prototype.find` keyed on a string field, as both configuration
    tables are searched. */
module Lookup {
  import opened Wrappers

  /** No two entries share a key. */
  predicate KeysDistinct<T>(xs: seq<T>, key: T -> string) {
    forall i, j :: 0 <= i < j < |xs| ==> key(xs[i]) != key(xs[j])
  }

  /** `xs.find(x => key(x) === k)`: the first entry whose key is `k`, or nothing
      when no entry has that key. */
  function FindBy<T>(xs: seq<T>, key: T -> string, k: string): (r: Option<T>)
    ensures r.Some? ==> key(r.value) == k && r.value in xs
    ensures r.None? <==> forall i :: 0 <= i < |xs| ==> key(xs[i]) != k
    ensures r.Some? ==> exists i :: 0 <= i < |xs| && xs[i] == r.value
                                     && forall j :: 0 <= j < i ==> key(xs[j]) != k
  {
    if |xs| == 0 then None
    else if key(xs[0]) == k then Some(xs[0])
    else
      FindBy(xs[1..], key, k)
  }

  /** With distinct keys, the entry found is the one and only entry with the
      key asked for. */
  lemma {:induction false} FindByUnique<T>(xs: seq<T>, key: T -> string, i: nat)
    requires KeysDistinct(xs, key)
    requires i < |xs|
    ensures FindBy(xs, key, key(xs[i])) == Some(xs[i])
  {
    if i > 0 {
      assert key(xs[0]) != key(xs[i]);
      FindByUnique(xs[1..], key, i - 1);
    }
  }
}
