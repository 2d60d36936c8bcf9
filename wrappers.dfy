/** Optional values (Python's None and dictionary keys that may be missing)
    and keeping the present results of a partial map. */
module Wrappers {
  datatype Option<+T> = None | Some(value: T)

  /** The present values of `f` over `xs`, in order. */
  function FilterMap<T, U>(xs: seq<T>, f: T -> Option<U>): (r: seq<U>)
    ensures |r| <= |xs|
  {
    if xs == [] then [] else FilterMap(xs[..|xs| - 1], f) + Present(f(xs[|xs| - 1]))
  }

  /** [v] for Some(v), [] for None. */
  function Present<U>(o: Option<U>): (r: seq<U>)
    ensures |r| == if o.Some? then 1 else 0
  {
    if o.Some? then [o.value] else []
  }

  lemma {:induction false} FilterMapMembers<T, U>(xs: seq<T>, f: T -> Option<U>)
    ensures forall y :: y in FilterMap(xs, f) <==> exists i :: 0 <= i < |xs| && f(xs[i]) == Some(y)
  {
    if xs != [] {
      var init := xs[..|xs| - 1];
      FilterMapMembers(init, f);
      assert forall i :: 0 <= i < |init| ==> xs[i] == init[i];
      forall y ensures y in FilterMap(xs, f) <==> exists i :: 0 <= i < |xs| && f(xs[i]) == Some(y) {
        if y in FilterMap(xs, f) && y !in FilterMap(init, f) {
          assert f(xs[|xs| - 1]) == Some(y);
        }
        if exists i :: 0 <= i < |xs| && f(xs[i]) == Some(y) {
          var i :| 0 <= i < |xs| && f(xs[i]) == Some(y);
          if i < |init| {
            assert f(init[i]) == Some(y);
          }
        }
      }
    }
  }
}
