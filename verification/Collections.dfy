/** Searching a sequence, and listing a set. */
module Collections {
  import opened Wrappers

  /** The first position whose element satisfies p, as a `for` loop with a `return` finds it. */
  function FirstWhere<T>(xs: seq<T>, p: T -> bool): (r: Option<nat>)
    ensures r.Some? ==> r.value < |xs| && p(xs[r.value]) && forall i :: 0 <= i < r.value ==> !p(xs[i])
    ensures r.None? ==> forall i :: 0 <= i < |xs| ==> !p(xs[i])
  {
    if xs == [] then None
    else
      var r := FirstWhere(xs[..|xs| - 1], p);
      if r.Some? then r else if p(xs[|xs| - 1]) then Some(|xs| - 1) else None
  }

  /** `list(s)` for a set: every member once, in some order. */
  method ListOf<T(==)>(s: set<T>) returns (list: seq<T>)
    ensures forall x :: x in list <==> x in s
    ensures forall i, j :: 0 <= i < j < |list| ==> list[i] != list[j]
  {
    list := [];
    var rest := s;
    while rest != {}
      invariant forall x :: x in s <==> x in list || x in rest
      invariant forall x :: x in list ==> x !in rest
      invariant forall i, j :: 0 <= i < j < |list| ==> list[i] != list[j]
      decreases |rest|
    {
      var x :| x in rest;
      rest := rest - {x};
      list := list + [x];
    }
  }
}
