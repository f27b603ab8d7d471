/** Sizes of finite sets. */
module Finite {
  function UpTo(limit: nat): (s: set<nat>)
    ensures |s| == limit + 1 && forall e: nat :: e in s <==> e <= limit
  {
    if limit == 0 then {0} else UpTo(limit - 1) + {limit}
  }

  lemma {:induction false} SubsetSize<T>(a: set<T>, b: set<T>)
    requires a <= b
    ensures |a| <= |b|
    decreases |a|
  {
    if a != {} {
      var x :| x in a;
      SubsetSize(a - {x}, b - {x});
    }
  }
}
