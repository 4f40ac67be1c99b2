/** The three queryset operations the engine relies on, over a table held as a sequence
    in id order: `.filter(P).first()`, `.filter(P).count()` and `.get(P)`. */
module Queries {
  import opened Entities

  /** The first row satisfying P, if any. */
  function FirstWhere<T>(s: seq<T>, P: T -> bool): (r: Option<nat>)
    ensures r.Some? ==> r.value < |s| && P(s[r.value]) && forall j :: 0 <= j < r.value ==> !P(s[j])
    ensures r.None? ==> forall j :: 0 <= j < |s| ==> !P(s[j])
    decreases |s|
  {
    if |s| == 0 then None
    else match FirstWhere(s[..|s| - 1], P)
      case Some(j) => Some(j)
      case None => if P(s[|s| - 1]) then Some(|s| - 1) else None
  }

  /** The number of rows satisfying P. */
  function CountWhere<T>(s: seq<T>, P: T -> bool): (n: nat)
    ensures n <= |s|
    ensures n == 0 <==> forall j :: 0 <= j < |s| ==> !P(s[j])
    decreases |s|
  {
    if |s| == 0 then 0
    else CountWhere(s[..|s| - 1], P) + (if P(s[|s| - 1]) then 1 else 0)
  }

  /** The count is the number of rows that satisfy P. */
  lemma {:induction false} CountWhereCounts<T>(s: seq<T>, P: T -> bool)
    ensures CountWhere(s, P) == |set j | 0 <= j < |s| && P(s[j])|
    decreases |s|
  {
    if |s| > 0 {
      var pre := s[..|s| - 1];
      CountWhereCounts(pre, P);
      var before := set j | 0 <= j < |pre| && P(pre[j]);
      var after := set j | 0 <= j < |s| && P(s[j]);
      if P(s[|s| - 1]) {
        assert after == before + {|s| - 1};
      } else {
        assert after == before;
      }
    }
  }

  /** `.get(P)`: the single row satisfying P; None stands for DoesNotExist and
      for MultipleObjectsReturned. */
  function GetWhere<T>(s: seq<T>, P: T -> bool): (r: Option<nat>)
    ensures r.Some? ==> r.value < |s| && P(s[r.value]) &&
                        forall k :: 0 <= k < |s| && k != r.value ==> !P(s[k])
    ensures r.None? ==> forall j :: 0 <= j < |s| && P(s[j]) ==>
                          exists k :: 0 <= k < |s| && k != j && P(s[k])
  {
    match FirstWhere(s, P)
    case None => None
    case Some(j) =>
      var later := FirstWhere(s[j + 1..], P);
      if later.None? then
        assert forall k :: j < k < |s| ==> s[k] == s[j + 1..][k - j - 1];
        Some(j)
      else
        assert P(s[j + 1 + later.value]);
        None
  }
}
