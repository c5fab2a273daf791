/** Searching a sequence, shared by dict lookup and branch dispatch. */
module Seqs {
  import opened Wrappers

  /** The position of the first element satisfying `p`, if any. */
  function FirstIndex<T>(s: seq<T>, p: T -> bool): (m: Option<nat>)
    ensures m.Some? ==> m.value < |s| && p(s[m.value])
    ensures m.Some? ==> forall j :: 0 <= j < m.value ==> !p(s[j])
    ensures m.None? <==> forall j :: 0 <= j < |s| ==> !p(s[j])
  {
    if |s| == 0 then None
    else if p(s[0]) then Some(0)
    else
      match FirstIndex(s[1..], p)
      case None => None
      case Some(i) => Some(i + 1)
  }
}
