/** The optional value both scripts return where Python returns None. */
module Wrappers {
  datatype Option<+T> = None | Some(value: T) {
    function GetOr(default: T): T {
      match this
      case Some(v) => v
      case None => default
    }
  }

  /** The values of the results that are present, in order. */
  function Somes<T>(rs: seq<Option<T>>): seq<T> {
    if rs == [] then []
    else Somes(rs[..|rs| - 1]) + (if rs[|rs| - 1].Some? then [rs[|rs| - 1].value] else [])
  }

  lemma SomesSnoc<T>(rs: seq<Option<T>>, r: Option<T>)
    ensures Somes(rs + [r]) == Somes(rs) + (if r.Some? then [r.value] else [])
  {
    assert (rs + [r])[..|rs|] == rs;
  }

  /** A value is among the present ones exactly when some result holds it. */
  lemma {:induction false} SomesMembers<T>(rs: seq<Option<T>>, x: T)
    ensures x in Somes(rs) <==> Some(x) in rs
  {
    if rs != [] {
      var init := rs[..|rs| - 1];
      SomesMembers(init, x);
      assert rs == init + [rs[|rs| - 1]];
    }
  }
}
