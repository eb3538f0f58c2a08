/** The failure result used wherever the Rust program would panic on `unwrap()`. */
module Wrappers {

  datatype Option<+T> = None | Some(value: T)

  /**
   * All the results, if every one is present, and otherwise none: the
   * effect of unwrapping each result of a sequence in turn.
   */
  function AllOrNone<T>(rs: seq<Option<T>>): (r: Option<seq<T>>)
    ensures r.Some? <==> forall i :: 0 <= i < |rs| ==> rs[i].Some?
    ensures r.Some? ==> |r.value| == |rs| && forall i :: 0 <= i < |rs| ==> r.value[i] == rs[i].value
  {
    if rs == [] then Some([])
    else
      var init, last := AllOrNone(rs[..|rs| - 1]), rs[|rs| - 1];
      if init.Some? && last.Some? then Some(init.value + [last.value]) else None
  }
}
