/** Shared failure-compatible datatype: every `panic!`/`expect` of the source
    that depends on its input becomes a `None` of this type in the model. */
module Wrappers {

  datatype Option<+T> = None | Some(value: T)

  /** `f` on every element, failing when any application fails, as
      collecting an iterator of `Option`s does. */
  function MapAll<A, B>(xs: seq<A>, f: A -> Option<B>): (r: Option<seq<B>>)
    ensures r.Some? <==> forall i :: 0 <= i < |xs| ==> f(xs[i]).Some?
    ensures r.Some? ==> |r.value| == |xs|
    ensures r.Some? ==> forall i :: 0 <= i < |xs| ==> f(xs[i]) == Some(r.value[i])
  {
    if xs == [] then Some([])
    else
      var head := f(xs[0]);
      var tail := MapAll(xs[1..], f);
      assert forall i :: 1 <= i < |xs| ==> xs[1..][i - 1] == xs[i];
      if head.Some? && tail.Some? then Some([head.value] + tail.value)
      else None
  }
}
