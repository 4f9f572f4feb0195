/** Option and Result, used for Python's None / NaN and for raised errors. */
module Wrappers {

  datatype Option<+T> = None | Some(value: T)

  datatype Result<+R, +E> = Success(value: R) | Failure(error: E)

  /** The present values of `xs`, in order: a comprehension that skips the missing ones. */
  function Present<T>(xs: seq<Option<T>>): (ys: seq<T>)
    ensures |ys| <= |xs|
    ensures ys == [] <==> forall k :: 0 <= k < |xs| ==> xs[k].None?
  {
    if xs == [] then []
    else
      var n := |xs| - 1;
      assert forall k :: 0 <= k < n ==> xs[..n][k] == xs[k];
      Present(xs[..n]) + if xs[n].Some? then [xs[n].value] else []
  }

  lemma PresentSnoc<T>(xs: seq<Option<T>>, x: Option<T>)
    ensures Present(xs + [x]) == Present(xs) + if x.Some? then [x.value] else []
  {
    assert (xs + [x])[..|xs|] == xs;
  }

  /** Filtering one element more of a prefix adds that element when it is present. */
  lemma PresentPrefixStep<T>(xs: seq<Option<T>>, j: nat)
    requires j < |xs|
    ensures Present(xs[..j + 1]) == Present(xs[..j]) + if xs[j].Some? then [xs[j].value] else []
  {
    assert xs[..j + 1] == xs[..j] + [xs[j]];
    PresentSnoc(xs[..j], xs[j]);
  }

  /** Every value kept is present in `xs`, and every value present in `xs` is kept. */
  lemma {:induction false} PresentProvenance<T>(xs: seq<Option<T>>)
    ensures forall y :: y in Present(xs) ==> exists k :: 0 <= k < |xs| && xs[k] == Some(y)
    ensures forall k :: 0 <= k < |xs| && xs[k].Some? ==> xs[k].value in Present(xs)
  {
    if xs != [] {
      var n := |xs| - 1;
      PresentProvenance(xs[..n]);
      assert forall k :: 0 <= k < n ==> xs[..n][k] == xs[k];
    }
  }

  /** Values present at distinct positions with distinct keys keep distinct keys. */
  lemma {:induction false} PresentDistinct<T, K>(xs: seq<Option<T>>, key: T -> K)
    requires forall a, b :: 0 <= a < b < |xs| && xs[a].Some? && xs[b].Some? ==> key(xs[a].value) != key(xs[b].value)
    ensures forall a, b :: 0 <= a < b < |Present(xs)| ==> key(Present(xs)[a]) != key(Present(xs)[b])
  {
    if xs != [] {
      var n := |xs| - 1;
      var pre := xs[..n];
      assert forall k :: 0 <= k < n ==> pre[k] == xs[k];
      PresentDistinct(pre, key);
      var ys, init := Present(xs), Present(pre);
      if xs[n].Some? {
        assert ys == init + [xs[n].value];
        PresentProvenance(pre);
        forall a | 0 <= a < |init|
          ensures key(ys[a]) != key(xs[n].value)
        {
          assert ys[a] == init[a] && init[a] in init;
          var k :| 0 <= k < |pre| && pre[k] == Some(init[a]);
          assert xs[k] == Some(init[a]);
        }
        forall a, b | 0 <= a < b < |ys|
          ensures key(ys[a]) != key(ys[b])
        {
          if b < |init| {
            assert ys[a] == init[a] && ys[b] == init[b];
          }
        }
      } else {
        assert ys == init;
      }
    }
  }
}
