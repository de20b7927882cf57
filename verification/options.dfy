/** The optional value used wherever the scripts return `None` or skip an
    item, and the filter-and-map pattern of "parse each, keep the ones that
    parse". */
module Options {
  datatype Option<+T> = None | Some(value: T)

  /** Apply `f` to every element and keep the `Some` results, in order. */
  function FilterMap<A, B>(f: A -> Option<B>, xs: seq<A>): (r: seq<B>)
    ensures |r| <= |xs|
  {
    if |xs| == 0 then []
    else (if f(xs[0]).Some? then [f(xs[0]).value] else []) + FilterMap(f, xs[1..])
  }

  lemma {:induction false} FilterMapAppend<A, B>(f: A -> Option<B>, a: seq<A>, b: seq<A>)
    ensures FilterMap(f, a + b) == FilterMap(f, a) + FilterMap(f, b)
  {
    if |a| == 0 {
      assert a + b == b;
    } else {
      var h: seq<B> := if f(a[0]).Some? then [f(a[0]).value] else [];
      assert (a + b)[0] == a[0];
      assert (a + b)[1..] == a[1..] + b;
      assert FilterMap(f, a + b) == h + FilterMap(f, a[1..] + b);
      FilterMapAppend(f, a[1..], b);
      assert FilterMap(f, a) == h + FilterMap(f, a[1..]);
    }
  }
}
