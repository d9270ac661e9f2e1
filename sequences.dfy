/**
 * Keeping, in order, the results of a partial step over a list: the shape
 * of a loop that appends to a list only for the items that pass.
 */
module Sequences {
  import opened Wrappers

  function FilterMap<A, B>(f: A -> Option<B>, s: seq<A>): (r: seq<B>)
    ensures |r| <= |s|
  {
    if s == [] then []
    else
      var here := f(s[|s| - 1]);
      FilterMap(f, s[..|s| - 1]) + (if here.Some? then [here.value] else [])
  }

  /** Each item is judged on its own: the result distributes over concatenation. */
  lemma {:induction false} FilterMapAppend<A, B>(f: A -> Option<B>, a: seq<A>, b: seq<A>)
    ensures FilterMap(f, a + b) == FilterMap(f, a) + FilterMap(f, b)
  {
    if b == [] {
      assert a + b == a;
    } else {
      var n := |b| - 1;
      FilterMapAppend(f, a, b[..n]);
      assert (a + b)[..|a + b| - 1] == a + b[..n];
    }
  }

  /** A value is in the result exactly when some item yields it. */
  lemma {:induction false} FilterMapMembers<A, B>(f: A -> Option<B>, s: seq<A>, y: B)
    ensures y in FilterMap(f, s) <==> exists i | 0 <= i < |s| :: f(s[i]) == Some(y)
  {
    if s != [] {
      var n := |s| - 1;
      var init := s[..n];
      FilterMapMembers(f, init, y);
      if y in FilterMap(f, init) {
        var i :| 0 <= i < n && f(init[i]) == Some(y);
        assert s[i] == init[i];
      } else if f(s[n]) != Some(y) {
        forall i | 0 <= i < |s| ensures f(s[i]) != Some(y) {
          if i < n {
            assert s[i] == init[i];
          }
        }
      }
    }
  }

  /** Nothing passes, nothing is kept. */
  lemma {:induction false} FilterMapNone<A, B>(f: A -> Option<B>, s: seq<A>)
    requires forall i | 0 <= i < |s| :: f(s[i]).None?
    ensures FilterMap(f, s) == []
  {
    if s != [] {
      FilterMapNone(f, s[..|s| - 1]);
    }
  }
}
