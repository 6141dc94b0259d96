/**
 * The list comprehensions of the program, over any element function:
 * [f(x) for x in xs], and the same where f may raise, in which case the
 * whole comprehension raises.
 */
module Lists {
  import opened Wrappers

  /** [f(x) for x in xs], built by appending one result after another. */
  function Map<A, B>(f: A -> B, xs: seq<A>): (r: seq<B>)
    ensures |r| == |xs|
  {
    if xs == [] then [] else Map(f, xs[..|xs| - 1]) + [f(xs[|xs| - 1])]
  }

  /** The i-th result is f of the i-th element. */
  lemma {:induction false} MapAt<A, B>(f: A -> B, xs: seq<A>)
    ensures forall i :: 0 <= i < |xs| ==> Map(f, xs)[i] == f(xs[i])
  {
    if xs != [] {
      var init := xs[..|xs| - 1];
      MapAt(f, init);
      assert forall i :: 0 <= i < |init| ==> init[i] == xs[i];
    }
  }

  lemma MapOne<A, B>(f: A -> B, x: A)
    ensures Map(f, [x]) == [f(x)]
  {
  }

  /** Mapping one more element appends its image. */
  lemma MapPrefix<A, B>(f: A -> B, xs: seq<A>, i: nat)
    requires i < |xs|
    ensures Map(f, xs[..i + 1]) == Map(f, xs[..i]) + [f(xs[i])]
  {
    assert xs[..i + 1][..i] == xs[..i];
  }

  lemma MapConcat<A, B>(f: A -> B, a: seq<A>, b: seq<A>)
    ensures Map(f, a + b) == Map(f, a) + Map(f, b)
  {
    MapAt(f, a + b);
    MapAt(f, a);
    MapAt(f, b);
    var l, r := Map(f, a + b), Map(f, a) + Map(f, b);
    assert forall i :: 0 <= i < |a| ==> l[i] == f(a[i]) == r[i];
    assert forall i :: |a| <= i < |l| ==> (a + b)[i] == b[i - |a|];
  }

  lemma MapDrop<A, B>(f: A -> B, xs: seq<A>, k: nat)
    requires k <= |xs|
    ensures Map(f, xs)[k..] == Map(f, xs[k..])
  {
    MapAt(f, xs);
    MapAt(f, xs[k..]);
    var m, r := Map(f, xs), Map(f, xs[k..]);
    forall i | 0 <= i < |r| ensures m[k..][i] == r[i] {
      assert xs[k..][i] == xs[k + i];
    }
  }

  /**
   * [f(x) for x in xs] where f(x) may raise (None): the list of all results
   * when every one of them succeeds, otherwise None.
   */
  function MapAll<A, B>(f: A -> Option<B>, xs: seq<A>): (r: Option<seq<B>>)
    ensures r.Some? <==> forall i :: 0 <= i < |xs| ==> f(xs[i]).Some?
    ensures r.Some? ==> |r.value| == |xs|
    ensures r.Some? ==> forall i :: 0 <= i < |xs| ==> f(xs[i]) == Some(r.value[i])
  {
    if xs == [] then Some([])
    else
      var head := f(xs[0]);
      var rest := MapAll(f, xs[1..]);
      assert forall i :: 1 <= i < |xs| ==> xs[i] == xs[1..][i - 1];
      if head.Some? && rest.Some? then Some([head.value] + rest.value) else None
  }

  /** The comprehension is element by element, so it distributes over concatenation. */
  lemma MapAllConcat<A, B>(f: A -> Option<B>, a: seq<A>, b: seq<A>)
    requires MapAll(f, a).Some? && MapAll(f, b).Some?
    ensures MapAll(f, a + b) == Some(MapAll(f, a).value + MapAll(f, b).value)
  {
    var ab := a + b;
    assert forall i :: 0 <= i < |a| ==> ab[i] == a[i];
    assert forall i :: |a| <= i < |ab| ==> ab[i] == b[i - |a|];
    var r := MapAll(f, ab);
    var expected := MapAll(f, a).value + MapAll(f, b).value;
    assert r.Some?;
    forall i | 0 <= i < |ab| ensures r.value[i] == expected[i] {
      if i < |a| {
        assert f(a[i]) == Some(MapAll(f, a).value[i]);
      } else {
        assert f(b[i - |a|]) == Some(MapAll(f, b).value[i - |a|]);
      }
    }
    assert r.value == expected;
  }

  /** Where g is undone by f up to h on every element, the comprehension after the map gives the map by h. */
  lemma MapAllAfterMap<A, B, C>(f: B -> Option<C>, g: A -> B, h: A -> C, xs: seq<A>)
    requires forall i :: 0 <= i < |xs| ==> f(g(xs[i])) == Some(h(xs[i]))
    ensures MapAll(f, Map(g, xs)) == Some(Map(h, xs))
  {
    MapAt(g, xs);
    MapAt(h, xs);
    var ys, zs := Map(g, xs), Map(h, xs);
    forall i | 0 <= i < |ys| ensures f(ys[i]) == Some(zs[i]) {
      assert ys[i] == g(xs[i]);
    }
    var r := MapAll(f, ys);
    assert r.Some?;
    forall i | 0 <= i < |xs| ensures r.value[i] == zs[i] {
      assert f(ys[i]) == Some(r.value[i]);
    }
    assert r.value == zs;
  }

  lemma Appends<T>(a: seq<T>, b: seq<T>)
    ensures (a + b)[..|a|] == a
    ensures forall i :: 0 <= i < |b| ==> (a + b)[|a| + i] == b[i]
  {
  }

  lemma AppendOne<T>(a: seq<T>, b: seq<T>, x: T)
    ensures (a + b) + [x] == a + (b + [x])
  {
  }

  lemma DropFirst<T>(a: seq<T>, b: seq<T>)
    requires |a| >= 1
    ensures (a + b)[1..] == a[1..] + b
  {
  }
}
