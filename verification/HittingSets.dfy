/** Berge's minimal hitting sets with pruning by size (tools/testbed/src/chryso_testbed/lineage.py). */
module HittingSets {

  /** t meets every support. */
  predicate Hits<A(==)>(t: set<A>, supports: seq<set<A>>) {
    forall s :: s in supports ==> t * s != {}
  }

  /** t meets every support and no proper subset of it does. */
  ghost predicate Minimal<A(!new)>(t: set<A>, supports: seq<set<A>>) {
    Hits(t, supports) && forall o: set<A> :: o < t ==> !Hits(o, supports)
  }

  /** A transversal, extended by an atom of the new support if it misses it. */
  function Extended<A(==)>(t: set<A>, support: set<A>, atom: A): set<A> {
    if t * support != {} then t else t + {atom}
  }

  /** Every transversal that meets support already, and the others extended by each of its atoms. */
  function Grown<A(==)>(transversals: set<set<A>>, support: set<A>): set<set<A>> {
    set t, a | t in transversals && a in support :: Extended(t, support, a)
  }

  function NoLargerThan<A(==)>(sets: set<set<A>>, maxSize: int): set<set<A>> {
    set t | t in sets && |t| <= maxSize
  }

  function InclusionMinimal<A(==)>(sets: set<set<A>>): set<set<A>> {
    set t | t in sets && !exists o :: o in sets && o < t
  }

  /** The transversals after a round over the supports, the size bound starting with the first. */
  ghost predicate Exact<A(!new)>(transversals: set<set<A>>, supports: seq<set<A>>, maxSize: int) {
    forall t: set<A> :: t in transversals <==> Minimal(t, supports) && (supports == [] || |t| <= maxSize)
  }

  method HittingSets<A(==, !new)>(supports: seq<set<A>>, maxSize: int := 2) returns (transversals: set<set<A>>)
    ensures Exact(transversals, supports, maxSize)
  {
    transversals := {{}};
    MinimalOfNone<A>();
    for i := 0 to |supports|
      invariant Exact(transversals, supports[..i], maxSize)
    {
      var before := transversals;
      var grown := Grown(transversals, supports[i]);
      transversals := NoLargerThan(grown, maxSize);
      transversals := InclusionMinimal(transversals);
      RoundExact(before, supports[..i], supports[i], maxSize);
      assert supports[..i] + [supports[i]] == supports[..i + 1];
    }
    assert supports[..|supports|] == supports;
  }

  /** Only the empty set is a minimal hitting set of no supports. */
  lemma MinimalOfNone<A(!new)>()
    ensures forall t: set<A> :: Minimal(t, []) <==> t == {}
  {
    forall t: set<A>
      ensures Minimal(t, []) <==> t == {}
    {
      if t != {} {
        var none: set<A> := {};
        assert none < t && Hits(none, []);
      }
    }
  }

  /** A subset has no more elements. */
  lemma SubsetSize<A>(small: set<A>, large: set<A>)
    requires small <= large
    ensures |small| <= |large|
    ensures small < large ==> |small| < |large|
  {
    assert large == small + (large - small);
    if small < large {
      assert large - small != {};
    }
  }

  /** Every hitting set contains a minimal one. */
  lemma {:induction false} ContainsMinimal<A(!new)>(t: set<A>, supports: seq<set<A>>) returns (m: set<A>)
    requires Hits(t, supports)
    ensures m <= t && Minimal(m, supports)
    decreases |t|
  {
    if o: set<A> :| o < t && Hits(o, supports) {
      SubsetSize(o, t);
      m := ContainsMinimal(o, supports);
    } else {
      m := t;
    }
  }

  /** Meeting one more support. */
  lemma HitsAppend<A>(t: set<A>, supports: seq<set<A>>, support: set<A>)
    ensures Hits(t, supports + [support]) <==> Hits(t, supports) && t * support != {}
  {
    forall s
      ensures s in supports + [support] <==> s in supports || s == support
    {
    }
  }

  /** Extending meets the new support as well as the old ones. */
  lemma ExtendedHits<A>(t: set<A>, supports: seq<set<A>>, support: set<A>, atom: A)
    requires Hits(t, supports) && atom in support
    ensures Hits(Extended(t, support, atom), supports + [support])
  {
    var g := Extended(t, support, atom);
    assert t * support == {} ==> atom in g * support;
    forall s | s in supports
      ensures g * s != {}
    {
      assert t * s != {} && t * s <= g * s;
    }
    HitsAppend(g, supports, support);
  }

  /** Everything a round grows meets all supports so far. */
  lemma GrownHits<A(!new)>(transversals: set<set<A>>, supports: seq<set<A>>, support: set<A>, g: set<A>)
    requires forall t :: t in transversals ==> Hits(t, supports)
    requires g in Grown(transversals, support)
    ensures Hits(g, supports + [support])
  {
    var t, a :| t in transversals && a in support && g == Extended(t, support, a);
    ExtendedHits(t, supports, support, a);
  }

  /** Pruning loses nothing: each small enough minimal hitting set is grown from a kept transversal. */
  lemma MinimalIsGrown<A(!new)>(
    transversals: set<set<A>>, supports: seq<set<A>>, support: set<A>, maxSize: int, m: set<A>)
    requires Exact(transversals, supports, maxSize)
    requires Minimal(m, supports + [support]) && |m| <= maxSize
    ensures m in NoLargerThan(Grown(transversals, support), maxSize)
  {
    HitsAppend(m, supports, support);
    var t := ContainsMinimal(m, supports);
    SubsetSize(t, m);
    assert t in transversals;
    var a :| a in m * support;
    ExtendedHits(t, supports, support, a);
    assert Extended(t, support, a) <= m;
    assert m == Extended(t, support, a);
  }

  /** One round of Berge's algorithm keeps the transversals exact. */
  lemma RoundExact<A(!new)>(transversals: set<set<A>>, supports: seq<set<A>>, support: set<A>, maxSize: int)
    requires Exact(transversals, supports, maxSize)
    ensures Exact(InclusionMinimal(NoLargerThan(Grown(transversals, support), maxSize)), supports + [support], maxSize)
  {
    var kept := NoLargerThan(Grown(transversals, support), maxSize);
    var next := supports + [support];
    forall t: set<A>
      ensures t in InclusionMinimal(kept) <==> Minimal(t, next) && |t| <= maxSize
    {
      if t in InclusionMinimal(kept) {
        GrownHits(transversals, supports, support, t);
        forall o: set<A> | o < t
          ensures !Hits(o, next)
        {
          if Hits(o, next) {
            var m := ContainsMinimal(o, next);
            SubsetSize(m, t);
            MinimalIsGrown(transversals, supports, support, maxSize, m);
            assert false;
          }
        }
      } else if Minimal(t, next) && |t| <= maxSize {
        MinimalIsGrown(transversals, supports, support, maxSize, t);
        var o :| o in kept && o < t;
        GrownHits(transversals, supports, support, o);
      }
    }
  }

  /**
   * The promise, "exactly the inclusion-minimal sets of at most maxSize atoms that meet every
   * support", is met for every list of supports unless the bound is negative and the list empty.
   */
  lemma PromiseHolds<A(!new)>(transversals: set<set<A>>, supports: seq<set<A>>, maxSize: int)
    requires Exact(transversals, supports, maxSize)
    ensures (forall t: set<A> :: t in transversals <==> Minimal(t, supports) && |t| <= maxSize)
            <==> maxSize >= 0 || supports != []
  {
    MinimalOfNone<A>();
    if supports == [] && maxSize < 0 {
      var none: set<A> := {};
      assert none in transversals;
    }
  }
}
