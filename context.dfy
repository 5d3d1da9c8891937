/**
  The substitution context: a Python `dict` from placeholder names to values.
  A dict remembers the order in which keys were first inserted, and assigning
  to an existing key replaces its value without moving it.
  */
module Context {
  import opened Wrappers

  type Entry = (string, string)

  /** `list(ctx.keys())`. */
  function Keys(ctx: seq<Entry>): (ks: seq<string>)
    ensures |ks| == |ctx|
    ensures forall i :: 0 <= i < |ctx| ==> ks[i] == ctx[i].0
  {
    if ctx == [] then [] else [ctx[0].0] + Keys(ctx[1..])
  }

  /** No key occurs twice, as in every dict. */
  predicate DistinctKeys(ctx: seq<Entry>) {
    forall i, j :: 0 <= i < j < |ctx| ==> ctx[i].0 != ctx[j].0
  }

  /** `ctx.get(k)`. */
  function Get(ctx: seq<Entry>, k: string): (v: Option<string>)
    ensures v.None? <==> k !in Keys(ctx)
  {
    if ctx == [] then None
    else if ctx[0].0 == k then Some(ctx[0].1)
    else Get(ctx[1..], k)
  }

  /** `ctx[k] = v`. */
  function Put(ctx: seq<Entry>, k: string, v: string): seq<Entry> {
    if ctx == [] then [(k, v)]
    else if ctx[0].0 == k then [(k, v)] + ctx[1..]
    else [ctx[0]] + Put(ctx[1..], k, v)
  }

  /**
    After `ctx[k] = v` the key reads back `v`, every other key keeps its value,
    an existing key keeps its place and a new one is appended.
    */
  lemma PutSemantics(ctx: seq<Entry>, k: string, v: string)
    ensures Get(Put(ctx, k, v), k) == Some(v)
    ensures forall j :: j != k ==> Get(Put(ctx, k, v), j) == Get(ctx, j)
    ensures k in Keys(ctx) ==> Keys(Put(ctx, k, v)) == Keys(ctx)
    ensures k !in Keys(ctx) ==> Keys(Put(ctx, k, v)) == Keys(ctx) + [k]
  {
    PutGet(ctx, k, v);
    PutKeys(ctx, k, v);
  }

  lemma {:induction false} PutGet(ctx: seq<Entry>, k: string, v: string)
    ensures Get(Put(ctx, k, v), k) == Some(v)
    ensures forall j :: j != k ==> Get(Put(ctx, k, v), j) == Get(ctx, j)
  {
    if ctx != [] && ctx[0].0 != k {
      var t := Put(ctx[1..], k, v);
      PutGet(ctx[1..], k, v);
      var r := [ctx[0]] + t;
      assert r[0] == ctx[0] && r[1..] == t;
    } else if ctx != [] {
      var r := [(k, v)] + ctx[1..];
      assert r[0] == (k, v) && r[1..] == ctx[1..];
    }
  }

  lemma {:induction false} PutKeys(ctx: seq<Entry>, k: string, v: string)
    ensures k in Keys(ctx) ==> Keys(Put(ctx, k, v)) == Keys(ctx)
    ensures k !in Keys(ctx) ==> Keys(Put(ctx, k, v)) == Keys(ctx) + [k]
  {
    if ctx != [] && ctx[0].0 != k {
      var t := Put(ctx[1..], k, v);
      PutKeys(ctx[1..], k, v);
      var r := [ctx[0]] + t;
      assert r[1..] == t;
      assert Keys(r) == [ctx[0].0] + Keys(t);
      assert Keys(ctx) == [ctx[0].0] + Keys(ctx[1..]);
      assert k in Keys(ctx) <==> k in Keys(ctx[1..]);
    } else if ctx != [] {
      var r := [(k, v)] + ctx[1..];
      assert r[1..] == ctx[1..];
      assert Keys(ctx)[0] == k;
    }
  }

  /** Putting into a dict keeps its keys distinct. */
  lemma PutDistinct(ctx: seq<Entry>, k: string, v: string)
    requires DistinctKeys(ctx)
    ensures DistinctKeys(Put(ctx, k, v))
  {
    PutSemantics(ctx, k, v);
    var ks := Keys(Put(ctx, k, v));
    assert forall i, j :: 0 <= i < j < |ks| ==> ks[i] != ks[j];
  }

  /** The dict after `ctx[kf(x)] = vf(x)` for each `x` of `xs` in turn, starting from an empty dict. */
  function PutFold<X>(xs: seq<X>, kf: X -> string, vf: X -> string): seq<Entry>
    decreases |xs|
  {
    if xs == [] then [] else Put(PutFold(xs[..|xs| - 1], kf, vf), kf(xs[|xs| - 1]), vf(xs[|xs| - 1]))
  }

  /** Some element of `xs` is mapped to `y` by `f`. */
  ghost predicate Reaches<X, Y>(xs: seq<X>, f: X -> Y, y: Y) {
    exists i :: 0 <= i < |xs| && f(xs[i]) == y
  }

  lemma ReachesSnoc<X, Y>(xs: seq<X>, f: X -> Y, y: Y)
    requires xs != []
    ensures Reaches(xs, f, y) <==> Reaches(xs[..|xs| - 1], f, y) || f(xs[|xs| - 1]) == y
  {
    var init := xs[..|xs| - 1];
    if Reaches(xs, f, y) && f(xs[|xs| - 1]) != y {
      var i :| 0 <= i < |xs| && f(xs[i]) == y;
      assert init[i] == xs[i];
    }
    if Reaches(init, f, y) {
      var i :| 0 <= i < |init| && f(init[i]) == y;
      assert init[i] == xs[i];
    }
  }

  /** The folded dict has distinct keys. */
  lemma {:induction false} PutFoldDistinct<X>(xs: seq<X>, kf: X -> string, vf: X -> string)
    ensures DistinctKeys(PutFold(xs, kf, vf))
    decreases |xs|
  {
    if xs != [] {
      PutFoldDistinct(xs[..|xs| - 1], kf, vf);
      PutDistinct(PutFold(xs[..|xs| - 1], kf, vf), kf(xs[|xs| - 1]), vf(xs[|xs| - 1]));
    }
  }

  /** The folded dict's keys are exactly the keys of the elements. */
  lemma {:induction false} PutFoldKeys<X>(xs: seq<X>, kf: X -> string, vf: X -> string)
    ensures forall k :: k in Keys(PutFold(xs, kf, vf)) <==> Reaches(xs, kf, k)
    decreases |xs|
  {
    if xs != [] {
      var init := xs[..|xs| - 1];
      var x := xs[|xs| - 1];
      PutFoldKeys(init, kf, vf);
      PutKeys(PutFold(init, kf, vf), kf(x), vf(x));
      forall k ensures k in Keys(PutFold(xs, kf, vf)) <==> Reaches(xs, kf, k) {
        ReachesSnoc(xs, kf, k);
      }
    }
  }

  /** The value of a key is that of the last element with that key. */
  lemma {:induction false} PutFoldLastWins<X>(xs: seq<X>, kf: X -> string, vf: X -> string, i: int)
    requires 0 <= i < |xs|
    requires forall j :: i < j < |xs| ==> kf(xs[j]) != kf(xs[i])
    ensures Get(PutFold(xs, kf, vf), kf(xs[i])) == Some(vf(xs[i]))
    decreases |xs|
  {
    var last := |xs| - 1;
    var init := xs[..last];
    var before := PutFold(init, kf, vf);
    assert PutFold(xs, kf, vf) == Put(before, kf(xs[last]), vf(xs[last]));
    PutGet(before, kf(xs[last]), vf(xs[last]));
    if i < last {
      assert init[i] == xs[i];
      forall j | i < j < |init| ensures kf(init[j]) != kf(init[i]) {
        assert init[j] == xs[j];
      }
      PutFoldLastWins(init, kf, vf, i);
      assert Get(before, kf(xs[i])) == Some(vf(xs[i]));
    }
  }
}
