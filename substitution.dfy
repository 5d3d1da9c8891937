/**
  The text substitution of the renderer: for every key of the context, in the
  context's order, each `{{key}}` in the paragraph text is replaced by the
  key's value and the number of occurrences is added to the replacement count.
  */
module Substitution {
  import opened Text
  import opened Placeholders
  import opened Context

  /**
    One key's turn of the substitution loop on the text and count so far: when
    its placeholder occurs, every occurrence is replaced by the key's value
    and counted; otherwise text and count stay.
    */
  function ApplyKey(state: (string, nat), entry: Entry): (string, nat) {
    var placeholder := Token(entry.0);
    if Contains(state.0, placeholder) then
      (ReplaceAll(state.0, placeholder, entry.1), state.1 + Count(state.0, placeholder))
    else
      state
  }

  /** The paragraph text after the substitution loop has run over `ctx`, with the number of replacements it counted. */
  function Substitute(text: string, ctx: seq<Entry>): (string, nat)
    decreases |ctx|
  {
    if ctx == [] then (text, 0) else ApplyKey(Substitute(text, ctx[..|ctx| - 1]), ctx[|ctx| - 1])
  }

  /** When nothing was counted, the text is unchanged. */
  lemma {:induction false} NoCountNoChange(text: string, ctx: seq<Entry>)
    ensures Substitute(text, ctx).1 == 0 ==> Substitute(text, ctx).0 == text
    decreases |ctx|
  {
    if ctx != [] {
      NoCountNoChange(text, ctx[..|ctx| - 1]);
    }
  }

  /** A key's turn never skips anything: replacing and counting a placeholder that does not occur changes nothing. */
  lemma ApplyKeyAlways(state: (string, nat), entry: Entry)
    ensures ApplyKey(state, entry)
            == (ReplaceAll(state.0, Token(entry.0), entry.1), state.1 + Count(state.0, Token(entry.0)))
  {
    if !Contains(state.0, Token(entry.0)) {
      assert Count(state.0, Token(entry.0)) == 0;
    }
  }

  /** A key's step of the loop: every occurrence is replaced and counted. */
  lemma SubstituteStep(text: string, ctx: seq<Entry>)
    requires ctx != []
    ensures Substitute(text, ctx)
            == (ReplaceAll(Substitute(text, ctx[..|ctx| - 1]).0, Token(ctx[|ctx| - 1].0), ctx[|ctx| - 1].1),
                Substitute(text, ctx[..|ctx| - 1]).1 + Count(Substitute(text, ctx[..|ctx| - 1]).0, Token(ctx[|ctx| - 1].0)))
  {
    ApplyKeyAlways(Substitute(text, ctx[..|ctx| - 1]), ctx[|ctx| - 1]);
  }

  // ---------------------------------------------------------------------
  // Substitution on a text made of plain pieces and placeholders
  // ---------------------------------------------------------------------

  /** Replace the placeholders named `k` by plain text `v`. */
  function Resolve(ps: seq<Piece>, k: string, v: string): seq<Piece> {
    if ps == [] then []
    else (if ps[0] == Placeholder(k) then [Plain(v)] else [ps[0]]) + Resolve(ps[1..], k, v)
  }

  /** The number of placeholders named `k`. */
  function Occurrences(ps: seq<Piece>, k: string): nat {
    if ps == [] then 0
    else (if ps[0] == Placeholder(k) then 1 else 0) + Occurrences(ps[1..], k)
  }

  /** Comparing position `j` shows that `s` does not start with `p`. */
  lemma DiffersAt(s: string, p: string, j: nat)
    requires j < |p| && j < |s| && s[j] != p[j]
    ensures !StartsWith(s, p)
  {
    if |p| <= |s| {
      assert s[..|p|][j] == s[j];
    }
  }

  /** The placeholder of another name does not start anywhere inside `{{n}}`. */
  lemma OtherTokenNotInside(n: string, k: string, w: string)
    requires IsName(n) && IsName(k) && n != k
    ensures NoStartBefore(Token(n) + w, Token(k), |Token(n)|)
  {
    var s := Token(n) + w;
    var p := Token(k);
    assert forall j :: 0 <= j < |n| ==> s[2 + j] == n[j];
    assert s[2 + |n|] == '}' && s[3 + |n|] == '}' && s[0] == '{' && s[1] == '{';
    assert forall j :: 0 <= j < |k| ==> p[2 + j] == k[j];
    assert p[0] == '{' && p[1] == '{' && p[2 + |k|] == '}';
    forall i | 0 <= i < |Token(n)| ensures !StartsAt(s, p, i) {
      StartsAtSuffix(s, p, i);
      if i >= 2 {
        assert s[i..][0] == s[i] != '{';
        DiffersAt(s[i..], p, 0);
      } else if i == 1 {
        assert s[1..][1] == n[0];
        DiffersAt(s[1..], p, 1);
      } else {
        assert s[0..] == s;
        if |k| < |n| {
          assert s[2 + |k|] == n[|k|];
          DiffersAt(s, p, 2 + |k|);
        } else if |k| > |n| {
          DiffersAt(s, p, 2 + |n|);
        } else {
          assert exists j :: 0 <= j < |n| && n[j] != k[j];
          var j :| 0 <= j < |n| && n[j] != k[j];
          DiffersAt(s, p, 2 + j);
        }
      }
    }
  }

  /**
    One key of the loop on a well-formed text: `replace` turns exactly the
    placeholders named `k` into `v`, and `count` finds exactly that many.
    */
  lemma {:induction false} ReplaceOneKey(ps: seq<Piece>, k: string, v: string)
    requires WellFormed(ps) && IsName(k)
    ensures ReplaceAll(Render(ps), Token(k), v) == Render(Resolve(ps, k, v))
    ensures Count(Render(ps), Token(k)) == Occurrences(ps, k)
  {
    if ps != [] {
      var rest := Render(ps[1..]);
      assert WellFormedPiece(ps[0]);
      assert WellFormed(ps[1..]) by {
        forall i | 0 <= i < |ps| - 1 ensures WellFormedPiece(ps[1..][i]) {
          assert ps[1..][i] == ps[i + 1];
        }
      }
      ReplaceOneKey(ps[1..], k, v);
      match ps[0]
      case Plain(t) =>
        ScanPastPlain(t, rest, Token(k), v);
      case Placeholder(n) =>
        var s := Token(n) + rest;
        if n == k {
          assert s[..|Token(k)|] == Token(k) && s[|Token(k)|..] == rest;
        } else {
          OtherTokenNotInside(n, k, rest);
          ScanPastPrefix(s, |Token(n)|, Token(k), v);
          CountPastPrefix(s, |Token(n)|, Token(k));
          assert s[..|Token(n)|] == Token(n) && s[|Token(n)|..] == rest;
        }
    }
  }

  /** Resolving with a value free of `{` keeps the text well-formed. */
  lemma {:induction false} ResolveWellFormed(ps: seq<Piece>, k: string, v: string)
    requires WellFormed(ps) && '{' !in v
    ensures WellFormed(Resolve(ps, k, v))
    ensures |Resolve(ps, k, v)| == |ps|
  {
    if ps != [] {
      assert WellFormed(ps[1..]) by {
        forall i | 0 <= i < |ps| - 1 ensures WellFormedPiece(ps[1..][i]) {
          assert ps[1..][i] == ps[i + 1];
        }
      }
      ResolveWellFormed(ps[1..], k, v);
      var r := Resolve(ps, k, v);
      assert WellFormedPiece(r[0]);
      assert r[1..] == Resolve(ps[1..], k, v);
    }
  }

  /** Resolving one name does not touch the placeholders of another. */
  lemma {:induction false} ResolveKeepsOthers(ps: seq<Piece>, k: string, v: string, j: string)
    requires j != k
    ensures Occurrences(Resolve(ps, k, v), j) == Occurrences(ps, j)
  {
    if ps != [] {
      ResolveKeepsOthers(ps[1..], k, v, j);
      var r := Resolve(ps, k, v);
      assert r[1..] == Resolve(ps[1..], k, v);
    }
  }

  /** The pieces after every key of `ctx` has been resolved, in the context's order. */
  function ResolveAll(ps: seq<Piece>, ctx: seq<Entry>): seq<Piece>
    decreases |ctx|
  {
    if ctx == [] then ps
    else Resolve(ResolveAll(ps, ctx[..|ctx| - 1]), ctx[|ctx| - 1].0, ctx[|ctx| - 1].1)
  }

  /** The number of placeholders whose name is a key of `ctx`. */
  function BoundCount(ps: seq<Piece>, ctx: seq<Entry>): nat
    decreases |ctx|
  {
    if ctx == [] then 0
    else BoundCount(ps, ctx[..|ctx| - 1]) + Occurrences(ps, ctx[|ctx| - 1].0)
  }

  /** The context is one a renderer can use: distinct keys that are names, values without `{`. */
  predicate PlainContext(ctx: seq<Entry>) {
    DistinctKeys(ctx) && forall i :: 0 <= i < |ctx| ==> IsName(ctx[i].0) && '{' !in ctx[i].1
  }

  lemma {:induction false} ResolveAllKeepsLater(ps: seq<Piece>, ctx: seq<Entry>, j: string)
    requires forall i :: 0 <= i < |ctx| ==> ctx[i].0 != j
    ensures Occurrences(ResolveAll(ps, ctx), j) == Occurrences(ps, j)
    decreases |ctx|
  {
    if ctx != [] {
      ResolveAllKeepsLater(ps, ctx[..|ctx| - 1], j);
      ResolveKeepsOthers(ResolveAll(ps, ctx[..|ctx| - 1]), ctx[|ctx| - 1].0, ctx[|ctx| - 1].1, j);
    }
  }

  /**
    The substitution theorem: on a well-formed text and a plain context, the
    loop yields the text with every bound placeholder replaced by its value,
    and counts exactly the bound placeholders. Unbound placeholders stay.
    */
  lemma {:induction false} SubstituteWellFormed(ps: seq<Piece>, ctx: seq<Entry>)
    requires WellFormed(ps) && PlainContext(ctx)
    ensures WellFormed(ResolveAll(ps, ctx))
    ensures Substitute(Render(ps), ctx) == (Render(ResolveAll(ps, ctx)), BoundCount(ps, ctx))
    decreases |ctx|
  {
    if ctx != [] {
      PlainContextSplit(ctx);
      SubstituteWellFormed(ps, ctx[..|ctx| - 1]);
      SubstituteLastKey(ps, ctx);
    }
  }

  /** One more plain entry: the loop's step agrees with resolving one more key. */
  lemma SubstituteLastKey(ps: seq<Piece>, ctx: seq<Entry>)
    requires ctx != [] && WellFormed(ps)
    requires IsName(ctx[|ctx| - 1].0) && '{' !in ctx[|ctx| - 1].1
    requires forall i :: 0 <= i < |ctx| - 1 ==> ctx[i].0 != ctx[|ctx| - 1].0
    requires WellFormed(ResolveAll(ps, ctx[..|ctx| - 1]))
    requires Substitute(Render(ps), ctx[..|ctx| - 1]).0 == Render(ResolveAll(ps, ctx[..|ctx| - 1]))
    requires Substitute(Render(ps), ctx[..|ctx| - 1]).1 == BoundCount(ps, ctx[..|ctx| - 1])
    ensures WellFormed(ResolveAll(ps, ctx))
    ensures Substitute(Render(ps), ctx).0 == Render(ResolveAll(ps, ctx))
    ensures Substitute(Render(ps), ctx).1 == BoundCount(ps, ctx)
  {
    var init := ctx[..|ctx| - 1];
    var k := ctx[|ctx| - 1].0;
    var v := ctx[|ctx| - 1].1;
    var qs := ResolveAll(ps, init);
    ResolveWellFormed(qs, k, v);
    ReplaceOneKey(qs, k, v);
    ResolveAllKeepsLater(ps, init, k);
    SubstituteStep(Render(ps), ctx);
  }

  /** A plain context without its last entry is plain, and that entry's key is new. */
  lemma PlainContextSplit(ctx: seq<Entry>)
    requires ctx != [] && PlainContext(ctx)
    ensures PlainContext(ctx[..|ctx| - 1])
    ensures IsName(ctx[|ctx| - 1].0) && '{' !in ctx[|ctx| - 1].1
    ensures forall i :: 0 <= i < |ctx| - 1 ==> ctx[i].0 != ctx[|ctx| - 1].0
  {
    var init := ctx[..|ctx| - 1];
    forall i | 0 <= i < |init| ensures init[i] == ctx[i] && IsName(init[i].0) && '{' !in init[i].1 {
    }
  }

  lemma {:induction false} ResolveTokens(ps: seq<Piece>, k: string, v: string)
    ensures TokensOf(Resolve(ps, k, v)) == Filter(TokensOf(ps), Token(k))
  {
    if ps != [] {
      ResolveTokens(ps[1..], k, v);
      var r := Resolve(ps, k, v);
      assert r[1..] == Resolve(ps[1..], k, v);
      FilterAppend(if ps[0].Placeholder? then [Token(ps[0].name)] else [], TokensOf(ps[1..]), Token(k));
      if ps[0].Placeholder? && ps[0].name != k {
        TokenInjective(ps[0].name, k);
      }
    }
  }

  /** `xs` without the elements equal to `x`. */
  function Filter(xs: seq<string>, x: string): seq<string> {
    if xs == [] then [] else (if xs[0] == x then [] else [xs[0]]) + Filter(xs[1..], x)
  }

  lemma {:induction false} FilterAppend(a: seq<string>, b: seq<string>, x: string)
    ensures Filter(a + b, x) == Filter(a, x) + Filter(b, x)
  {
    if a != [] {
      FilterAppend(a[1..], b, x);
      assert (a + b)[1..] == a[1..] + b;
    } else {
      assert a + b == b;
    }
  }

  lemma TokenInjective(n: string, k: string)
    requires n != k
    ensures Token(n) != Token(k)
  {
    if |n| == |k| {
      assert exists j :: 0 <= j < |n| && n[j] != k[j];
      var j :| 0 <= j < |n| && n[j] != k[j];
      assert Token(n)[2 + j] == n[j] && Token(k)[2 + j] == k[j];
    } else {
      assert |Token(n)| != |Token(k)|;
    }
  }

  /**
    Unbound placeholders pass through: after substitution, extraction finds
    exactly the placeholders of the template whose names the context lacks.
    */
  lemma {:induction false} UnboundPassThrough(ps: seq<Piece>, ctx: seq<Entry>)
    requires WellFormed(ps) && PlainContext(ctx)
    ensures FindTokens(Substitute(Render(ps), ctx).0) == FilterAll(TokensOf(ps), ctx)
    decreases |ctx|
  {
    SubstituteWellFormed(ps, ctx);
    ExtractWellFormed(ResolveAll(ps, ctx));
    ResolveAllTokens(ps, ctx);
  }

  /** The tokens with the placeholder of every key of `ctx` taken out. */
  function FilterAll(ts: seq<string>, ctx: seq<Entry>): seq<string>
    decreases |ctx|
  {
    if ctx == [] then ts else Filter(FilterAll(ts, ctx[..|ctx| - 1]), Token(ctx[|ctx| - 1].0))
  }

  lemma {:induction false} ResolveAllTokens(ps: seq<Piece>, ctx: seq<Entry>)
    ensures TokensOf(ResolveAll(ps, ctx)) == FilterAll(TokensOf(ps), ctx)
    decreases |ctx|
  {
    if ctx != [] {
      ResolveAllTokens(ps, ctx[..|ctx| - 1]);
      ResolveTokens(ResolveAll(ps, ctx[..|ctx| - 1]), ctx[|ctx| - 1].0, ctx[|ctx| - 1].1);
    }
  }

  lemma ResolveCons(p: Piece, rest: seq<Piece>, k: string, v: string)
    ensures Resolve([p] + rest, k, v) == [if p == Placeholder(k) then Plain(v) else p] + Resolve(rest, k, v)
    ensures Occurrences([p] + rest, k) == (if p == Placeholder(k) then 1 else 0) + Occurrences(rest, k)
  {
    assert ([p] + rest)[1..] == rest;
  }

  /** Seven pieces: plain text alternating with three other pieces. */
  function Letter(a: string, b: string, c: string, d: string, x: Piece, y: Piece, z: Piece): seq<Piece> {
    [Plain(a)] + ([x] + ([Plain(b)] + ([y] + ([Plain(c)] + ([z] + [Plain(d)])))))
  }

  function ResolvePiece(p: Piece, k: string, v: string): Piece {
    if p == Placeholder(k) then Plain(v) else p
  }

  function OccursIn(p: Piece, k: string): nat {
    if p == Placeholder(k) then 1 else 0
  }

  lemma ResolveLetter(a: string, b: string, c: string, d: string, x: Piece, y: Piece, z: Piece,
                      k: string, v: string)
    requires x.Placeholder? && y.Placeholder? && z.Placeholder?
    ensures Resolve(Letter(a, b, c, d, x, y, z), k, v)
            == Letter(a, b, c, d, ResolvePiece(x, k, v), ResolvePiece(y, k, v), ResolvePiece(z, k, v))
    ensures Occurrences(Letter(a, b, c, d, x, y, z), k) == OccursIn(x, k) + OccursIn(y, k) + OccursIn(z, k)
  {
    var e := [Plain(d)];
    assert [Plain(d)] + [] == e;
    ResolveCons(Plain(d), [], k, v);
    var t5 := [z] + e;
    ResolveCons(z, e, k, v);
    var t4 := [Plain(c)] + t5;
    ResolveCons(Plain(c), t5, k, v);
    var t3 := [y] + t4;
    ResolveCons(y, t4, k, v);
    var t2 := [Plain(b)] + t3;
    ResolveCons(Plain(b), t3, k, v);
    var t1 := [x] + t2;
    ResolveCons(x, t2, k, v);
    ResolveCons(Plain(a), t1, k, v);
  }

  lemma ResolveAllTwo(ps: seq<Piece>, e1: Entry, e2: Entry)
    ensures ResolveAll(ps, [e1, e2]) == Resolve(Resolve(ps, e1.0, e1.1), e2.0, e2.1)
    ensures BoundCount(ps, [e1, e2]) == Occurrences(ps, e1.0) + Occurrences(ps, e2.0)
  {
    var ctx := [e1, e2];
    var first := ctx[..1];
    assert first == [e1] && first[..0] == [];
    assert ResolveAll(ps, first) == Resolve(ResolveAll(ps, []), e1.0, e1.1);
    assert BoundCount(ps, first) == BoundCount(ps, []) + Occurrences(ps, e1.0);
    assert ResolveAll(ps, ctx) == Resolve(ResolveAll(ps, first), e2.0, e2.1);
    assert BoundCount(ps, ctx) == BoundCount(ps, first) + Occurrences(ps, e2.0);
  }

  /** The text of seven pieces, as the template reads. */
  lemma RenderLetter(a: string, b: string, c: string, d: string, x: Piece, y: Piece, z: Piece)
    ensures Render(Letter(a, b, c, d, x, y, z))
            == a + (PieceText(x) + (b + (PieceText(y) + (c + (PieceText(z) + d)))))
  {
    var e := [Plain(d)];
    RenderCons(Plain(d), []);
    assert [Plain(d)] + [] == e;
    var t5 := [z] + e;
    RenderCons(z, e);
    var t4 := [Plain(c)] + t5;
    RenderCons(Plain(c), t5);
    var t3 := [y] + t4;
    RenderCons(y, t4);
    var t2 := [Plain(b)] + t3;
    RenderCons(Plain(b), t3);
    var t1 := [x] + t2;
    RenderCons(x, t2);
    RenderCons(Plain(a), t1);
  }

  /**
    A letter template such as `Уважаемый {{name}} {{surname}}, дело №{{case_id}}.`
    rendered with `name` and `surname` bound and `case_id` not: the two bound
    placeholders are filled in and counted, the unbound one stays in the text
    as it was.
    */
  lemma LetterTemplate(a: string, b: string, c: string, d: string, n1: string, n2: string, n3: string,
                       v1: string, v2: string, t1: string, t2: string, t3: string,
                       text: string, ctx: seq<Entry>, filled: string)
    requires '{' !in a && '{' !in b && '{' !in c && '{' !in d && '{' !in v1 && '{' !in v2
    requires IsName(n1) && IsName(n2) && IsName(n3) && n1 != n2 && n1 != n3 && n2 != n3
    requires t1 == Token(n1) && t2 == Token(n2) && t3 == Token(n3)
    requires text == a + (t1 + (b + (t2 + (c + (t3 + d)))))
    requires ctx == [(n1, v1), (n2, v2)]
    requires filled == a + (v1 + (b + (v2 + (c + (t3 + d)))))
    ensures Substitute(text, ctx) == (filled, 2)
  {
    var ps := Letter(a, b, c, d, Placeholder(n1), Placeholder(n2), Placeholder(n3));
    assert ps == [Plain(a), Placeholder(n1), Plain(b), Placeholder(n2), Plain(c), Placeholder(n3), Plain(d)];
    assert WellFormed(ps);
    assert PlainContext(ctx);
    RenderLetter(a, b, c, d, Placeholder(n1), Placeholder(n2), Placeholder(n3));
    SubstituteWellFormed(ps, ctx);
    ResolveAllTwo(ps, (n1, v1), (n2, v2));
    ResolveLetter(a, b, c, d, Placeholder(n1), Placeholder(n2), Placeholder(n3), n1, v1);
    ResolveLetter(a, b, c, d, Placeholder(n1), Placeholder(n2), Placeholder(n3), n2, v2);
    ResolveLetterSecond(a, b, c, d, v1, n2, n3, v2);
    RenderLetter(a, b, c, d, Plain(v1), Plain(v2), Placeholder(n3));
  }

  lemma ResolveLetterSecond(a: string, b: string, c: string, d: string, v1: string, n2: string, n3: string,
                            v2: string)
    requires n2 != n3
    ensures Resolve(Letter(a, b, c, d, Plain(v1), Placeholder(n2), Placeholder(n3)), n2, v2)
            == Letter(a, b, c, d, Plain(v1), Plain(v2), Placeholder(n3))
  {
    var e := [Plain(d)];
    assert [Plain(d)] + [] == e;
    ResolveCons(Plain(d), [], n2, v2);
    var t5 := [Placeholder(n3)] + e;
    ResolveCons(Placeholder(n3), e, n2, v2);
    var t4 := [Plain(c)] + t5;
    ResolveCons(Plain(c), t5, n2, v2);
    var t3 := [Placeholder(n2)] + t4;
    ResolveCons(Placeholder(n2), t4, n2, v2);
    var t2 := [Plain(b)] + t3;
    ResolveCons(Plain(b), t3, n2, v2);
    var t1 := [Plain(v1)] + t2;
    ResolveCons(Plain(v1), t2, n2, v2);
    ResolveCons(Plain(a), t1, n2, v2);
  }
}
