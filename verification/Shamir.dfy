// Lagrange interpolation at zero modulo a prime q: the weights that
// IBE_construct_master and IBE_combine compute recover f(0) from the values of f
// at any |f| or more distinct nodes.
module Shamir {
  import opened NumberTheory
  import opened Powers
  import opened EllipticCurve

  function Prod(s: seq<int>): int {
    if s == [] then 1 else Prod(s[..|s| - 1]) * s[|s| - 1]
  }

  function Minus(s: seq<int>, c: int): seq<int> { seq(|s|, i requires 0 <= i < |s| => s[i] - c) }

  function Without(s: seq<int>, i: nat): seq<int>
    requires i < |s|
  {
    s[..i] + s[i + 1..]
  }

  // The numerator, the denominator and the value of the i-th weight.
  function Numerator(xs: seq<int>, i: nat): int
    requires i < |xs|
  {
    Prod(Without(xs, i))
  }

  function Denominator(xs: seq<int>, i: nat): int
    requires i < |xs|
  {
    Prod(Minus(Without(xs, i), xs[i]))
  }

  function Weight(xs: seq<int>, i: nat, q: Pos): int
    requires i < |xs|
  {
    Rem(Numerator(xs, i) * Inv(Denominator(xs, i), q), q)
  }

  function Weights(xs: seq<int>, q: Pos): (ws: seq<int>)
    ensures |ws| == |xs|
  {
    seq(|xs|, i requires 0 <= i < |xs| => Weight(xs, i, q))
  }

  ghost predicate Nodes(xs: seq<int>, q: Pos) {
    forall i, j :: 0 <= i < j < |xs| ==> !Cong(xs[i], xs[j], q)
  }

  // Polynomials by their coefficients, constant term first.
  function Eval(f: seq<int>, x: int): int {
    if f == [] then 0 else f[0] + x * Eval(f[1..], x)
  }

  // The coefficient at position i belongs to the i-th power.
  lemma {:induction false} EvalTerm(f: seq<int>, c: int, x: int)
    ensures Eval([], x) == 0 && Eval(f + [c], x) == Eval(f, x) + c * IPow(x, |f|)
  {
    if f == [] {
      assert [c][1..] == [];
    } else {
      EvalTerm(f[1..], c, x);
      assert (f + [c])[1..] == f[1..] + [c];
      EvalArithmetic(f[0], c, x, Eval(f[1..], x), IPow(x, |f| - 1));
    }
  }

  lemma EvalArithmetic(a: int, c: int, x: int, e: int, w: int)
    ensures a + x * (e + c * w) == a + x * e + c * (x * w)
  {
  }

  function Values(f: seq<int>, xs: seq<int>): (vs: seq<int>)
    ensures |vs| == |xs| && forall i :: 0 <= i < |xs| ==> vs[i] == Eval(f, xs[i])
  {
    seq(|xs|, i requires 0 <= i < |xs| => Eval(f, xs[i]))
  }

  function Dot(u: seq<int>, v: seq<int>): int
    requires |u| == |v|
  {
    if u == [] then 0 else Dot(u[..|u| - 1], v[..|v| - 1]) + u[|u| - 1] * v[|v| - 1]
  }

  // The sum of the products at equal positions.
  lemma DotTerm(u: seq<int>, v: seq<int>, a: int, b: int)
    requires |u| == |v|
    ensures Dot([], []) == 0 && Dot(u + [a], v + [b]) == Dot(u, v) + a * b
  {
    assert (u + [a])[..|u|] == u && (v + [b])[..|v|] == v;
  }

  function Ones(n: nat): (s: seq<int>)
    ensures |s| == n && forall i :: 0 <= i < n ==> s[i] == 1
  {
    seq(n, i => 1)
  }

  function Sum(u: seq<int>): int { Dot(u, Ones(|u|)) }

  // ----- synthetic division -----

  function Quot(f: seq<int>, c: int): (g: seq<int>)
    requires f != []
    ensures |g| == |f| - 1
  {
    if |f| == 1 then [] else [Eval(f[1..], c)] + Quot(f[1..], c)
  }

  lemma {:induction false} Division(f: seq<int>, c: int, x: int)
    requires f != []
    ensures Eval(f, x) == Eval(f, c) + (x - c) * Eval(Quot(f, c), x)
  {
    if |f| > 1 {
      Division(f[1..], c, x);
      var g := Quot(f[1..], c);
      assert Quot(f, c)[1..] == g;
      DivisionStep(x, c, Eval(f[1..], c), Eval(f[1..], x), Eval(g, x));
    } else {
      assert f[1..] == [];
      assert x * 0 == 0 == c * 0 == (x - c) * 0;
    }
  }

  lemma DivisionStep(x: int, c: int, ec: int, ex: int, g: int)
    requires ex == ec + (x - c) * g
    ensures x * ex == c * ec + (x - c) * (ec + x * g)
  {
    assert (x - c) * (ec + x * g) == (x - c) * ec + x * ((x - c) * g);
  }

  lemma ConstantTerm(f: seq<int>)
    requires f != []
    ensures Eval(f, 0) == f[0]
  {
    assert 0 * Eval(f[1..], 0) == 0;
  }

  // ----- removing a node -----

  lemma {:induction false} ProdNonZero(s: seq<int>, q: Pos)
    requires Prime(q) && forall i :: 0 <= i < |s| ==> !Cong(s[i], 0, q)
    ensures !Cong(Prod(s), 0, q)
  {
    if s == [] {
      ModIntro(1, 0, 1, q); ModIntro(0, 0, 0, q);
    } else {
      var n := |s| - 1;
      ProdNonZero(s[..n], q);
      if Cong(Prod(s[..n]) * s[n], 0, q) { EuclidLemma(Prod(s[..n]), s[n], q); }
    }
  }

  lemma DenominatorNonZero(xs: seq<int>, i: nat, q: Pos)
    requires Prime(q) && Nodes(xs, q) && i < |xs|
    ensures !Cong(Denominator(xs, i), 0, q)
  {
    hide Cong;
    var s := Without(xs, i);
    forall j | 0 <= j < |s| ensures !Cong(Minus(s, xs[i])[j], 0, q) {
      var k := if j < i then j else j + 1;
      assert s[j] == xs[k];
      CongSub(xs[k], xs[i], q);
      CongSymmetric(xs[k], xs[i], q);
    }
    ProdNonZero(Minus(s, xs[i]), q);
  }

  lemma CongSymmetric(a: int, b: int, q: Pos)
    ensures Cong(a, b, q) <==> Cong(b, a, q)
  {
  }

  lemma WeightCorrect(xs: seq<int>, i: nat, q: Pos)
    requires Prime(q) && Nodes(xs, q) && i < |xs|
    ensures Cong(Weight(xs, i, q) * Denominator(xs, i), Numerator(xs, i), q)
  {
    DenominatorNonZero(xs, i, q);
    QuotientMod(Numerator(xs, i), Denominator(xs, i), q);
  }

  lemma {:induction false} ProdFirst(a: int, s: seq<int>)
    ensures Prod([a] + s) == a * Prod(s)
  {
    var t := [a] + s;
    if s == [] {
      assert t[..0] == [];
    } else {
      var n := |s| - 1;
      ProdFirst(a, s[..n]);
      assert t[..|t| - 1] == [a] + s[..n];
      assert a * Prod(s[..n]) * s[n] == a * (Prod(s[..n]) * s[n]);
    }
  }

  // Dropping the last or the first node divides both products by one factor.
  lemma DropLast(xs: seq<int>, i: nat)
    requires i < |xs| - 1
    ensures var k := |xs| - 1;
            && Numerator(xs, i) == Numerator(xs[..k], i) * xs[k]
            && Denominator(xs, i) == Denominator(xs[..k], i) * (xs[k] - xs[i])
  {
    var k := |xs| - 1;
    var s, t := Without(xs, i), Without(xs[..k], i);
    assert s == t + [xs[k]];
    assert s[..|s| - 1] == t;
    var u := Minus(s, xs[i]);
    assert u[..|u| - 1] == Minus(t, xs[i]);
  }

  lemma DropFirst(xs: seq<int>, i: nat)
    requires i < |xs| - 1
    ensures Numerator(xs, i + 1) == Numerator(xs[1..], i) * xs[0]
    ensures Denominator(xs, i + 1) == Denominator(xs[1..], i) * (xs[0] - xs[i + 1])
  {
    hide Prod;
    var s, t := Without(xs, i + 1), Without(xs[1..], i);
    assert s == [xs[0]] + t;
    ProdFirst(xs[0], t);
    var u := Minus(t, xs[i + 1]);
    assert Minus(s, xs[i + 1]) == [xs[0] - xs[i + 1]] + u;
    ProdFirst(xs[0] - xs[i + 1], u);
    assert xs[0] * Prod(t) == Prod(t) * xs[0];
    assert (xs[0] - xs[i + 1]) * Prod(u) == Prod(u) * (xs[0] - xs[i + 1]);
  }

  lemma WeightRatio(w: int, n: int, d: int, w': int, n': int, d': int, x: int, e: int, q: Pos)
    requires Prime(q) && !Cong(d', 0, q) && n == n' * x && d == d' * e
    requires Cong(w * d, n, q) && Cong(w' * d', n', q)
    ensures Cong(w * e, x * w', q)
  {
    hide Rem;
    CongMul(w' * d', n', x, x, q);
    assert w' * d' * x == d' * (x * w');
    assert w * (d' * e) == d' * (w * e);
    Cancel(d', w * e, x * w', q);
  }

  lemma WeightWithoutLast(xs: seq<int>, i: nat, q: Pos)
    requires Prime(q) && Nodes(xs, q) && i < |xs| - 1
    ensures var k := |xs| - 1;
            Nodes(xs[..k], q) && Cong(Weight(xs, i, q) * (xs[k] - xs[i]), xs[k] * Weight(xs[..k], i, q), q)
  {
    hide Cong;
    var k := |xs| - 1;
    var ys := xs[..k];
    WeightCorrect(xs, i, q); WeightCorrect(ys, i, q);
    DenominatorNonZero(ys, i, q);
    DropLast(xs, i);
    WeightRatio(Weight(xs, i, q), Numerator(xs, i), Denominator(xs, i),
                Weight(ys, i, q), Numerator(ys, i), Denominator(ys, i), xs[k], xs[k] - xs[i], q);
  }

  lemma WeightWithoutFirst(xs: seq<int>, i: nat, q: Pos)
    requires Prime(q) && Nodes(xs, q) && i < |xs| - 1
    ensures Nodes(xs[1..], q)
    ensures Cong(Weight(xs, i + 1, q) * (xs[0] - xs[i + 1]), xs[0] * Weight(xs[1..], i, q), q)
  {
    hide Cong;
    var ys := xs[1..];
    assert Nodes(ys, q) by {
      forall a, b | 0 <= a < b < |ys| ensures !Cong(ys[a], ys[b], q) { assert !Cong(xs[a + 1], xs[b + 1], q); }
    }
    WeightCorrect(xs, i + 1, q); WeightCorrect(ys, i, q);
    DenominatorNonZero(ys, i, q);
    DropFirst(xs, i);
    WeightRatio(Weight(xs, i + 1, q), Numerator(xs, i + 1), Denominator(xs, i + 1),
                Weight(ys, i, q), Numerator(ys, i), Denominator(ys, i), xs[0], xs[0] - xs[i + 1], q);
  }

  // ----- weighted sums -----

  // A term u v is c u - x m w.
  ghost predicate Splits(u: int, v: int, c: int, x: int, m: int, w: int, q: Pos) {
    Cong(u * v, c * u - x * (m * w), q)
  }

  lemma {:induction false} DotSplit(u: seq<int>, v: seq<int>, c: int, x: int, m: seq<int>, w: seq<int>, q: Pos)
    requires |u| == |v| == |m| == |w|
    requires forall i :: 0 <= i < |u| ==> Splits(u[i], v[i], c, x, m[i], w[i], q)
    ensures Cong(Dot(u, v), c * Sum(u) - x * Dot(m, w), q)
  {
    if u == [] {
      assert c * 0 - x * 0 == 0;
    } else {
      hide Cong, Dot, Sum, Splits;
      var n := |u| - 1;
      DotSplit(u[..n], v[..n], c, x, m[..n], w[..n], q);
      DotEnds(u, v); DotEnds(m, w);
      SplitStep(Dot(u[..n], v[..n]), Sum(u[..n]), Dot(m[..n], w[..n]), u[n], v[n], c, x, m[n], w[n],
                Dot(u, v), Sum(u), Dot(m, w), q);
    }
  }

  lemma SplitStep(d: int, s: int, e: int, u: int, v: int, c: int, x: int, m: int, w: int,
                  d': int, s': int, e': int, q: Pos)
    requires Cong(d, c * s - x * e, q) && Splits(u, v, c, x, m, w, q)
    requires d' == d + u * v && s' == s + u * 1 && e' == e + m * w
    ensures Cong(d', c * s' - x * e', q)
  {
    hide Rem;
    var t := m * w;
    CongAdd(d, c * s - x * e, u * v, c * u - x * t, q);
    assert c * (s + u * 1) - x * (e + t) == c * s - x * e + (c * u - x * t);
  }

  lemma {:induction false} DotFirst(a: int, u: seq<int>, b: int, v: seq<int>)
    requires |u| == |v|
    ensures Dot([a] + u, [b] + v) == a * b + Dot(u, v)
  {
    if u == [] {
      assert ([a] + u)[..0] == [] && ([b] + v)[..0] == [];
    } else {
      var n := |u| - 1;
      DotFirst(a, u[..n], b, v[..n]);
      assert ([a] + u)[..n + 1] == [a] + u[..n] && ([b] + v)[..n + 1] == [b] + v[..n];
    }
  }

  // One term of the sum for f, with f divided by X - x_k.
  lemma TermLast(w: int, e: int, f: int, c: int, g: int, w': int, x: int, q: Pos)
    requires f == c + -e * g && Cong(w * e, x * w', q)
    ensures Cong(w * f, c * w - x * (w' * g), q)
  {
    hide Rem;
    CongMul(w * e, x * w', g, g, q);
    assert w * f == c * w - w * e * g by { assert w * (-e * g) == -(w * e * g); }
    assert x * w' * g == x * (w' * g);
    CongAdd(c * w, c * w, w * e * g, x * w' * g, q);
  }

  lemma DotEnds(u: seq<int>, v: seq<int>)
    requires |u| == |v| > 0
    ensures var k := |u| - 1;
            Dot(u, v) == Dot(u[..k], v[..k]) + u[k] * v[k] && Sum(u) == Sum(u[..k]) + u[k] * 1
    ensures Dot(u, v) == u[0] * v[0] + Dot(u[1..], v[1..]) && Sum(u) == u[0] * 1 + Sum(u[1..])
  {
    var k := |u| - 1;
    assert Ones(|u|)[..k] == Ones(k);
    DotFirst(u[0], u[1..], v[0], v[1..]);
    DotFirst(u[0], u[1..], 1, Ones(k));
    assert [u[0]] + u[1..] == u && [v[0]] + v[1..] == v && [1] + Ones(k) == Ones(|u|);
  }

  lemma TermsLast(xs: seq<int>, f: seq<int>, i: nat, q: Pos)
    requires Prime(q) && Nodes(xs, q) && i < |xs| - 1 && f != []
    ensures var k := |xs| - 1;
            Splits(Weights(xs, q)[i], Values(f, xs)[i], Eval(f, xs[k]), xs[k],
                   Weights(xs[..k], q)[i], Values(Quot(f, xs[k]), xs[..k])[i], q)
  {
    hide Cong, Weight, Eval, Quot, Nodes;
    var k := |xs| - 1;
    WeightWithoutLast(xs, i, q);
    Division(f, xs[k], xs[i]);
    TermLast(Weights(xs, q)[i], xs[k] - xs[i], Values(f, xs)[i], Eval(f, xs[k]),
             Values(Quot(f, xs[k]), xs[..k])[i], Weights(xs[..k], q)[i], xs[k], q);
  }

  lemma SumLast(xs: seq<int>, f: seq<int>, q: Pos)
    requires Prime(q) && Nodes(xs, q) && xs != [] && f != []
    ensures var k := |xs| - 1;
            Cong(Dot(Weights(xs, q), Values(f, xs)),
                 Eval(f, xs[k]) * Sum(Weights(xs, q))
                   - xs[k] * Dot(Weights(xs[..k], q), Values(Quot(f, xs[k]), xs[..k])), q)
  {
    hide Cong, Weight, Weights, Values, Eval, Quot, Nodes, Dot, Sum, Splits, Prime;
    var k := |xs| - 1;
    var c := Eval(f, xs[k]);
    var u, v, m, w := Weights(xs, q), Values(f, xs), Weights(xs[..k], q), Values(Quot(f, xs[k]), xs[..k]);
    var u', v' := u[..k], v[..k];
    forall i | 0 <= i < k ensures Splits(u'[i], v'[i], c, xs[k], m[i], w[i], q) {
      TermsLast(xs, f, i, q);
    }
    DotSplit(u', v', c, xs[k], m, w, q);
    DotEnds(u, v);
    OneTerm(Dot(u', v'), Sum(u'), xs[k] * Dot(m, w), u[k], c, Dot(u, v), Sum(u), q);
  }

  // One more term outside the split sum.
  lemma OneTerm(d: int, s: int, e: int, u: int, c: int, d': int, s': int, q: Pos)
    requires Cong(d, c * s - e, q) && d' == d + u * c && s' == s + u * 1
    ensures Cong(d', c * s' - e, q)
  {
    hide Rem;
    CongAdd(d, c * s - e, u * c, u * c, q);
    assert c * s' == c * s + u * c;
  }

  lemma TermsFirst(xs: seq<int>, i: nat, q: Pos)
    requires Prime(q) && Nodes(xs, q) && i < |xs| - 1
    ensures Splits(Weights(xs, q)[i + 1], xs[i + 1], xs[0], xs[0], Weights(xs[1..], q)[i], 1, q)
  {
    hide Cong, Weight, Nodes;
    WeightWithoutFirst(xs, i, q);
    TermLast(Weights(xs, q)[i + 1], xs[0] - xs[i + 1], xs[i + 1], xs[0], 1, Weights(xs[1..], q)[i], xs[0], q);
  }

  // The sum for f = X, split at the first node.
  lemma SumFirst(xs: seq<int>, q: Pos)
    requires Prime(q) && Nodes(xs, q) && xs != []
    ensures Cong(Dot(Weights(xs, q), xs), xs[0] * Sum(Weights(xs, q)) - xs[0] * Sum(Weights(xs[1..], q)), q)
  {
    hide Cong, Weight, Weights, Nodes, Dot, Sum, Ones, Splits, Prime;
    var u, m := Weights(xs, q), Weights(xs[1..], q);
    var ones := Ones(|m|);
    SumIsDot(m);
    var u', v' := u[1..], xs[1..];
    forall i | 0 <= i < |m| ensures Splits(u'[i], v'[i], xs[0], xs[0], m[i], ones[i], q) {
      TermsFirst(xs, i, q);
    }
    DotSplit(u', v', xs[0], xs[0], m, ones, q);
    DotEnds(u, xs);
    OneTerm(Dot(u', v'), Sum(u'), xs[0] * Sum(m), u[0], xs[0], Dot(u, xs), Sum(u), q);
  }

  // The weights add up to one: the two ways of splitting the sum for f = X.
  lemma {:induction false} WeightsSum(xs: seq<int>, q: Pos)
    requires Prime(q) && Nodes(xs, q) && xs != []
    ensures Cong(Sum(Weights(xs, q)), 1, q)
    decreases |xs|
  {
    if |xs| == 1 {
      OneNode(xs, q);
    } else {
      hide Cong, Weight, Weights, Dot, Sum;
      WeightWithoutLast(xs, 0, q); WeightWithoutFirst(xs, 0, q);
      WeightsSum(xs[..|xs| - 1], q);
      WeightsSum(xs[1..], q);
      BothSplits(xs, q);
    }
  }

  lemma OneNode(xs: seq<int>, q: Pos)
    requires Prime(q) && |xs| == 1
    ensures Cong(Sum(Weights(xs, q)), 1, q)
  {
    var u := Weights(xs, q);
    WeightCorrect(xs, 0, q);
    assert Without(xs, 0) == [] && Minus([], xs[0]) == [];
    assert u[..0] == [] && Dot([], []) == 0 && Ones(1)[..0] == [];
  }

  lemma BothSplits(xs: seq<int>, q: Pos)
    requires Prime(q) && Nodes(xs, q) && |xs| > 1
    requires Cong(Sum(Weights(xs[1..], q)), 1, q) && Cong(Sum(Weights(xs[..|xs| - 1], q)), 1, q)
    ensures Cong(Sum(Weights(xs, q)), 1, q)
  {
    hide Cong, Weight, Weights, Values, Eval, Quot, Dot, Sum, Ones;
    var u, k := Weights(xs, q), |xs| - 1;
    SumLast(xs, [0, 1], q);
    ValuesOfX(xs, xs[k]);
    SumIsDot(Weights(xs[..k], q));
    SumFirst(xs, q);
    TwoSplits(xs[0], xs[k], Dot(u, xs), Sum(u), Sum(Weights(xs[1..], q)), Sum(Weights(xs[..k], q)), q);
  }

  lemma ValuesOfX(xs: seq<int>, c: int)
    requires xs != []
    ensures Values([0, 1], xs) == xs && Eval([0, 1], c) == c
    ensures Values(Quot([0, 1], c), xs[..|xs| - 1]) == Ones(|xs| - 1)
  {
    forall i | 0 <= i < |xs| ensures Values([0, 1], xs)[i] == xs[i] { LinearEval(xs[i]); }
    LinearEval(c);
    assert Quot([0, 1], c) == [1] by { assert [0, 1][1..] == [1]; }
    var ys := xs[..|xs| - 1];
    forall i | 0 <= i < |ys| ensures Values([1], ys)[i] == 1 { LinearEval(ys[i]); }
  }

  lemma SumIsDot(u: seq<int>)
    ensures Sum(u) == Dot(u, Ones(|u|))
  {
  }

  lemma LinearEval(x: int)
    ensures Eval([0, 1], x) == x && Eval([1], x) == 1
  {
    assert [0, 1][1..] == [1] && [1][1..] == [];
    assert Eval([], x) == 0 && x * 0 == 0 && x * 1 == x;
  }

  lemma TwoSplits(a: int, b: int, d: int, s: int, s1: int, s2: int, q: Pos)
    requires Prime(q) && !Cong(a, b, q) && Cong(s1, 1, q) && Cong(s2, 1, q)
    requires Cong(d, a * s - a * s1, q) && Cong(d, b * s - b * s2, q)
    ensures Cong(s, 1, q)
  {
    hide Rem;
    CongMul(a, a, s1, 1, q); CongMul(b, b, s2, 1, q);
    CongAdd(a * s, a * s, a * s1, a, q); CongAdd(b * s, b * s, b * s2, b, q);
    CongAdd(a * s - a, b * s - b, b * s - b, b * s - b, q);
    assert a * s - a - (b * s - b) == (a - b) * (s - 1);
    EuclidLemma(a - b, s - 1, q);
    CongSub(a, b, q); CongSub(s, 1, q);
  }

  // Interpolation at zero is exact for every f of degree below the number of
  // nodes.
  lemma {:induction false} Interpolation(xs: seq<int>, f: seq<int>, q: Pos)
    requires Prime(q) && Nodes(xs, q) && xs != [] && 0 < |f| <= |xs|
    ensures Cong(Dot(Weights(xs, q), Values(f, xs)), f[0], q)
    decreases |xs|
  {
    hide Cong, Weight, Weights, Values, Eval, Quot, Nodes, Dot, Sum;
    var k := |xs| - 1;
    var c, g := Eval(f, xs[k]), Quot(f, xs[k]);
    SumLast(xs, f, q);
    WeightsSum(xs, q);
    Division(f, xs[k], 0);
    ConstantTerm(f);
    var rest := Dot(Weights(xs[..k], q), Values(g, xs[..k]));
    if g == [] {
      ZeroValues(Weights(xs[..k], q), xs[..k], q);
      EvalEmpty(0);
    } else {
      WeightWithoutLast(xs, 0, q);
      Interpolation(xs[..k], g, q);
      ConstantTerm(g);
    }
    Assemble(Dot(Weights(xs, q), Values(f, xs)), c, Sum(Weights(xs, q)), xs[k], rest, Eval(g, 0), f[0], q);
  }

  lemma EvalEmpty(x: int)
    ensures Eval([], x) == 0
  {
  }

  lemma {:induction false} ZeroValues(u: seq<int>, xs: seq<int>, q: Pos)
    requires |u| == |xs|
    ensures Dot(u, Values([], xs)) == 0 && Cong(Dot(u, Values([], xs)), 0, q)
  {
    if u != [] {
      var n := |u| - 1;
      ZeroValues(u[..n], xs[..n], q);
      assert Values([], xs)[..n] == Values([], xs[..n]);
      assert u[n] * 0 == 0;
    }
  }

  lemma Assemble(d: int, c: int, s: int, x: int, rest: int, g: int, f: int, q: Pos)
    requires Cong(d, c * s - x * rest, q) && Cong(s, 1, q) && Cong(rest, g, q) && f == c + (0 - x) * g
    ensures Cong(d, f, q)
  {
    hide Rem;
    CongMul(c, c, s, 1, q); CongMul(x, x, rest, g, q);
    CongAdd(c * s, c, x * rest, x * g, q);
  }
}
