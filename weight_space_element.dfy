/** Elements of a weight space (class `WeightSpaceElement` of
    weight_space.py): the scalar product with the coroot lattice, the
    dominance test and the maps to other realizations. */
module WeightSpaceElements {
  import opened Keys
  import opened Sums
  import opened FreeModule
  import opened WeightSpaces

  /** The term at key `k` of the scalar product of `v` and `w`. */
  function Product(v: Vec, w: Vec): Key -> int
  {
    k => Coeff(v, k) * Coeff(w, k)
  }

  /** The canonical pairing, as a reference definition: the sum of the
      products of coefficients over the keys of both operands. */
  function Pairing(v: Vec, w: Vec): int
  {
    SumOver(v.Keys + w.Keys, Product(v, w))
  }

  /** Summing over the keys of either operand alone gives the pairing: keys
      missing from one operand contribute zero. */
  lemma PairingOverEither(v: Vec, w: Vec)
    ensures SumOver(v.Keys, Product(w, v)) == Pairing(v, w)
    ensures SumOver(w.Keys, Product(v, w)) == Pairing(v, w)
  {
    SumExt(v.Keys, Product(w, v), Product(v, w));
    SumZeroOutside(v.Keys, v.Keys + w.Keys, Product(v, w));
    SumZeroOutside(w.Keys, v.Keys + w.Keys, Product(v, w));
  }

  /** The scalar product of a weight with an element `lambdacheck` of the
      coroot lattice or space; `inCoroots` is the outcome of that membership
      test. The sum runs over the keys of `v` when it has strictly fewer
      terms, otherwise over those of `lambdacheck`. */
  function Scalar(v: Vec, lambdacheck: Vec, inCoroots: bool): (r: Result<int>)
    ensures r.Ok? <==> inCoroots
    ensures r.Err? ==> r.error == NotInCorootSpace
    ensures r.Ok? ==> r.value == Pairing(v, lambdacheck)
  {
    PairingOverEither(v, lambdacheck);
    if !inCoroots then Err(NotInCorootSpace)
    else if |v| < |lambdacheck| then Ok(SumOver(v.Keys, Product(lambdacheck, v)))
    else Ok(SumOver(lambdacheck.Keys, Product(v, lambdacheck)))
  }

  /** The pairing does not depend on the order of its operands. */
  lemma PairingSymmetric(v: Vec, w: Vec)
    ensures Pairing(v, w) == Pairing(w, v)
  {
    assert v.Keys + w.Keys == w.Keys + v.Keys;
    SumExt(v.Keys + w.Keys, Product(v, w), Product(w, v));
  }

  /** Pairing with a basis element reads off one coefficient. */
  lemma PairingWithBasis(v: Vec, k: Key)
    ensures Pairing(v, Monomial(k)) == Coeff(v, k)
  {
    var m := Monomial(k);
    SumAt(v.Keys + m.Keys, Product(v, m), k);
  }

  /** The pairing is additive in its first operand. */
  lemma PairingAdditive(u: Vec, v: Vec, w: Vec)
    ensures Pairing(Add(u, v), w) == Pairing(u, w) + Pairing(v, w)
  {
    var s := u.Keys + v.Keys + w.Keys;
    var a := Add(u, v);
    forall k | k in a ensures k in s {
      assert Coeff(a, k) != 0;
    }
    forall k ensures Product(a, w)(k) == Product(u, w)(k) + Product(v, w)(k) {
      assert Coeff(a, k) == Coeff(u, k) + Coeff(v, k);
      Distribute(Coeff(u, k), Coeff(v, k), Coeff(w, k));
    }
    SumZeroOutside(a.Keys + w.Keys, s, Product(a, w));
    SumZeroOutside(u.Keys + w.Keys, s, Product(u, w));
    SumZeroOutside(v.Keys + w.Keys, s, Product(v, w));
    SumAdd(s, Product(u, w), Product(v, w), Product(a, w));
  }

  lemma Distribute(x: int, y: int, z: int)
    ensures (x + y) * z == x * z + y * z
  {
  }

  lemma Associate(x: int, y: int, z: int)
    ensures (x * y) * z == x * (y * z)
  {
  }

  /** The pairing is homogeneous in its first operand. */
  lemma {:induction false} PairingScaled(c: int, v: Vec, w: Vec)
    ensures Pairing(Scale(c, v), w) == c * Pairing(v, w)
  {
    var sv := Scale(c, v);
    forall k | k in sv ensures k in v {
      assert c * Coeff(v, k) != 0;
    }
    forall k ensures Product(sv, w)(k) == c * Product(v, w)(k) {
      Associate(c, Coeff(v, k), Coeff(w, k));
    }
    SumZeroOutside(sv.Keys + w.Keys, v.Keys + w.Keys, Product(sv, w));
    SumTimes(v.Keys + w.Keys, c, Product(v, w), Product(sv, w));
  }

  lemma {:induction false} SumTimes(s: set<Key>, c: int, f: Key -> int, g: Key -> int)
    requires forall k :: k in s ==> g(k) == c * f(k)
    ensures SumOver(s, g) == c * SumOver(s, f)
    decreases s
  {
    if s != {} {
      var k := Least(s);
      SumTimes(s - {k}, c, f, g);
      assert SumOver(s, g) == g(k) + SumOver(s - {k}, g);
      assert SumOver(s, f) == f(k) + SumOver(s - {k}, f);
      assert c * (f(k) + SumOver(s - {k}, f)) == c * f(k) + c * SumOver(s - {k}, f);
    }
  }

  /** The fundamental weights and the simple coroots (the basis of the
      coroot lattice) are dual bases. */
  lemma FundamentalWeightsDualToSimpleCoroots(space: WeightSpace, i: int, j: int)
    requires i in space.rootSystem.indexSet && j in space.rootSystem.indexSet
    ensures FundamentalWeight(space, Node(i)).Ok?
    ensures Scalar(FundamentalWeight(space, Node(i)).value, Monomial(Node(j)), true) == Ok(if i == j then 1 else 0)
  {
    PairingWithBasis(FundamentalWeight(space, Node(i)).value, Node(j));
  }

  /** Pairing the `j`-th simple root with the `i`-th simple coroot gives the
      Cartan matrix entry (i, j), deformed or not by `delta`. */
  lemma SimpleRootPairsToCartanEntry(space: WeightSpace, i: int, j: int)
    requires i in space.rootSystem.indexSet && j in space.rootSystem.indexSet
    ensures SimpleRoot(space, Node(j)).Ok?
    ensures Scalar(SimpleRoot(space, Node(j)).value, Monomial(Node(i)), true) == Ok(space.rootSystem.cartan(i, j))
  {
    PairingWithBasis(SimpleRoot(space, Node(j)).value, Node(i));
  }

  /** `delta` is orthogonal to every element of the coroot lattice, whose
      keys are nodes of the index set. */
  lemma DeltaOrthogonalToCoroots(w: Vec)
    requires Delta !in w
    ensures Pairing(Monomial(Delta), w) == 0
  {
    PairingSymmetric(Monomial(Delta), w);
    PairingWithBasis(w, Delta);
  }

  /** Adding a multiple of `delta` to a weight does not change its scalar
      product with any element of the coroot lattice. */
  lemma ScalarIgnoresDelta(v: Vec, c: int, lambdacheck: Vec)
    requires Delta !in lambdacheck
    ensures Scalar(Add(v, Scale(c, Monomial(Delta))), lambdacheck, true) == Scalar(v, lambdacheck, true)
  {
    var x := Scale(c, Monomial(Delta));
    PairingAdditive(v, x, lambdacheck);
    PairingScaled(c, Monomial(Delta), lambdacheck);
    DeltaOrthogonalToCoroots(lambdacheck);
    assert Pairing(x, lambdacheck) == 0;
    assert Pairing(Add(v, x), lambdacheck) == Pairing(v, lambdacheck);
  }

  /** Dominance: every coefficient on the index set is non-negative; the
      coefficient of `delta` is not looked at. */
  predicate IsDominant(space: WeightSpace, v: Vec)
  {
    forall i :: i in space.rootSystem.indexSet ==> Coeff(v, Node(i)) >= 0
  }

  /** An element is dominant exactly when it pairs non-negatively with every
      simple coroot. */
  lemma DominantIffNonNegativeOnSimpleCoroots(space: WeightSpace, v: Vec)
    ensures IsDominant(space, v) <==>
      forall i :: i in space.rootSystem.indexSet ==> Scalar(v, Monomial(Node(i)), true).value >= 0
  {
    forall i | i in space.rootSystem.indexSet {
      PairingWithBasis(v, Node(i));
    }
  }

  /** Adding any multiple of `delta` does not change dominance. */
  lemma DominanceIgnoresDelta(space: WeightSpace, v: Vec, c: int)
    ensures IsDominant(space, Add(v, Scale(c, Monomial(Delta)))) == IsDominant(space, v)
  {
    var w := Add(v, Scale(c, Monomial(Delta)));
    assert forall i :: Coeff(w, Node(i)) == Coeff(v, Node(i));
  }

  /** This space is its own weight-space realization. */
  function ToWeightSpace(v: Vec): (r: Vec)
    ensures r == v
  {
    v
  }

  /** The image of an element under the ambient-space morphism. */
  function ToAmbient(space: WeightSpace, omega: Key -> Vec, v: Vec): (r: Result<Vec>)
    ensures r.Ok? <==> !space.rootSystem.dualSide
    ensures r.Err? ==> r.error == NoAmbientMapFromDual
    ensures r.Ok? ==> forall j :: Coeff(r.value, j) == SumOver(v.Keys, Contribution(omega, v, j))
  {
    match ToAmbientSpaceMorphism(space, omega)
    case Ok(onBasis) => Ok(Apply(onBasis, v))
    case Err(e) => Err(e)
  }

  /** On the direct side, the ambient-space morphism sends the `i`-th
      fundamental weight to the `i`-th ambient fundamental weight. */
  lemma ToAmbientOfFundamentalWeight(space: WeightSpace, omega: Key -> Vec, i: int)
    requires !space.rootSystem.dualSide && i in space.rootSystem.indexSet
    requires IsSparse(omega(Node(i)))
    ensures FundamentalWeight(space, Node(i)).Ok?
    ensures ToAmbient(space, omega, FundamentalWeight(space, Node(i)).value) == Ok(omega(Node(i)))
  {
    ApplyMonomial(omega, Node(i));
  }
}
