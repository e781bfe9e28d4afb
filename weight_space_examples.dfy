/** Worked examples from the documentation of weight_space.py, in types
    A_3, A_4, A_2^(1) and A_3^(1). Each example holds for every root system
    that has the data of that type. */
module WeightSpaceExamples {
  import opened Keys
  import opened FreeModule
  import opened WeightSpaces
  import opened WeightSpaceElements

  /** The Cartan matrix of type A_n: 2 on the diagonal, -1 between neighbours. */
  function CartanA(i: int, j: int): int
  {
    if i == j then 2 else if i - j == 1 || j - i == 1 then -1 else 0
  }

  /** The Cartan matrix of type A_n^(1) for n >= 2: the nodes 0..n lie on a
      cycle, so 0 and n are neighbours too. */
  function CartanAffineA(n: nat, i: int, j: int): int
  {
    if i == j then 2
    else if i - j == 1 || j - i == 1 || i - j == n || j - i == n then -1
    else 0
  }

  /** The data of type A_n (finite, n = 3 or 4), nodes 1..n. */
  predicate IsTypeA(rs: RootSystem, n: nat)
  {
    && rs.indexSet == (if n == 3 then {1, 2, 3} else {1, 2, 3, 4})
    && (n == 3 || n == 4)
    && !rs.isAffine && !rs.dualSide
    && forall i, j | i in rs.indexSet && j in rs.indexSet :: rs.cartan(i, j) == CartanA(i, j)
  }

  /** The data of type A_n^(1) (n = 2 or 3), nodes 0..n, special node 0. */
  predicate IsTypeAffineA(rs: RootSystem, n: nat)
  {
    && rs.indexSet == (if n == 2 then {0, 1, 2} else {0, 1, 2, 3})
    && (n == 2 || n == 3)
    && rs.specialNode == 0 && rs.isAffine && !rs.dualSide
    && forall i, j | i in rs.indexSet && j in rs.indexSet :: rs.cartan(i, j) == CartanAffineA(n, i, j)
  }

  /** An extended weight lattice of A_4 is refused; the basis keys of the
      extended weight lattice of A_3^(1) are 0, 1, 2, 3 and `delta`. */
  lemma ConstructionExamples(a4: RootSystem, affineA3: RootSystem)
    requires IsTypeA(a4, 4) && IsTypeAffineA(affineA3, 3)
    ensures Make(a4, true) == Err(ExtendedNotAffine)
    ensures Make(a4, false).Ok?
    ensures BasisKeys(WeightSpace(affineA3, true)) == {Node(0), Node(1), Node(2), Node(3), Delta}
    ensures BasisKeys(WeightSpace(affineA3, false)) == {Node(0), Node(1), Node(2), Node(3)}
  {
    var keys := BasisKeys(WeightSpace(affineA3, true));
    assert Node(0) in keys && Node(1) in keys && Node(2) in keys && Node(3) in keys;
    var plain := BasisKeys(WeightSpace(affineA3, false));
    assert Node(0) in plain && Node(1) in plain && Node(2) in plain && Node(3) in plain;
  }

  /** The basis extension of A_3^(1) and of A_3. */
  lemma BasisExtensionExamples(a3: RootSystem, affineA3: RootSystem)
    requires IsTypeA(a3, 3) && IsTypeAffineA(affineA3, 3)
    ensures BasisExtension(WeightSpace(affineA3, false)) == map[]
    ensures BasisExtension(WeightSpace(affineA3, true)) == map[Delta := Monomial(Delta)]
    ensures BasisExtension(WeightSpace(a3, false)) == map[]
  {
  }

  /** Lambda[1] of A_3, and `delta` in A_3 and A_3^(1). */
  lemma FundamentalWeightExamples(a3: RootSystem, affineA3: RootSystem)
    requires IsTypeA(a3, 3) && IsTypeAffineA(affineA3, 3)
    ensures FundamentalWeight(WeightSpace(a3, false), Node(1)) == Ok(Monomial(Node(1)))
    ensures FundamentalWeight(WeightSpace(a3, false), Delta) == Err(DeltaNotAffine)
    ensures FundamentalWeight(WeightSpace(affineA3, true), Delta) == Ok(Monomial(Delta))
    ensures FundamentalWeight(WeightSpace(affineA3, false), Delta) == Ok(Zero())
  {
    assert 1 in a3.indexSet;
  }

  /** The simple root 2 of A_3 is -Lambda[1] + 2*Lambda[2] - Lambda[3]. */
  lemma SimpleRootExampleA3(a3: RootSystem)
    requires IsTypeA(a3, 3)
    ensures SimpleRoot(WeightSpace(a3, false), Node(2)) == Ok(map[Node(1) := -1, Node(2) := 2, Node(3) := -1])
  {
    var space := WeightSpace(a3, false);
    assert 2 in a3.indexSet;
    var r := SimpleRoot(space, Node(2)).value;
    var expected := map[Node(1) := -1, Node(2) := 2, Node(3) := -1];
    SimpleRootCoefficients(space, 2);
    forall k ensures Coeff(r, k) == Coeff(expected, k) {
      assert Coeff(r, k) == SimpleRootEntry(space, 2, k);
    }
    Extensionality(r, expected);
  }

  /** The simple root 0 of the extended weight lattice of A_3^(1) is
      2*Lambda[0] - Lambda[1] - Lambda[3] + delta. */
  lemma SimpleRootExampleAffineA3(affineA3: RootSystem)
    requires IsTypeAffineA(affineA3, 3)
    ensures SimpleRoot(WeightSpace(affineA3, true), Node(0)) ==
      Ok(map[Node(0) := 2, Node(1) := -1, Node(3) := -1, Delta := 1])
  {
    assert 0 in affineA3.indexSet;
    SimpleRootCoefficients(WeightSpace(affineA3, true), 0);
    ColumnZeroAffineA3(affineA3, SimpleRoot(WeightSpace(affineA3, true), Node(0)).value);
  }

  lemma ColumnZeroAffineA3(affineA3: RootSystem, r: Vec)
    requires IsTypeAffineA(affineA3, 3)
    requires IsSparse(r)
    requires forall k :: Coeff(r, k) == SimpleRootEntry(WeightSpace(affineA3, true), 0, k)
    ensures r == map[Node(0) := 2, Node(1) := -1, Node(3) := -1, Delta := 1]
  {
    var expected := map[Node(0) := 2, Node(1) := -1, Node(3) := -1, Delta := 1];
    forall k ensures Coeff(r, k) == Coeff(expected, k) {
      assert Coeff(r, k) == SimpleRootEntry(WeightSpace(affineA3, true), 0, k);
      if k.Node? && k.i !in affineA3.indexSet {
        assert k !in expected;
      }
    }
    Extensionality(r, expected);
  }

  /** The sum of the simple roots of A_3^(1): zero in the weight lattice, whose
      embedding of the root lattice is not faithful, and `delta` in the
      extended one. */
  lemma SumOfSimpleRootsAffineA3(affineA3: RootSystem, extended: bool)
    requires IsTypeAffineA(affineA3, 3)
    ensures forall j :: 0 <= j <= 3 ==> SimpleRoot(WeightSpace(affineA3, extended), Node(j)).Ok?
    ensures
      var space := WeightSpace(affineA3, extended);
      Add(Add(Add(SimpleRoot(space, Node(0)).value, SimpleRoot(space, Node(1)).value),
              SimpleRoot(space, Node(2)).value),
          SimpleRoot(space, Node(3)).value)
      == if extended then Monomial(Delta) else Zero()
  {
    var space := WeightSpace(affineA3, extended);
    SimpleRootsOfAffineA3(affineA3, extended);
    assert 0 in affineA3.indexSet && 1 in affineA3.indexSet && 2 in affineA3.indexSet && 3 in affineA3.indexSet;
    SimpleRootCoefficients(space, 0);
    SimpleRootCoefficients(space, 1);
    SimpleRootCoefficients(space, 2);
    SimpleRootCoefficients(space, 3);
    SumOfColumnsAffineA3(affineA3, extended, SimpleRoot(space, Node(0)).value, SimpleRoot(space, Node(1)).value,
                         SimpleRoot(space, Node(2)).value, SimpleRoot(space, Node(3)).value);
  }

  lemma SimpleRootsOfAffineA3(affineA3: RootSystem, extended: bool)
    requires IsTypeAffineA(affineA3, 3)
    ensures forall j :: 0 <= j <= 3 ==> SimpleRoot(WeightSpace(affineA3, extended), Node(j)).Ok?
  {
    forall j | 0 <= j <= 3 ensures SimpleRoot(WeightSpace(affineA3, extended), Node(j)).Ok? {
      assert j in affineA3.indexSet;
    }
  }

  lemma SumOfColumnsAffineA3(affineA3: RootSystem, extended: bool, a0: Vec, a1: Vec, a2: Vec, a3: Vec)
    requires IsTypeAffineA(affineA3, 3)
    requires forall k :: Coeff(a0, k) == SimpleRootEntry(WeightSpace(affineA3, extended), 0, k)
    requires forall k :: Coeff(a1, k) == SimpleRootEntry(WeightSpace(affineA3, extended), 1, k)
    requires forall k :: Coeff(a2, k) == SimpleRootEntry(WeightSpace(affineA3, extended), 2, k)
    requires forall k :: Coeff(a3, k) == SimpleRootEntry(WeightSpace(affineA3, extended), 3, k)
    ensures Add(Add(Add(a0, a1), a2), a3) == if extended then Monomial(Delta) else Zero()
  {
    var total := Add(Add(Add(a0, a1), a2), a3);
    var expected := if extended then Monomial(Delta) else Zero();
    forall k ensures Coeff(total, k) == Coeff(expected, k) {
      SumOfCoefficientsAffineA3(affineA3, extended, k);
    }
    Extensionality(total, expected);
  }

  /** Each row of the Cartan matrix of A_3^(1) sums to zero. */
  lemma RowSumsAffineA3(i: int)
    requires 0 <= i <= 3
    ensures CartanAffineA(3, i, 0) + CartanAffineA(3, i, 1) + CartanAffineA(3, i, 2) + CartanAffineA(3, i, 3) == 0
  {
  }

  lemma SumOfCoefficientsAffineA3(affineA3: RootSystem, extended: bool, k: Key)
    requires IsTypeAffineA(affineA3, 3)
    ensures SimpleRootEntry(WeightSpace(affineA3, extended), 0, k) + SimpleRootEntry(WeightSpace(affineA3, extended), 1, k)
          + SimpleRootEntry(WeightSpace(affineA3, extended), 2, k) + SimpleRootEntry(WeightSpace(affineA3, extended), 3, k)
         == if extended && k == Delta then 1 else 0
  {
    if k.Node? && k.i in affineA3.indexSet {
      assert 0 in affineA3.indexSet && 1 in affineA3.indexSet && 2 in affineA3.indexSet && 3 in affineA3.indexSet;
      RowSumsAffineA3(k.i);
    }
  }

  /** The null root of A_2^(1), the sum of its simple roots (all marks are 1):
      zero in the weight lattice and `delta` in the extended one. */
  lemma SumOfSimpleRootsAffineA2(affineA2: RootSystem, extended: bool)
    requires IsTypeAffineA(affineA2, 2)
    ensures forall j :: 0 <= j <= 2 ==> SimpleRoot(WeightSpace(affineA2, extended), Node(j)).Ok?
    ensures
      var space := WeightSpace(affineA2, extended);
      Add(Add(SimpleRoot(space, Node(0)).value, SimpleRoot(space, Node(1)).value),
          SimpleRoot(space, Node(2)).value)
      == if extended then Monomial(Delta) else Zero()
  {
    var space := WeightSpace(affineA2, extended);
    assert 0 in affineA2.indexSet && 1 in affineA2.indexSet && 2 in affineA2.indexSet;
    SimpleRootCoefficients(space, 0);
    SimpleRootCoefficients(space, 1);
    SimpleRootCoefficients(space, 2);
    forall j | 0 <= j <= 2 ensures SimpleRoot(space, Node(j)).Ok? {
      assert j in affineA2.indexSet;
    }
    SumOfColumnsAffineA2(affineA2, extended, SimpleRoot(space, Node(0)).value, SimpleRoot(space, Node(1)).value,
                         SimpleRoot(space, Node(2)).value);
  }

  lemma SumOfColumnsAffineA2(affineA2: RootSystem, extended: bool, a0: Vec, a1: Vec, a2: Vec)
    requires IsTypeAffineA(affineA2, 2)
    requires forall k :: Coeff(a0, k) == SimpleRootEntry(WeightSpace(affineA2, extended), 0, k)
    requires forall k :: Coeff(a1, k) == SimpleRootEntry(WeightSpace(affineA2, extended), 1, k)
    requires forall k :: Coeff(a2, k) == SimpleRootEntry(WeightSpace(affineA2, extended), 2, k)
    ensures Add(Add(a0, a1), a2) == if extended then Monomial(Delta) else Zero()
  {
    var total := Add(Add(a0, a1), a2);
    var expected := if extended then Monomial(Delta) else Zero();
    forall k ensures Coeff(total, k) == Coeff(expected, k) {
      SumOfCoefficientsAffineA2(affineA2, extended, k);
    }
    Extensionality(total, expected);
  }

  lemma SumOfCoefficientsAffineA2(affineA2: RootSystem, extended: bool, k: Key)
    requires IsTypeAffineA(affineA2, 2)
    ensures
      var space := WeightSpace(affineA2, extended);
      SimpleRootEntry(space, 0, k) + SimpleRootEntry(space, 1, k) + SimpleRootEntry(space, 2, k)
      == if extended && k == Delta then 1 else 0
  {
    if k.Node? && k.i in affineA2.indexSet {
      assert 0 in affineA2.indexSet && 1 in affineA2.indexSet && 2 in affineA2.indexSet;
    }
  }

  /** In type A_3, Lambda[1] + Lambda[3] is dominant and Lambda[1] - Lambda[2]
      is not; in the extended weight lattice of A_2^(1), Lambda[1] - delta is
      dominant, where delta is the null root (`SumOfSimpleRootsAffineA2`). */
  lemma DominanceExamples(a3: RootSystem, affineA2: RootSystem)
    requires IsTypeA(a3, 3) && IsTypeAffineA(affineA2, 2)
    ensures IsDominant(WeightSpace(a3, false), Add(Monomial(Node(1)), Monomial(Node(3))))
    ensures !IsDominant(WeightSpace(a3, false), Add(Monomial(Node(1)), Scale(-1, Monomial(Node(2)))))
    ensures IsDominant(WeightSpace(affineA2, true), Add(Monomial(Node(1)), Scale(-1, Monomial(Delta))))
  {
    DominantA3(a3);
    NotDominantA3(a3);
    DominantAffineA2(affineA2);
  }

  lemma DominantA3(a3: RootSystem)
    requires IsTypeA(a3, 3)
    ensures IsDominant(WeightSpace(a3, false), Add(Monomial(Node(1)), Monomial(Node(3))))
  {
    var w := Add(Monomial(Node(1)), Monomial(Node(3)));
    forall i | i in a3.indexSet ensures Coeff(w, Node(i)) >= 0 {
      assert Coeff(w, Node(i)) == Coeff(Monomial(Node(1)), Node(i)) + Coeff(Monomial(Node(3)), Node(i));
    }
  }

  lemma NotDominantA3(a3: RootSystem)
    requires IsTypeA(a3, 3)
    ensures !IsDominant(WeightSpace(a3, false), Add(Monomial(Node(1)), Scale(-1, Monomial(Node(2)))))
  {
    var w := Add(Monomial(Node(1)), Scale(-1, Monomial(Node(2))));
    assert Coeff(Scale(-1, Monomial(Node(2))), Node(2)) == -1;
    assert 2 in a3.indexSet && Coeff(w, Node(2)) < 0;
  }

  lemma DominantAffineA2(affineA2: RootSystem)
    requires IsTypeAffineA(affineA2, 2)
    ensures IsDominant(WeightSpace(affineA2, true), Add(Monomial(Node(1)), Scale(-1, Monomial(Delta))))
  {
    var w := Add(Monomial(Node(1)), Scale(-1, Monomial(Delta)));
    forall i | i in affineA2.indexSet ensures Coeff(w, Node(i)) >= 0 {
      assert Coeff(Scale(-1, Monomial(Delta)), Node(i)) == 0;
      assert Coeff(w, Node(i)) == Coeff(Monomial(Node(1)), Node(i));
    }
  }

  /** The projection of the weight space of A_2^(1) to its classical space. */
  lemma ClassicalProjectionExamples(affineA2: RootSystem)
    requires IsTypeAffineA(affineA2, 2)
    ensures ToClassicalOnBasis(WeightSpace(affineA2, false), Delta) == Zero()
    ensures ToClassicalOnBasis(WeightSpace(affineA2, false), Node(0)) == Zero()
    ensures ToClassicalOnBasis(WeightSpace(affineA2, false), Node(1)) == Monomial(Node(1))
    ensures ToClassicalOnBasis(WeightSpace(affineA2, false), Node(2)) == Monomial(Node(2))
  {
  }
}
