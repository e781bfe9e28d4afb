/** The weight lattice of a root system (class `WeightSpace` of
    weight_space.py): the free module spanned by the fundamental weights
    `Lambda[i]`, one per node `i` of the Dynkin diagram, plus one extra basis
    element `delta` when the space is extended (affine types only). The root
    system is a collaborator and enters as a plain record of its data. */
module WeightSpaces {
  import opened Keys
  import opened FreeModule

  /** The failures of the source; each is raised at the offending call. */
  datatype Error =
    | ExtendedNotAffine        // extended weight lattices exist only for affine root systems
    | DeltaNotAffine           // "delta" is defined only for affine weight spaces
    | NotInIndexSet(key: Key)  // a key that is not a node of the Dynkin diagram
    | NotInCorootSpace         // a scalar product against an element outside the coroot lattice/space
    | NoAmbientMapFromDual     // no map from a coweight space to the ambient space

  datatype Result<T> = Ok(value: T) | Err(error: Error)

  /** What the weight space reads from its root system: the index set (the
      nodes of the Dynkin diagram), the Cartan matrix entry `cartan(i, j)` in
      row `i` and column `j`, the special node, whether the Cartan type is
      affine, and whether this is the dual side (coweights). */
  datatype RootSystem = RootSystem(
    indexSet: set<int>,
    cartan: (int, int) -> int,
    specialNode: int,
    isAffine: bool,
    dualSide: bool)

  /** A weight space: its root system and whether it is extended. */
  datatype WeightSpace = WeightSpace(rootSystem: RootSystem, extended: bool)

  /** The configurations construction accepts. */
  predicate Valid(space: WeightSpace)
  {
    space.extended ==> space.rootSystem.isAffine
  }

  function IsExtended(space: WeightSpace): bool
  {
    space.extended
  }

  /** Construction: an extended space needs an affine root system. */
  function Make(rs: RootSystem, extended: bool): (r: Result<WeightSpace>)
    ensures r.Ok? <==> (extended ==> rs.isAffine)
    ensures r.Err? ==> r.error == ExtendedNotAffine
    ensures r.Ok? ==> Valid(r.value) && r.value.rootSystem == rs && IsExtended(r.value) == extended
  {
    if extended && !rs.isAffine then Err(ExtendedNotAffine) else Ok(WeightSpace(rs, extended))
  }

  /** The keys of the nodes of the index set. */
  function NodeKeys(rs: RootSystem): set<Key>
  {
    set i | i in rs.indexSet :: Node(i)
  }

  /** The basis keys: the index set, plus `delta` when extended. */
  function BasisKeys(space: WeightSpace): (keys: set<Key>)
    ensures forall k :: k in keys <==> (k.Node? && k.i in space.rootSystem.indexSet) || (k.Delta? && space.extended)
  {
    NodeKeys(space.rootSystem) + if space.extended then {Delta} else {}
  }

  /** The elements of the space: sparse, and on its basis keys only. */
  predicate IsElement(space: WeightSpace, v: Vec)
  {
    IsSparse(v) && v.Keys <= BasisKeys(space)
  }

  /** The `i`-th fundamental weight, or, for `delta` in an affine type, the
      image of `delta` of the extended space: `delta` itself when extended,
      zero otherwise. */
  function FundamentalWeight(space: WeightSpace, k: Key): (r: Result<Vec>)
    ensures r.Ok? <==> if k.Delta? then space.rootSystem.isAffine else k.i in space.rootSystem.indexSet
    ensures r.Err? ==> r.error == if k.Delta? then DeltaNotAffine else NotInIndexSet(k)
    ensures r.Ok? ==> IsElement(space, r.value)
    ensures r.Ok? ==> forall j :: Coeff(r.value, j) == if j == k && (k.Node? || space.extended) then 1 else 0
  {
    if k == Delta then
      if !space.rootSystem.isAffine then Err(DeltaNotAffine)
      else if space.extended then Ok(Monomial(Delta))
      else Ok(Zero())
    else if k.i !in space.rootSystem.indexSet then Err(NotInIndexSet(k))
    else Ok(Monomial(k))
  }

  /** The family of basis elements added by the extension, keyed by their keys. */
  function BasisExtension(space: WeightSpace): (family: map<Key, Vec>)
    ensures family.Keys == BasisKeys(space) - NodeKeys(space.rootSystem)
    ensures family.Keys == if space.extended then {Delta} else {}
    ensures forall k :: k in family ==> IsElement(space, family[k])
    ensures forall k, j :: k in family ==> Coeff(family[k], j) == if j == k then 1 else 0
  {
    if space.extended then map[Delta := Monomial(Delta)] else map[]
  }

  /** The `j`-th simple root: column `j` of the Cartan matrix read in the basis
      of fundamental weights, plus `delta` at the special node of an extended
      space. */
  function SimpleRoot(space: WeightSpace, j: Key): (r: Result<Vec>)
    ensures r.Ok? <==> j.Node? && j.i in space.rootSystem.indexSet
    ensures r.Err? ==> r.error == NotInIndexSet(j)
    ensures r.Ok? ==> IsElement(space, r.value)
    ensures r.Ok? ==> forall i :: i in space.rootSystem.indexSet ==> Coeff(r.value, Node(i)) == space.rootSystem.cartan(i, j.i)
    ensures r.Ok? ==> Coeff(r.value, Delta) == if space.extended && j.i == space.rootSystem.specialNode then 1 else 0
  {
    var rs := space.rootSystem;
    if !(j.Node? && j.i in rs.indexSet) then Err(NotInIndexSet(j))
    else
      var column := FromCoeffs(NodeKeys(rs), (k: Key) => if k.Node? then rs.cartan(k.i, j.i) else 0);
      if space.extended && j.i == rs.specialNode then Ok(Add(column, Monomial(Delta))) else Ok(column)
  }

  /** The coefficient at `k` of the simple root `j`: the Cartan matrix entry
      (i, j) at each node `i` of the index set, 0 at any other node, and at
      `delta` exactly 1 when the space is extended and `j` is the special
      node, 0 otherwise. */
  function SimpleRootEntry(space: WeightSpace, j: int, k: Key): int
  {
    if k.Delta? then (if space.extended && j == space.rootSystem.specialNode then 1 else 0)
    else if k.i in space.rootSystem.indexSet then space.rootSystem.cartan(k.i, j)
    else 0
  }

  /** Every coefficient of the simple root `j` is its `SimpleRootEntry`. */
  lemma SimpleRootCoefficients(space: WeightSpace, j: int)
    requires j in space.rootSystem.indexSet
    ensures SimpleRoot(space, Node(j)).Ok?
    ensures forall k :: Coeff(SimpleRoot(space, Node(j)).value, k) == SimpleRootEntry(space, j, k)
  {
    var a := SimpleRoot(space, Node(j)).value;
    forall k ensures Coeff(a, k) == SimpleRootEntry(space, j, k) {
      if k.Node? && k.i !in space.rootSystem.indexSet {
        ZeroCoeffNotStored(a, k);
      }
    }
  }

  /** The basis keys of the classical space: the nodes other than the special one. */
  function ClassicalKeys(space: WeightSpace): set<Key>
  {
    set i | i in space.rootSystem.indexSet && i != space.rootSystem.specialNode :: Node(i)
  }

  /** The projection to the classical space on a basis key: zero for `delta`
      and the special node, the classical basis element otherwise. */
  function ToClassicalOnBasis(space: WeightSpace, k: Key): (r: Vec)
    ensures IsSparse(r)
    ensures forall j :: Coeff(r, j) == if j == k && k != Delta && k != Node(space.rootSystem.specialNode) then 1 else 0
    ensures k in BasisKeys(space) ==> r.Keys <= ClassicalKeys(space)
  {
    if k == Delta || k == Node(space.rootSystem.specialNode) then Zero() else Monomial(k)
  }

  /** The projection to the classical space, extended by linearity. */
  function ToClassical(space: WeightSpace, v: Vec): (r: Vec)
    ensures IsSparse(r)
    ensures forall j :: Coeff(r, j) == if j == Delta || j == Node(space.rootSystem.specialNode) then 0 else Coeff(v, j)
    ensures IsElement(space, v) ==> r.Keys <= ClassicalKeys(space)
  {
    var f := k => ToClassicalOnBasis(space, k);
    ApplyDiagonal(f, k => if k == Delta || k == Node(space.rootSystem.specialNode) then 0 else 1, v);
    Apply(f, v)
  }

  /** The extended space over the same root system. */
  function ExtendedSpace(space: WeightSpace): WeightSpace
  {
    WeightSpace(space.rootSystem, true)
  }

  /** The image of a basis key of the extended space under the quotient map.
      The extended space has no other keys than the index set and `delta`,
      for which `FundamentalWeight` succeeds; any other key goes to zero. */
  function QuotientOnBasis(space: WeightSpace, k: Key): Vec
  {
    match FundamentalWeight(space, k)
    case Ok(w) => w
    case Err(_) => Zero()
  }

  /** The quotient map from the extended space onto an affine, non-extended
      space: the linear extension of `FundamentalWeight`. */
  function Quotient(space: WeightSpace, v: Vec): (r: Vec)
    requires space.rootSystem.isAffine && !space.extended
    ensures IsSparse(r)
    ensures forall j :: Coeff(r, j) == if j.Node? && j.i in space.rootSystem.indexSet then Coeff(v, j) else 0
    ensures IsElement(ExtendedSpace(space), v) ==> IsElement(space, r)
  {
    var f := k => QuotientOnBasis(space, k);
    ApplyDiagonal(f, (k: Key) => if k.Node? && k.i in space.rootSystem.indexSet then 1 else 0, v);
    Apply(f, v)
  }

  /** On an element of the extended space the quotient map only drops `delta`. */
  lemma QuotientDropsDelta(space: WeightSpace, v: Vec)
    requires space.rootSystem.isAffine && !space.extended
    requires IsElement(ExtendedSpace(space), v)
    ensures Quotient(space, v) == v - {Delta}
  {
    var q, d := Quotient(space, v), v - {Delta};
    forall j ensures Coeff(q, j) == Coeff(d, j) {
      QuotientDropsDeltaAt(space, v, j);
    }
    Extensionality(q, d);
  }

  lemma QuotientDropsDeltaAt(space: WeightSpace, v: Vec, j: Key)
    requires space.rootSystem.isAffine && !space.extended
    requires IsElement(ExtendedSpace(space), v)
    ensures Coeff(Quotient(space, v), j) == Coeff(v - {Delta}, j)
  {
    WithoutDeltaAt(space, v, j);
  }

  /** Removing `delta` from an element of the extended space keeps exactly the
      coefficients of the index set. */
  lemma WithoutDeltaAt(space: WeightSpace, v: Vec, j: Key)
    requires IsElement(ExtendedSpace(space), v)
    ensures Coeff(v - {Delta}, j) == if j.Node? && j.i in space.rootSystem.indexSet then Coeff(v, j) else 0
  {
    if j.Node? && j.i !in space.rootSystem.indexSet {
      assert j !in BasisKeys(ExtendedSpace(space));
    }
  }

  /** The quotient map sends each fundamental weight of the extended space to
      the one of the same key, and so `delta` to zero. */
  lemma QuotientOfFundamentalWeight(space: WeightSpace, k: Key)
    requires space.rootSystem.isAffine && !space.extended
    requires k in BasisKeys(ExtendedSpace(space))
    ensures FundamentalWeight(ExtendedSpace(space), k).Ok? && FundamentalWeight(space, k).Ok?
    ensures Quotient(space, FundamentalWeight(ExtendedSpace(space), k).value) == FundamentalWeight(space, k).value
    ensures k == Delta ==> Quotient(space, FundamentalWeight(ExtendedSpace(space), k).value) == Zero()
  {
    var w := FundamentalWeight(ExtendedSpace(space), k).value;
    Extensionality(Quotient(space, w), FundamentalWeight(space, k).value);
  }

  /** The quotient map sends the deformed simple roots of the extended space
      to the simple roots of the non-extended one. */
  lemma QuotientOfSimpleRoot(space: WeightSpace, j: int)
    requires space.rootSystem.isAffine && !space.extended
    requires j in space.rootSystem.indexSet
    ensures SimpleRoot(ExtendedSpace(space), Node(j)).Ok? && SimpleRoot(space, Node(j)).Ok?
    ensures Quotient(space, SimpleRoot(ExtendedSpace(space), Node(j)).value) == SimpleRoot(space, Node(j)).value
  {
    var a := SimpleRoot(ExtendedSpace(space), Node(j)).value;
    var b := SimpleRoot(space, Node(j)).value;
    forall k ensures Coeff(Quotient(space, a), k) == Coeff(b, k) {
      if k.Node? && k.i !in space.rootSystem.indexSet {
        ZeroCoeffNotStored(b, k);
      }
    }
    Extensionality(Quotient(space, a), b);
  }

  /** The ambient-space morphism, given by the images `omega` of the basis
      keys (the fundamental weights of the ambient space); it exists only
      on the direct side. */
  function ToAmbientSpaceMorphism(space: WeightSpace, omega: Key -> Vec): (r: Result<Key -> Vec>)
    ensures r.Ok? <==> !space.rootSystem.dualSide
    ensures r.Err? ==> r.error == NoAmbientMapFromDual
  {
    if space.rootSystem.dualSide then Err(NoAmbientMapFromDual) else Ok(omega)
  }
}
