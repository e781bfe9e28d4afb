/** The part of the free-module machinery that the weight space relies on:
    elements as sparse coefficient maps over basis keys, monomials, sums of
    terms, and the linear extension of a map given on the basis. */
module FreeModule {
  import opened Keys
  import opened Sums

  /** An element of a free module with integer coefficients: the coefficient
      of each basis key that has a non-zero one. */
  type Vec = map<Key, int>

  /** No key is stored with a zero coefficient. */
  predicate IsSparse(v: Vec)
  {
    forall k :: k in v ==> v[k] != 0
  }

  /** The coefficient of `k` in `v`, zero when `k` is not stored. */
  function Coeff(v: Vec, k: Key): int
  {
    if k in v then v[k] else 0
  }

  /** The zero element. */
  function Zero(): (z: Vec)
    ensures IsSparse(z)
    ensures forall k :: Coeff(z, k) == 0
  {
    map[]
  }

  /** The basis element of key `k`. */
  function Monomial(k: Key): (m: Vec)
    ensures IsSparse(m)
    ensures forall j :: Coeff(m, j) == if j == k then 1 else 0
  {
    map[k := 1]
  }

  /** The element with coefficient `c(k)` at each key of `keys` and zero
      elsewhere; zero coefficients are dropped. */
  function FromCoeffs(keys: set<Key>, c: Key -> int): (v: Vec)
    ensures IsSparse(v)
    ensures forall k :: Coeff(v, k) == if k in keys then c(k) else 0
  {
    map k | k in keys && c(k) != 0 :: c(k)
  }

  function Add(u: Vec, v: Vec): (w: Vec)
    ensures IsSparse(w)
    ensures forall k :: Coeff(w, k) == Coeff(u, k) + Coeff(v, k)
  {
    FromCoeffs(u.Keys + v.Keys, k => Coeff(u, k) + Coeff(v, k))
  }

  function Scale(a: int, v: Vec): (w: Vec)
    ensures IsSparse(w)
    ensures forall k :: Coeff(w, k) == a * Coeff(v, k)
  {
    FromCoeffs(v.Keys, k => a * Coeff(v, k))
  }

  /** A sparse element is determined by its coefficients. */
  lemma Extensionality(u: Vec, v: Vec)
    requires IsSparse(u) && IsSparse(v)
    requires forall k :: Coeff(u, k) == Coeff(v, k)
    ensures u == v
  {
    assert forall k :: k in u <==> Coeff(u, k) != 0;
    assert forall k :: k in v <==> Coeff(v, k) != 0;
    assert u.Keys == v.Keys;
  }

  /** A key with a zero coefficient is not stored in a sparse element. */
  lemma ZeroCoeffNotStored(v: Vec, k: Key)
    requires IsSparse(v)
    ensures k in v <==> Coeff(v, k) != 0
  {
  }

  /** The term contributed by basis key `k` of `v` to the coefficient `j` of
      the linear extension of `f`. */
  function Contribution(f: Key -> Vec, v: Vec, j: Key): Key -> int
  {
    k => Coeff(v, k) * Coeff(f(k), j)
  }

  lemma ContributionsVanish(f: Key -> Vec, v: Vec, support: set<Key>)
    requires forall k, j :: k in v && j in f(k) ==> j in support
    ensures forall j :: j !in support ==> SumOver(v.Keys, Contribution(f, v, j)) == 0
  {
    forall j | j !in support
      ensures SumOver(v.Keys, Contribution(f, v, j)) == 0
    {
      SumZeroOutside({}, v.Keys, Contribution(f, v, j));
    }
  }

  /** The linear extension of `f`, given on the basis, applied to `v`:
      the sum over the keys `k` of `v` of `v[k] * f(k)`. */
  function Apply(f: Key -> Vec, v: Vec): (w: Vec)
    ensures IsSparse(w)
    ensures forall j :: Coeff(w, j) == SumOver(v.Keys, Contribution(f, v, j))
  {
    var support := set k, j | k in v && j in f(k) :: j;
    ContributionsVanish(f, v, support);
    FromCoeffs(support, j => SumOver(v.Keys, Contribution(f, v, j)))
  }

  /** The linear extension of `f` sends a basis element to its image. */
  lemma ApplyMonomial(f: Key -> Vec, k: Key)
    requires IsSparse(f(k))
    ensures Apply(f, Monomial(k)) == f(k)
  {
    var m := Monomial(k);
    forall j ensures Coeff(Apply(f, m), j) == Coeff(f(k), j) {
      SumAt(m.Keys, Contribution(f, m, j), k);
    }
    Extensionality(Apply(f, m), f(k));
  }

  /** When `f` sends each basis element to a multiple `d(k)` of itself, the
      linear extension scales each coefficient by `d`. */
  lemma ApplyDiagonal(f: Key -> Vec, d: Key -> int, v: Vec)
    requires forall k, j :: Coeff(f(k), j) == if j == k then d(k) else 0
    ensures forall j :: Coeff(Apply(f, v), j) == d(j) * Coeff(v, j)
  {
    forall j ensures Coeff(Apply(f, v), j) == d(j) * Coeff(v, j) {
      ApplyDiagonalAt(f, d, v, j);
    }
  }

  /** The sum behind one coefficient of a diagonal linear extension. */
  lemma ApplyDiagonalAt(f: Key -> Vec, d: Key -> int, v: Vec, j: Key)
    requires forall k :: Coeff(f(k), j) == if j == k then d(k) else 0
    ensures SumOver(v.Keys, Contribution(f, v, j)) == d(j) * Coeff(v, j)
  {
    var c := Contribution(f, v, j);
    forall k | k in v.Keys && k != j ensures c(k) == 0 {
      assert Coeff(f(k), j) == 0;
    }
    SumAt(v.Keys, c, j);
    if j in v.Keys {
      assert c(j) == Coeff(v, j) * d(j);
    } else {
      assert Coeff(v, j) == 0;
    }
  }
}
