/** Basis keys of a weight space: the nodes of the Dynkin diagram, and the
    extra key `delta` that an extended affine weight space adds. */
module Keys {

  /** A basis key. Node labels are integers, as for the usual Cartan types. */
  datatype Key = Node(i: int) | Delta

  /** The display order of basis keys (weight_space.py:181-185): nodes by their
      label, and `delta` after every node. */
  predicate Below(a: Key, b: Key)
  {
    match a
    case Node(x) => b.Delta? || x <= b.i
    case Delta => b.Delta?
  }

  /** `Below` is a total order on keys. */
  lemma BelowIsTotalOrder()
    ensures forall a :: Below(a, a)
    ensures forall a, b :: Below(a, b) && Below(b, a) ==> a == b
    ensures forall a, b, c :: Below(a, b) && Below(b, c) ==> Below(a, c)
    ensures forall a, b :: Below(a, b) || Below(b, a)
  {
  }

  lemma BelowTransitive(a: Key, b: Key, c: Key)
    requires Below(a, b) && Below(b, c)
    ensures Below(a, c)
  {
  }

  lemma BelowTotal(a: Key, b: Key)
    ensures Below(a, b) || Below(b, a)
  {
  }

  lemma BelowAntisymmetric(a: Key, b: Key)
    requires Below(a, b) && Below(b, a)
    ensures a == b
  {
  }

  /** `delta` sorts after every node, and strictly after it. */
  lemma DeltaSortsLast(k: Key)
    ensures Below(k, Delta)
    ensures k.Node? ==> !Below(Delta, k)
  {
  }
}
