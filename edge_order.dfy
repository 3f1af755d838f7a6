/** The order in which every vertex keeps its outgoing edges
    (EdgePtrComparator): by the source vertex's label, then by the target
    vertex's label, then by the identity of the edge.  In this model an
    edge's identity is its index in the edge arena, which stands for the
    address the original compares last. */
module EdgeOrder {

  /** What the comparator looks at: both labels and the identity. */
  datatype EdgeKey = EdgeKey(sourceName: char, targetName: char, id: nat)

  /** `a` strictly precedes `b` (EdgePtrComparator::operator()). */
  predicate Before(a: EdgeKey, b: EdgeKey) {
    if a.sourceName != b.sourceName then a.sourceName < b.sourceName
    else if a.targetName != b.targetName then a.targetName < b.targetName
    else a.id < b.id
  }

  lemma BeforeIrreflexive(a: EdgeKey)
    ensures !Before(a, a)
  {
  }

  lemma BeforeAsymmetric(a: EdgeKey, b: EdgeKey)
    requires Before(a, b)
    ensures !Before(b, a)
  {
  }

  lemma BeforeTransitive(a: EdgeKey, b: EdgeKey, c: EdgeKey)
    requires Before(a, b) && Before(b, c)
    ensures Before(a, c)
  {
  }

  /** Two keys the comparator cannot tell apart are the same key; in
      particular two edges with different identities are never equivalent,
      so parallel edges between the same pair of labels coexist in one
      edge set. */
  lemma BeforeTotal(a: EdgeKey, b: EdgeKey)
    ensures Before(a, b) || Before(b, a) || a == b
  {
  }

  /** Keys of edges leaving the same vertex are ordered by the target
      label first and by identity among equal target labels. */
  lemma SameSourceOrder(a: EdgeKey, b: EdgeKey)
    requires a.sourceName == b.sourceName
    ensures Before(a, b) <==>
      a.targetName < b.targetName || (a.targetName == b.targetName && a.id < b.id)
  {
  }
}
