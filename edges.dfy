/** Edge.java: an immutable directed edge between two vertex ids. */
module Edges {
  import opened JavaLang

  /** The edge i -> j; both fields are final in the source. */
  datatype Edge = Edge(i: int32, j: int32)

  /** `Edge.toString`: the two ids in decimal, joined by a comma. */
  function ToString(e: Edge): string
  {
    Format(e.i) + "," + Format(e.j)
  }

  /** Neither id holds a comma, so a record splits at its one comma into the two ids. */
  lemma ToStringSplits(e: Edge)
    ensures Split(ToString(e), ',') == [Format(e.i), Format(e.j)]
  {
    FormatHasNoComma(e.i);
    FormatHasNoComma(e.j);
    assert ToString(e) == Format(e.i) + [','] + Format(e.j);
    SplitOfJoin(Format(e.i), Format(e.j), ',');
  }
}
