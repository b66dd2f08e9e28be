/**
 * The first loop of `motifdf4plotting` in pages/4_Visualisation.py: every
 * motif hit of the promoter table becomes a marker at the negated midpoint
 * of the hit, and the motif identifiers seen are collected.
 */
module MotifPlotting {

  /** One row of the motif table: gene, motif identifier, hit start and end. */
  datatype MotifHit = MotifHit(gene: string, motif: string, start: int, end: int)

  /** One row handed to the plot: gene, motif identifier and marker position. */
  datatype Placement = Placement(gene: string, motif: string, location: int)

  /**
   * The marker position of a hit: the midpoint rounded down, negated, so that
   * positions upstream of the start codon plot to the left.
   */
  function Location(start: int, end: int): (p: int)
    ensures 2 * -p <= start + end < 2 * -p + 2
    ensures start <= end ==> -end <= p <= -start
  {
    -((start + end) / 2)
  }

  /**
   * Walks the motif rows once, building the placements in row order and the
   * set of motif identifiers to be looked up.
   */
  method PlaceMotifs(rows: seq<MotifHit>) returns (motifs: seq<Placement>, motifIds: set<string>)
    ensures |motifs| == |rows|
    ensures forall i :: 0 <= i < |rows| ==>
      motifs[i] == Placement(rows[i].gene, rows[i].motif, Location(rows[i].start, rows[i].end))
    ensures motifIds == set i | 0 <= i < |rows| :: rows[i].motif
  {
    var motifList: seq<string> := [];
    motifs := [];
    var k := 0;
    while k < |rows|
      invariant 0 <= k <= |rows|
      invariant |motifs| == k && |motifList| == k
      invariant forall i :: 0 <= i < k ==>
        motifs[i] == Placement(rows[i].gene, rows[i].motif, Location(rows[i].start, rows[i].end))
      invariant forall i :: 0 <= i < k ==> motifList[i] == rows[i].motif
    {
      var item := rows[k];
      var motifPos := (item.start + item.end) / 2;
      var motifPosCorrected := -motifPos;
      motifs := motifs + [Placement(item.gene, item.motif, motifPosCorrected)];
      motifList := motifList + [item.motif];
      k := k + 1;
    }
    motifIds := set m | m in motifList;
    assert forall m :: m in motifList <==> exists i :: 0 <= i < |rows| && rows[i].motif == m;
  }
}
