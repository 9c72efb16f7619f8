/** `linearSearch` of UnitSelection.py: for every target frame, the corpus
    frame at the least target cost, read off a precomputed cost matrix
    (`cost[i][j]` is the distance from target frame `i` to corpus frame `j`). */
module Search {
  import opened Costs

  /** Why the search stops without a sequence. */
  datatype SearchError =
    /** The corpus is empty: the first column of the sorted index matrix does
        not exist. */
    EmptyCorpus

  /** Every row of `cost` has one entry per corpus frame. */
  predicate Rectangular(cost: seq<seq<real>>, corpus: nat)
  {
    forall i :: 0 <= i < |cost| ==> |cost[i]| == corpus
  }

  /** A row of distances as costs; every distance is finite. */
  function Finite(row: seq<real>): (c: seq<Cost>)
    ensures |c| == |row|
    ensures forall j :: 0 <= j < |row| ==> c[j] == Fin(row[j])
  {
    seq(|row|, j requires 0 <= j < |row| => Fin(row[j]))
  }

  /** `j` is a corpus frame at the least distance in `row`. */
  predicate IsNearest(row: seq<real>, j: nat)
  {
    j < |row| && forall k :: 0 <= k < |row| ==> row[j] <= row[k]
  }

  /** The corpus frame the search picks for one target frame: the first entry
      of the row's ascending order, here the lowest-index minimum. */
  function Nearest(row: seq<real>): (j: nat)
    requires |row| > 0
    ensures IsNearest(row, j)
  {
    var c := Finite(row);
    FirstMinIsFirst(c);
    FirstMin(c)
  }

  /** Any two nearest frames are equally distant, so the choice among ties
      does not change the cost of the answer. */
  lemma NearestTiesCostAlike(row: seq<real>, j: nat, k: nat)
    requires IsNearest(row, j) && IsNearest(row, k)
    ensures row[j] == row[k]
  {
  }

  /** One nearest corpus frame per target frame; an empty corpus fails. */
  function LinearSearch(cost: seq<seq<real>>, corpus: nat): (r: Result<seq<nat>, SearchError>)
    requires Rectangular(cost, corpus)
    ensures r.Failure? <==> corpus == 0
    ensures r.Success? ==> |r.value| == |cost|
    ensures r.Success? ==> forall i :: 0 <= i < |cost| ==> IsNearest(cost[i], r.value[i])
  {
    if corpus == 0 then Failure(EmptyCorpus)
    else Success(seq(|cost|, i requires 0 <= i < |cost| => Nearest(cost[i])))
  }
}
