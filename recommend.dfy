/** The in-memory part of the recipe search: the choice of the ratings
    table's join key, and the assembly of result records from what the
    nearest-neighbour search returned. The search itself is not modelled;
    its scores and row indices are inputs. */
module Recommend {

  /** `INTERACT_KEY`: the ratings table is grouped by 'recipe_id' when it
      has that column, and by 'id' otherwise. */
  function InteractKey(columns: seq<string>): (r: string)
    ensures r == "recipe_id" <==> "recipe_id" in columns
    ensures r != "recipe_id" ==> r == "id"
  {
    if "recipe_id" in columns then "recipe_id" else "id"
  }

  /** One result record: the recipe's title, its average rating, and the
      similarity score of the search hit. */
  datatype Recommendation = Recommendation(title: string, rating: real, score: real)

  /** The number of pairs `zip(scores, idxs)` yields: it stops at the
      shorter sequence. */
  function ZipLength(scores: seq<real>, idxs: seq<int>): nat {
    if |scores| <= |idxs| then |scores| else |idxs|
  }

  /** Every row index the zip reaches names a recipe. The search pads its
      answer with -1 when it finds fewer hits than asked for; such an index
      is excluded here. */
  predicate ValidHits(scores: seq<real>, idxs: seq<int>, titles: seq<string>) {
    forall i :: 0 <= i < ZipLength(scores, idxs) ==> 0 <= idxs[i] < |titles|
  }

  /** The record for the `i`-th hit: the title and rating of the row the
      hit names, together with the hit's score. */
  function Hit(scores: seq<real>, idxs: seq<int>, titles: seq<string>, ratings: seq<real>,
               i: nat): Recommendation
    requires |titles| == |ratings| && ValidHits(scores, idxs, titles)
    requires i < ZipLength(scores, idxs)
  {
    Recommendation(titles[idxs[i]], ratings[idxs[i]], scores[i])
  }

  /** The results as a list comprehension over `zip(scores, idxs)`: one
      record per pair, in the order the search returned them. */
  function Results(scores: seq<real>, idxs: seq<int>, titles: seq<string>, ratings: seq<real>)
    : seq<Recommendation>
    requires |titles| == |ratings| && ValidHits(scores, idxs, titles)
    decreases |scores|
  {
    if scores == [] || idxs == [] then []
    else
      assert ValidHits(scores[1..], idxs[1..], titles) by {
        forall i | 0 <= i < ZipLength(scores[1..], idxs[1..])
          ensures 0 <= idxs[1..][i] < |titles|
        {
          assert idxs[1..][i] == idxs[i + 1];
        }
      }
      [Hit(scores, idxs, titles, ratings, 0)] + Results(scores[1..], idxs[1..], titles, ratings)
  }

  /** There is one record per zipped pair. */
  lemma {:induction false} ResultsLength(scores: seq<real>, idxs: seq<int>,
                                         titles: seq<string>, ratings: seq<real>)
    requires |titles| == |ratings| && ValidHits(scores, idxs, titles)
    ensures |Results(scores, idxs, titles, ratings)| == ZipLength(scores, idxs)
    decreases |scores|
  {
    if scores != [] && idxs != [] {
      ResultsLength(scores[1..], idxs[1..], titles, ratings);
    }
  }

  /** Record `i` is built from the `i`-th score and the `i`-th index. */
  lemma {:induction false} ResultsAt(scores: seq<real>, idxs: seq<int>,
                                     titles: seq<string>, ratings: seq<real>, i: nat)
    requires |titles| == |ratings| && ValidHits(scores, idxs, titles)
    requires i < ZipLength(scores, idxs)
    ensures |Results(scores, idxs, titles, ratings)| == ZipLength(scores, idxs)
            && Results(scores, idxs, titles, ratings)[i] == Hit(scores, idxs, titles, ratings, i)
    decreases |scores|
  {
    ResultsLength(scores, idxs, titles, ratings);
    if i > 0 {
      ResultsLength(scores[1..], idxs[1..], titles, ratings);
      ResultsAt(scores[1..], idxs[1..], titles, ratings, i - 1);
    }
  }

  /** The recommendation loop of `recommend`: walks the search scores and
      row indices pairwise and appends one record per pair. */
  method AssembleResults(scores: seq<real>, idxs: seq<int>, titles: seq<string>, ratings: seq<real>)
    returns (results: seq<Recommendation>)
    requires |titles| == |ratings|
    requires ValidHits(scores, idxs, titles)
    ensures results == Results(scores, idxs, titles, ratings)
    ensures |results| == ZipLength(scores, idxs)
    ensures forall i :: 0 <= i < |results| ==>
      results[i] == Recommendation(titles[idxs[i]], ratings[idxs[i]], scores[i])
  {
    results := [];
    var i := 0;
    while i < |scores| && i < |idxs|
      invariant 0 <= i <= ZipLength(scores, idxs)
      invariant |results| == i
      invariant forall j :: 0 <= j < i ==>
        results[j] == Recommendation(titles[idxs[j]], ratings[idxs[j]], scores[j])
    {
      var score, idx := scores[i], idxs[i];
      results := results + [Recommendation(titles[idx], ratings[idx], score)];
      i := i + 1;
    }
    ResultsLength(scores, idxs, titles, ratings);
    forall j | 0 <= j < |results|
      ensures results[j] == Results(scores, idxs, titles, ratings)[j]
    {
      ResultsAt(scores, idxs, titles, ratings, j);
    }
  }

  /** The records keep the search's order: their scores are the scores the
      search returned, position for position, with no re-sorting. */
  function Scores(rs: seq<Recommendation>): (s: seq<real>)
    ensures |s| == |rs|
    ensures forall i :: 0 <= i < |rs| ==> s[i] == rs[i].score
  {
    if rs == [] then [] else [rs[0].score] + Scores(rs[1..])
  }

  /** The scores of the results are the zipped prefix of the search's
      scores, in the same order. */
  lemma ResultsKeepOrder(scores: seq<real>, idxs: seq<int>, titles: seq<string>, ratings: seq<real>)
    requires |titles| == |ratings| && ValidHits(scores, idxs, titles)
    ensures Scores(Results(scores, idxs, titles, ratings)) == scores[..ZipLength(scores, idxs)]
  {
    var rs := Results(scores, idxs, titles, ratings);
    ResultsLength(scores, idxs, titles, ratings);
    forall i | 0 <= i < |rs| ensures Scores(rs)[i] == scores[i] {
      ResultsAt(scores, idxs, titles, ratings, i);
    }
  }

  /** Every record names a recipe of the table, with that recipe's rating. */
  lemma ResultsFromTable(scores: seq<real>, idxs: seq<int>, titles: seq<string>, ratings: seq<real>)
    requires |titles| == |ratings| && ValidHits(scores, idxs, titles)
    ensures forall r :: r in Results(scores, idxs, titles, ratings) ==>
      exists k :: 0 <= k < |titles| && r.title == titles[k] && r.rating == ratings[k]
  {
    var rs := Results(scores, idxs, titles, ratings);
    ResultsLength(scores, idxs, titles, ratings);
    forall r | r in rs
      ensures exists k :: 0 <= k < |titles| && r.title == titles[k] && r.rating == ratings[k]
    {
      var i :| 0 <= i < |rs| && rs[i] == r;
      ResultsAt(scores, idxs, titles, ratings, i);
      var k := idxs[i];
      assert r.title == titles[k] && r.rating == ratings[k];
    }
  }
}
