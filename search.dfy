/** `ImageSearchService.search` (service.py:285-332): reject an empty query,
    embed it, ask the store for its nearest points, keep the hits whose
    score reaches `min_score` in the order the store returned them, and
    shape each into a result record. The embedding model and the store are
    inputs: whether the query embedding succeeded, and the store's reply
    for each result limit. */
module Search {
  import opened Common
  import Store

  /** One hit from the store: its similarity score and its payload. */
  datatype Hit = Hit(score: real, payload: Store.Payload)

  /** What the store's search call does: return hits, or raise. */
  datatype StoreReply = Hits(hits: seq<Hit>) | StoreError(reason: string)

  /** One entry of `results` (service.py:318-323). */
  datatype Record = Record(score: real, filename: Option<string>, path: Option<string>, description: string)

  /** The service's answer: the result dictionary, or `{"error": ...}`. */
  datatype Reply =
    | Results(query: string, results: seq<Record>, count: int)
    | Failure(error: string)

  const QueryRequired := "Query is required"
  const QueryFailed := "Failed to process query"

  /** `payload.get(key)`. */
  function Get(payload: Store.Payload, key: string): Option<string>
  {
    if key in payload then Some(payload[key]) else None
  }

  /** The record of one hit; a missing description reads as "No description". */
  function ToRecord(h: Hit): Record
  {
    Record(h.score, Get(h.payload, "filename"), Get(h.payload, "relative_path"),
           Get(h.payload, "description").GetOr(Store.NoDescription))
  }

  /** The result loop of service.py:315-323: every hit scoring at least
      `minScore`, shaped, in the store's order. */
  function Shape(hits: seq<Hit>, minScore: real): (r: seq<Record>)
    ensures |r| <= |hits|
    ensures forall k :: 0 <= k < |r| ==> r[k].score >= minScore
    decreases |hits|
  {
    if hits == [] then []
    else (if hits[0].score >= minScore then [ToRecord(hits[0])] else []) + Shape(hits[1..], minScore)
  }

  /** The search itself. `embedded` says whether the query embedding
      succeeded; `nearest(k)` is the store's reply when asked for `k` hits. */
  function Search(query: string, topK: int, minScore: real, embedded: bool,
                  nearest: int -> StoreReply): (r: Reply)
    ensures r.Failure? <==> query == "" || !embedded || nearest(topK).StoreError?
    ensures query == "" ==> r == Failure(QueryRequired)
    ensures query != "" && !embedded ==> r == Failure(QueryFailed)
    ensures query != "" && embedded && nearest(topK).StoreError? ==> r == Failure(nearest(topK).reason)
    ensures r.Results? ==> r.query == query && r.count == |r.results|
    ensures r.Results? ==> r.results == Shape(nearest(topK).hits, minScore)
  {
    if query == "" then Failure(QueryRequired)
    else if !embedded then Failure(QueryFailed)
    else
      match nearest(topK)
      case StoreError(reason) => Failure(reason)
      case Hits(hits) =>
        var results := Shape(hits, minScore);
        Results(query, results, |results|)
  }

  /** The positions, from `i` on, of the hits scoring at least `minScore`,
      ascending. */
  function Kept(hits: seq<Hit>, minScore: real, i: nat): (ks: seq<nat>)
    requires i <= |hits|
    ensures forall k :: 0 <= k < |ks| ==> i <= ks[k] < |hits| && hits[ks[k]].score >= minScore
    ensures forall k, l :: 0 <= k < l < |ks| ==> ks[k] < ks[l]
    ensures forall j :: i <= j < |hits| && hits[j].score >= minScore ==> j in ks
    decreases |hits| - i
  {
    if i == |hits| then []
    else (if hits[i].score >= minScore then [i] else []) + Kept(hits, minScore, i + 1)
  }

  /** The results are exactly the hits scoring at least `minScore`, in the
      store's order: the k-th result is the hit at the k-th kept position. */
  lemma {:induction false} ShapeIsKeptHits(hits: seq<Hit>, minScore: real, i: nat)
    requires i <= |hits|
    ensures |Shape(hits[i..], minScore)| == |Kept(hits, minScore, i)|
    ensures forall k :: 0 <= k < |Kept(hits, minScore, i)| ==>
      Shape(hits[i..], minScore)[k] == ToRecord(hits[Kept(hits, minScore, i)[k]])
    decreases |hits| - i
  {
    if i < |hits| {
      ShapeIsKeptHits(hits, minScore, i + 1);
      assert hits[i..][0] == hits[i] && hits[i..][1..] == hits[i + 1..];
    }
  }

  /** Shaping distributes over concatenation: no hit's fate depends on
      another hit. */
  lemma {:induction false} ShapeAppend(a: seq<Hit>, b: seq<Hit>, minScore: real)
    ensures Shape(a + b, minScore) == Shape(a, minScore) + Shape(b, minScore)
    decreases |a|
  {
    if a == [] {
      assert a + b == b;
    } else {
      ShapeAppend(a[1..], b, minScore);
      assert (a + b)[0] == a[0] && (a + b)[1..] == a[1..] + b;
    }
  }

  predicate ScoresDescending(scores: seq<real>)
  {
    forall i, j :: 0 <= i < j < |scores| ==> scores[i] >= scores[j]
  }

  function HitScores(hits: seq<Hit>): seq<real>
  {
    seq(|hits|, k requires 0 <= k < |hits| => hits[k].score)
  }

  function RecordScores(rs: seq<Record>): seq<real>
  {
    seq(|rs|, k requires 0 <= k < |rs| => rs[k].score)
  }

  /** The filter keeps the store's ranking: hits in descending score give
      results in descending score. */
  lemma ShapeKeepsRanking(hits: seq<Hit>, minScore: real)
    requires ScoresDescending(HitScores(hits))
    ensures ScoresDescending(RecordScores(Shape(hits, minScore)))
  {
    var r := Shape(hits, minScore);
    var ks := Kept(hits, minScore, 0);
    ShapeIsKeptHits(hits, minScore, 0);
    assert hits[0..] == hits;
    forall i, j | 0 <= i < j < |r| ensures r[i].score >= r[j].score {
      assert r[i].score == hits[ks[i]].score && r[j].score == hits[ks[j]].score;
      assert HitScores(hits)[ks[i]] >= HitScores(hits)[ks[j]];
    }
  }

  /** With a threshold no hit misses, every hit is returned. */
  lemma {:induction false} ShapeKeepsAll(hits: seq<Hit>, minScore: real)
    requires forall k :: 0 <= k < |hits| ==> hits[k].score >= minScore
    ensures Shape(hits, minScore) == seq(|hits|, k requires 0 <= k < |hits| => ToRecord(hits[k]))
    decreases |hits|
  {
    if hits != [] {
      ShapeKeepsAll(hits[1..], minScore);
    }
  }

  /** A query of one space is not rejected: only the empty string is. */
  lemma BlankQueryIsSearched(nearest: int -> StoreReply)
    requires nearest(12).Hits?
    ensures Search(" ", 12, 0.0, true, nearest).Results?
  {
  }

  /** "red car" with top_k 5 and min_score 0.5 against one hit at 0.9 and
      four below 0.5 returns exactly the one hit. */
  lemma RedCarScenario(p: Store.Payload, nearest: int -> StoreReply)
    requires nearest(5) == Hits([Hit(0.9, p), Hit(0.4, p), Hit(0.3, p), Hit(0.2, p), Hit(0.1, p)])
    ensures Search("red car", 5, 0.5, true, nearest) == Results("red car", [ToRecord(Hit(0.9, p))], 1)
  {
    var hits := nearest(5).hits;
    assert Shape(hits[4..], 0.5) == [];
    assert Shape(hits[3..], 0.5) == [];
    assert Shape(hits[2..], 0.5) == [];
    assert Shape(hits[1..], 0.5) == [];
  }
}
