/** The part of the Qdrant collection that the core writes and reads: points
    keyed by an id derived from a file's absolute path, each carrying a
    payload dictionary. Vectors are opaque and are not represented. */
module Store {

  /** `_generate_id` (service.py:120-122): `uuid5(NAMESPACE_DNS, str(path.absolute()))`,
      modelled as an injective tag of the absolute path string. */
  datatype PointId = Uuid5(absolutePath: string)

  /** A point's payload: field name to value. */
  type Payload = map<string, string>

  datatype Point = Point(id: PointId, payload: Payload)

  /** The collection: at most one payload per id. */
  type Collection = map<PointId, Payload>

  /** The default description, written by indexing (service.py:228) and
      read back by search (service.py:322). */
  const NoDescription := "No description"

  /** The ids of a list of points. */
  function Ids(points: seq<Point>): (ids: set<PointId>)
    ensures forall k :: 0 <= k < |points| ==> points[k].id in ids
    ensures forall id :: id in ids ==> exists k :: 0 <= k < |points| && points[k].id == id
  {
    set k | 0 <= k < |points| :: points[k].id
  }

  /** `upsert`: every point overwrites the entry with its id, in order. */
  function Upsert(c: Collection, points: seq<Point>): (r: Collection)
    decreases |points|
  {
    if points == [] then c else Upsert(c[points[0].id := points[0].payload], points[1..])
  }

  lemma IdsCons(points: seq<Point>)
    requires points != []
    ensures Ids(points) == {points[0].id} + Ids(points[1..])
  {
    forall id | id in Ids(points) ensures id in {points[0].id} + Ids(points[1..]) {
      var k :| 0 <= k < |points| && points[k].id == id;
      if k > 0 { assert points[1..][k - 1].id == id; }
    }
    forall id | id in Ids(points[1..]) ensures id in Ids(points) {
      var k :| 0 <= k < |points[1..]| && points[1..][k].id == id;
      assert points[k + 1].id == id;
    }
  }

  /** Upserting writes the same entries whatever the collection held
      before: the result is the old collection overridden by a map that
      depends on the points alone, whose keys are the points' ids. */
  lemma {:induction false} UpsertOverrides(c: Collection, points: seq<Point>)
    ensures Upsert(c, points) == c + Upsert(map[], points)
    ensures Upsert(map[], points).Keys == Ids(points)
    decreases |points|
  {
    if points == [] {
      assert Ids(points) == {};
    } else {
      var p := points[0];
      var single: Collection := map[p.id := p.payload];
      UpsertOverrides(c[p.id := p.payload], points[1..]);
      UpsertOverrides(single, points[1..]);
      var w := Upsert(map[], points[1..]);
      assert c[p.id := p.payload] == c + single;
      assert (c + single) + w == c + (single + w);
      assert Upsert(map[], points) == Upsert(single, points[1..]) by {
        assert map[][p.id := p.payload] == single;
      }
      IdsCons(points);
    }
  }

  /** Upserting the same points twice is upserting them once: re-indexing
      overwrites and never duplicates. */
  lemma UpsertIdempotent(c: Collection, points: seq<Point>)
    ensures Upsert(Upsert(c, points), points) == Upsert(c, points)
  {
    UpsertOverrides(c, points);
    UpsertOverrides(Upsert(c, points), points);
    var w := Upsert(map[], points);
    assert (c + w) + w == c + w;
  }

  /** An id that no point carries keeps its entry, or its absence. */
  lemma {:induction false} UpsertKeeps(c: Collection, points: seq<Point>, id: PointId)
    requires forall j :: 0 <= j < |points| ==> points[j].id != id
    ensures id in Upsert(c, points) <==> id in c
    ensures id in c ==> Upsert(c, points)[id] == c[id]
    decreases |points|
  {
    if points != [] {
      UpsertKeeps(c[points[0].id := points[0].payload], points[1..], id);
    }
  }

  /** The entry of an id is the payload of the last point carrying it:
      a point that no later point overwrites is stored as given. */
  lemma {:induction false} UpsertStores(c: Collection, points: seq<Point>, k: nat)
    requires k < |points|
    requires forall j :: k < j < |points| ==> points[j].id != points[k].id
    ensures points[k].id in Upsert(c, points)
    ensures Upsert(c, points)[points[k].id] == points[k].payload
    decreases |points|
  {
    var c1 := c[points[0].id := points[0].payload];
    if k == 0 {
      UpsertKeeps(c1, points[1..], points[0].id);
    } else {
      UpsertStores(c1, points[1..], k - 1);
    }
  }
}
