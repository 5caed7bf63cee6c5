/**
 * The textured VTP surface writer: a mesh vertex whose polygons give it
 * different texture coordinates is written once per distinct tuple of
 * coordinates (one per texture), and each polygon corner is renumbered
 * to the written vertex that carries its coordinates. Texture
 * coordinates are opaque values compared for equality (P).
 */
module VtpSurfaceOutput {
  import opened Wrappers
  import opened Text
  import VtpOutput

  /** A corner: (polygon, local vertex). */
  type Corner = (nat, nat)

  /** Corner c exists. */
  predicate IsCorner(polygons: seq<seq<nat>>, c: Corner) {
    c.0 < |polygons| && c.1 < |polygons[c.0]|
  }

  /**
   * The mesh the writer is given: every polygon vertex is one of the n
   * vertices, and every corner has one coordinate per texture.
   */
  predicate Shaped<P>(n: nat, nbTextures: nat, polygons: seq<seq<nat>>, coords: seq<seq<seq<P>>>) {
    && |coords| == |polygons|
    && (forall p | 0 <= p < |polygons| :: |coords[p]| == |polygons[p]|)
    && (forall p, v | 0 <= p < |polygons| && 0 <= v < |polygons[p]| :: polygons[p][v] < n)
    && (forall p, v | 0 <= p < |polygons| && 0 <= v < |polygons[p]| :: |coords[p][v]| == nbTextures)
  }

  /** The map with key k now giving v. */
  function Put<K>(m: map<K, nat>, k: K, v: nat): (r: map<K, nat>)
    ensures r.Keys == m.Keys + {k} && r[k] == v
  {
    m[k := v]
  }

  /** Corner a comes before corner b in the writer's polygon-major walk. */
  predicate Before(a: Corner, b: Corner) {
    a.0 < b.0 || (a.0 == b.0 && a.1 < b.1)
  }

  /** The tuple of texture coordinates of a corner. */
  function CoordsAt<P>(polygons: seq<seq<nat>>, coords: seq<seq<seq<P>>>, c: Corner): seq<P>
    requires |coords| == |polygons| && (forall p | 0 <= p < |polygons| :: |coords[p]| == |polygons[p]|)
    requires IsCorner(polygons, c)
  {
    coords[c.0][c.1]
  }

  /**
   * What compute_vertices keeps while it walks the corners: the output
   * vertices and, for each, the corner that created it (taken in walk
   * order); per mesh vertex the hash map from coordinate tuple to output
   * vertex; and vertex_mapping_, whose entries all point at output
   * vertices of the right mesh vertex.
   */
  ghost predicate Inv<P>(n: nat, polygons: seq<seq<nat>>, coords: seq<seq<seq<P>>>,
                         vertices: seq<nat>, unique: seq<Corner>, seen: seq<map<seq<P>, nat>>, mapping: seq<map<nat, nat>>)
    requires |coords| == |polygons| && (forall p | 0 <= p < |polygons| :: |coords[p]| == |polygons[p]|)
  {
    && |unique| == |vertices| && |seen| == n && |mapping| == n
    && (forall k | 0 <= k < |vertices| :: IsCorner(polygons, unique[k]) && polygons[unique[k].0][unique[k].1] == vertices[k])
    && (forall k | 0 <= k < |vertices| :: vertices[k] < n)
    && (forall k, j | 0 <= k < j < |vertices| :: Before(unique[k], unique[j]))
    && (forall x, key | 0 <= x < n && key in seen[x] ::
          seen[x][key] < |vertices| && vertices[seen[x][key]] == x && CoordsAt(polygons, coords, unique[seen[x][key]]) == key)
    && (forall k | 0 <= k < |vertices| ::
          CoordsAt(polygons, coords, unique[k]) in seen[vertices[k]] && seen[vertices[k]][CoordsAt(polygons, coords, unique[k])] == k)
    && (forall x, q | 0 <= x < n && q in mapping[x] :: mapping[x][q] < |vertices| && vertices[mapping[x][q]] == x)
  }

  /** Corner (q, w) has been walked: its tuple is in its vertex's hash map and its polygon in vertex_mapping_. */
  ghost predicate Covered<P>(polygons: seq<seq<nat>>, coords: seq<seq<seq<P>>>,
                             seen: seq<map<seq<P>, nat>>, mapping: seq<map<nat, nat>>, c: Corner)
    requires |coords| == |polygons| && (forall p | 0 <= p < |polygons| :: |coords[p]| == |polygons[p]|)
    requires IsCorner(polygons, c)
  {
    var x := polygons[c.0][c.1];
    x < |seen| && x < |mapping| && CoordsAt(polygons, coords, c) in seen[x] && c.0 in mapping[x]
  }

  /** Every corner before c has been walked. */
  ghost predicate AllCovered<P>(polygons: seq<seq<nat>>, coords: seq<seq<seq<P>>>,
                                seen: seq<map<seq<P>, nat>>, mapping: seq<map<nat, nat>>, c: Corner)
    requires |coords| == |polygons| && (forall p | 0 <= p < |polygons| :: |coords[p]| == |polygons[p]|)
  {
    forall q, w | 0 <= q < |polygons| && 0 <= w < |polygons[q]| && Before((q, w), c) :: Covered(polygons, coords, seen, mapping, (q, w))
  }

  /** The hash maps and vertex_mapping_ only gain keys. */
  ghost predicate Grows<P>(seen: seq<map<seq<P>, nat>>, mapping: seq<map<nat, nat>>,
                           seen': seq<map<seq<P>, nat>>, mapping': seq<map<nat, nat>>)
  {
    && |seen'| == |seen| && |mapping'| == |mapping|
    && (forall x | 0 <= x < |seen| :: seen[x].Keys <= seen'[x].Keys)
    && (forall x | 0 <= x < |mapping| :: mapping[x].Keys <= mapping'[x].Keys)
  }

  /**
   * What compute_vertices promises: each output vertex was created by a
   * corner of its mesh vertex, in walk order; no two output vertices
   * share both mesh vertex and coordinate tuple; every corner's polygon
   * is in its vertex's vertex_mapping_, pointing at an output vertex of
   * that mesh vertex; and every corner's tuple is carried by an output
   * vertex of its mesh vertex.
   */
  ghost predicate SplitOf<P>(n: nat, polygons: seq<seq<nat>>, coords: seq<seq<seq<P>>>,
                             vertices: seq<nat>, unique: seq<Corner>, mapping: seq<map<nat, nat>>)
    requires |coords| == |polygons| && (forall p | 0 <= p < |polygons| :: |coords[p]| == |polygons[p]|)
    requires forall p, v | 0 <= p < |polygons| && 0 <= v < |polygons[p]| :: polygons[p][v] < n
  {
    && |unique| == |vertices| && |mapping| == n
    && CreatedInOrder(polygons, vertices, unique)
    && DistinctPairs(polygons, coords, vertices, unique)
    && MappingPoints(polygons, vertices, mapping)
    && (forall q, w | 0 <= q < |polygons| && 0 <= w < |polygons[q]| :: Carried(polygons, coords, vertices, unique, (q, w)))
    && FirstSeen(polygons, coords, vertices, unique)
    && OwnPairs(polygons, coords, unique, mapping)
    && MappingKeys(polygons, mapping)
  }

  /** vertex_mapping_[x] has an entry only for the polygons that have x among their vertices. */
  predicate MappingKeys(polygons: seq<seq<nat>>, mapping: seq<map<nat, nat>>)
  {
    forall x, q | 0 <= x < |mapping| && q in mapping[x] :: q < |polygons| && x in polygons[q]
  }

  /** Setting vertex_mapping_[vertex][p] for a corner of polygon p keeps that. */
  lemma MappingKeysStep(polygons: seq<seq<nat>>, mapping: seq<map<nat, nat>>, p: nat, v: nat, index: nat)
    requires MappingKeys(polygons, mapping) && IsCorner(polygons, (p, v)) && polygons[p][v] < |mapping|
    ensures var x := polygons[p][v]; MappingKeys(polygons, mapping[x := Put(mapping[x], p, index)])
  {
    var x := polygons[p][v];
    var mapping' := mapping[x := Put(mapping[x], p, index)];
    forall y, q | 0 <= y < |mapping'| && q in mapping'[y]
      ensures q < |polygons| && y in polygons[q]
    {
      if y == x && q == p {
        assert polygons[p][v] == y;
      } else {
        assert q in mapping[y];
      }
    }
    assert MappingKeys(polygons, mapping');
  }

  /** Each output vertex was created by the first corner, in walk order, with its mesh vertex and tuple. */
  ghost predicate FirstSeen<P>(polygons: seq<seq<nat>>, coords: seq<seq<seq<P>>>, vertices: seq<nat>, unique: seq<Corner>)
    requires |coords| == |polygons| && (forall p | 0 <= p < |polygons| :: |coords[p]| == |polygons[p]|)
  {
    forall k, q, w | 0 <= k < |vertices| && k < |unique| && IsCorner(polygons, unique[k]) &&
                     0 <= q < |polygons| && 0 <= w < |polygons[q]| && Before((q, w), unique[k]) ::
      polygons[q][w] != vertices[k] || coords[q][w] != CoordsAt(polygons, coords, unique[k])
  }

  /** No later corner of polygon q, among those before `bound`, has the mesh vertex of corner (q, w). */
  predicate LastBefore(polygons: seq<seq<nat>>, q: nat, w: nat, bound: Corner)
    requires q < |polygons| && w < |polygons[q]|
  {
    forall w2 | w < w2 < |polygons[q]| && Before((q, w2), bound) :: polygons[q][w2] != polygons[q][w]
  }

  /** No later corner of polygon q has the mesh vertex of corner (q, w). */
  predicate LastInPolygon(polygons: seq<seq<nat>>, q: nat, w: nat)
    requires q < |polygons| && w < |polygons[q]|
  {
    forall w2 | w < w2 < |polygons[q]| :: polygons[q][w2] != polygons[q][w]
  }

  /**
   * Corner (q, w) has its polygon in its vertex's vertex_mapping_,
   * pointing at an output vertex created by a corner with the same tuple.
   */
  ghost predicate OwnPair<P>(polygons: seq<seq<nat>>, coords: seq<seq<seq<P>>>, unique: seq<Corner>, mapping: seq<map<nat, nat>>, q: nat, w: nat)
    requires |coords| == |polygons| && (forall p | 0 <= p < |polygons| :: |coords[p]| == |polygons[p]|)
    requires q < |polygons| && w < |polygons[q]|
  {
    var x := polygons[q][w];
    x < |mapping| && q in mapping[x] && mapping[x][q] < |unique| && IsCorner(polygons, unique[mapping[x][q]]) &&
    CoordsAt(polygons, coords, unique[mapping[x][q]]) == coords[q][w]
  }

  /**
   * Every corner that is the last of its polygon with its mesh vertex is
   * mapped to the output vertex carrying its own tuple (vertex_mapping_ is
   * keyed by polygon, so of two corners of one polygon on the same mesh
   * vertex the later one sets the entry).
   */
  ghost predicate OwnPairs<P>(polygons: seq<seq<nat>>, coords: seq<seq<seq<P>>>, unique: seq<Corner>, mapping: seq<map<nat, nat>>)
    requires |coords| == |polygons| && (forall p | 0 <= p < |polygons| :: |coords[p]| == |polygons[p]|)
  {
    forall q, w | 0 <= q < |polygons| && 0 <= w < |polygons[q]| && LastInPolygon(polygons, q, w) ::
      OwnPair(polygons, coords, unique, mapping, q, w)
  }

  /** OwnPairs over the corners walked before `bound`, the last ones among those walked. */
  ghost predicate OwnPairsUpTo<P>(polygons: seq<seq<nat>>, coords: seq<seq<seq<P>>>, unique: seq<Corner>, mapping: seq<map<nat, nat>>, bound: Corner)
    requires |coords| == |polygons| && (forall p | 0 <= p < |polygons| :: |coords[p]| == |polygons[p]|)
  {
    forall q, w | 0 <= q < |polygons| && 0 <= w < |polygons[q]| && Before((q, w), bound) && LastBefore(polygons, q, w, bound) ::
      OwnPair(polygons, coords, unique, mapping, q, w)
  }

  /** Each output vertex was created by a corner of its mesh vertex, in walk order. */
  ghost predicate CreatedInOrder(polygons: seq<seq<nat>>, vertices: seq<nat>, unique: seq<Corner>)
    requires |unique| == |vertices|
  {
    && (forall k | 0 <= k < |vertices| :: IsCorner(polygons, unique[k]) && polygons[unique[k].0][unique[k].1] == vertices[k])
    && (forall k, j | 0 <= k < j < |vertices| :: Before(unique[k], unique[j]))
  }

  /** No two output vertices share both mesh vertex and coordinate tuple. */
  ghost predicate DistinctPairs<P>(polygons: seq<seq<nat>>, coords: seq<seq<seq<P>>>, vertices: seq<nat>, unique: seq<Corner>)
    requires |coords| == |polygons| && (forall p | 0 <= p < |polygons| :: |coords[p]| == |polygons[p]|)
    requires |unique| == |vertices| && CreatedInOrder(polygons, vertices, unique)
  {
    forall k, j | 0 <= k < j < |vertices| ::
      vertices[k] != vertices[j] || CoordsAt(polygons, coords, unique[k]) != CoordsAt(polygons, coords, unique[j])
  }

  /** Every corner's polygon is in its vertex's vertex_mapping_, pointing at an output vertex of that mesh vertex. */
  ghost predicate MappingPoints(polygons: seq<seq<nat>>, vertices: seq<nat>, mapping: seq<map<nat, nat>>)
  {
    forall q, w | 0 <= q < |polygons| && 0 <= w < |polygons[q]| ::
      polygons[q][w] < |mapping| && q in mapping[polygons[q][w]] &&
      mapping[polygons[q][w]][q] < |vertices| && vertices[mapping[polygons[q][w]][q]] == polygons[q][w]
  }

  /**
   * compute_vertices with textures: walking the corners polygon by
   * polygon, a (vertex, coordinate tuple) pair met for the first time
   * creates an output vertex and records its corner in
   * unique_texture_vertices_; vertex_mapping_[vertex][p] is set to the
   * output vertex of the pair.
   */
  method SplitTextureVertices<P(==)>(n: nat, nbTextures: nat, polygons: seq<seq<nat>>, coords: seq<seq<seq<P>>>)
    returns (vertices: seq<nat>, unique: seq<Corner>, mapping: seq<map<nat, nat>>)
    requires Shaped(n, nbTextures, polygons, coords)
    ensures SplitOf(n, polygons, coords, vertices, unique, mapping)
  {
    vertices, unique := [], [];
    var seen: seq<map<seq<P>, nat>> := seq(n, x => map[]);
    mapping := seq(n, x => map[]);
    for p := 0 to |polygons|
      invariant Inv(n, polygons, coords, vertices, unique, seen, mapping)
      invariant AllCovered(polygons, coords, seen, mapping, (p, 0))
      invariant forall k | 0 <= k < |vertices| :: unique[k].0 < p
      invariant FirstSeen(polygons, coords, vertices, unique)
      invariant OwnPairsUpTo(polygons, coords, unique, mapping, (p, 0))
      invariant MappingKeys(polygons, mapping)
    {
      for v := 0 to |polygons[p]|
        invariant Inv(n, polygons, coords, vertices, unique, seen, mapping)
        invariant AllCovered(polygons, coords, seen, mapping, (p, v))
        invariant forall k | 0 <= k < |vertices| :: Before(unique[k], (p, v))
        invariant FirstSeen(polygons, coords, vertices, unique)
        invariant OwnPairsUpTo(polygons, coords, unique, mapping, (p, v))
        invariant MappingKeys(polygons, mapping)
      {
        vertices, unique, seen, mapping := VisitCorner(n, nbTextures, polygons, coords, vertices, unique, seen, mapping, p, v);
      }
      NextPolygon(polygons, coords, seen, mapping, p);
      OwnPairsNextPolygon(polygons, coords, unique, mapping, p);
    }
    Results(n, polygons, coords, vertices, unique, seen, mapping);
    OwnPairsAtEnd(polygons, coords, unique, mapping);
  }

  /**
   * One corner of the walk: try_emplace of the corner's coordinate tuple
   * in its vertex's hash map, a new output vertex when the tuple is new,
   * and vertex_mapping_[vertex][p] set to the tuple's output vertex.
   */
  method VisitCorner<P(==)>(n: nat, nbTextures: nat, polygons: seq<seq<nat>>, coords: seq<seq<seq<P>>>,
                            vertices: seq<nat>, unique: seq<Corner>, seen: seq<map<seq<P>, nat>>, mapping: seq<map<nat, nat>>,
                            p: nat, v: nat)
    returns (vertices': seq<nat>, unique': seq<Corner>, seen': seq<map<seq<P>, nat>>, mapping': seq<map<nat, nat>>)
    requires Shaped(n, nbTextures, polygons, coords) && IsCorner(polygons, (p, v))
    requires Inv(n, polygons, coords, vertices, unique, seen, mapping)
    requires AllCovered(polygons, coords, seen, mapping, (p, v))
    requires forall k | 0 <= k < |vertices| :: Before(unique[k], (p, v))
    requires FirstSeen(polygons, coords, vertices, unique)
    requires OwnPairsUpTo(polygons, coords, unique, mapping, (p, v))
    requires MappingKeys(polygons, mapping)
    ensures Inv(n, polygons, coords, vertices', unique', seen', mapping')
    ensures AllCovered(polygons, coords, seen', mapping', (p, v + 1))
    ensures forall k | 0 <= k < |vertices'| :: Before(unique'[k], (p, v + 1))
    ensures FirstSeen(polygons, coords, vertices', unique')
    ensures OwnPairsUpTo(polygons, coords, unique', mapping', (p, v + 1))
    ensures MappingKeys(polygons, mapping')
  {
    var x := polygons[p][v];
    var key := coords[p][v];
    if key in seen[x] {
      var index := seen[x][key];
      SeenStep(n, polygons, coords, vertices, unique, seen, mapping, p, v);
      SeenOwnPair(n, polygons, coords, vertices, unique, seen, mapping, p, v);
      MappingKeysStep(polygons, mapping, p, v, index);
      vertices', unique', seen' := vertices, unique, seen;
      mapping' := mapping[x := Put(mapping[x], p, index)];
    } else {
      var index := |vertices|;
      NewStep(n, polygons, coords, vertices, unique, seen, mapping, p, v);
      MappingKeysStep(polygons, mapping, p, v, index);
      seen' := seen[x := Put(seen[x], key, index)];
      vertices' := vertices + [x];
      unique' := unique + [(p, v)];
      mapping' := mapping[x := Put(mapping[x], p, index)];
    }
  }

  /** A new pair's corner is the first one with that pair: every corner before it was walked without meeting it. */
  lemma NewFirstSeen<P>(n: nat, polygons: seq<seq<nat>>, coords: seq<seq<seq<P>>>,
                        vertices: seq<nat>, unique: seq<Corner>, seen: seq<map<seq<P>, nat>>, mapping: seq<map<nat, nat>>, p: nat, v: nat)
    requires |coords| == |polygons| && (forall q | 0 <= q < |polygons| :: |coords[q]| == |polygons[q]|)
    requires |seen| == n && |unique| == |vertices| && CreatedInOrder(polygons, vertices, unique)
    requires FirstSeen(polygons, coords, vertices, unique)
    requires AllCovered(polygons, coords, seen, mapping, (p, v))
    requires IsCorner(polygons, (p, v)) && polygons[p][v] < n && coords[p][v] !in seen[polygons[p][v]]
    requires CreatedInOrder(polygons, vertices + [polygons[p][v]], unique + [(p, v)])
    ensures FirstSeen(polygons, coords, vertices + [polygons[p][v]], unique + [(p, v)])
  {
    var x, key := polygons[p][v], coords[p][v];
    var vertices', unique' := vertices + [x], unique + [(p, v)];
    forall k, q, w | 0 <= k < |vertices'| && k < |unique'| && IsCorner(polygons, unique'[k]) &&
                     0 <= q < |polygons| && 0 <= w < |polygons[q]| && Before((q, w), unique'[k])
      ensures polygons[q][w] != vertices'[k] || coords[q][w] != CoordsAt(polygons, coords, unique'[k])
    {
      if k < |vertices| {
        assert unique'[k] == unique[k] && vertices'[k] == vertices[k];
      } else {
        assert Covered(polygons, coords, seen, mapping, (q, w));
      }
    }
  }

  /**
   * Setting vertex_mapping_[vertex][p] to an output vertex carrying the
   * corner's tuple makes the corner its own pair's, and leaves every other
   * corner that is still the last of its polygon on its vertex as it was.
   */
  lemma OwnPairsStep<P>(polygons: seq<seq<nat>>, coords: seq<seq<seq<P>>>, unique: seq<Corner>, unique': seq<Corner>,
                        mapping: seq<map<nat, nat>>, p: nat, v: nat, index: nat)
    requires |coords| == |polygons| && (forall q | 0 <= q < |polygons| :: |coords[q]| == |polygons[q]|)
    requires IsCorner(polygons, (p, v)) && polygons[p][v] < |mapping|
    requires OwnPairsUpTo(polygons, coords, unique, mapping, (p, v))
    requires |unique| <= |unique'| && unique'[..|unique|] == unique
    requires index < |unique'| && IsCorner(polygons, unique'[index]) && CoordsAt(polygons, coords, unique'[index]) == coords[p][v]
    ensures var x := polygons[p][v];
      OwnPairsUpTo(polygons, coords, unique', mapping[x := Put(mapping[x], p, index)], (p, v + 1))
  {
    var x := polygons[p][v];
    var mapping' := mapping[x := Put(mapping[x], p, index)];
    forall q, w | 0 <= q < |polygons| && 0 <= w < |polygons[q]| && Before((q, w), (p, v + 1)) && LastBefore(polygons, q, w, (p, v + 1))
      ensures OwnPair(polygons, coords, unique', mapping', q, w)
    {
      if (q, w) != (p, v) {
        assert Before((q, w), (p, v));
        assert LastBefore(polygons, q, w, (p, v));
        var y := polygons[q][w];
        assert OwnPair(polygons, coords, unique, mapping, q, w);
        assert q == p ==> polygons[p][v] != y by {
          if q == p {
            assert Before((q, v), (p, v + 1));
          }
        }
        assert mapping'[y][q] == mapping[y][q];
        assert unique'[mapping[y][q]] == unique[mapping[y][q]];
      }
    }
  }

  /** Having walked polygon p is having walked everything before polygon p + 1, for the mapping too. */
  lemma OwnPairsNextPolygon<P>(polygons: seq<seq<nat>>, coords: seq<seq<seq<P>>>, unique: seq<Corner>, mapping: seq<map<nat, nat>>, p: nat)
    requires |coords| == |polygons| && (forall q | 0 <= q < |polygons| :: |coords[q]| == |polygons[q]|)
    requires p < |polygons|
    requires OwnPairsUpTo(polygons, coords, unique, mapping, (p, |polygons[p]|))
    ensures OwnPairsUpTo(polygons, coords, unique, mapping, (p + 1, 0))
  {
    forall q, w | 0 <= q < |polygons| && 0 <= w < |polygons[q]| && Before((q, w), (p + 1, 0)) && LastBefore(polygons, q, w, (p + 1, 0))
      ensures OwnPair(polygons, coords, unique, mapping, q, w)
    {
      assert Before((q, w), (p, |polygons[p]|));
      assert LastBefore(polygons, q, w, (p, |polygons[p]|)) by {
        forall w2 | w < w2 < |polygons[q]| && Before((q, w2), (p, |polygons[p]|))
          ensures polygons[q][w2] != polygons[q][w]
        {
          assert Before((q, w2), (p + 1, 0));
        }
      }
    }
  }

  /** After the walk, every corner last of its polygon on its vertex is mapped to its own pair. */
  lemma OwnPairsAtEnd<P>(polygons: seq<seq<nat>>, coords: seq<seq<seq<P>>>, unique: seq<Corner>, mapping: seq<map<nat, nat>>)
    requires |coords| == |polygons| && (forall q | 0 <= q < |polygons| :: |coords[q]| == |polygons[q]|)
    requires OwnPairsUpTo(polygons, coords, unique, mapping, (|polygons|, 0))
    ensures OwnPairs(polygons, coords, unique, mapping)
  {
    forall q, w | 0 <= q < |polygons| && 0 <= w < |polygons[q]| && LastInPolygon(polygons, q, w)
      ensures OwnPair(polygons, coords, unique, mapping, q, w)
    {
      assert Before((q, w), (|polygons|, 0));
      assert LastBefore(polygons, q, w, (|polygons|, 0));
    }
  }

  /** A corner whose pair was met before keeps the invariant and is walked. */
  lemma SeenStep<P>(n: nat, polygons: seq<seq<nat>>, coords: seq<seq<seq<P>>>,
                    vertices: seq<nat>, unique: seq<Corner>, seen: seq<map<seq<P>, nat>>, mapping: seq<map<nat, nat>>, p: nat, v: nat)
    requires |coords| == |polygons| && (forall q | 0 <= q < |polygons| :: |coords[q]| == |polygons[q]|)
    requires Inv(n, polygons, coords, vertices, unique, seen, mapping)
    requires AllCovered(polygons, coords, seen, mapping, (p, v))
    requires forall k | 0 <= k < |vertices| :: Before(unique[k], (p, v))
    requires IsCorner(polygons, (p, v)) && polygons[p][v] < n && coords[p][v] in seen[polygons[p][v]]
    ensures var x := polygons[p][v];
      var mapping' := mapping[x := Put(mapping[x], p, seen[x][coords[p][v]])];
      && Inv(n, polygons, coords, vertices, unique, seen, mapping')
      && AllCovered(polygons, coords, seen, mapping', (p, v + 1))
      && (forall k | 0 <= k < |vertices| :: Before(unique[k], (p, v + 1)))
  {
    var x := polygons[p][v];
    var index := seen[x][coords[p][v]];
    SeenKeeps(n, polygons, coords, vertices, unique, seen, mapping, p, v);
    PutCovers(polygons, coords, seen, mapping, seen, p, v, index);
  }

  /** A corner whose pair was met before is mapped to the output vertex that carries the pair. */
  lemma SeenOwnPair<P>(n: nat, polygons: seq<seq<nat>>, coords: seq<seq<seq<P>>>,
                       vertices: seq<nat>, unique: seq<Corner>, seen: seq<map<seq<P>, nat>>, mapping: seq<map<nat, nat>>, p: nat, v: nat)
    requires |coords| == |polygons| && (forall q | 0 <= q < |polygons| :: |coords[q]| == |polygons[q]|)
    requires Inv(n, polygons, coords, vertices, unique, seen, mapping)
    requires IsCorner(polygons, (p, v)) && polygons[p][v] < n && coords[p][v] in seen[polygons[p][v]]
    requires OwnPairsUpTo(polygons, coords, unique, mapping, (p, v))
    ensures var x := polygons[p][v];
      OwnPairsUpTo(polygons, coords, unique, mapping[x := Put(mapping[x], p, seen[x][coords[p][v]])], (p, v + 1))
  {
    var x := polygons[p][v];
    var index := seen[x][coords[p][v]];
    assert unique[..|unique|] == unique;
    OwnPairsStep(polygons, coords, unique, unique, mapping, p, v, index);
  }

  /** A corner whose pair is new keeps the invariant and is walked. */
  lemma NewStep<P>(n: nat, polygons: seq<seq<nat>>, coords: seq<seq<seq<P>>>,
                   vertices: seq<nat>, unique: seq<Corner>, seen: seq<map<seq<P>, nat>>, mapping: seq<map<nat, nat>>, p: nat, v: nat)
    requires |coords| == |polygons| && (forall q | 0 <= q < |polygons| :: |coords[q]| == |polygons[q]|)
    requires Inv(n, polygons, coords, vertices, unique, seen, mapping)
    requires AllCovered(polygons, coords, seen, mapping, (p, v))
    requires forall k | 0 <= k < |vertices| :: Before(unique[k], (p, v))
    requires IsCorner(polygons, (p, v)) && polygons[p][v] < n && coords[p][v] !in seen[polygons[p][v]]
    requires FirstSeen(polygons, coords, vertices, unique)
    requires OwnPairsUpTo(polygons, coords, unique, mapping, (p, v))
    ensures var x, key, index := polygons[p][v], coords[p][v], |vertices|;
      var seen', mapping' := seen[x := Put(seen[x], key, index)], mapping[x := Put(mapping[x], p, index)];
      && Inv(n, polygons, coords, vertices + [x], unique + [(p, v)], seen', mapping')
      && AllCovered(polygons, coords, seen', mapping', (p, v + 1))
      && (forall k | 0 <= k < |vertices| + 1 :: Before((unique + [(p, v)])[k], (p, v + 1)))
      && FirstSeen(polygons, coords, vertices + [x], unique + [(p, v)])
      && OwnPairsUpTo(polygons, coords, unique + [(p, v)], mapping', (p, v + 1))
  {
    var x, key, index := polygons[p][v], coords[p][v], |vertices|;
    var seen', mapping' := seen[x := Put(seen[x], key, index)], mapping[x := Put(mapping[x], p, index)];
    NewKeeps(n, polygons, coords, vertices, unique, seen, mapping, p, v);
    PutCovers(polygons, coords, seen, mapping, seen', p, v, index);
    NewFirstSeen(n, polygons, coords, vertices, unique, seen, mapping, p, v);
    assert (unique + [(p, v)])[..|unique|] == unique;
    OwnPairsStep(polygons, coords, unique, unique + [(p, v)], mapping, p, v, index);
  }

  /** The corner's pair was met before: only vertex_mapping_ changes, to the existing output vertex. */
  lemma SeenKeeps<P>(n: nat, polygons: seq<seq<nat>>, coords: seq<seq<seq<P>>>,
                     vertices: seq<nat>, unique: seq<Corner>, seen: seq<map<seq<P>, nat>>, mapping: seq<map<nat, nat>>, p: nat, v: nat)
    requires |coords| == |polygons| && (forall q | 0 <= q < |polygons| :: |coords[q]| == |polygons[q]|)
    requires Inv(n, polygons, coords, vertices, unique, seen, mapping)
    requires IsCorner(polygons, (p, v)) && polygons[p][v] < n && coords[p][v] in seen[polygons[p][v]]
    ensures var x := polygons[p][v];
      Inv(n, polygons, coords, vertices, unique, seen, mapping[x := Put(mapping[x], p, seen[x][coords[p][v]])])
  {
  }

  /** The corner's pair is new: one more output vertex, created by this corner. */
  lemma NewKeeps<P>(n: nat, polygons: seq<seq<nat>>, coords: seq<seq<seq<P>>>,
                    vertices: seq<nat>, unique: seq<Corner>, seen: seq<map<seq<P>, nat>>, mapping: seq<map<nat, nat>>, p: nat, v: nat)
    requires |coords| == |polygons| && (forall q | 0 <= q < |polygons| :: |coords[q]| == |polygons[q]|)
    requires Inv(n, polygons, coords, vertices, unique, seen, mapping)
    requires forall k | 0 <= k < |vertices| :: Before(unique[k], (p, v))
    requires IsCorner(polygons, (p, v)) && polygons[p][v] < n && coords[p][v] !in seen[polygons[p][v]]
    ensures var x, key, index := polygons[p][v], coords[p][v], |vertices|;
      Inv(n, polygons, coords, vertices + [x], unique + [(p, v)],
          seen[x := Put(seen[x], key, index)], mapping[x := Put(mapping[x], p, index)])
  {
    var x, key, index := polygons[p][v], coords[p][v], |vertices|;
    var vertices', unique' := vertices + [x], unique + [(p, v)];
    var seen', mapping' := seen[x := Put(seen[x], key, index)], mapping[x := Put(mapping[x], p, index)];
    forall k | 0 <= k < |vertices'|
      ensures CoordsAt(polygons, coords, unique'[k]) in seen'[vertices'[k]]
      ensures seen'[vertices'[k]][CoordsAt(polygons, coords, unique'[k])] == k
    {
      if k < index {
        assert unique'[k] == unique[k] && vertices'[k] == vertices[k];
        assert CoordsAt(polygons, coords, unique[k]) in seen[vertices[k]];
        if vertices[k] == x {
          assert CoordsAt(polygons, coords, unique[k]) != key;
        }
      }
    }
    forall x0, key0 | 0 <= x0 < n && key0 in seen'[x0]
      ensures seen'[x0][key0] < |vertices'| && vertices'[seen'[x0][key0]] == x0
      ensures CoordsAt(polygons, coords, unique'[seen'[x0][key0]]) == key0
    {
      if x0 != x || key0 != key {
        assert key0 in seen[x0];
      }
    }
  }

  /**
   * Setting vertex_mapping_[vertex][p], with the corner's tuple in the
   * (possibly grown) hash map, walks the corner and keeps the earlier ones.
   */
  lemma PutCovers<P>(polygons: seq<seq<nat>>, coords: seq<seq<seq<P>>>,
                     seen: seq<map<seq<P>, nat>>, mapping: seq<map<nat, nat>>, seen': seq<map<seq<P>, nat>>,
                     p: nat, v: nat, index: nat)
    requires |coords| == |polygons| && (forall q | 0 <= q < |polygons| :: |coords[q]| == |polygons[q]|)
    requires IsCorner(polygons, (p, v)) && polygons[p][v] < |seen| && polygons[p][v] < |mapping|
    requires AllCovered(polygons, coords, seen, mapping, (p, v))
    requires |seen'| == |seen| && forall x | 0 <= x < |seen| :: seen[x].Keys <= seen'[x].Keys
    requires coords[p][v] in seen'[polygons[p][v]]
    ensures var x := polygons[p][v];
      AllCovered(polygons, coords, seen', mapping[x := Put(mapping[x], p, index)], (p, v + 1))
  {
    var x := polygons[p][v];
    var mapping' := mapping[x := Put(mapping[x], p, index)];
    assert Grows(seen, mapping, seen', mapping');
    CoveredStays(polygons, coords, seen, mapping, seen', mapping', (p, v));
  }

  /** Earlier corners stay walked while the maps only gain keys; this corner is now walked too. */
  lemma CoveredStays<P>(polygons: seq<seq<nat>>, coords: seq<seq<seq<P>>>,
                        seen: seq<map<seq<P>, nat>>, mapping: seq<map<nat, nat>>,
                        seen': seq<map<seq<P>, nat>>, mapping': seq<map<nat, nat>>, c: Corner)
    requires |coords| == |polygons| && (forall p | 0 <= p < |polygons| :: |coords[p]| == |polygons[p]|)
    requires IsCorner(polygons, c)
    requires AllCovered(polygons, coords, seen, mapping, c)
    requires Grows(seen, mapping, seen', mapping')
    requires Covered(polygons, coords, seen', mapping', c)
    ensures AllCovered(polygons, coords, seen', mapping', (c.0, c.1 + 1))
  {
    forall q, w | 0 <= q < |polygons| && 0 <= w < |polygons[q]| && Before((q, w), (c.0, c.1 + 1))
      ensures Covered(polygons, coords, seen', mapping', (q, w))
    {
      if (q, w) != c {
        assert Covered(polygons, coords, seen, mapping, (q, w));
      }
    }
  }

  /** Having walked every corner of polygon p is having walked everything before polygon p + 1. */
  lemma NextPolygon<P>(polygons: seq<seq<nat>>, coords: seq<seq<seq<P>>>,
                       seen: seq<map<seq<P>, nat>>, mapping: seq<map<nat, nat>>, p: nat)
    requires |coords| == |polygons| && (forall q | 0 <= q < |polygons| :: |coords[q]| == |polygons[q]|)
    requires p < |polygons|
    requires AllCovered(polygons, coords, seen, mapping, (p, |polygons[p]|))
    ensures AllCovered(polygons, coords, seen, mapping, (p + 1, 0))
  {
    forall q, w | 0 <= q < |polygons| && 0 <= w < |polygons[q]| && Before((q, w), (p + 1, 0))
      ensures Covered(polygons, coords, seen, mapping, (q, w))
    {
      assert Before((q, w), (p, |polygons[p]|));
    }
  }

  /** Corner c's tuple has an output vertex of the same mesh vertex carrying it. */
  ghost predicate Carried<P>(polygons: seq<seq<nat>>, coords: seq<seq<seq<P>>>, vertices: seq<nat>, unique: seq<Corner>, c: Corner)
    requires |coords| == |polygons| && (forall p | 0 <= p < |polygons| :: |coords[p]| == |polygons[p]|)
    requires IsCorner(polygons, c)
  {
    exists k | 0 <= k < |vertices| && k < |unique| ::
      IsCorner(polygons, unique[k]) && vertices[k] == polygons[c.0][c.1] && CoordsAt(polygons, coords, unique[k]) == coords[c.0][c.1]
  }

  /** Once every corner is walked, the invariant gives what the method promises. */
  lemma Results<P>(n: nat, polygons: seq<seq<nat>>, coords: seq<seq<seq<P>>>,
                   vertices: seq<nat>, unique: seq<Corner>, seen: seq<map<seq<P>, nat>>, mapping: seq<map<nat, nat>>)
    requires |coords| == |polygons| && (forall q | 0 <= q < |polygons| :: |coords[q]| == |polygons[q]|)
    requires forall q, w | 0 <= q < |polygons| && 0 <= w < |polygons[q]| :: polygons[q][w] < n
    requires Inv(n, polygons, coords, vertices, unique, seen, mapping)
    requires AllCovered(polygons, coords, seen, mapping, (|polygons|, 0))
    ensures |unique| == |vertices| && CreatedInOrder(polygons, vertices, unique)
    ensures DistinctPairs(polygons, coords, vertices, unique)
    ensures MappingPoints(polygons, vertices, mapping)
    ensures forall q, w | 0 <= q < |polygons| && 0 <= w < |polygons[q]| :: Carried(polygons, coords, vertices, unique, (q, w))
  {
    CornersResult(n, polygons, coords, vertices, unique, seen, mapping);
    PairsDistinct(n, polygons, coords, vertices, unique, seen, mapping);
  }

  /** Every walked corner is mapped and carried. */
  lemma CornersResult<P>(n: nat, polygons: seq<seq<nat>>, coords: seq<seq<seq<P>>>,
                         vertices: seq<nat>, unique: seq<Corner>, seen: seq<map<seq<P>, nat>>, mapping: seq<map<nat, nat>>)
    requires |coords| == |polygons| && (forall q | 0 <= q < |polygons| :: |coords[q]| == |polygons[q]|)
    requires forall q, w | 0 <= q < |polygons| && 0 <= w < |polygons[q]| :: polygons[q][w] < n
    requires Inv(n, polygons, coords, vertices, unique, seen, mapping)
    requires AllCovered(polygons, coords, seen, mapping, (|polygons|, 0))
    ensures forall q, w | 0 <= q < |polygons| && 0 <= w < |polygons[q]| ::
      var x := polygons[q][w];
      q in mapping[x] && mapping[x][q] < |vertices| && vertices[mapping[x][q]] == x
    ensures forall q, w | 0 <= q < |polygons| && 0 <= w < |polygons[q]| :: Carried(polygons, coords, vertices, unique, (q, w))
  {
    forall q, w | 0 <= q < |polygons| && 0 <= w < |polygons[q]|
      ensures var x := polygons[q][w];
        q in mapping[x] && mapping[x][q] < |vertices| && vertices[mapping[x][q]] == x
      ensures Carried(polygons, coords, vertices, unique, (q, w))
    {
      WalkedAtEnd(polygons, coords, seen, mapping, (q, w));
      CornerResult(n, polygons, coords, vertices, unique, seen, mapping, (q, w));
    }
  }

  /** After the walk, every corner has been walked. */
  lemma WalkedAtEnd<P>(polygons: seq<seq<nat>>, coords: seq<seq<seq<P>>>,
                       seen: seq<map<seq<P>, nat>>, mapping: seq<map<nat, nat>>, c: Corner)
    requires |coords| == |polygons| && (forall q | 0 <= q < |polygons| :: |coords[q]| == |polygons[q]|)
    requires IsCorner(polygons, c)
    requires AllCovered(polygons, coords, seen, mapping, (|polygons|, 0))
    ensures Covered(polygons, coords, seen, mapping, c)
  {
    assert Before(c, (|polygons|, 0));
  }

  /** Output vertices differ in mesh vertex or in tuple: each pair has one entry in the hash maps. */
  lemma PairsDistinct<P>(n: nat, polygons: seq<seq<nat>>, coords: seq<seq<seq<P>>>,
                         vertices: seq<nat>, unique: seq<Corner>, seen: seq<map<seq<P>, nat>>, mapping: seq<map<nat, nat>>)
    requires |coords| == |polygons| && (forall q | 0 <= q < |polygons| :: |coords[q]| == |polygons[q]|)
    requires Inv(n, polygons, coords, vertices, unique, seen, mapping)
    ensures forall k, j | 0 <= k < j < |vertices| ::
      vertices[k] != vertices[j] || CoordsAt(polygons, coords, unique[k]) != CoordsAt(polygons, coords, unique[j])
  {
    forall k, j | 0 <= k < j < |vertices|
      ensures vertices[k] != vertices[j] || CoordsAt(polygons, coords, unique[k]) != CoordsAt(polygons, coords, unique[j])
    {
      assert seen[vertices[k]][CoordsAt(polygons, coords, unique[k])] == k;
      assert seen[vertices[j]][CoordsAt(polygons, coords, unique[j])] == j;
    }
  }

  /** A walked corner is mapped to an output vertex of its mesh vertex, and its tuple is carried. */
  lemma CornerResult<P>(n: nat, polygons: seq<seq<nat>>, coords: seq<seq<seq<P>>>,
                        vertices: seq<nat>, unique: seq<Corner>, seen: seq<map<seq<P>, nat>>, mapping: seq<map<nat, nat>>, c: Corner)
    requires |coords| == |polygons| && (forall q | 0 <= q < |polygons| :: |coords[q]| == |polygons[q]|)
    requires IsCorner(polygons, c) && polygons[c.0][c.1] < n
    requires Inv(n, polygons, coords, vertices, unique, seen, mapping)
    requires Covered(polygons, coords, seen, mapping, c)
    ensures var x := polygons[c.0][c.1];
      c.0 in mapping[x] && mapping[x][c.0] < |vertices| && vertices[mapping[x][c.0]] == x
    ensures Carried(polygons, coords, vertices, unique, c)
  {
    var x := polygons[c.0][c.1];
    var k := seen[x][coords[c.0][c.1]];
    assert vertices[k] == x && CoordsAt(polygons, coords, unique[k]) == coords[c.0][c.1];
  }

  /**
   * The textured connectivity refers to the split vertices, and each of
   * them is the corner's own mesh vertex: the written polygons are the
   * mesh's polygons, corner by corner, with no missing entry for at().
   */
  lemma TexturedPolygonsKeepVertices<P>(n: nat, polygons: seq<seq<nat>>, coords: seq<seq<seq<P>>>,
                                        vertices: seq<nat>, unique: seq<Corner>, mapping: seq<map<nat, nat>>)
    requires |coords| == |polygons| && (forall p | 0 <= p < |polygons| :: |coords[p]| == |polygons[p]|)
    requires forall p, v | 0 <= p < |polygons| && 0 <= v < |polygons[p]| :: polygons[p][v] < n
    requires SplitOf(n, polygons, coords, vertices, unique, mapping)
    ensures VtpOutput.Mapped(polygons, mapping).Ok?
    ensures forall p, v | 0 <= p < |polygons| && 0 <= v < |polygons[p]| ::
      VtpOutput.Mapped(polygons, mapping).value[p][v] < |vertices| &&
      vertices[VtpOutput.Mapped(polygons, mapping).value[p][v]] == polygons[p][v]
  {
    forall p, v | 0 <= p < |polygons| && 0 <= v < |polygons[p]|
      ensures VtpOutput.MappedCorner(polygons, mapping, p, v)
    {
      var x := polygons[p][v];
      assert p in mapping[x];
    }
  }

  /**
   * The writer's per-surface state: the texture names (textures_info_),
   * vertex_mapping_, sized to the vertices only when there are textures,
   * and unique_texture_vertices_.
   */
  class SurfaceWriter {
    const nbVertices: nat
    const textureNames: seq<string>
    var vertexMapping: seq<map<nat, nat>>
    var uniqueTextureVertices: seq<Corner>

    /** The constructor: vertex_mapping_ gets one empty map per vertex only when there is a texture. */
    constructor (nbVertices: nat, textureNames: seq<string>)
      ensures this.nbVertices == nbVertices && this.textureNames == textureNames
      ensures vertexMapping == (if textureNames == [] then [] else seq(nbVertices, x => map[]))
      ensures uniqueTextureVertices == []
    {
      this.nbVertices := nbVertices;
      this.textureNames := textureNames;
      vertexMapping := if textureNames == [] then [] else seq(nbVertices, x => map[]);
      uniqueTextureVertices := [];
    }

    /**
     * compute_vertices: without texture the base class's vertex list
     * (given here), with textures the split vertices, vertex_mapping_ and
     * unique_texture_vertices_.
     */
    method ComputeVertices<P(==)>(polygons: seq<seq<nat>>, coords: seq<seq<seq<P>>>, base: seq<nat>) returns (vertices: seq<nat>)
      requires Shaped(nbVertices, |textureNames|, polygons, coords)
      requires uniqueTextureVertices == []
      requires vertexMapping == (if textureNames == [] then [] else seq(nbVertices, x => map[]))
      modifies this
      ensures textureNames == [] ==> vertices == base && vertexMapping == [] && uniqueTextureVertices == []
      ensures textureNames != [] ==> SplitOf(nbVertices, polygons, coords, vertices, uniqueTextureVertices, vertexMapping)
    {
      if textureNames == [] {
        return base;
      }
      var unique, mapping;
      vertices, unique, mapping := SplitTextureVertices(nbVertices, |textureNames|, polygons, coords);
      vertexMapping, uniqueTextureVertices := mapping, unique;
    }

    /**
     * The values write_vtk_textures puts in texture t's DataArray: the
     * texture's coordinates at each unique texture vertex, in order.
     */
    method TextureValues<P>(polygons: seq<seq<nat>>, coords: seq<seq<seq<P>>>, t: nat) returns (values: seq<P>)
      requires Shaped(nbVertices, |textureNames|, polygons, coords) && t < |textureNames|
      requires forall k | 0 <= k < |uniqueTextureVertices| :: IsCorner(polygons, uniqueTextureVertices[k])
      ensures |values| == |uniqueTextureVertices|
      ensures forall k | 0 <= k < |uniqueTextureVertices| :: values[k] == CornerCoord(polygons, coords, uniqueTextureVertices[k], t)
    {
      values := [];
      for k := 0 to |uniqueTextureVertices|
        invariant |values| == k
        invariant forall j | 0 <= j < k :: values[j] == CornerCoord(polygons, coords, uniqueTextureVertices[j], t)
      {
        values := values + [CornerCoord(polygons, coords, uniqueTextureVertices[k], t)];
      }
    }
  }

  /**
   * The texture values line up with the written vertices: for every
   * corner and every texture, some written vertex of the corner's mesh
   * vertex has that texture's value equal to the corner's coordinate; and
   * when the corner is the last of its polygon on its mesh vertex, the
   * vertex its polygon is written with is one of them.
   */
  lemma TexturesFollowCorners<P>(n: nat, nbTextures: nat, polygons: seq<seq<nat>>, coords: seq<seq<seq<P>>>,
                                 vertices: seq<nat>, unique: seq<Corner>, mapping: seq<map<nat, nat>>,
                                 values: seq<seq<P>>, q: nat, w: nat)
    requires Shaped(n, nbTextures, polygons, coords)
    requires SplitOf(n, polygons, coords, vertices, unique, mapping)
    requires |values| == nbTextures
    requires forall t | 0 <= t < nbTextures :: |values[t]| == |unique|
    requires forall t, k | 0 <= t < nbTextures && 0 <= k < |unique| :: values[t][k] == CornerCoord(polygons, coords, unique[k], t)
    requires q < |polygons| && w < |polygons[q]|
    ensures exists k | 0 <= k < |vertices| :: (vertices[k] == polygons[q][w] &&
      forall t | 0 <= t < nbTextures :: values[t][k] == coords[q][w][t])
    ensures VtpOutput.Mapped(polygons, mapping).Ok?
    ensures LastInPolygon(polygons, q, w) ==>
      var k := VtpOutput.Mapped(polygons, mapping).value[q][w];
      k < |vertices| && vertices[k] == polygons[q][w] && forall t | 0 <= t < nbTextures :: values[t][k] == coords[q][w][t]
  {
    assert Carried(polygons, coords, vertices, unique, (q, w));
    var k :| 0 <= k < |vertices| && k < |unique| && IsCorner(polygons, unique[k]) && vertices[k] == polygons[q][w]
      && CoordsAt(polygons, coords, unique[k]) == coords[q][w];
    forall t | 0 <= t < nbTextures
      ensures values[t][k] == coords[q][w][t]
    {
    }
    TexturedPolygonsKeepVertices(n, polygons, coords, vertices, unique, mapping);
    if LastInPolygon(polygons, q, w) {
      assert OwnPair(polygons, coords, unique, mapping, q, w);
      var m := VtpOutput.Mapped(polygons, mapping).value[q][w];
      assert m == mapping[polygons[q][w]][q];
      forall t | 0 <= t < nbTextures
        ensures values[t][m] == coords[q][w][t]
      {
      }
    }
  }

  /**
   * Conversely to FirstSeen, a corner with no earlier corner of the same
   * mesh vertex and tuple is the one that created an output vertex.
   */
  lemma FirstCornerCreates<P>(n: nat, polygons: seq<seq<nat>>, coords: seq<seq<seq<P>>>,
                              vertices: seq<nat>, unique: seq<Corner>, mapping: seq<map<nat, nat>>, c: Corner)
    requires |coords| == |polygons| && (forall p | 0 <= p < |polygons| :: |coords[p]| == |polygons[p]|)
    requires forall p, v | 0 <= p < |polygons| && 0 <= v < |polygons[p]| :: polygons[p][v] < n
    requires IsCorner(polygons, c)
    requires forall q, w | 0 <= q < |polygons| && 0 <= w < |polygons[q]| && Before((q, w), c) ::
      polygons[q][w] != polygons[c.0][c.1] || coords[q][w] != coords[c.0][c.1]
    requires SplitOf(n, polygons, coords, vertices, unique, mapping)
    ensures exists k | 0 <= k < |unique| :: unique[k] == c
  {
    assert Carried(polygons, coords, vertices, unique, c);
    var k :| 0 <= k < |vertices| && k < |unique| && IsCorner(polygons, unique[k]) && vertices[k] == polygons[c.0][c.1]
      && CoordsAt(polygons, coords, unique[k]) == coords[c.0][c.1];
    var u := unique[k];
    assert polygons[u.0][u.1] == vertices[k];
    assert !Before(u, c);
    assert !Before(c, u);
  }

  /**
   * Two one-corner polygons on vertex 0 with tuples 7 and 9: mapping
   * polygon 0 to the output vertex created by polygon 1 is rejected.
   */
  lemma CrossedMappingRejected()
    ensures !SplitOf<int>(1, [[0], [0]], [[[7]], [[9]]], [0, 0], [(0, 0), (1, 0)], [map[0 := 1, 1 := 0]])
  {
    assert LastInPolygon([[0], [0]], 0, 0);
    assert !OwnPair<int>([[0], [0]], [[[7]], [[9]]], [(0, 0), (1, 0)], [map[0 := 1, 1 := 0]], 0, 0);
  }

  /** An output vertex created by a later corner of an already-met pair is rejected. */
  lemma LateCreationRejected()
    ensures !SplitOf<int>(2, [[0], [1], [0]], [[[7]], [[8]], [[7]]], [1, 0], [(1, 0), (2, 0)], [map[0 := 1, 2 := 1], map[1 := 0]])
  {
    var polygons, coords: seq<seq<seq<int>>> := [[0], [1], [0]], [[[7]], [[8]], [[7]]];
    assert Before((0, 0), (2, 0));
    assert polygons[0][0] == 0 && coords[0][0] == coords[2][0];
  }

  /**
   * save_images: one "<path>_<name>.vti" raster file per texture whose
   * image has cells, in texture order; an empty image is not saved.
   */
  method SaveImages(path: string, textures: seq<(string, nat)>) returns (saved: seq<string>)
    ensures saved == ImagesSaved(path, textures)
    ensures forall f :: f in saved <==> exists i | 0 <= i < |textures| :: textures[i].1 > 0 && f == ImageFile(path, textures[i].0)
    ensures |saved| <= |textures|
  {
    saved := [];
    for i := 0 to |textures|
      invariant saved == ImagesSaved(path, textures[..i])
      invariant |saved| <= i
      invariant forall f :: f in saved <==> exists j | 0 <= j < i :: textures[j].1 > 0 && f == ImageFile(path, textures[j].0)
    {
      assert textures[..i + 1][..i] == textures[..i];
      if textures[i].1 > 0 {
        saved := saved + [ImageFile(path, textures[i].0)];
      }
    }
    assert textures[..|textures|] == textures;
  }

  /** The image files of the textures whose image has cells, in texture order. */
  function ImagesSaved(path: string, textures: seq<(string, nat)>): seq<string>
  {
    if textures == [] then []
    else
      var last := textures[|textures| - 1];
      ImagesSaved(path, textures[..|textures| - 1]) + (if last.1 > 0 then [ImageFile(path, last.0)] else [])
  }

  /** Texture t's coordinate at corner c. */
  function CornerCoord<P>(polygons: seq<seq<nat>>, coords: seq<seq<seq<P>>>, c: Corner, t: nat): P
    requires |coords| == |polygons| && (forall p | 0 <= p < |polygons| :: |coords[p]| == |polygons[p]|)
    requires IsCorner(polygons, c) && t < |coords[c.0][c.1]|
  {
    coords[c.0][c.1][t]
  }

  /** The file name of a texture's image. */
  function ImageFile(path: string, name: string): (r: string)
    ensures |r| == |path| + |name| + 5
    ensures r[..|path|] == path && r[|r| - 4..] == ".vti"
  {
    path + "_" + name + ".vti"
  }
}
