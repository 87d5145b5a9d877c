/** The feature index built once from the catalog: the feature list, the exact-match map
    from location to feature, the coordinate table and the R-tree leaves that point into it. */
module Index {
  import opened Proto
  import opened Geometry

  /** An R-tree leaf with the envelope bulk loading computed for it. */
  datatype Entry = Entry(leaf: FeatureIdx, env: Aabb)

  /** The R-tree as the sequence of its leaves; node structure and balancing are not modelled. */
  datatype RTree = RTree(entries: seq<Entry>)

  datatype FeatureIndex = FeatureIndex(features: seq<Feature>, featureMap: map<Point, Feature>, rtree: RTree)

  /** Every feature carries a location, as the dataset loader guarantees. */
  predicate AllLocated(fs: seq<Feature>)
  {
    forall i :: 0 <= i < |fs| ==> fs[i].location.Some?
  }

  /** No leaf dangles: every leaf is a position in the feature list. */
  predicate LeavesInRange(idx: FeatureIndex)
  {
    forall e :: e in idx.rtree.entries ==> e.leaf.i < |idx.features|
  }

  // Specification of the build loop, one step per feature, in list order.

  /** The leaves pushed by the build: the list position of each located feature. */
  function LeavesOf(fs: seq<Feature>): seq<FeatureIdx>
    decreases |fs|
  {
    if fs == [] then []
    else
      var n := |fs| - 1;
      LeavesOf(fs[..n]) + (if fs[n].location.Some? then [FeatureIdx(n)] else [])
  }

  /** The coordinate table pushed by the build: one entry per located feature. */
  function GeoTableOf(fs: seq<Feature>): seq<GeoPoint>
    decreases |fs|
  {
    if fs == [] then []
    else
      var n := |fs| - 1;
      GeoTableOf(fs[..n]) + (if fs[n].location.Some? then [FromPoint(fs[n].location.value)] else [])
  }

  /** The exact-match map filled by the build; a later insert at a key replaces an earlier one. */
  function MapOf(fs: seq<Feature>): map<Point, Feature>
    decreases |fs|
  {
    if fs == [] then map[]
    else
      var n := |fs| - 1;
      if fs[n].location.Some? then MapOf(fs[..n])[fs[n].location.value := fs[n]] else MapOf(fs[..n])
  }

  /** The loop of `FeatureIndex::build` (and of the inline build in the first service):
      walks the features once and fills the map, the coordinate table and the leaf list. */
  method Populate(features: seq<Feature>)
    returns (featureMap: map<Point, Feature>, geoPoints: seq<GeoPoint>, indices: seq<FeatureIdx>)
    ensures featureMap == MapOf(features)
    ensures geoPoints == GeoTableOf(features)
    ensures indices == LeavesOf(features)
  {
    featureMap, geoPoints, indices := map[], [], [];
    for idx := 0 to |features|
      invariant featureMap == MapOf(features[..idx])
      invariant geoPoints == GeoTableOf(features[..idx])
      invariant indices == LeavesOf(features[..idx])
    {
      assert features[..idx + 1][..idx] == features[..idx];
      var feat := features[idx];
      if feat.location.Some? {
        var key := feat.location.value;
        featureMap := featureMap[key := feat];
        geoPoints := geoPoints + [FromPoint(key)];
        indices := indices + [FeatureIdx(idx)];
      }
    }
    assert features[..|features|] == features;
  }

  /** A feature without a location adds nothing to the map, the table or the leaves. */
  lemma SkipsUnlocated(fs: seq<Feature>, f: Feature)
    requires f.location.None?
    ensures MapOf(fs + [f]) == MapOf(fs)
    ensures GeoTableOf(fs + [f]) == GeoTableOf(fs)
    ensures LeavesOf(fs + [f]) == LeavesOf(fs)
  {
    assert (fs + [f])[..|fs|] == fs;
  }

  /** The table and the leaves have equal length, and the k-th table entry is the location
      of the feature the k-th leaf names, a position inside the list. */
  lemma {:induction false} LeavesAligned(fs: seq<Feature>)
    ensures |LeavesOf(fs)| == |GeoTableOf(fs)|
    ensures forall k :: 0 <= k < |LeavesOf(fs)| ==>
      LeavesOf(fs)[k].i < |fs| && fs[LeavesOf(fs)[k].i].location == Some(GeoTableOf(fs)[k].pb)
  {
    if fs != [] {
      var n := |fs| - 1;
      var pre := fs[..n];
      LeavesAligned(pre);
      forall k | 0 <= k < |LeavesOf(fs)|
        ensures LeavesOf(fs)[k].i < |fs| && fs[LeavesOf(fs)[k].i].location == Some(GeoTableOf(fs)[k].pb)
      {
        if k < |LeavesOf(pre)| {
          assert LeavesOf(fs)[k] == LeavesOf(pre)[k];
          assert GeoTableOf(fs)[k] == GeoTableOf(pre)[k];
          assert fs[LeavesOf(pre)[k].i] == pre[LeavesOf(pre)[k].i];
        }
      }
    }
  }

  /** The leaves are in strictly ascending list order. */
  lemma {:induction false} LeavesAscending(fs: seq<Feature>)
    ensures forall j, k :: 0 <= j < k < |LeavesOf(fs)| ==> LeavesOf(fs)[j].i < LeavesOf(fs)[k].i
  {
    if fs != [] {
      var n := |fs| - 1;
      LeavesAscending(fs[..n]);
      LeavesAligned(fs[..n]);
    }
  }

  /** A position has a leaf exactly when the feature there has a location. */
  lemma {:induction false} LeavesCover(fs: seq<Feature>, i: int)
    requires 0 <= i < |fs|
    ensures fs[i].location.Some? <==> exists k :: 0 <= k < |LeavesOf(fs)| && LeavesOf(fs)[k].i == i
  {
    LeavesAligned(fs);
    var n := |fs| - 1;
    var pre := fs[..n];
    if i == n {
      if fs[n].location.Some? {
        assert LeavesOf(fs)[|LeavesOf(fs)| - 1].i == n;
      } else {
        LeavesAligned(pre);
      }
    } else {
      LeavesCover(pre, i);
      if fs[i].location.Some? {
        var k :| 0 <= k < |LeavesOf(pre)| && LeavesOf(pre)[k].i == i;
        assert LeavesOf(fs)[k] == LeavesOf(pre)[k];
      }
    }
  }

  /** When every feature has a location, the k-th leaf is position k and the k-th table entry
      is that feature's location: every leaf resolves to its own coordinates. */
  lemma {:induction false} AlignedWhenAllLocated(fs: seq<Feature>)
    requires AllLocated(fs)
    ensures |LeavesOf(fs)| == |GeoTableOf(fs)| == |fs|
    ensures forall k :: 0 <= k < |fs| ==>
      LeavesOf(fs)[k] == FeatureIdx(k) && Some(GeoTableOf(fs)[k].pb) == fs[k].location
  {
    if fs != [] {
      var n := |fs| - 1;
      AlignedWhenAllLocated(fs[..n]);
    }
  }

  /** The map's keys are exactly the locations of the features. */
  lemma {:induction false} MapKeys(fs: seq<Feature>)
    ensures forall p :: p in MapOf(fs) <==> exists i :: 0 <= i < |fs| && fs[i].location == Some(p)
  {
    if fs != [] {
      var n := |fs| - 1;
      var pre := fs[..n];
      MapKeys(pre);
      forall p
        ensures p in MapOf(fs) <==> exists i :: 0 <= i < |fs| && fs[i].location == Some(p)
      {
        if p in MapOf(pre) {
          var i :| 0 <= i < |pre| && pre[i].location == Some(p);
          assert fs[i] == pre[i];
        }
        if exists i :: 0 <= i < |fs| && fs[i].location == Some(p) {
          var i :| 0 <= i < |fs| && fs[i].location == Some(p);
          if i < n {
            assert pre[i] == fs[i];
          }
        }
      }
    }
  }

  /** Each map value is a feature of the list whose location is its key. */
  lemma {:induction false} MapValues(fs: seq<Feature>)
    ensures forall p :: p in MapOf(fs) ==> MapOf(fs)[p].location == Some(p) && MapOf(fs)[p] in fs
  {
    if fs != [] {
      var n := |fs| - 1;
      var pre := fs[..n];
      MapValues(pre);
      forall p | p in MapOf(fs)
        ensures MapOf(fs)[p].location == Some(p) && MapOf(fs)[p] in fs
      {
        if fs[n].location == Some(p) {
          assert MapOf(fs)[p] == fs[n];
        } else {
          assert MapOf(fs)[p] == MapOf(pre)[p];
          var i :| 0 <= i < |pre| && pre[i] == MapOf(pre)[p];
          assert fs[i] == pre[i];
        }
      }
    }
  }

  /** When several features share a location, the last of them in list order is the map's value. */
  lemma {:induction false} MapLaterWins(fs: seq<Feature>, i: int)
    requires 0 <= i < |fs| && fs[i].location.Some?
    requires forall j :: i < j < |fs| ==> fs[j].location != fs[i].location
    ensures fs[i].location.value in MapOf(fs) && MapOf(fs)[fs[i].location.value] == fs[i]
  {
    var n := |fs| - 1;
    var pre := fs[..n];
    if i < n {
      MapLaterWins(pre, i);
    }
  }

  /** `RTree::bulk_load`: computes every leaf's envelope from the coordinate table, panicking
      at the first leaf that does not resolve. */
  function BulkLoad(table: Option<seq<GeoPoint>>, leaves: seq<FeatureIdx>): (r: Reply<RTree>)
    ensures r.Ok? <==> forall k :: 0 <= k < |leaves| ==> Envelope(table, leaves[k]).Ok?
    ensures !r.Ok? ==> r.Panic?
    ensures r.Ok? ==> |r.value.entries| == |leaves|
    ensures r.Ok? ==> forall k :: 0 <= k < |leaves| ==>
      && table.Some? && leaves[k].i < |table.value|
      && r.value.entries[k] == Entry(leaves[k], PointBox(table.value[leaves[k].i].pb))
    decreases |leaves|
  {
    if leaves == [] then Ok(RTree([]))
    else
      var n := |leaves| - 1;
      var front := BulkLoad(table, leaves[..n]);
      if !front.Ok? then front
      else
        var env := Envelope(table, leaves[n]);
        if env.Ok? then Ok(RTree(front.value.entries + [Entry(leaves[n], env.value)]))
        else Panic(env.reason)
  }

  /** The index assembled from the feature list and the published coordinate table. */
  function Assemble(features: seq<Feature>, table: Option<seq<GeoPoint>>): (r: Reply<FeatureIndex>)
    ensures r.Ok? <==> BulkLoad(table, LeavesOf(features)).Ok?
    ensures !r.Ok? ==> r.Panic?
    ensures r.Ok? ==> r.value.features == features && r.value.featureMap == MapOf(features)
    ensures r.Ok? ==> LeavesInRange(r.value)
    ensures r.Ok? ==> r.value.rtree == BulkLoad(table, LeavesOf(features)).value
  {
    var tree := BulkLoad(table, LeavesOf(features));
    if tree.Ok? then
      LeavesAligned(features);
      Ok(FeatureIndex(features, MapOf(features), tree.value))
    else Panic(tree.reason)
  }

  /** The index a build produces when it publishes its own coordinate table. */
  function Fresh(features: seq<Feature>): Reply<FeatureIndex>
  {
    Assemble(features, Some(GeoTableOf(features)))
  }

  /** A feature without a location ahead of a located one leaves a leaf past the end of the
      table, so bulk loading panics. */
  lemma UnlocatedFeaturePanicsBuild()
    ensures LeavesOf([Feature("a", None), Feature("b", Some(Point(1, 2)))]) == [FeatureIdx(1)]
    ensures |GeoTableOf([Feature("a", None), Feature("b", Some(Point(1, 2)))])| == 1
    ensures Fresh([Feature("a", None), Feature("b", Some(Point(1, 2)))]).Panic?
  {
    var fs := [Feature("a", None), Feature("b", Some(Point(1, 2)))];
    assert fs[..1] == [Feature("a", None)];
    assert fs[..1][..0] == [];
    assert Envelope(Some(GeoTableOf(fs)), FeatureIdx(1)).Panic?;
  }

  /** No feature without a location comes before a feature with one. */
  predicate LocatedFirst(fs: seq<Feature>)
  {
    forall i, j :: 0 <= i < j < |fs| && fs[j].location.Some? ==> fs[i].location.Some?
  }

  /** There are at most as many leaves as features, and exactly as many when all are located. */
  lemma {:induction false} LeafCount(fs: seq<Feature>)
    ensures |LeavesOf(fs)| <= |fs|
    ensures |LeavesOf(fs)| == |fs| <==> AllLocated(fs)
  {
    if fs != [] {
      var n := |fs| - 1;
      LeafCount(fs[..n]);
      if AllLocated(fs) {
        assert AllLocated(fs[..n]);
      }
    }
  }

  /** Leaf k names a position no smaller than k, and equal to k only when every feature
      before it has a location. */
  lemma {:induction false} LeafLowerBound(fs: seq<Feature>)
    ensures forall k :: 0 <= k < |LeavesOf(fs)| ==>
      k <= LeavesOf(fs)[k].i < |fs| && (LeavesOf(fs)[k].i == k ==> AllLocated(fs[..k]))
  {
    LeavesAligned(fs);
    if fs != [] {
      var n := |fs| - 1;
      var pre := fs[..n];
      LeafLowerBound(pre);
      LeafCount(pre);
      forall k | 0 <= k < |LeavesOf(fs)|
        ensures k <= LeavesOf(fs)[k].i < |fs| && (LeavesOf(fs)[k].i == k ==> AllLocated(fs[..k]))
      {
        if k < |LeavesOf(pre)| {
          assert LeavesOf(fs)[k] == LeavesOf(pre)[k];
          assert fs[..k] == pre[..k];
        } else {
          assert LeavesOf(fs)[k] == FeatureIdx(n);
          assert fs[..n] == pre;
        }
      }
    }
  }

  /** When no unlocated feature precedes a located one, leaf k names position k. */
  lemma {:induction false} LeavesIdentity(fs: seq<Feature>)
    requires LocatedFirst(fs)
    ensures forall k :: 0 <= k < |LeavesOf(fs)| ==> LeavesOf(fs)[k] == FeatureIdx(k)
  {
    if fs != [] {
      var n := |fs| - 1;
      var pre := fs[..n];
      assert LocatedFirst(pre);
      LeavesIdentity(pre);
      if fs[n].location.Some? {
        assert AllLocated(pre);
        LeafCount(pre);
      }
    }
  }

  /** With no unlocated feature ahead of a located one, leaf k is position k and lies
      inside the table. */
  lemma LocatedFirstResolves(fs: seq<Feature>)
    requires LocatedFirst(fs)
    ensures BulkLoad(Some(GeoTableOf(fs)), LeavesOf(fs)).Ok?
  {
    LeavesAligned(fs);
    LeavesIdentity(fs);
  }

  /** If every leaf lies inside the table, no unlocated feature precedes a located one. */
  lemma ResolvedIsLocatedFirst(fs: seq<Feature>)
    requires forall k :: 0 <= k < |LeavesOf(fs)| ==> LeavesOf(fs)[k].i < |LeavesOf(fs)|
    ensures LocatedFirst(fs)
  {
    var leaves := LeavesOf(fs);
    var m := |leaves|;
    forall i, j | 0 <= i < j < |fs| && fs[j].location.Some?
      ensures fs[i].location.Some?
    {
      LeavesCover(fs, j);
      var k :| 0 <= k < m && leaves[k].i == j;
      LeafLowerBound(fs);
      LeavesAscending(fs);
      assert leaves[m - 1].i == m - 1;
      assert j <= m - 1;
      assert fs[..m - 1][i] == fs[i];
    }
  }

  /** A build that publishes its own table succeeds exactly when no feature without a
      location precedes one with a location; then every leaf k is position k and carries
      the degenerate box of feature k's own location. Otherwise the last leaf lies past the
      end of the table and bulk loading panics: no leaf ever resolves silently to another
      feature's point. */
  lemma FreshBuildOkIffLocatedFirst(fs: seq<Feature>)
    ensures Fresh(fs).Ok? <==> LocatedFirst(fs)
    ensures Fresh(fs).Ok? ==> forall k :: 0 <= k < |Fresh(fs).value.rtree.entries| ==>
      && k < |fs| && fs[k].location.Some?
      && Fresh(fs).value.rtree.entries[k] == Entry(FeatureIdx(k), PointBox(fs[k].location.value))
  {
    LeavesAligned(fs);
    if LocatedFirst(fs) {
      LocatedFirstResolves(fs);
    }
    if Fresh(fs).Ok? {
      ResolvedIsLocatedFirst(fs);
      LeavesIdentity(fs);
    }
  }

  /** Corollary for the dataset loader, which gives every feature a location. */
  lemma FreshBuildAligned(fs: seq<Feature>)
    requires AllLocated(fs)
    ensures Fresh(fs).Ok?
    ensures |Fresh(fs).value.rtree.entries| == |fs|
    ensures forall k :: 0 <= k < |fs| ==>
      Fresh(fs).value.rtree.entries[k] == Entry(FeatureIdx(k), PointBox(fs[k].location.value))
  {
    FreshBuildOkIffLocatedFirst(fs);
    AlignedWhenAllLocated(fs);
  }

  /** A second build finds the first build's table already published and keeps it: its leaf
      is then boxed at the first catalog's point, not at its own feature's location. */
  lemma StaleTableMisresolves()
    ensures var first := [Feature("a", Some(Point(1, 2)))];
      var second := [Feature("b", Some(Point(3, 4)))];
      && Assemble(second, Some(GeoTableOf(first))).Ok?
      && Assemble(second, Some(GeoTableOf(first))).value.rtree.entries == [Entry(FeatureIdx(0), PointBox(Point(1, 2)))]
  {
    var first := [Feature("a", Some(Point(1, 2)))];
    var second := [Feature("b", Some(Point(3, 4)))];
    assert first[..0] == [] && second[..0] == [];
    assert GeoTableOf(first) == [GeoPoint(Point(1, 2))];
    assert LeavesOf(second) == [FeatureIdx(0)];
    assert Envelope(Some(GeoTableOf(first)), FeatureIdx(0)).Ok?;
    var tree := BulkLoad(Some(GeoTableOf(first)), LeavesOf(second));
    assert tree.Ok? && |tree.value.entries| == 1;
    assert tree.value.entries[0] == Entry(FeatureIdx(0), PointBox(Point(1, 2)));
  }

  /** A second build whose catalog has more located features than the first table holds
      leaves a leaf past the end of that table, so bulk loading panics. */
  lemma StaleTableOverrunPanics()
    ensures var first := [Feature("a", Some(Point(1, 2)))];
      var second := [Feature("b", Some(Point(3, 4))), Feature("c", Some(Point(5, 6)))];
      && LeavesOf(second) == [FeatureIdx(0), FeatureIdx(1)]
      && |GeoTableOf(first)| == 1
      && Assemble(second, Some(GeoTableOf(first))).Panic?
  {
    var first := [Feature("a", Some(Point(1, 2)))];
    var second := [Feature("b", Some(Point(3, 4))), Feature("c", Some(Point(5, 6)))];
    assert first[..0] == [] && second[..1][..0] == [] && second[..1] == [second[0]];
    assert LeavesOf(second[..1]) == [FeatureIdx(0)];
    assert LeavesOf(second) == [FeatureIdx(0), FeatureIdx(1)];
    assert Envelope(Some(GeoTableOf(first)), FeatureIdx(1)).Panic?;
  }

  /** `FeatureIndex::build`: runs the build loop, publishes the coordinate table only if none
      is published yet, and bulk loads the R-tree against the published table. */
  method Build(features: seq<Feature>, cell: GeoCell) returns (r: Reply<FeatureIndex>)
    modifies cell
    ensures cell.table == if old(cell.table).None? then Some(GeoTableOf(features)) else old(cell.table)
    ensures r == Assemble(features, cell.table)
  {
    var featureMap, geoPoints, indices := Populate(features);
    if cell.table.None? {
      var _ := cell.Set(geoPoints);
    }
    var tree := BulkLoad(cell.table, indices);
    if tree.Ok? {
      r := Ok(FeatureIndex(features, featureMap, tree.value));
    } else {
      r := Panic(tree.reason);
    }
  }
}
