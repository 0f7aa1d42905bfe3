/** The concession registry built by `cargar_concesiones`: a Python dict from
    area name to geometry, filled feature by feature. A dict keeps the
    position of a key's first insertion and the value of its last, so the
    registry is an insertion-ordered sequence of areas with distinct names. */
module Registry {
  import opened Wrappers

  /** The name given to a feature whose properties carry no `Name`. */
  const UnknownArea: string := "Área desconocida"

  /** One GeoJSON feature, its geometry already turned into a shape `G`. */
  datatype Feature<G> = Feature(name: Option<string>, geometry: G)

  /** One registry entry, as yielded by `dict.items()`. */
  datatype Area<G> = Area(name: string, geometry: G)

  /** `feature['properties'].get('Name', 'Área desconocida')`. */
  function NameOf<G>(f: Feature<G>): string {
    f.name.GetOr(UnknownArea)
  }

  /** Some entry of `areas` is called `name` (`name in dict`). */
  predicate HasName<G>(areas: seq<Area<G>>, name: string) {
    exists i :: 0 <= i < |areas| && areas[i].name == name
  }

  /** No two entries share a name: the areas are the items of a dict. */
  predicate DistinctNames<G>(areas: seq<Area<G>>) {
    forall i, j :: 0 <= i < j < |areas| ==> areas[i].name != areas[j].name
  }

  /** Some feature among `features` is called `name`. */
  predicate Named<G>(features: seq<Feature<G>>, name: string) {
    exists j :: 0 <= j < |features| && NameOf(features[j]) == name
  }

  /** Python's `d[name] = geometry`: an existing key keeps its place and gets
      the new value; a new key goes at the end; the names stay distinct and
      are the old ones plus `name`. */
  function Put<G>(areas: seq<Area<G>>, name: string, geometry: G): (r: seq<Area<G>>)
    requires DistinctNames(areas)
    ensures |r| == if HasName(areas, name) then |areas| else |areas| + 1
    ensures forall i :: 0 <= i < |areas| ==>
      r[i] == if areas[i].name == name then Area(name, geometry) else areas[i]
    ensures !HasName(areas, name) ==> r[|areas|] == Area(name, geometry)
    ensures DistinctNames(r)
    ensures forall x :: HasName(r, x) <==> HasName(areas, x) || x == name
  {
    var r := if HasName(areas, name) then
      seq(|areas|, i requires 0 <= i < |areas| =>
        if areas[i].name == name then Area(name, geometry) else areas[i])
    else areas + [Area(name, geometry)];
    assert forall i :: 0 <= i < |areas| ==> r[i].name == areas[i].name;
    assert forall x :: HasName(r, x) <==> HasName(areas, x) || x == name by {
      forall x ensures HasName(r, x) <==> HasName(areas, x) || x == name {
        if HasName(r, x) {
          var i :| 0 <= i < |r| && r[i].name == x;
          if i < |areas| { assert areas[i].name == x; }
        }
        if HasName(areas, x) {
          var i :| 0 <= i < |areas| && areas[i].name == x;
          assert r[i].name == x;
        }
        if x == name && !HasName(areas, name) {
          assert r[|areas|].name == x;
        }
      }
    }
    r
  }

  /** The registry after the loop of `cargar_concesiones` has stored every
      feature of `features`, in order. */
  function BuildRegistry<G>(features: seq<Feature<G>>): (r: seq<Area<G>>)
    ensures DistinctNames(r)
    decreases |features|
  {
    if features == [] then []
    else
      var last := features[|features| - 1];
      Put(BuildRegistry(features[..|features| - 1]), NameOf(last), last.geometry)
  }

  /** `cargar_concesiones`: store every feature under its name, in order.
      Reading the GeoJSON file and building shapes is left to the caller. */
  method LoadAreas<G>(features: seq<Feature<G>>) returns (areas: seq<Area<G>>)
    ensures areas == BuildRegistry(features)
    ensures DistinctNames(areas)
  {
    areas := [];
    for i := 0 to |features|
      invariant areas == BuildRegistry(features[..i])
    {
      var feature := features[i];
      var name := match feature.name case Some(n) => n case None => UnknownArea;
      assert features[..i + 1][..i] == features[..i];
      areas := Put(areas, name, feature.geometry);
    }
    assert features[..|features|] == features;
  }

  /** A name occurs among features exactly when it occurs among all but the
      last, or is the last one's. */
  lemma NamedSnoc<G>(features: seq<Feature<G>>, name: string)
    requires features != []
    ensures Named(features, name) <==>
      Named(features[..|features| - 1], name) || NameOf(features[|features| - 1]) == name
  {
    var init := features[..|features| - 1];
    if Named(features, name) && NameOf(features[|features| - 1]) != name {
      var j :| 0 <= j < |features| && NameOf(features[j]) == name;
      assert NameOf(init[j]) == name;
    }
    if Named(init, name) {
      var j :| 0 <= j < |init| && NameOf(init[j]) == name;
      assert NameOf(features[j]) == name;
    }
  }

  /** The registry's names are exactly the names of the features. */
  lemma {:induction false} BuildRegistryNames<G>(features: seq<Feature<G>>, name: string)
    ensures HasName(BuildRegistry(features), name) <==> Named(features, name)
    decreases |features|
  {
    if features != [] {
      BuildRegistryNames(features[..|features| - 1], name);
      NamedSnoc(features, name);
    }
  }

  /** The last feature with a given name decides that name's geometry. */
  lemma {:induction false} BuildRegistryLastWins<G>(features: seq<Feature<G>>, j: nat)
    requires j < |features|
    requires forall l :: j < l < |features| ==> NameOf(features[l]) != NameOf(features[j])
    ensures Area(NameOf(features[j]), features[j].geometry) in BuildRegistry(features)
    decreases |features|
  {
    var n := |features|;
    var init := features[..n - 1];
    var before := BuildRegistry(init);
    var after := Put(before, NameOf(features[n - 1]), features[n - 1].geometry);
    assert BuildRegistry(features) == after;
    var name := NameOf(features[j]);
    var i: nat;
    if j == n - 1 {
      if HasName(before, name) {
        i :| i < |before| && before[i].name == name;
      } else {
        i := |before|;
      }
    } else {
      assert init[j] == features[j];
      BuildRegistryLastWins(init, j);
      i :| i < |before| && before[i] == Area(name, features[j].geometry);
    }
    assert after[i] == Area(name, features[j].geometry);
  }

  /** Storing the last feature keeps every earlier key at its place and
      only grows the registry when that key is new. */
  lemma LastStoreKeepsKeys<G>(features: seq<Feature<G>>)
    requires features != []
    ensures var before, after := BuildRegistry(features[..|features| - 1]), BuildRegistry(features);
      && |before| <= |after|
      && (forall i :: 0 <= i < |before| ==> after[i].name == before[i].name)
      && (|before| < |after| ==> !HasName(before, NameOf(features[|features| - 1])))
  {
  }

  /** A key already stored before the last feature was named by some feature
      before the last one. */
  lemma StoredBeforeLast<G>(features: seq<Feature<G>>, name: string) returns (j: nat)
    requires features != [] && HasName(BuildRegistry(features[..|features| - 1]), name)
    ensures j < |features| - 1 && NameOf(features[j]) == name
  {
    var init := features[..|features| - 1];
    BuildRegistryNames(init, name);
    j :| 0 <= j < |init| && NameOf(init[j]) == name;
  }

  /** The order property when the later area `b` was already stored before
      the last feature: it follows from the property on all but the last
      feature. */
  lemma {:induction false} OrderOfStoredKeys<G>(features: seq<Feature<G>>, a: nat, b: nat, j: nat)
    requires features != []
    requires a < b < |BuildRegistry(features[..|features| - 1])|
    requires j < |features| && NameOf(features[j]) == BuildRegistry(features[..|features| - 1])[b].name
    ensures exists i :: 0 <= i < j && NameOf(features[i]) == BuildRegistry(features[..|features| - 1])[a].name
    decreases |features|, 0
  {
    var n := |features|;
    var init := features[..n - 1];
    var before := BuildRegistry(init);
    var j' := j;
    if j == n - 1 {
      assert HasName(before, before[b].name);
      j' := StoredBeforeLast(features, before[b].name);
    }
    assert init[j'] == features[j'];
    BuildRegistryOrder(init, a, b, j');
    var i :| 0 <= i < j' && NameOf(init[i]) == before[a].name;
    assert features[i] == init[i];
  }

  /** The order property when `b` is the key the last feature appended: the
      last feature is the only one with that name. */
  lemma OrderOfNewKey<G>(features: seq<Feature<G>>, a: nat, j: nat)
    requires features != []
    requires !HasName(BuildRegistry(features[..|features| - 1]), NameOf(features[|features| - 1]))
    requires a < |BuildRegistry(features[..|features| - 1])|
    requires j < |features| && NameOf(features[j]) == NameOf(features[|features| - 1])
    ensures exists i :: 0 <= i < j && NameOf(features[i]) == BuildRegistry(features[..|features| - 1])[a].name
  {
    var n := |features|;
    var init := features[..n - 1];
    var before := BuildRegistry(init);
    var last := NameOf(features[n - 1]);
    BuildRegistryNames(init, last);
    assert j == n - 1 by {
      forall l | 0 <= l < n - 1 ensures NameOf(features[l]) != last {
        assert init[l] == features[l];
        assert NameOf(init[l]) != last;
      }
    }
    assert HasName(before, before[a].name);
    var i := StoredBeforeLast(features, before[a].name);
  }

  /** Areas keep the order in which their names first appear among the
      features: before any feature named like a later area, a feature named
      like each earlier area has already been stored. */
  lemma {:induction false} BuildRegistryOrder<G>(features: seq<Feature<G>>, a: nat, b: nat, j: nat)
    requires a < b < |BuildRegistry(features)|
    requires j < |features| && NameOf(features[j]) == BuildRegistry(features)[b].name
    ensures exists i :: 0 <= i < j && NameOf(features[i]) == BuildRegistry(features)[a].name
    decreases |features|, 1
  {
    var init := features[..|features| - 1];
    LastStoreKeepsKeys(features);
    if b < |BuildRegistry(init)| {
      OrderOfStoredKeys(features, a, b, j);
    } else {
      OrderOfNewKey(features, a, j);
    }
  }
}
