/** The containment loop of `obtener_incendios`: walk the registry's items in
    order and stop at the first area whose polygon contains the hotspot. */
module Classify {
  import opened Wrappers
  import opened Registry

  /** A shapely `Point(x, y)`; `obtener_incendios` builds it as `Point(lon, lat)`. */
  datatype Point = Point(x: real, y: real)

  /** The position of the first area, in registry order, whose geometry
      contains `p`; `None` when no area does. `contains` stands for shapely's
      `polygon.contains(point)`. */
  function FirstContaining<G>(areas: seq<Area<G>>, contains: (G, Point) -> bool, p: Point): (r: Option<nat>)
    ensures r.Some? ==>
      && r.value < |areas|
      && contains(areas[r.value].geometry, p)
      && forall k :: 0 <= k < r.value ==> !contains(areas[k].geometry, p)
    ensures r.None? ==> forall k :: 0 <= k < |areas| ==> !contains(areas[k].geometry, p)
    decreases |areas|
  {
    if areas == [] then None
    else if contains(areas[0].geometry, p) then Some(0)
    else
      match FirstContaining(areas[1..], contains, p)
      case None => None
      case Some(k) => Some(k + 1)
  }

  /** The loop with `break` that sets `esta_dentro` and
      `nombre_concesion_afectada`: the point is inside exactly when some area
      contains it, and the name reported is that of the earliest such area. */
  method FindArea<G>(areas: seq<Area<G>>, contains: (G, Point) -> bool, p: Point)
    returns (inside: bool, name: Option<string>)
    ensures inside <==> exists k :: 0 <= k < |areas| && contains(areas[k].geometry, p)
    ensures inside == FirstContaining(areas, contains, p).Some?
    ensures inside ==> name == Some(areas[FirstContaining(areas, contains, p).value].name)
    ensures !inside ==> name == None
  {
    name := None;
    inside := false;
    for i := 0 to |areas|
      invariant forall k :: 0 <= k < i ==> !contains(areas[k].geometry, p)
      invariant !inside && name == None
    {
      if contains(areas[i].geometry, p) {
        inside := true;
        name := Some(areas[i].name);
        assert FirstContaining(areas, contains, p) == Some(i);
        break;
      }
    }
  }
}
