/**
  The Folium map that `get_map` and `get_map_single` build: a map centred on a
  location at a zoom level, to which one GeoJSON layer per location key is added.
*/
module Overlay {
  import opened Store
  import opened GeoDicts

  /** A fill colour `#rrggbb`, as the integer `get_random_color` draws from `0..0xFFFFFF`. */
  type Color = c: int | 0 <= c <= 0xFF_FFFF

  /** Every layer's style: a varying fill, a black outline of weight 1, fill opacity 0.7. */
  datatype Style = Style(fillColor: Color, color: string, weight: int, fillOpacity: real)

  function StyleOf(fill: Color): Style {
    Style(fill, "black", 1, 0.7)
  }

  /** One `folium.GeoJson(geojson_data, name=loc, tooltip=Tooltip(loc), style_function=...)` layer. */
  datatype Feature = Feature(name: string, tooltip: string, geometry: GeoJson, style: Style)

  /** The default `location` and `zoom_start` of both map builders. */
  const DefaultLocation: (real, real) := (39.0, 127.0)
  const DefaultZoom: int := 7

  function FeatureOf(e: Entry, fill: Color): Feature {
    Feature(e.key, e.key, e.geometry, StyleOf(fill))
  }

  /**
    The layers drawn for the entries of a geometry dict, in dict order; the i-th
    is filled with `color(i)`, which stands for the i-th random colour drawn.
  */
  function Layers(d: GeoDict, color: nat -> Color): (fs: seq<Feature>)
    ensures |fs| == |d|
    ensures forall i :: 0 <= i < |d| ==> fs[i] == FeatureOf(d[i], color(i))
  {
    if d == [] then []
    else Layers(d[..|d| - 1], color) + [FeatureOf(d[|d| - 1], color(|d| - 1))]
  }

  /** The names of the layers, in the order they were added. */
  function Names(fs: seq<Feature>): (ns: seq<string>)
    ensures |ns| == |fs|
    ensures forall i :: 0 <= i < |fs| ==> ns[i] == fs[i].name
  {
    if fs == [] then [] else [fs[0].name] + Names(fs[1..])
  }

  /**
    One layer per dict entry, in dict order, named and tooltipped with its key
    and carrying its geometry: the layer names are exactly the dict's keys.
  */
  lemma LayerLabels(d: GeoDict, color: nat -> Color)
    ensures Names(Layers(d, color)) == Keys(d)
    ensures forall i :: 0 <= i < |d| ==>
      Layers(d, color)[i].tooltip == d[i].key && Layers(d, color)[i].geometry == d[i].geometry
  {
  }

  /** `folium.Map(location=..., zoom_start=...)`, whose children grow with each `add_to(m)`. */
  class FoliumMap {
    const location: (real, real)
    const zoomStart: int
    var children: seq<Feature>

    constructor (location: (real, real), zoomStart: int)
      ensures this.location == location && this.zoomStart == zoomStart
      ensures children == []
    {
      this.location := location;
      this.zoomStart := zoomStart;
      children := [];
    }

    /** `feature.add_to(m)`. */
    method Add(f: Feature)
      modifies this
      ensures children == old(children) + [f]
    {
      children := children + [f];
    }
  }

  /** The drawing loop of `get_map` and `get_map_single`: `for loc, geojson_data in geo_dict.items(): ... add_to(m)`. */
  method AddLayers(m: FoliumMap, d: GeoDict, color: nat -> Color)
    modifies m
    ensures m.children == old(m.children) + Layers(d, color)
  {
    for i := 0 to |d|
      invariant m.children == old(m.children) + Layers(d[..i], color)
    {
      assert d[..i + 1][..i] == d[..i];
      m.Add(FeatureOf(d[i], color(i)));
    }
    assert d[..|d|] == d;
  }
}
