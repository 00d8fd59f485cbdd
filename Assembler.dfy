/** The second pass: one document and the batch's label order become the
    viewer's Annotations tree (`convert_geojson_to_imagescope_xml`).

    The functions below give, label by label, what the converter computes;
    `Convert` is the converter itself, loop for loop, and is proved to
    produce `Assemble` of its input. The properties of `Assemble` are proved
    in module AssemblerProperties. */
module Assembler {
  import opened Wrappers
  import opened Colour
  import opened GeoJson
  import opened Lexicographic

  /** The root's `MicronsPerPixel` attribute. */
  const MICRONS_PER_PIXEL: string := "0.460100"

  /** `DEFAULT_METADATA["LineColor"]`, the colour of a group no feature
      coloured. */
  const DEFAULT_LINE_COLOUR: int := 13434828

  /** A `Vertex` element: `X` and `Y` from the ring, `Z` always 0. */
  datatype Vertex = Vertex(x: Number, y: Number, z: int)

  /** A `Region` element with its `Id`, `DisplayId` and `Vertices`. */
  datatype Region = Region(id: int, displayId: int, vertices: seq<Vertex>)

  /** An `Annotation` element with its `Id`, `Name`, `LineColor` and the
      regions under its `Regions` element. */
  datatype Annotation = Annotation(id: int, name: string, lineColour: int, regions: seq<Region>)

  /** The `Annotations` root. */
  datatype Annotations = Annotations(micronsPerPixel: string, annotations: seq<Annotation>)

  datatype ConvertError = UnsupportedFormat

  /** One slot of the converter's ordered map: the colour, once set, and the
      rings filed under the label so far. */
  datatype Group = Group(colour: Option<int>, rings: seq<Ring>)

  predicate Closed(ring: Ring)
  {
    |ring| > 0 && ring[0] == ring[|ring| - 1]
  }

  /** Closes a ring by repeating its first vertex when the last one differs. */
  function Close(ring: Ring): (closed: Ring)
    requires |ring| > 0
    ensures |ring| <= |closed| <= |ring| + 1
    ensures Closed(closed)
    ensures closed[..|ring|] == ring
    ensures Closed(ring) ==> closed == ring
  {
    if ring[0] != ring[|ring| - 1] then ring + [ring[0]] else ring
  }

  /** A multi-polygon member that is not empty and whose outer ring is not
      empty (`if poly and poly[0]`). */
  predicate UsableMember(polygon: seq<Ring>)
  {
    |polygon| > 0 && |polygon[0]| > 0
  }

  /** The closed outer rings of a multi-polygon's members, in order; a member
      that is empty or whose outer ring is empty is skipped. */
  function MultiOuterRings(polygons: seq<seq<Ring>>): (rings: seq<Ring>)
    ensures |rings| <= |polygons|
    ensures forall k :: 0 <= k < |rings| ==> Closed(rings[k])
  {
    if polygons == [] then
      []
    else
      var last := polygons[|polygons| - 1];
      MultiOuterRings(polygons[..|polygons| - 1])
        + (if UsableMember(last) then [Close(last[0])] else [])
  }

  /** The source reads `coordinates[0][0]` of a polygon without a check; the
      model demands that it exists. */
  predicate GeometryOk(g: Geometry)
  {
    g.Polygon? ==> |g.rings| > 0 && |g.rings[0]| > 0
  }

  /** The rings a feature adds to its group: the closed outer ring of a
      polygon, the closed outer rings of a multi-polygon, and nothing for
      any other geometry. (A polygon that fails `GeometryOk` is never
      reached: `Convert` requires that it does not occur.) */
  function OuterRings(g: Geometry): (rings: seq<Ring>)
    ensures forall k :: 0 <= k < |rings| ==> Closed(rings[k])
  {
    match g
    case Polygon(rs) => if |rs| > 0 && |rs[0]| > 0 then [Close(rs[0])] else []
    case MultiPolygon(ps) => MultiOuterRings(ps)
    case OtherGeometry => []
  }

  /** Feature `f` is filed under label `key`. */
  predicate FiledUnder(f: Feature, key: string)
  {
    HasLabel(f) && f.name.value == key
  }

  /** A feature the converter files under one of the labels. */
  predicate Known(f: Feature, labelOrder: seq<string>)
  {
    HasLabel(f) && f.name.value in labelOrder
  }

  /** Every feature the converter processes has a readable geometry. */
  predicate WellFormed(fs: seq<Feature>, labelOrder: seq<string>)
  {
    forall i :: 0 <= i < |fs| && Known(fs[i], labelOrder) ==> GeometryOk(fs[i].geometry)
  }

  /** The rings filed under label `key` by the features `fs`, in feature order. */
  function RegionsOf(fs: seq<Feature>, key: string): (rings: seq<Ring>)
    ensures forall k :: 0 <= k < |rings| ==> Closed(rings[k])
  {
    if fs == [] then
      []
    else
      var f := fs[|fs| - 1];
      RegionsOf(fs[..|fs| - 1], key) + (if FiledUnder(f, key) then OuterRings(f.geometry) else [])
  }

  /** The colour a group holds after the features `fs`: it is set by the
      first feature filed under the label (its own colour, or green) and
      kept from then on. */
  function ColourOf(fs: seq<Feature>, key: string): Option<int>
  {
    if fs == [] then
      None
    else
      var f := fs[|fs| - 1];
      var earlier := ColourOf(fs[..|fs| - 1], key);
      if earlier.Some? then earlier
      else if FiledUnder(f, key) then Some(PackBgr(f.colour.GetOr(GREEN)))
      else None
  }

  /** The colour an output annotation carries. */
  function FinalColour(fs: seq<Feature>, key: string): int
  {
    ColourOf(fs, key).GetOr(DEFAULT_LINE_COLOUR)
  }

  /** The key order of the ordered map seeded from `labelOrder`: assigning a
      key again keeps its first position. */
  function Seed(labelOrder: seq<string>): (keys: seq<string>)
    ensures Distinct(keys)
    ensures forall key :: key in keys <==> key in labelOrder
  {
    if labelOrder == [] then
      []
    else
      var keys := Seed(labelOrder[..|labelOrder| - 1]);
      var key := labelOrder[|labelOrder| - 1];
      if key in keys then keys else keys + [key]
  }

  /** The keys left once the groups without rings are deleted, in order. */
  function Survivors(keys: seq<string>, fs: seq<Feature>): seq<string>
  {
    if keys == [] then
      []
    else
      var key := keys[|keys| - 1];
      Survivors(keys[..|keys| - 1], fs) + (if RegionsOf(fs, key) != [] then [key] else [])
  }

  /** The keys that survive are the keys whose groups received a ring. */
  lemma {:induction false} SurvivorsMembers(keys: seq<string>, fs: seq<Feature>)
    ensures forall key :: key in Survivors(keys, fs) <==> key in keys && RegionsOf(fs, key) != []
  {
    if keys != [] {
      SurvivorsMembers(keys[..|keys| - 1], fs);
    }
  }

  /** How many regions the groups `labels` hold together. */
  function TotalRegions(labels: seq<string>, fs: seq<Feature>): nat
  {
    if labels == [] then 0
    else TotalRegions(labels[..|labels| - 1], fs) + |RegionsOf(fs, labels[|labels| - 1])|
  }

  /** The `Vertex` elements of one ring: its points in order, with `Z` = 0. */
  function Vertices(ring: Ring): seq<Vertex>
  {
    seq(|ring|, k requires 0 <= k < |ring| => Vertex(ring[k].x, ring[k].y, 0))
  }

  /** The `Region` elements of one group: its rings in order, numbered
      consecutively from `firstId`, with `DisplayId` equal to `Id`. */
  function NumberedRegions(rings: seq<Ring>, firstId: int): seq<Region>
  {
    seq(|rings|, j requires 0 <= j < |rings| => Region(firstId + j, firstId + j, Vertices(rings[j])))
  }

  /** The `Annotation` element of the k-th surviving label: numbered k + 1,
      with its regions numbered on from those of the labels before it. */
  function AnnotationAt(labels: seq<string>, fs: seq<Feature>, k: int): Annotation
    requires 0 <= k < |labels|
  {
    Annotation(k + 1, labels[k], FinalColour(fs, labels[k]),
               NumberedRegions(RegionsOf(fs, labels[k]), TotalRegions(labels[..k], fs) + 1))
  }

  /** The `Annotation` elements of the surviving groups `labels`. */
  function Annotate(labels: seq<string>, fs: seq<Feature>): seq<Annotation>
  {
    seq(|labels|, k requires 0 <= k < |labels| => AnnotationAt(labels, fs, k))
  }

  /** The annotations of a prefix of the surviving labels are the prefix of
      the annotations: an annotation depends only on the labels before it. */
  lemma AnnotatePrefix(labels: seq<string>, fs: seq<Feature>, i: int)
    requires 0 <= i <= |labels|
    ensures Annotate(labels[..i], fs) == Annotate(labels, fs)[..i]
  {
    forall k | 0 <= k < i
      ensures AnnotationAt(labels[..i], fs, k) == AnnotationAt(labels, fs, k)
    {
      AnnotationAtPrefix(labels, fs, i, k);
    }
  }

  lemma AnnotationAtPrefix(labels: seq<string>, fs: seq<Feature>, i: int, k: int)
    requires 0 <= k < i <= |labels|
    ensures AnnotationAt(labels[..i], fs, k) == AnnotationAt(labels, fs, k)
  {
    var prefix := labels[..i];
    assert prefix[..k] == labels[..k] && prefix[k] == labels[k];
    RegionsCongruent(RegionsOf(fs, prefix[k]), RegionsOf(fs, labels[k]),
                     TotalRegions(prefix[..k], fs) + 1, TotalRegions(labels[..k], fs) + 1);
  }

  /** Appending the annotation of the next label extends the annotations of
      the labels before it. */
  lemma AnnotateAppend(labels: seq<string>, fs: seq<Feature>, i: int)
    requires 0 <= i < |labels|
    ensures Annotate(labels[..i + 1], fs) == Annotate(labels[..i], fs) + [AnnotationAt(labels, fs, i)]
  {
    AnnotatePrefix(labels, fs, i + 1);
    AnnotatePrefix(labels, fs, i);
    var all := Annotate(labels, fs);
    assert all[..i + 1] == all[..i] + [all[i]];
  }

  /** Equal rings numbered from equal ids give equal regions. */
  lemma RegionsCongruent(rings: seq<Ring>, rings': seq<Ring>, firstId: int, firstId': int)
    requires rings == rings' && firstId == firstId'
    ensures NumberedRegions(rings, firstId) == NumberedRegions(rings', firstId')
  {
  }

  /** The output tree for the features `fs`. */
  function Assemble(fs: seq<Feature>, labelOrder: seq<string>): Annotations
  {
    Annotations(MICRONS_PER_PIXEL, Annotate(Survivors(Seed(labelOrder), fs), fs))
  }

  /** Lines 128-132: one empty slot per label, in label order. */
  method SeedGroups(labelOrder: seq<string>) returns (keys: seq<string>, groups: map<string, Group>)
    ensures keys == Seed(labelOrder)
    ensures forall key :: key in groups <==> key in labelOrder
    ensures forall key :: key in groups ==> groups[key] == Group(None, [])
  {
    keys := [];
    groups := map[];
    for i := 0 to |labelOrder|
      invariant keys == Seed(labelOrder[..i])
      invariant forall key :: key in groups <==> key in keys
      invariant forall key :: key in groups ==> groups[key] == Group(None, [])
    {
      var key := labelOrder[i];
      assert labelOrder[..i + 1][..i] == labelOrder[..i];
      if key !in groups {
        keys := keys + [key];
      }
      groups := groups[key := Group(None, [])];
    }
    assert labelOrder[..|labelOrder|] == labelOrder;
  }

  /** Lines 136-164 for one feature: a feature without a known label changes
      nothing; otherwise its group gets a colour if it has none yet, and the
      feature's closed outer rings are appended. */
  method FileFeature(f: Feature, group: Group) returns (updated: Group)
    requires HasLabel(f) && GeometryOk(f.geometry)
    ensures updated.colour == if group.colour.Some? then group.colour else Some(PackBgr(f.colour.GetOr(GREEN)))
    ensures updated.rings == group.rings + OuterRings(f.geometry)
  {
    updated := group;
    if updated.colour.None? {
      updated := updated.(colour := Some(PackBgr(f.colour.GetOr(GREEN))));
    }
    match f.geometry {
      case Polygon(rings) =>
        updated := updated.(rings := updated.rings + [Close(rings[0])]);
      case MultiPolygon(polygons) =>
        updated := FileMembers(polygons, updated);
      case OtherGeometry =>
    }
  }

  /** Lines 159-164: appends the closed outer ring of each multi-polygon
      member that has one; the colour is left alone. */
  method FileMembers(polygons: seq<seq<Ring>>, group: Group) returns (updated: Group)
    ensures updated == group.(rings := group.rings + MultiOuterRings(polygons))
  {
    updated := group;
    for k := 0 to |polygons|
      invariant updated == group.(rings := group.rings + MultiOuterRings(polygons[..k]))
    {
      assert polygons[..k + 1][..k] == polygons[..k];
      var polygon := polygons[k];
      if UsableMember(polygon) {
        updated := updated.(rings := updated.rings + [Close(polygon[0])]);
      }
    }
    assert polygons[..|polygons|] == polygons;
  }

  /** Lines 135-164: after all features, every seeded slot holds the colour
      and the rings its label's features gave it. */
  method FileFeatures(fs: seq<Feature>, labelOrder: seq<string>, seeded: map<string, Group>)
    returns (groups: map<string, Group>)
    requires WellFormed(fs, labelOrder)
    requires forall key :: key in seeded <==> key in labelOrder
    requires forall key :: key in seeded ==> seeded[key] == Group(None, [])
    ensures groups.Keys == seeded.Keys
    ensures forall key :: key in groups ==> groups[key] == Group(ColourOf(fs, key), RegionsOf(fs, key))
  {
    groups := seeded;
    for i := 0 to |fs|
      invariant groups.Keys == seeded.Keys
      invariant forall key :: key in groups ==> groups[key] == Group(ColourOf(fs[..i], key), RegionsOf(fs[..i], key))
    {
      var f := fs[i];
      assert fs[..i + 1][..i] == fs[..i];
      if f.name.None? || f.name.value == "" || f.name.value !in groups {
        continue;
      }
      var name := f.name.value;
      assert Known(f, labelOrder);
      var group := FileFeature(f, groups[name]);
      groups := groups[name := group];
    }
    assert fs[..|fs|] == fs;
  }

  /** Lines 167-171: deletes the slots without rings and gives the remaining
      ones without a colour the default colour. */
  method PruneGroups(keys: seq<string>, fs: seq<Feature>, filed: map<string, Group>)
    returns (kept: seq<string>, groups: map<string, Group>)
    requires Distinct(keys)
    requires forall key :: key in keys ==> key in filed
    requires forall key :: key in filed ==> filed[key] == Group(ColourOf(fs, key), RegionsOf(fs, key))
    ensures kept == Survivors(keys, fs)
    ensures forall key :: key in kept ==> key in groups && groups[key] == Group(Some(FinalColour(fs, key)), RegionsOf(fs, key))
    ensures forall key :: key in keys ==> (key in groups <==> key in kept)
  {
    groups := filed;
    kept := [];
    for i := 0 to |keys|
      invariant kept == Survivors(keys[..i], fs)
      invariant forall k :: i <= k < |keys| ==> keys[k] in groups && groups[keys[k]] == filed[keys[k]]
      invariant forall k :: 0 <= k < i ==> (keys[k] in groups <==> filed[keys[k]].rings != [])
      invariant forall k :: 0 <= k < i && keys[k] in groups ==>
        groups[keys[k]] == filed[keys[k]].(colour := Some(filed[keys[k]].colour.GetOr(DEFAULT_LINE_COLOUR)))
    {
      var name := keys[i];
      assert keys[..i + 1][..i] == keys[..i];
      assert forall k :: 0 <= k < |keys| && k != i ==> keys[k] != name;
      if groups[name].rings == [] {
        groups := groups - {name};
      } else {
        kept := kept + [name];
        if groups[name].colour.None? {
          groups := groups[name := groups[name].(colour := Some(DEFAULT_LINE_COLOUR))];
        }
      }
    }
    assert keys[..|keys|] == keys;
    PrunedSlots(keys, fs, filed, kept, groups);
  }

  /** After the pruning loop: the slots left among `keys` are those of the
      surviving keys, each holding its final colour and its rings. */
  lemma PrunedSlots(keys: seq<string>, fs: seq<Feature>, filed: map<string, Group>,
                    kept: seq<string>, groups: map<string, Group>)
    requires forall key :: key in keys ==> key in filed
    requires forall key :: key in filed ==> filed[key] == Group(ColourOf(fs, key), RegionsOf(fs, key))
    requires kept == Survivors(keys, fs)
    requires forall k :: 0 <= k < |keys| ==> (keys[k] in groups <==> filed[keys[k]].rings != [])
    requires forall k :: 0 <= k < |keys| && keys[k] in groups ==>
      groups[keys[k]] == filed[keys[k]].(colour := Some(filed[keys[k]].colour.GetOr(DEFAULT_LINE_COLOUR)))
    ensures forall key :: key in kept ==> key in groups && groups[key] == Group(Some(FinalColour(fs, key)), RegionsOf(fs, key))
    ensures forall key :: key in keys ==> (key in groups <==> key in kept)
  {
    SurvivorsMembers(keys, fs);
    forall key | key in kept
      ensures key in groups && groups[key] == Group(Some(FinalColour(fs, key)), RegionsOf(fs, key))
    {
      var k :| 0 <= k < |keys| && keys[k] == key;
    }
    forall key | key in keys
      ensures key in groups <==> key in kept
    {
      var k :| 0 <= k < |keys| && keys[k] == key;
    }
  }

  /** Lines 202-217 for one ring: the `Region` element with number `id`. */
  method EmitRegion(ring: Ring, id: int) returns (region: Region)
    ensures region == Region(id, id, Vertices(ring))
  {
    var vertices: seq<Vertex> := [];
    for k := 0 to |ring|
      invariant vertices == Vertices(ring[..k])
    {
      assert ring[..k + 1][..k] == ring[..k];
      vertices := vertices + [Vertex(ring[k].x, ring[k].y, 0)];
    }
    assert ring[..|ring|] == ring;
    region := Region(id, id, vertices);
  }

  /** Lines 202-217: the `Region` elements of one group, numbered on from
      `firstId`. */
  method EmitRegions(rings: seq<Ring>, firstId: int) returns (regions: seq<Region>, regionId: int)
    ensures regions == NumberedRegions(rings, firstId)
    ensures regionId == firstId + |rings|
  {
    regions := [];
    regionId := firstId;
    for j := 0 to |rings|
      invariant regions == NumberedRegions(rings[..j], firstId)
      invariant regionId == firstId + j
    {
      assert rings[..j + 1][..j] == rings[..j];
      var region := EmitRegion(rings[j], regionId);
      regions := regions + [region];
      regionId := regionId + 1;
    }
    assert rings[..|rings|] == rings;
  }

  /** Lines 176-220: the annotations of the surviving groups, numbered from 1,
      with one region counter for the whole document. */
  method EmitAnnotations(keys: seq<string>, fs: seq<Feature>, groups: map<string, Group>)
    returns (annotations: seq<Annotation>)
    requires forall key :: key in keys ==> key in groups && groups[key] == Group(Some(FinalColour(fs, key)), RegionsOf(fs, key))
    ensures annotations == Annotate(keys, fs)
  {
    annotations := [];
    var annotationId := 1;
    var regionId := 1;
    for i := 0 to |keys|
      invariant annotations == Annotate(keys[..i], fs)
      invariant annotationId == i + 1
      invariant regionId == TotalRegions(keys[..i], fs) + 1
    {
      var name := keys[i];
      assert name in keys;
      var data := groups[name];
      var regions;
      var firstId := regionId;
      regions, regionId := EmitRegions(data.rings, regionId);
      EmitStep(keys, fs, i, data, regions);
      annotations := annotations + [Annotation(annotationId, name, data.colour.value, regions)];
      annotationId := annotationId + 1;
    }
    assert keys[..|keys|] == keys;
  }

  /** One step of the emission loop: the group of the i-th key, emitted with
      its regions numbered after those of the keys before it, is the next
      annotation, and the region counter advances by its ring count. */
  lemma EmitStep(keys: seq<string>, fs: seq<Feature>, i: int, data: Group, regions: seq<Region>)
    requires 0 <= i < |keys|
    requires data == Group(Some(FinalColour(fs, keys[i])), RegionsOf(fs, keys[i]))
    requires regions == NumberedRegions(data.rings, TotalRegions(keys[..i], fs) + 1)
    ensures Annotate(keys[..i], fs) + [Annotation(i + 1, keys[i], data.colour.value, regions)]
      == Annotate(keys[..i + 1], fs)
    ensures TotalRegions(keys[..i + 1], fs) == TotalRegions(keys[..i], fs) + |data.rings|
  {
    assert keys[..i + 1][..i] == keys[..i];
    RegionsCongruent(data.rings, RegionsOf(fs, keys[i]), TotalRegions(keys[..i], fs) + 1, TotalRegions(keys[..i], fs) + 1);
    assert Annotation(i + 1, keys[i], data.colour.value, regions) == AnnotationAt(keys, fs, i);
    AnnotateAppend(keys, fs, i);
  }

  /** The converter: fails on a top-level value that is neither an object nor
      a list, and otherwise yields the tree `Assemble` describes. */
  method Convert(doc: Document, labelOrder: seq<string>) returns (result: Result<Annotations, ConvertError>)
    requires Features(doc).Some? ==> WellFormed(Features(doc).value, labelOrder)
    ensures result.Failure? <==> doc.Scalar?
    ensures result.Success? ==> result.value == Assemble(Features(doc).value, labelOrder)
  {
    var features := Features(doc);
    if features.None? {
      return Failure(UnsupportedFormat);
    }
    var fs := features.value;
    var keys, seeded := SeedGroups(labelOrder);
    var filed := FileFeatures(fs, labelOrder, seeded);
    var kept, groups := PruneGroups(keys, fs, filed);
    var annotations := EmitAnnotations(kept, fs, groups);
    return Success(Annotations(MICRONS_PER_PIXEL, annotations));
  }
}
