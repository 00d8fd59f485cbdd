/** What the converter's output is, proved of `Assemble`: annotation and
    region numbering, which groups survive and in what order, the colour of
    each annotation, the vertices of each region, and the features that are
    skipped. */
module AssemblerProperties {
  import opened Wrappers
  import opened Colour
  import opened GeoJson
  import opened Lexicographic
  import opened Assembler

  // ---- Numbering, regions and vertices ----

  /** The region ids of a document, in document order. */
  function RegionIds(annotations: seq<Annotation>): seq<int>
  {
    if annotations == [] then []
    else
      var last := annotations[|annotations| - 1];
      RegionIds(annotations[..|annotations| - 1])
        + seq(|last.regions|, j requires 0 <= j < |last.regions| => last.regions[j].id)
  }

  lemma {:induction false} RegionIdsOfAnnotate(labels: seq<string>, fs: seq<Feature>)
    ensures |RegionIds(Annotate(labels, fs))| == TotalRegions(labels, fs)
    ensures forall j :: 0 <= j < TotalRegions(labels, fs) ==> RegionIds(Annotate(labels, fs))[j] == j + 1
  {
    if labels != [] {
      var earlier := labels[..|labels| - 1];
      RegionIdsOfAnnotate(earlier, fs);
      var anns := Annotate(labels, fs);
      var before := Annotate(earlier, fs);
      AnnotatePrefix(labels, fs, |labels| - 1);
      assert anns[..|anns| - 1] == before;
      var last := anns[|anns| - 1];
      var first := TotalRegions(earlier, fs) + 1;
      assert last.regions == NumberedRegions(RegionsOf(fs, labels[|labels| - 1]), first);
      var tail := seq(|last.regions|, j requires 0 <= j < |last.regions| => last.regions[j].id);
      assert RegionIds(anns) == RegionIds(before) + tail;
      assert forall j :: 0 <= j < |tail| ==> tail[j] == first + j;
    }
  }

  /** Annotations are numbered 1, 2, ... in output order. */
  lemma AnnotationIdsConsecutive(fs: seq<Feature>, labelOrder: seq<string>)
    ensures var anns := Assemble(fs, labelOrder).annotations;
      forall k :: 0 <= k < |anns| ==> anns[k].id == k + 1
  {
  }

  /** Region ids run 1, 2, ..., n across the whole document, not restarting
      per annotation. */
  lemma RegionIdsConsecutive(fs: seq<Feature>, labelOrder: seq<string>)
    ensures var ids := RegionIds(Assemble(fs, labelOrder).annotations);
      forall j :: 0 <= j < |ids| ==> ids[j] == j + 1
  {
    RegionIdsOfAnnotate(Survivors(Seed(labelOrder), fs), fs);
  }

  /** `region` is `ring` as the viewer receives it: the ring is closed, and
      the region has the same `DisplayId` as `Id` and one vertex per ring
      point, in order, with `Z` = 0; so its first and last vertices agree. */
  predicate FaithfulRegion(region: Region, ring: Ring)
  {
    && Closed(ring)
    && region.displayId == region.id
    && |region.vertices| == |ring|
    && region.vertices[0] == region.vertices[|region.vertices| - 1]
    && forall v :: 0 <= v < |ring| ==> region.vertices[v] == Vertex(ring[v].x, ring[v].y, 0)
  }

  lemma RegionOfClosedRing(ring: Ring, id: int)
    requires Closed(ring)
    ensures FaithfulRegion(Region(id, id, Vertices(ring)), ring)
  {
  }

  /** The regions of one annotation correspond one to one to its label's
      rings. */
  lemma AnnotationRegions(labels: seq<string>, fs: seq<Feature>, k: int)
    requires 0 <= k < |labels|
    ensures var regions := Annotate(labels, fs)[k].regions;
      var rings := RegionsOf(fs, labels[k]);
      |regions| == |rings| && forall j :: 0 <= j < |rings| ==> FaithfulRegion(regions[j], rings[j])
  {
    NumberedRegionsFaithful(RegionsOf(fs, labels[k]), TotalRegions(labels[..k], fs) + 1);
  }

  lemma NumberedRegionsFaithful(rings: seq<Ring>, first: int)
    requires forall j :: 0 <= j < |rings| ==> Closed(rings[j])
    ensures var regions := NumberedRegions(rings, first);
      |regions| == |rings| && forall j :: 0 <= j < |rings| ==> FaithfulRegion(regions[j], rings[j])
  {
    var regions := NumberedRegions(rings, first);
    forall j | 0 <= j < |rings|
      ensures FaithfulRegion(regions[j], rings[j])
    {
      assert regions[j] == Region(first + j, first + j, Vertices(rings[j]));
      RegionOfClosedRing(rings[j], first + j);
    }
  }

  /** Every annotation has at least one region, and every region is a closed
      ring of the input, its points in order with `Z` = 0 and its
      `DisplayId` equal to its `Id`. */
  lemma RegionVertices(fs: seq<Feature>, labelOrder: seq<string>)
    ensures var anns := Assemble(fs, labelOrder).annotations;
      forall k :: 0 <= k < |anns| ==>
        && |anns[k].regions| == |RegionsOf(fs, anns[k].name)| > 0
        && forall j :: 0 <= j < |anns[k].regions| ==>
          FaithfulRegion(anns[k].regions[j], RegionsOf(fs, anns[k].name)[j])
  {
    var labels := Survivors(Seed(labelOrder), fs);
    SurvivorsMembers(Seed(labelOrder), fs);
    var anns := Annotate(labels, fs);
    forall k | 0 <= k < |anns|
      ensures && |anns[k].regions| == |RegionsOf(fs, anns[k].name)| > 0
        && forall j :: 0 <= j < |anns[k].regions| ==>
          FaithfulRegion(anns[k].regions[j], RegionsOf(fs, anns[k].name)[j])
    {
      assert anns[k].name == labels[k];
      assert labels[k] in labels;
      AnnotationRegions(labels, fs, k);
    }
  }

  // ---- Which groups survive, and their order ----

  lemma {:induction false} SeedOfDistinct(labelOrder: seq<string>)
    requires Distinct(labelOrder)
    ensures Seed(labelOrder) == labelOrder
  {
    if labelOrder != [] {
      var earlier := labelOrder[..|labelOrder| - 1];
      SeedOfDistinct(earlier);
      assert labelOrder == earlier + [labelOrder[|labelOrder| - 1]];
    }
  }

  lemma {:induction false} SurvivorsAscending(keys: seq<string>, fs: seq<Feature>)
    requires StrictlyAscending(keys)
    ensures StrictlyAscending(Survivors(keys, fs))
  {
    if keys != [] {
      var earlier := keys[..|keys| - 1];
      SurvivorsAscending(earlier, fs);
      SurvivorsMembers(earlier, fs);
      var kept := Survivors(earlier, fs);
      var last := keys[|keys| - 1];
      forall x | x in kept
        ensures Less(x, last)
      {
        assert x in earlier;
        var i :| 0 <= i < |earlier| && earlier[i] == x;
        assert keys[i] == x;
      }
      var r := Survivors(keys, fs);
      assert r == kept || r == kept + [last];
      forall i, j | 0 <= i < j < |r|
        ensures Less(r[i], r[j])
      {
        if j == |kept| {
          assert r[i] == kept[i] && r[j] == last;
        }
      }
    }
  }

  /** The annotations are exactly the labels of the order that received at
      least one ring, each once. */
  lemma AnnotationsAreTheFilledLabels(fs: seq<Feature>, labelOrder: seq<string>)
    ensures var anns := Assemble(fs, labelOrder).annotations;
      forall name :: (exists k :: 0 <= k < |anns| && anns[k].name == name)
        <==> name in labelOrder && RegionsOf(fs, name) != []
    ensures var anns := Assemble(fs, labelOrder).annotations;
      forall j, k :: 0 <= j < k < |anns| ==> anns[j].name != anns[k].name
  {
    var labels := Survivors(Seed(labelOrder), fs);
    SurvivorsMembers(Seed(labelOrder), fs);
    var anns := Annotate(labels, fs);
    forall name
      ensures (exists k :: 0 <= k < |anns| && anns[k].name == name) <==> name in labels
    {
      if name in labels {
        var k :| 0 <= k < |labels| && labels[k] == name;
        assert anns[k].name == name;
      }
    }
    SurvivorsDistinct(Seed(labelOrder), fs);
  }

  lemma {:induction false} SurvivorsDistinct(keys: seq<string>, fs: seq<Feature>)
    requires Distinct(keys)
    ensures Distinct(Survivors(keys, fs))
  {
    if keys != [] {
      var earlier := keys[..|keys| - 1];
      SurvivorsDistinct(earlier, fs);
      SurvivorsMembers(earlier, fs);
      assert keys[|keys| - 1] !in earlier by {
        assert forall i :: 0 <= i < |earlier| ==> earlier[i] == keys[i];
      }
    }
  }

  /** With the registry's strictly ascending label order, one label sorts
      before another exactly when its annotation has the smaller id. */
  lemma AnnotationOrder(fs: seq<Feature>, labelOrder: seq<string>)
    requires StrictlyAscending(labelOrder)
    ensures var anns := Assemble(fs, labelOrder).annotations;
      forall j, k :: 0 <= j < |anns| && 0 <= k < |anns| ==>
        (Less(anns[j].name, anns[k].name) <==> anns[j].id < anns[k].id)
  {
    AscendingIsDistinct(labelOrder);
    SeedOfDistinct(labelOrder);
    var labels := Survivors(labelOrder, fs);
    SurvivorsAscending(labelOrder, fs);
    var anns := Annotate(labels, fs);
    forall k | 0 <= k < |anns|
      ensures anns[k].name == labels[k] && anns[k].id == k + 1
    {
    }
    forall j, k | 0 <= j < |anns| && 0 <= k < |anns|
      ensures Less(anns[j].name, anns[k].name) <==> anns[j].id < anns[k].id
    {
      if k < j {
        LessAsymmetric(labels[k], labels[j]);
      } else if j == k {
        LessIrreflexive(labels[j]);
      }
    }
  }

  // ---- Colours ----

  /** Feature i is the first of `fs` filed under `name`. */
  predicate FirstFiledUnder(fs: seq<Feature>, name: string, i: int)
  {
    0 <= i < |fs| && FiledUnder(fs[i], name) && forall j :: 0 <= j < i ==> !FiledUnder(fs[j], name)
  }

  /** A group's colour comes from the first feature filed under its label
      (green when that feature has none); later features do not change it. */
  lemma {:induction false} ColourFirstWins(fs: seq<Feature>, name: string, i: int)
    requires FirstFiledUnder(fs, name, i)
    ensures ColourOf(fs, name) == Some(PackBgr(fs[i].colour.GetOr(GREEN)))
  {
    var earlier := fs[..|fs| - 1];
    if i < |fs| - 1 {
      ColourFirstWins(earlier, name, i);
    } else {
      ColourUnset(earlier, name);
    }
  }

  /** A group has no colour exactly when no feature is filed under its label. */
  lemma {:induction false} ColourUnset(fs: seq<Feature>, name: string)
    ensures ColourOf(fs, name).None? <==> forall j :: 0 <= j < |fs| ==> !FiledUnder(fs[j], name)
  {
    if fs != [] {
      var earlier := fs[..|fs| - 1];
      ColourUnset(earlier, name);
      assert forall j :: 0 <= j < |earlier| ==> earlier[j] == fs[j];
    }
  }

  /** Once set, a colour is never overwritten by the features that follow. */
  lemma {:induction false} ColourKept(fs: seq<Feature>, more: seq<Feature>, name: string)
    requires ColourOf(fs, name).Some?
    ensures ColourOf(fs + more, name) == ColourOf(fs, name)
  {
    if more != [] {
      ColourKept(fs, more[..|more| - 1], name);
      assert (fs + more)[..|fs + more| - 1] == fs + more[..|more| - 1];
    } else {
      assert fs + more == fs;
    }
  }

  /** A group that received a ring was coloured by the same feature, so the
      default `LineColor` for a surviving group without colour is never used. */
  lemma {:induction false} RegionsNeedColour(fs: seq<Feature>, name: string)
    requires RegionsOf(fs, name) != []
    ensures ColourOf(fs, name).Some?
  {
    var earlier := fs[..|fs| - 1];
    if RegionsOf(earlier, name) != [] {
      RegionsNeedColour(earlier, name);
    }
  }

  /** Every annotation's `LineColor` is the packed colour of the first feature
      filed under its label. */
  lemma AnnotationColour(fs: seq<Feature>, labelOrder: seq<string>)
    ensures var anns := Assemble(fs, labelOrder).annotations;
      forall k :: 0 <= k < |anns| ==>
        exists i :: FirstFiledUnder(fs, anns[k].name, i) && anns[k].lineColour == PackBgr(fs[i].colour.GetOr(GREEN))
  {
    var labels := Survivors(Seed(labelOrder), fs);
    SurvivorsMembers(Seed(labelOrder), fs);
    var anns := Annotate(labels, fs);
    forall k | 0 <= k < |anns|
      ensures exists i :: FirstFiledUnder(fs, anns[k].name, i) && anns[k].lineColour == PackBgr(fs[i].colour.GetOr(GREEN))
    {
      var name := labels[k];
      assert name in labels;
      RegionsNeedColour(fs, name);
      ColourUnset(fs, name);
      var i := FirstIndex(fs, name);
      ColourFirstWins(fs, name, i);
    }
  }

  /** The index of the first feature filed under `name`. */
  lemma FirstIndex(fs: seq<Feature>, name: string) returns (i: int)
    requires exists j :: 0 <= j < |fs| && FiledUnder(fs[j], name)
    ensures FirstFiledUnder(fs, name, i)
  {
    i := 0;
    while !FiledUnder(fs[i], name)
      invariant 0 <= i < |fs|
      invariant forall j :: 0 <= j < i ==> !FiledUnder(fs[j], name)
      invariant exists j :: i <= j < |fs| && FiledUnder(fs[j], name)
      decreases |fs| - i
    {
      i := i + 1;
    }
  }

  // ---- Features that are skipped ----

  lemma {:induction false} RegionsAppend(a: seq<Feature>, b: seq<Feature>, name: string)
    ensures RegionsOf(a + b, name) == RegionsOf(a, name) + RegionsOf(b, name)
  {
    if b == [] {
      assert a + b == a;
    } else {
      var init, f := b[..|b| - 1], b[|b| - 1];
      var own := if FiledUnder(f, name) then OuterRings(f.geometry) else [];
      var before, upTo, rest := RegionsOf(a, name), RegionsOf(a + init, name), RegionsOf(init, name);
      assert RegionsOf(a + b, name) == upTo + own by {
        assert (a + b)[..|a + b| - 1] == a + init && (a + b)[|a + b| - 1] == f;
      }
      assert upTo == before + rest by {
        RegionsAppend(a, init, name);
      }
      assert RegionsOf(b, name) == rest + own;
      assert (before + rest) + own == before + (rest + own);
    }
  }

  lemma {:induction false} ColourAppend(a: seq<Feature>, b: seq<Feature>, name: string)
    ensures ColourOf(a + b, name) == if ColourOf(a, name).Some? then ColourOf(a, name) else ColourOf(b, name)
  {
    if b == [] {
      assert a + b == a;
    } else {
      ColourAppend(a, b[..|b| - 1], name);
      assert (a + b)[..|a + b| - 1] == a + b[..|b| - 1];
    }
  }

  lemma {:induction false} SurvivorsCongruent(keys: seq<string>, fs: seq<Feature>, gs: seq<Feature>)
    requires forall key :: key in keys ==> RegionsOf(fs, key) == RegionsOf(gs, key)
    ensures Survivors(keys, fs) == Survivors(keys, gs)
  {
    if keys != [] {
      SurvivorsCongruent(keys[..|keys| - 1], fs, gs);
    }
  }

  lemma {:induction false} TotalRegionsCongruent(labels: seq<string>, fs: seq<Feature>, gs: seq<Feature>)
    requires forall key :: key in labels ==> RegionsOf(fs, key) == RegionsOf(gs, key)
    ensures TotalRegions(labels, fs) == TotalRegions(labels, gs)
  {
    if labels != [] {
      assert forall k :: k in labels[..|labels| - 1] ==> k in labels;
      TotalRegionsCongruent(labels[..|labels| - 1], fs, gs);
      assert labels[|labels| - 1] in labels;
    }
  }

  lemma AnnotateCongruent(labels: seq<string>, fs: seq<Feature>, gs: seq<Feature>)
    requires forall key :: key in labels ==> RegionsOf(fs, key) == RegionsOf(gs, key)
    requires forall key :: key in labels ==> ColourOf(fs, key) == ColourOf(gs, key)
    ensures Annotate(labels, fs) == Annotate(labels, gs)
  {
    forall k | 0 <= k < |labels|
      ensures AnnotationAt(labels, fs, k) == AnnotationAt(labels, gs, k)
    {
      assert labels[k] in labels;
      assert forall key :: key in labels[..k] ==> key in labels;
      TotalRegionsCongruent(labels[..k], fs, gs);
      AnnotationAtCongruent(labels, fs, gs, k);
    }
  }

  lemma AnnotationAtCongruent(labels: seq<string>, fs: seq<Feature>, gs: seq<Feature>, k: int)
    requires 0 <= k < |labels|
    requires RegionsOf(fs, labels[k]) == RegionsOf(gs, labels[k])
    requires ColourOf(fs, labels[k]) == ColourOf(gs, labels[k])
    requires TotalRegions(labels[..k], fs) == TotalRegions(labels[..k], gs)
    ensures AnnotationAt(labels, fs, k) == AnnotationAt(labels, gs, k)
  {
    var key := labels[k];
    RegionsCongruent(RegionsOf(fs, key), RegionsOf(gs, key), TotalRegions(labels[..k], fs) + 1, TotalRegions(labels[..k], gs) + 1);
  }

  /** A feature not filed under `key` adds no rings to its group. */
  lemma RegionsSkip(before: seq<Feature>, f: Feature, after: seq<Feature>, key: string)
    requires !FiledUnder(f, key)
    ensures RegionsOf(before + [f] + after, key) == RegionsOf(before + after, key)
  {
    assert RegionsOf([f], key) == [] by {
      assert [f][..0] == [];
    }
    RegionsAppend(before, [f], key);
    var upTo := RegionsOf(before + [f], key);
    assert upTo == RegionsOf(before, key);
    RegionsAppend(before + [f], after, key);
    RegionsAppend(before, after, key);
  }

  /** A feature not filed under `key` does not colour its group. */
  lemma ColourSkip(before: seq<Feature>, f: Feature, after: seq<Feature>, key: string)
    requires !FiledUnder(f, key)
    ensures ColourOf(before + [f] + after, key) == ColourOf(before + after, key)
  {
    assert ColourOf([f], key) == None by {
      assert [f][..0] == [];
    }
    ColourAppend(before, [f], key);
    var upTo := ColourOf(before + [f], key);
    assert upTo == ColourOf(before, key);
    ColourAppend(before + [f], after, key);
    ColourAppend(before, after, key);
  }

  /** A feature whose name is missing, empty or not in the label order leaves
      the whole output unchanged, wherever it stands in the document. */
  lemma UnknownFeatureSkipped(before: seq<Feature>, f: Feature, after: seq<Feature>, labelOrder: seq<string>)
    requires !Known(f, labelOrder)
    ensures Assemble(before + [f] + after, labelOrder) == Assemble(before + after, labelOrder)
  {
    var fs := before + [f] + after;
    var gs := before + after;
    forall key | key in labelOrder
      ensures RegionsOf(fs, key) == RegionsOf(gs, key)
      ensures ColourOf(fs, key) == ColourOf(gs, key)
    {
      RegionsSkip(before, f, after, key);
      ColourSkip(before, f, after, key);
    }
    var keys := Seed(labelOrder);
    SurvivorsCongruent(keys, fs, gs);
    SurvivorsMembers(keys, fs);
    var labels := Survivors(keys, fs);
    AnnotateCongruent(labels, fs, gs);
  }

  // ---- Where the rings come from ----

  /** A multi-polygon contributes the closed outer ring of each usable member,
      and only those; empty members and members with an empty outer ring are
      skipped. */
  lemma {:induction false} MultiOuterRingsMembers(polygons: seq<seq<Ring>>)
    ensures forall i :: 0 <= i < |polygons| && UsableMember(polygons[i]) ==>
      Close(polygons[i][0]) in MultiOuterRings(polygons)
    ensures forall ring :: ring in MultiOuterRings(polygons) ==>
      exists i :: 0 <= i < |polygons| && UsableMember(polygons[i]) && ring == Close(polygons[i][0])
  {
    if polygons != [] {
      var earlier := polygons[..|polygons| - 1];
      MultiOuterRingsMembers(earlier);
      assert forall i :: 0 <= i < |earlier| ==> earlier[i] == polygons[i];
    }
  }

  /** Every ring of a group comes from a feature filed under its label, and
      every ring such a feature contributes is in the group. */
  lemma {:induction false} RegionsProvenance(fs: seq<Feature>, name: string)
    ensures forall i, ring :: 0 <= i < |fs| && FiledUnder(fs[i], name) && ring in OuterRings(fs[i].geometry) ==>
      ring in RegionsOf(fs, name)
    ensures forall ring :: ring in RegionsOf(fs, name) ==>
      exists i :: 0 <= i < |fs| && FiledUnder(fs[i], name) && ring in OuterRings(fs[i].geometry)
  {
    if fs != [] {
      var earlier := fs[..|fs| - 1];
      RegionsProvenance(earlier, name);
      assert forall i :: 0 <= i < |earlier| ==> earlier[i] == fs[i];
    }
  }

  // ---- Ring closure ----

  /** Closing a ring twice is closing it once. */
  lemma CloseIdempotent(ring: Ring)
    requires |ring| > 0
    ensures Close(Close(ring)) == Close(ring)
  {
  }
}
