# GeoJSON to ImageScope annotations: a Dafny model of the conversion engine

This project models the conversion engine of `base/GeoJSON2XML_VM.py`. The
engine turns GeoJSON annotation files (polygons and multi-polygons, each
tagged with a classification name and an optional RGB colour) into the
Annotations XML that the ImageScope whole-slide viewer reads. It works in two
passes over a batch:

* the **label registry** (`collect_all_labels_from_folder`) gathers every
  non-empty classification name used in the batch and returns them sorted
  and without duplicates;
* the **annotation assembler** (`convert_geojson_to_imagescope_xml`) converts
  one document against that label order. It seeds an ordered map with one
  slot per label. It files each feature's closed outer rings under the
  feature's label, and the first feature of a label fixes the label's colour.
  It deletes the slots that received no ring. It then emits one `Annotation`
  per remaining label, numbered from 1, and one `Region` per ring, numbered
  from 1 across the whole document.

Modules:

* `Wrappers`: `Option` and `Result`.
* `Colour`: `rgb_to_bgr_hex` as `PackBgr`, with its inverse `UnpackBgr`.
* `Lexicographic`: Python's ordering of strings, and insertion into an
  ascending list. It also proves that an ascending list is determined by its
  elements.
* `GeoJson`: the parsed input. Coordinates have an abstract type with
  equality, since the engine only compares and copies them. This module also
  normalises a document into its feature list (`Features`).
* `LabelRegistry`: the first pass, as methods with loops (`CollectLabels`,
  `SortLabels`).
* `Assembler`: the output tree as datatypes, and functions that say label by
  label what the converter produces (`Assemble`). `Vertices`,
  `NumberedRegions` and `Annotate` give each output element in closed form,
  from its position alone; the converter's counters are proved to agree. It also holds the converter
  itself, one method per phase of the source function, each proved to
  compute its part of `Assemble`. `Convert` chains the phases.
* `AssemblerProperties`: what `Assemble` guarantees. Annotation ids are
  1..k and region ids are 1..n across the document. The annotations are
  exactly the labels that received a ring, in label order. A colour is fixed
  by the first matching feature. Every region is a closed input ring with
  z = 0. A feature without a known label changes nothing.

Notes on the source's own behaviour, which the model follows:

* A group's colour comes from the first feature filed under its label, not
  from the first one that carries a colour. A first feature without a colour
  gives green (packed 65280), and later colours are ignored. For the same
  reason, a group that survives never gets the `LineColor` default 13434828:
  the code for that fallback (line 171) cannot be reached, and
  `RegionsNeedColour` proves it.
* A feature is filed under its label, and fixes the label's colour, even when
  its geometry is neither Polygon nor MultiPolygon. It then adds no ring.
  Such a feature is skipped silently; it does not raise an error.
* In the first pass, a document whose top-level value is neither an object
  nor a list is skipped. Only the converter rejects it (`UnsupportedFormat`).
* A polygon with no coordinates, or with an empty outer ring, makes the code
  fail with an error. This happens only for a feature with a known
  label. The model states it as `Convert`'s precondition (`WellFormed`) and
  does not model it as a parse error.
* A label that occurs twice in the label order keeps its first slot, as an
  `OrderedDict` does on re-assignment (`Seed`). For the registry's
  duplicate-free order, `Seed` is the identity (`SeedOfDistinct`).

## Model

| member | source | states |
|---|---|---|
| Colour.PackBgr | base/GeoJSON2XML_VM.py:57-62 | for channels in 0..255 the packed colour lies in [0, 2^24) |
| Colour.UnpackBgr | base/GeoJSON2XML_VM.py:57-62 | every value in [0, 2^24) unpacks to channels in 0..255 |
| Colour.UnpackPack | base/GeoJSON2XML_VM.py:61-62 | r, g and b are each recovered from the packed value (blue high byte, red low byte) |
| Colour.PackUnpack | base/GeoJSON2XML_VM.py:61-62 | every 24-bit value is the packing of some byte triple, so packing is a bijection onto [0, 2^24) |
| Colour.GreenPacked | base/GeoJSON2XML_VM.py:139 | the default colour [0, 255, 0] packs to 65280 |
| Lexicographic.LessTotal | base/GeoJSON2XML_VM.py:105 | two different names are always ordered one way or the other, so sorting is well defined |
| Lexicographic.LessTransitive | base/GeoJSON2XML_VM.py:105 | the string order is transitive |
| Lexicographic.Insert | base/GeoJSON2XML_VM.py:105 | inserting a new name into an ascending list keeps it ascending and adds exactly that name |
| Lexicographic.AscendingUnique | base/GeoJSON2XML_VM.py:105 | two ascending lists with the same elements are equal |
| GeoJson.Features | base/GeoJSON2XML_VM.py:117-122 | a document yields a feature list exactly when its top level is an object or a list; an object without `features` yields itself as the only feature |
| LabelRegistry.CollectLabels | base/GeoJSON2XML_VM.py:88-105 | the labels are strictly ascending (so duplicate-free) and are exactly the non-empty names of features of object or list documents |
| LabelRegistry.SortLabels | base/GeoJSON2XML_VM.py:105 | the sorted list is strictly ascending and holds exactly the set's members |
| LabelRegistry.LabelsDeterministic | base/GeoJSON2XML_VM.py:104-105 | any two label lists meeting that contract for one batch are equal: the order is deterministic |
| GeoJson.HasLabel | base/GeoJSON2XML_VM.py:101 | defines the names the source accepts with `if name`: present and non-empty |
| Lexicographic.Less | base/GeoJSON2XML_VM.py:105 | defines Python's `str` order used by `sorted`: code point by code point, a proper prefix first |
| Assembler.Close | base/GeoJSON2XML_VM.py:155-156 | the closed ring's first and last vertices are equal, the input is an unchanged prefix, the length grows by at most one, and a ring that is already closed is unchanged |
| Assembler.MultiOuterRings | base/GeoJSON2XML_VM.py:159-164 | a multi-polygon yields at most one ring per member, and every ring it yields is closed |
| Assembler.OuterRings | base/GeoJSON2XML_VM.py:153-164 | every ring a geometry contributes is closed |
| Assembler.RegionsOf | base/GeoJSON2XML_VM.py:135-164 | every ring filed under a label is closed |
| Assembler.Seed | base/GeoJSON2XML_VM.py:128-132 | the seeded keys are duplicate-free and are exactly the labels of the order |
| Assembler.ColourOf | base/GeoJSON2XML_VM.py:139-146 | defines the colour a slot holds after a list of features: set by the first feature filed under the label (its colour, or green) and never changed |
| Assembler.FinalColour | base/GeoJSON2XML_VM.py:170-171 | defines the `LineColor` of a surviving group: its colour, or the default 13434828 when it has none |
| Assembler.Survivors | base/GeoJSON2XML_VM.py:166-169 | defines the keys left after deleting the slots without rings, in seeded order |
| Assembler.SurvivorsMembers | base/GeoJSON2XML_VM.py:166-169 | a key survives exactly when its group received at least one ring |
| Assembler.Vertices | base/GeoJSON2XML_VM.py:213-215 | defines a region's vertices: one (x, y, 0) per ring point, in order |
| Assembler.NumberedRegions | base/GeoJSON2XML_VM.py:201-217 | defines a group's regions: the j-th ring gets `Id` = `DisplayId` = first id + j |
| Assembler.AnnotationAt | base/GeoJSON2XML_VM.py:176-220 | defines the k-th annotation: id k + 1, the k-th surviving label, its final colour, and its regions numbered after those of the labels before it |
| Assembler.Annotate | base/GeoJSON2XML_VM.py:176-220 | defines the annotation list: the k-th element is `AnnotationAt` k |
| Assembler.Assemble | base/GeoJSON2XML_VM.py:108-223 | defines the converter's result: `MicronsPerPixel` and the annotations of the seeded labels that received a ring |
| Assembler.SeedGroups | base/GeoJSON2XML_VM.py:124-132 | one slot per label, with no colour and no rings, with keys in `Seed` order |
| Assembler.FileFeature | base/GeoJSON2XML_VM.py:144-164 | the group's colour is set only if unset (to the feature's colour or green), and the feature's closed outer rings are appended |
| Assembler.FileMembers | base/GeoJSON2XML_VM.py:159-164 | a multi-polygon appends exactly `MultiOuterRings` of its members to the slot's rings, and leaves its colour alone |
| Assembler.FileFeatures | base/GeoJSON2XML_VM.py:134-164 | after the loop, each slot holds `ColourOf` and `RegionsOf` of its label, and the key set is unchanged |
| Assembler.PruneGroups | base/GeoJSON2XML_VM.py:166-171 | the kept keys are `Survivors` in order, each holding its final colour and its rings; a seeded key remains a slot exactly when it is kept |
| Assembler.PrunedSlots | base/GeoJSON2XML_VM.py:166-171 | after the loop, the slots left among the seeded keys are exactly the kept keys, each with its final colour and rings |
| Assembler.EmitRegion | base/GeoJSON2XML_VM.py:202-217 | the region has `Id` = `DisplayId` = the counter, and one vertex per ring point |
| Assembler.EmitRegions | base/GeoJSON2XML_VM.py:201-217 | a group's regions are numbered on from the counter, which advances by the ring count |
| Assembler.EmitAnnotations | base/GeoJSON2XML_VM.py:176-220 | the emitted annotations are `Annotate` of the kept keys: the k-th has id k + 1, the k-th key, its colour and regions numbered after the earlier groups' |
| Assembler.AnnotatePrefix | base/GeoJSON2XML_VM.py:176-220 | the annotations of the first i keys are the first i annotations: a group's output does not depend on the groups after it |
| Assembler.AnnotationAtPrefix | base/GeoJSON2XML_VM.py:176-220 | the k-th annotation is the same whether computed from all keys or from any longer prefix of them |
| Assembler.EmitStep | base/GeoJSON2XML_VM.py:178-220 | one pass of the emission loop appends exactly the next annotation, and the region counter advances by that group's ring count |
| Assembler.AnnotateAppend | base/GeoJSON2XML_VM.py:176-220 | emitting the next key's annotation extends the annotations of the keys before it by exactly that annotation |
| Assembler.Convert | base/GeoJSON2XML_VM.py:108-223 | fails exactly on a top-level value that is neither an object nor a list, and otherwise returns `Assemble` of the features |
| AssemblerProperties.RegionIdsOfAnnotate | base/GeoJSON2XML_VM.py:177-217 | the region ids of the emitted annotations, in document order, are 1..n with n the total ring count |
| AssemblerProperties.AnnotationIdsConsecutive | base/GeoJSON2XML_VM.py:176-220 | annotation ids are 1, 2, ... in output order |
| AssemblerProperties.RegionIdsConsecutive | base/GeoJSON2XML_VM.py:177-217 | region ids are 1..n across the whole document, not reset per annotation |
| AssemblerProperties.RegionOfClosedRing | base/GeoJSON2XML_VM.py:202-217 | the region made of a closed ring has `DisplayId` = `Id`, one vertex (x, y, 0) per ring point in order, and equal first and last vertices |
| AssemblerProperties.NumberedRegionsFaithful | base/GeoJSON2XML_VM.py:201-217 | a group of closed rings yields one faithful region per ring, in order |
| AssemblerProperties.AnnotationRegions | base/GeoJSON2XML_VM.py:202-217 | the regions of one annotation correspond one-to-one to its label's closed rings, vertex by vertex with z = 0 |
| AssemblerProperties.RegionVertices | base/GeoJSON2XML_VM.py:153-217 | every annotation has at least one region, and each region's vertices are a closed input ring's points with z = 0 |
| AssemblerProperties.SeedOfDistinct | base/GeoJSON2XML_VM.py:128-132 | a duplicate-free label order seeds the map in exactly that order |
| AssemblerProperties.SurvivorsAscending | base/GeoJSON2XML_VM.py:166-169 | deleting empty groups keeps an ascending key order ascending |
| AssemblerProperties.SurvivorsDistinct | base/GeoJSON2XML_VM.py:166-169 | deleting empty groups keeps the keys duplicate-free |
| AssemblerProperties.AnnotationsAreTheFilledLabels | base/GeoJSON2XML_VM.py:166-188 | a name labels an annotation exactly when it is in the label order and received a ring, and no name labels two annotations |
| AssemblerProperties.AnnotationOrder | base/GeoJSON2XML_VM.py:176-188 | for the registry's ascending order, one label sorts before another exactly when its annotation has the smaller id |
| AssemblerProperties.ColourFirstWins | base/GeoJSON2XML_VM.py:144-146 | a group's colour is the packed colour of the first feature filed under its label, or green if that feature has none |
| AssemblerProperties.ColourUnset | base/GeoJSON2XML_VM.py:144-146 | a group has no colour exactly when no feature is filed under its label |
| AssemblerProperties.ColourKept | base/GeoJSON2XML_VM.py:144-146 | a colour once set is not changed by any later features |
| AssemblerProperties.RegionsNeedColour | base/GeoJSON2XML_VM.py:166-171 | a group with a ring has a colour, so the default `LineColor` branch is never taken |
| AssemblerProperties.AnnotationColour | base/GeoJSON2XML_VM.py:180-186 | each annotation's `LineColor` is the packed colour of the first feature filed under its name |
| AssemblerProperties.RegionsAppend | base/GeoJSON2XML_VM.py:135-164 | the rings of a concatenation of feature lists are the rings of the first list followed by those of the second |
| AssemblerProperties.ColourAppend | base/GeoJSON2XML_VM.py:144-146 | on a concatenation the first list's colour wins, if it set one |
| AssemblerProperties.RegionsSkip | base/GeoJSON2XML_VM.py:141-142 | a feature not filed under a label adds no ring to that label's group, wherever it stands |
| AssemblerProperties.ColourSkip | base/GeoJSON2XML_VM.py:141-146 | a feature not filed under a label does not change that label's colour, wherever it stands |
| AssemblerProperties.SurvivorsCongruent | base/GeoJSON2XML_VM.py:166-169 | which groups survive depends only on the rings each label received |
| AssemblerProperties.AnnotateCongruent | base/GeoJSON2XML_VM.py:176-220 | the annotations depend on the features only through each label's rings and colour |
| AssemblerProperties.UnknownFeatureSkipped | base/GeoJSON2XML_VM.py:141-142 | a feature whose name is missing, empty or not in the label order leaves the whole output unchanged, wherever it stands |
| AssemblerProperties.MultiOuterRingsMembers | base/GeoJSON2XML_VM.py:159-164 | a multi-polygon contributes the closed outer ring of every usable member and nothing else; empty members and empty outer rings are skipped |
| AssemblerProperties.RegionsProvenance | base/GeoJSON2XML_VM.py:135-164 | a group's rings are exactly the rings contributed by features filed under its label |
| AssemblerProperties.CloseIdempotent | base/GeoJSON2XML_VM.py:155-156 | closing a ring twice is the same as closing it once |

## Left out

- File and directory handling: `os.listdir`, `open`, `json.load` and the whole of `process_geojson_folder` (lines 226-247). Parsed documents are parameters instead, and a JSON parse error is outside the model.
- XML serialisation: `prettify`, ElementTree and minidom (lines 65-70, and lines 174-219 taken as XML). The output is a datatype tree (`Annotations`, `Annotation`, `Region`, `Vertex`). The `Attributes`, `RegionAttributeHeaders` and `Plots` elements hold only constants and are not represented.
- The constant metadata dictionaries (lines 15-54) are copied into every `Annotation` and `Region` and then updated with the fields the model carries (`Id`, `Name`, `LineColor`, `DisplayId`, lines 182-184 and 206-207). The other constant attributes are not represented. Only `MicronsPerPixel` and the `LineColor` default are modelled among the constants.
- The `Selected` attribute, which line 185 sets to "1" on every `Annotation` (the default copied from `DEFAULT_METADATA` is "0"), is not represented; `Annotation` has no field for it.
- Crashes on JSON null: a `"properties": null`, `"classification": null` or `"features": null` raises an `AttributeError` or `TypeError` in the first pass (lines 96-99, aborting label collection for the whole batch) and in the converter (lines 135-138). A `"color": null` on the first feature filed under a known label raises at line 146 (inside `rgb_to_bgr_hex`); on a later feature of that label the colour is already set and the null is ignored. A `"geometry": null`, or a MultiPolygon without `coordinates`, on a feature with a known label, raises at line 150 and line 160 respectively. A feature that is not a JSON object raises at lines 97 and 137.
- Crashes on members of the wrong JSON type: a string, list or number where `properties` or `classification` should be an object (for example `"classification": "Tumor"`) raises an `AttributeError` at lines 98-99 in the first pass and at lines 137-138 in the converter; a non-object `geometry` on a feature with a known label raises at line 150. The input types represent only absent members and members of the expected types, never null ones or ones of another type, so `CollectLabels` and `Convert` return a result on every input they accept, and none of these crashes is modelled.
- `str()` rendering of coordinates, ids and colours. Ids and colours are integers here, and coordinates are abstract values.
- Malformed geometry that makes the source fail: a missing or empty `coordinates` on a Polygon with a known label is excluded by `Convert`'s precondition. A vertex that is not a pair, or a colour that is not a triple of integers, cannot be represented in the input types.
- The source appends the closing vertex onto the parsed input list in place. The model closes rings with the pure `Close`. The input document is not used after conversion, so the output is the same.
- Non-string names and other JSON value types for `name` and `color` are not represented.
- Progress messages (`print`) and `__main__`.
