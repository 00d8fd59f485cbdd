/** The first pass over a batch: the sorted, duplicate-free list of every
    classification name used anywhere in the batch
    (`collect_all_labels_from_folder`). */
module LabelRegistry {
  import opened Wrappers
  import opened GeoJson
  import opened Lexicographic

  /** `name` is the non-empty classification name of some feature in `fs`. */
  predicate NamedIn(fs: seq<Feature>, name: string)
  {
    name != "" && exists j :: 0 <= j < |fs| && fs[j].name == Some(name)
  }

  /** `name` is used by a feature of some object or list document of the
      batch; other top-level values contribute nothing. */
  predicate Observed(docs: seq<Document>, name: string)
  {
    exists i :: 0 <= i < |docs| && Features(docs[i]).Some? && NamedIn(Features(docs[i]).value, name)
  }

  /** The label list: strictly ascending in Python's string order (hence free
      of duplicates) and holding exactly the names observed in the batch. */
  method CollectLabels(docs: seq<Document>) returns (labels: seq<string>)
    ensures StrictlyAscending(labels)
    ensures forall name :: name in labels <==> Observed(docs, name)
  {
    var all: set<string> := {};
    for i := 0 to |docs|
      invariant forall name :: name in all <==> Observed(docs[..i], name)
    {
      var doc := docs[i];
      var features := Features(doc);
      if features.None? {
        assert forall name :: Observed(docs[..i + 1], name) <==> Observed(docs[..i], name) by {
          forall name ensures Observed(docs[..i + 1], name) ==> Observed(docs[..i], name) {
            if Observed(docs[..i + 1], name) {
              var k :| 0 <= k < i + 1 && Features(docs[..i + 1][k]).Some? && NamedIn(Features(docs[..i + 1][k]).value, name);
              assert docs[..i][k] == docs[..i + 1][k];
            }
          }
          forall name ensures Observed(docs[..i], name) ==> Observed(docs[..i + 1], name) {
            if Observed(docs[..i], name) {
              var k :| 0 <= k < i && Features(docs[..i][k]).Some? && NamedIn(Features(docs[..i][k]).value, name);
              assert docs[..i + 1][k] == docs[..i][k];
            }
          }
        }
        continue;
      }
      var fs := features.value;
      for j := 0 to |fs|
        invariant forall name :: name in all <==> Observed(docs[..i], name) || NamedIn(fs[..j], name)
      {
        var name := fs[j].name;
        if name.Some? && name.value != "" {
          all := all + {name.value};
        }
        assert forall n :: NamedIn(fs[..j + 1], n) <==> NamedIn(fs[..j], n) || (n != "" && fs[j].name == Some(n)) by {
          forall n ensures NamedIn(fs[..j + 1], n) ==> NamedIn(fs[..j], n) || (n != "" && fs[j].name == Some(n)) {
            if NamedIn(fs[..j + 1], n) {
              var k :| 0 <= k < j + 1 && fs[..j + 1][k].name == Some(n);
              if k < j {
                assert fs[..j][k] == fs[..j + 1][k];
              }
            }
          }
          forall n ensures NamedIn(fs[..j], n) ==> NamedIn(fs[..j + 1], n) {
            if NamedIn(fs[..j], n) {
              var k :| 0 <= k < j && fs[..j][k].name == Some(n);
              assert fs[..j + 1][k] == fs[..j][k];
            }
          }
          forall n | n != "" && fs[j].name == Some(n) ensures NamedIn(fs[..j + 1], n) {
            assert fs[..j + 1][j] == fs[j];
          }
        }
      }
      assert fs[..|fs|] == fs;
      assert forall name :: Observed(docs[..i + 1], name) <==> Observed(docs[..i], name) || NamedIn(fs, name) by {
        forall name ensures Observed(docs[..i + 1], name) ==> Observed(docs[..i], name) || NamedIn(fs, name) {
          if Observed(docs[..i + 1], name) {
            var k :| 0 <= k < i + 1 && Features(docs[..i + 1][k]).Some? && NamedIn(Features(docs[..i + 1][k]).value, name);
            if k < i {
              assert docs[..i][k] == docs[..i + 1][k];
            }
          }
        }
        forall name ensures Observed(docs[..i], name) ==> Observed(docs[..i + 1], name) {
          if Observed(docs[..i], name) {
            var k :| 0 <= k < i && Features(docs[..i][k]).Some? && NamedIn(Features(docs[..i][k]).value, name);
            assert docs[..i + 1][k] == docs[..i][k];
          }
        }
        forall name | NamedIn(fs, name) ensures Observed(docs[..i + 1], name) {
          assert docs[..i + 1][i] == doc;
        }
      }
    }
    assert docs[..|docs|] == docs;
    labels := SortLabels(all);
  }

  /** `sorted(list(all_labels))`: the members of a set of names in ascending
      order. */
  method SortLabels(names: set<string>) returns (sorted: seq<string>)
    ensures StrictlyAscending(sorted)
    ensures forall name :: name in sorted <==> name in names
  {
    sorted := [];
    var rest := names;
    while rest != {}
      invariant StrictlyAscending(sorted)
      invariant forall name :: name in names <==> name in sorted || name in rest
      invariant forall name :: name in sorted ==> name !in rest
      decreases rest
    {
      var name :| name in rest;
      sorted := Insert(sorted, name);
      rest := rest - {name};
    }
  }

  /** The label list does not depend on the order in which the names were
      met: any two results for the same batch are equal. */
  lemma LabelsDeterministic(docs: seq<Document>, a: seq<string>, b: seq<string>)
    requires StrictlyAscending(a) && forall name :: name in a <==> Observed(docs, name)
    requires StrictlyAscending(b) && forall name :: name in b <==> Observed(docs, name)
    ensures a == b
  {
    AscendingUnique(a, b);
  }
}
