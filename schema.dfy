/**
 * The schema catalog: the label -> entry map the validator folds the parsed
 * schema records into, once, when schema validation is switched on.
 */
module Schema {
  import opened Wrappers

  /** The `Type` of a schema record, and the `type` of a pattern variable. */
  datatype Kind = Node | Relation

  /** One parsed record of the schema file; `From`/`To` exist on relation records only. */
  datatype SchemaRecord =
    | NodeRecord(labelName: string, attributes: seq<string>)
    | RelationRecord(labelName: string, attributes: seq<string>, fromLabel: string, toLabel: string)

  /**
   * A catalog entry: the first record with that label, whose `From`/`To` were
   * replaced by the set `From_To` of allowed (from, to) label pairs. A node
   * entry has no `From_To`; it is kept empty here and never read.
   */
  datatype Entry = Entry(kind: Kind, attributes: seq<string>, fromTo: set<(string, string)>)

  type Catalog = map<string, Entry>

  datatype SchemaError =
    | RepeatedNodeLabel(repeated: string)  // a repeated label on a node record
    | NoEndpointPairs(repeated: string)    // a relation record repeating a node label: its entry has no From_To

  function KindOf(r: SchemaRecord): Kind
  {
    if r.RelationRecord? then Relation else Node
  }

  function NewEntry(r: SchemaRecord): Entry
  {
    Entry(KindOf(r), r.attributes, if r.RelationRecord? then {(r.fromLabel, r.toLabel)} else {})
  }

  /** One iteration of the schema loop. */
  function AddRecord(c: Catalog, r: SchemaRecord): Result<Catalog, SchemaError>
  {
    if r.labelName !in c then Success(c[r.labelName := NewEntry(r)])
    else if r.NodeRecord? then Failure(RepeatedNodeLabel(r.labelName))
    else if c[r.labelName].kind == Node then Failure(NoEndpointPairs(r.labelName))
    else Success(c[r.labelName := c[r.labelName].(fromTo := c[r.labelName].fromTo + {(r.fromLabel, r.toLabel)})])
  }

  /** The catalog built from the records in file order, or the first error. */
  function CatalogOf(records: seq<SchemaRecord>): Result<Catalog, SchemaError>
  {
    if records == [] then Success(map[])
    else
      match CatalogOf(records[..|records| - 1])
      case Failure(e) => Failure(e)
      case Success(c) => AddRecord(c, records[|records| - 1])
  }

  /** Labels may repeat only between relation records. */
  predicate LabelsCompatible(records: seq<SchemaRecord>)
  {
    forall i, j :: 0 <= i < j < |records| && records[i].labelName == records[j].labelName ==>
      records[i].RelationRecord? && records[j].RelationRecord?
  }

  /** Every (From, To) pair the relation records labelled `lbl` declare. */
  function DeclaredPairs(records: seq<SchemaRecord>, lbl: string): set<(string, string)>
  {
    set r | r in records && r.RelationRecord? && r.labelName == lbl :: (r.fromLabel, r.toLabel)
  }

  /** `records[i]` is the first record carrying its label. */
  predicate FirstOfLabel(records: seq<SchemaRecord>, i: int)
    requires 0 <= i < |records|
  {
    forall j :: 0 <= j < i ==> records[j].labelName != records[i].labelName
  }

  /** The catalog's keys are exactly the labels of the records read so far. */
  lemma {:induction false} CatalogKeys(records: seq<SchemaRecord>)
    requires CatalogOf(records).Success?
    ensures forall l :: l in CatalogOf(records).value <==> exists r :: r in records && r.labelName == l
  {
    if records != [] {
      var init := records[..|records| - 1];
      CatalogKeys(init);
      assert records == init + [records[|records| - 1]];
    }
  }

  /** Every record's label is a key, and its entry has that record's kind. */
  lemma {:induction false} CatalogKinds(records: seq<SchemaRecord>)
    requires CatalogOf(records).Success?
    ensures forall r :: r in records ==>
      r.labelName in CatalogOf(records).value && CatalogOf(records).value[r.labelName].kind == KindOf(r)
  {
    if records != [] {
      var init := records[..|records| - 1];
      var last := records[|records| - 1];
      CatalogKinds(init);
      var c := CatalogOf(init).value;
      var d := CatalogOf(records).value;
      assert d == AddRecord(c, last).value;
      assert last.labelName in d && d[last.labelName].kind == KindOf(last);
      forall r | r in records
        ensures r.labelName in d && d[r.labelName].kind == KindOf(r)
      {
        if r != last {
          var i :| 0 <= i < |records| && records[i] == r;
          assert r == init[i];
          assert r.labelName in c && c[r.labelName].kind == KindOf(r);
        }
      }
    }
  }

  lemma LabelsCompatibleSnoc(init: seq<SchemaRecord>, last: SchemaRecord)
    ensures LabelsCompatible(init + [last]) <==>
      LabelsCompatible(init) &&
      forall r :: r in init && r.labelName == last.labelName ==> r.RelationRecord? && last.RelationRecord?
  {
    var rs := init + [last];
    if LabelsCompatible(rs) {
      forall i, j | 0 <= i < j < |init| && init[i].labelName == init[j].labelName
        ensures init[i].RelationRecord? && init[j].RelationRecord?
      {
        assert rs[i] == init[i] && rs[j] == init[j];
      }
      forall r | r in init && r.labelName == last.labelName
        ensures r.RelationRecord? && last.RelationRecord?
      {
        var i :| 0 <= i < |init| && init[i] == r;
        assert rs[i] == r && rs[|init|] == last;
      }
    }
  }

  /** Building fails exactly when a label repeats with a node record on either side. */
  lemma {:induction false} CatalogSucceeds(records: seq<SchemaRecord>)
    ensures CatalogOf(records).Success? <==> LabelsCompatible(records)
  {
    if records != [] {
      var init := records[..|records| - 1];
      var last := records[|records| - 1];
      assert records == init + [last];
      CatalogSucceeds(init);
      LabelsCompatibleSnoc(init, last);
      if CatalogOf(init).Success? {
        var c := CatalogOf(init).value;
        CatalogKeys(init);
        CatalogKinds(init);
        if last.labelName in c {
          var r :| r in init && r.labelName == last.labelName;
          assert c[last.labelName].kind == KindOf(r);
        }
      }
    }
  }

  /** Each entry holds the kind and attributes of the first record with its label. */
  lemma {:induction false} CatalogFirstRecords(records: seq<SchemaRecord>)
    requires CatalogOf(records).Success?
    ensures forall i :: 0 <= i < |records| && FirstOfLabel(records, i) ==>
      records[i].labelName in CatalogOf(records).value &&
      CatalogOf(records).value[records[i].labelName].kind == KindOf(records[i]) &&
      CatalogOf(records).value[records[i].labelName].attributes == records[i].attributes
  {
    if records != [] {
      var n := |records| - 1;
      var init := records[..n];
      var last := records[n];
      assert records == init + [last];
      CatalogFirstRecords(init);
      CatalogKeys(init);
      var c := CatalogOf(init).value;
      forall i | 0 <= i < |records| && FirstOfLabel(records, i)
        ensures records[i].labelName in CatalogOf(records).value
          && CatalogOf(records).value[records[i].labelName].kind == KindOf(records[i])
          && CatalogOf(records).value[records[i].labelName].attributes == records[i].attributes
      {
        if i < n {
          assert init[i] == records[i];
          assert FirstOfLabel(init, i) by {
            forall j | 0 <= j < i ensures init[j].labelName != init[i].labelName {
              assert init[j] == records[j];
            }
          }
        } else {
          assert last.labelName !in c by {
            forall r | r in init ensures r.labelName != last.labelName {
              var j :| 0 <= j < n && init[j] == r;
              assert records[j] == r;
            }
          }
        }
      }
    }
  }

  /** The pairs declared after one more record. */
  lemma DeclaredPairsSnoc(init: seq<SchemaRecord>, last: SchemaRecord, l: string)
    ensures DeclaredPairs(init + [last], l) == DeclaredPairs(init, l) +
      (if last.RelationRecord? && last.labelName == l then {(last.fromLabel, last.toLabel)} else {})
  {
    assert forall r :: r in init + [last] <==> r in init || r == last;
  }

  /** A label no record carries has no declared pairs. */
  lemma DeclaredPairsNone(records: seq<SchemaRecord>, l: string)
    requires forall r :: r in records ==> r.labelName != l
    ensures DeclaredPairs(records, l) == {}
  {
  }

  /** Each entry's `From_To` is every (From, To) pair declared for its label. */
  lemma {:induction false} CatalogPairs(records: seq<SchemaRecord>)
    requires CatalogOf(records).Success?
    ensures forall l :: l in CatalogOf(records).value ==>
      CatalogOf(records).value[l].fromTo == DeclaredPairs(records, l)
  {
    if records != [] {
      var n := |records| - 1;
      var init := records[..n];
      var last := records[n];
      assert records == init + [last];
      CatalogPairs(init);
      CatalogKeys(init);
      var c := CatalogOf(init).value;
      var c' := CatalogOf(records).value;
      forall l | l in c' ensures c'[l].fromTo == DeclaredPairs(records, l) {
        DeclaredPairsSnoc(init, last, l);
        if l != last.labelName {
          assert l in c;
        } else if last.labelName !in c {
          DeclaredPairsNone(init, l);
        }
      }
    }
  }

  /** The schema-loading loop: records are read in order and the first error stops it. */
  method BuildCatalog(records: seq<SchemaRecord>) returns (r: Result<Catalog, SchemaError>)
    ensures r == CatalogOf(records)
  {
    var c: Catalog := map[];
    var i := 0;
    while i < |records|
      invariant 0 <= i <= |records|
      invariant CatalogOf(records[..i]) == Success(c)
    {
      var rec := records[i];
      assert records[..i + 1][..i] == records[..i];
      if rec.labelName in c {
        if rec.RelationRecord? {
          if c[rec.labelName].kind == Node {
            FailureSticks(records, i + 1);
            return Failure(NoEndpointPairs(rec.labelName));
          }
          c := c[rec.labelName := c[rec.labelName].(fromTo := c[rec.labelName].fromTo + {(rec.fromLabel, rec.toLabel)})];
        } else {
          FailureSticks(records, i + 1);
          return Failure(RepeatedNodeLabel(rec.labelName));
        }
      } else {
        c := c[rec.labelName := NewEntry(rec)];
      }
      i := i + 1;
    }
    assert records[..i] == records;
    r := Success(c);
  }

  /** Once a prefix fails, the whole sequence fails with the same error. */
  lemma {:induction false} FailureSticks(records: seq<SchemaRecord>, k: nat)
    requires k <= |records| && CatalogOf(records[..k]).Failure?
    ensures CatalogOf(records) == CatalogOf(records[..k])
    decreases |records| - k
  {
    if k < |records| {
      assert records[..k + 1][..k] == records[..k];
      FailureSticks(records, k + 1);
    } else {
      assert records[..k] == records;
    }
  }
}
