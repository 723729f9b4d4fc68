/**
 * The four schema checks run on each pattern variable, the decision to
 * repair a relation drawn against its declared direction, and the verdict
 * loop over all variables.
 */
module Matching {
  import opened Text
  import opened Schema
  import opened Symbols

  /** A non-empty label must be a catalog label. */
  predicate LabelMatches(c: Catalog, rec: VarRecord)
  {
    rec.labelName != "" ==> rec.labelName in c
  }

  /** A label that is not blank must be declared with the variable's own kind. */
  predicate TypeMatches(c: Catalog, rec: VarRecord)
    requires IsBlank(rec.labelName) || rec.labelName in c
  {
    !IsBlank(rec.labelName) ==> rec.kind == c[rec.labelName].kind
  }

  /**
   * A variable carrying attributes must have a catalog label that declares
   * each of them. An untyped variable has the empty label, which is no
   * catalog label, so it fails as soon as it carries an attribute.
   */
  predicate AttributesMatch(c: Catalog, rec: VarRecord)
  {
    |rec.attributes| > 0 ==>
      rec.labelName in c && forall i :: 0 <= i < |rec.attributes| ==> rec.attributes[i] in c[rec.labelName].attributes
  }

  /** The label, type and attribute checks, evaluated left to right as the verdict loop does. */
  predicate BasicMatches(c: Catalog, rec: VarRecord)
  {
    LabelMatches(c, rec) && TypeMatches(c, rec) && AttributesMatch(c, rec)
  }

  /** Where the direction check may look up the label's `From_To`: a relation label of the catalog. */
  predicate DirectionReadable(c: Catalog, rec: VarRecord)
  {
    IsBlank(rec.labelName) || rec.kind == Node || (rec.labelName in c && c[rec.labelName].kind == Relation)
  }

  lemma BasicMatchesReadable(c: Catalog, rec: VarRecord)
    requires BasicMatches(c, rec)
    ensures DirectionReadable(c, rec)
  {
  }

  /**
   * A typed relation must be declared between its endpoints' labels: in
   * either orientation when it is undirected, as drawn when it is directed.
   */
  predicate DirectionMatches(c: Catalog, rec: VarRecord)
    requires DirectionReadable(c, rec)
  {
    !IsBlank(rec.labelName) && rec.kind == Relation ==>
      var pairs := c[rec.labelName].fromTo;
      if rec.undirected then (rec.fromLabel, rec.toLabel) in pairs || (rec.toLabel, rec.fromLabel) in pairs
      else (rec.fromLabel, rec.toLabel) in pairs
  }

  /** The repair guard: a typed, directed relation whose labels are declared in one orientation or the other. */
  predicate Repairable(c: Catalog, rec: VarRecord)
    requires DirectionReadable(c, rec)
  {
    && !IsBlank(rec.labelName) && rec.kind == Relation && !rec.undirected
    && var pairs := c[rec.labelName].fromTo;
       (rec.fromLabel, rec.toLabel) in pairs || (rec.toLabel, rec.fromLabel) in pairs
  }

  /** The three checks pass, and the direction holds or the repair guard allows a repair. */
  predicate Conforms(c: Catalog, rec: VarRecord)
  {
    BasicMatches(c, rec) && (DirectionMatches(c, rec) || Repairable(c, rec))
  }

  /**
   * What the verdict loop accepts for variable `k`: it conforms, and where a
   * repair is needed the rewrite finds the relation's bracket with its edges
   * in the query, which `rewritable` records.
   */
  predicate Passes(c: Catalog, k: string, rec: VarRecord, rewritable: set<string>)
  {
    Conforms(c, rec) && (DirectionMatches(c, rec) || k in rewritable)
  }

  /**
   * The repair guard tests both orientations, but it is consulted only after
   * the direction check failed; there it fires exactly on a directed relation
   * whose reversed pair is declared.
   */
  lemma RepairNeedsReversedPair(c: Catalog, rec: VarRecord)
    requires BasicMatches(c, rec) && !DirectionMatches(c, rec)
    ensures Repairable(c, rec) <==>
      !rec.undirected && (rec.toLabel, rec.fromLabel) in c[rec.labelName].fromTo
  {
  }

  /** A repaired relation, now undirected, passes the direction check. */
  lemma RepairPassesDirection(c: Catalog, rec: VarRecord)
    requires DirectionReadable(c, rec) && Repairable(c, rec)
    ensures DirectionMatches(c, rec.(undirected := true))
  {
  }

  /** Without an empty catalog label, an untyped variable carrying an attribute never conforms. */
  lemma UntypedAttributesRejected(c: Catalog, rec: VarRecord)
    requires "" !in c && rec.labelName == "" && |rec.attributes| > 0
    ensures !Conforms(c, rec)
  {
  }

  /** Against a catalog read from schema records: a label passes when it is empty or some record declares it. */
  lemma LabelCheckDeclared(records: seq<SchemaRecord>, rec: VarRecord)
    requires CatalogOf(records).Success?
    ensures LabelMatches(CatalogOf(records).value, rec) <==>
      rec.labelName == "" || exists r :: r in records && r.labelName == rec.labelName
  {
    CatalogKeys(records);
  }

  /** A declared label passes the type check when every record declaring it has the variable's kind. */
  lemma TypeCheckDeclared(records: seq<SchemaRecord>, rec: VarRecord)
    requires CatalogOf(records).Success?
    requires IsBlank(rec.labelName) || rec.labelName in CatalogOf(records).value
    ensures TypeMatches(CatalogOf(records).value, rec) <==>
      IsBlank(rec.labelName) || forall r :: r in records && r.labelName == rec.labelName ==> KindOf(r) == rec.kind
  {
    CatalogKeys(records);
    CatalogKinds(records);
    if !IsBlank(rec.labelName) {
      var r :| r in records && r.labelName == rec.labelName;
    }
  }

  /**
   * The attribute check reads the first record carrying the label: each
   * attribute must be one that record declares. With no record carrying
   * the label, only a variable without attributes passes.
   */
  lemma AttributesCheckDeclared(records: seq<SchemaRecord>, rec: VarRecord)
    requires CatalogOf(records).Success?
    ensures forall i :: 0 <= i < |records| && FirstOfLabel(records, i) && records[i].labelName == rec.labelName ==>
      (AttributesMatch(CatalogOf(records).value, rec) <==>
        forall j :: 0 <= j < |rec.attributes| ==> rec.attributes[j] in records[i].attributes)
    ensures (forall r :: r in records ==> r.labelName != rec.labelName) ==>
      (AttributesMatch(CatalogOf(records).value, rec) <==> |rec.attributes| == 0)
  {
    CatalogKeys(records);
    CatalogFirstRecords(records);
  }

  /**
   * A typed relation passes the direction check when a record of its label
   * declares its (from, to) pair, or, once undirected, either orientation.
   */
  lemma DirectionCheckDeclared(records: seq<SchemaRecord>, rec: VarRecord)
    requires CatalogOf(records).Success? && DirectionReadable(CatalogOf(records).value, rec)
    ensures DirectionMatches(CatalogOf(records).value, rec) <==>
      IsBlank(rec.labelName) || rec.kind == Node ||
      var pairs := DeclaredPairs(records, rec.labelName);
      if rec.undirected then (rec.fromLabel, rec.toLabel) in pairs || (rec.toLabel, rec.fromLabel) in pairs
      else (rec.fromLabel, rec.toLabel) in pairs
  {
    CatalogPairs(records);
  }

  /** The repair guard holds for a typed, directed relation whose pair some record of its label declares in either orientation. */
  lemma RepairGuardDeclared(records: seq<SchemaRecord>, rec: VarRecord)
    requires CatalogOf(records).Success? && DirectionReadable(CatalogOf(records).value, rec)
    ensures Repairable(CatalogOf(records).value, rec) <==>
      && !IsBlank(rec.labelName) && rec.kind == Relation && !rec.undirected
      && var pairs := DeclaredPairs(records, rec.labelName);
         (rec.fromLabel, rec.toLabel) in pairs || (rec.toLabel, rec.fromLabel) in pairs
  {
    CatalogPairs(records);
  }

  /**
   * The verdict loop over `keys`: the first variable failing a check ends it
   * with `false`. A failed direction is repaired when the repair guard
   * allows: the relation is made undirected, then its bracket is looked up
   * in the query; a missing bracket raises, which ends the loop with `false`
   * and keeps the flag already set. The names whose rewrite happened are
   * returned either way.
   */
  function CheckFrom(c: Catalog, t: Table, keys: seq<string>, rewritable: set<string>): (r: (Table, bool, seq<string>))
    requires forall i :: 0 <= i < |keys| ==> keys[i] in t.vars
    decreases |keys|
  {
    if keys == [] then (t, true, [])
    else
      var k := keys[0];
      var rec := t.vars[k];
      if !BasicMatches(c, rec) then (t, false, [])
      else if DirectionMatches(c, rec) then CheckFrom(c, t, keys[1..], rewritable)
      else if !Repairable(c, rec) then (t, false, [])
      else
        var t1 := Put(t, k, rec.(undirected := true));
        if k !in rewritable then (t1, false, [])
        else
          var r := CheckFrom(c, t1, keys[1..], rewritable);
          (r.0, r.1, [k] + r.2)
  }

  /** The verdict loop over the whole table, in insertion order. */
  function Check(c: Catalog, t: Table, rewritable: set<string>): (Table, bool, seq<string>)
    requires WellFormed(t)
  {
    CheckFrom(c, t, t.order, rewritable)
  }

  /** A record the repair step rewrites: it passes the three checks, fails the direction check and may be repaired. */
  predicate NeedsRepair(c: Catalog, rec: VarRecord)
  {
    BasicMatches(c, rec) && !DirectionMatches(c, rec) && Repairable(c, rec)
  }

  /** The verdict loop from key `i` on: the checks on that key, then the loop from `i + 1`. */
  lemma CheckFromUnroll(c: Catalog, t: Table, keys: seq<string>, rewritable: set<string>, i: nat)
    requires i < |keys| && forall j :: 0 <= j < |keys| ==> keys[j] in t.vars
    ensures var k := keys[i];
      var rec := t.vars[k];
      var t1 := Put(t, k, rec.(undirected := true));
      CheckFrom(c, t, keys[i..], rewritable) ==
        if !Conforms(c, rec) then (t, false, [])
        else if DirectionMatches(c, rec) then CheckFrom(c, t, keys[i + 1..], rewritable)
        else if k !in rewritable then (t1, false, [])
        else
          var r := CheckFrom(c, t1, keys[i + 1..], rewritable);
          (r.0, r.1, [k] + r.2)
  {
    assert keys[i..][0] == keys[i] && keys[i..][1..] == keys[i + 1..];
  }

  /**
   * One step of the verdict loop seen from its outcome: `pass` and `fixed`
   * as the checks on key `i` report them, `t'` the table after those checks.
   */
  lemma CheckFromStep(c: Catalog, t: Table, keys: seq<string>, rewritable: set<string>, i: nat, t': Table, pass: bool, fixed: bool)
    requires i < |keys| && forall j :: 0 <= j < |keys| ==> keys[j] in t.vars
    requires var rec := t.vars[keys[i]];
      && pass == Passes(c, keys[i], rec, rewritable)
      && fixed == (pass && !DirectionMatches(c, rec))
      && t' == if NeedsRepair(c, rec) then Put(t, keys[i], rec.(undirected := true)) else t
    ensures t'.order == t.order && t'.vars.Keys == t.vars.Keys
    ensures !pass ==> CheckFrom(c, t, keys[i..], rewritable) == (t', false, [])
    ensures pass && !fixed ==> CheckFrom(c, t, keys[i..], rewritable) == CheckFrom(c, t', keys[i + 1..], rewritable)
    ensures pass && fixed ==> var r := CheckFrom(c, t', keys[i + 1..], rewritable);
      CheckFrom(c, t, keys[i..], rewritable) == (r.0, r.1, [keys[i]] + r.2)
  {
    CheckFromUnroll(c, t, keys, rewritable, i);
  }

  lemma DistinctTail(keys: seq<string>)
    requires Distinct(keys) && keys != []
    ensures Distinct(keys[1..]) && keys[0] !in keys[1..]
  {
  }

  /** The verdict is `true` exactly when every variable passes. */
  lemma {:induction false} CheckFromVerdict(c: Catalog, t: Table, keys: seq<string>, rewritable: set<string>)
    requires Distinct(keys) && forall i :: 0 <= i < |keys| ==> keys[i] in t.vars
    ensures CheckFrom(c, t, keys, rewritable).1 <==>
      forall i :: 0 <= i < |keys| ==> Passes(c, keys[i], t.vars[keys[i]], rewritable)
    decreases |keys|
  {
    if keys != [] {
      var k := keys[0];
      var rec := t.vars[k];
      var rest := keys[1..];
      DistinctTail(keys);
      assert (forall i :: 0 <= i < |keys| ==> Passes(c, keys[i], t.vars[keys[i]], rewritable)) <==>
        Passes(c, k, rec, rewritable) && forall i :: 0 <= i < |rest| ==> Passes(c, rest[i], t.vars[rest[i]], rewritable) by {
        forall i | 0 <= i < |rest| ensures rest[i] == keys[i + 1] { }
      }
      if BasicMatches(c, rec) && DirectionMatches(c, rec) {
        CheckFromVerdict(c, t, rest, rewritable);
      } else if BasicMatches(c, rec) && Repairable(c, rec) && k in rewritable {
        var t1 := Put(t, k, rec.(undirected := true));
        CheckFromVerdict(c, t1, rest, rewritable);
        assert forall i :: 0 <= i < |rest| ==> t1.vars[rest[i]] == t.vars[rest[i]];
      }
    }
  }

  /**
   * What the loop does to the table: it keeps the keys and their order; the
   * repaired names are keys needing a repair whose bracket is found, and
   * they are made undirected; any other record that changes is one needing
   * a repair whose bracket is missing, made undirected before the loop
   * stopped with `false`.
   */
  predicate RepairsOnly(c: Catalog, t: Table, keys: seq<string>, rewritable: set<string>, r: (Table, bool, seq<string>))
  {
    && r.0.order == t.order && r.0.vars.Keys == t.vars.Keys
    && (forall k :: k in r.2 ==>
          k in keys && k in rewritable && k in t.vars && NeedsRepair(c, t.vars[k])
          && r.0.vars[k] == t.vars[k].(undirected := true))
    && (forall k :: k in t.vars && k !in r.2 && r.0.vars[k] != t.vars[k] ==>
          !r.1 && k in keys && k !in rewritable && NeedsRepair(c, t.vars[k])
          && r.0.vars[k] == t.vars[k].(undirected := true))
  }

  /** The loop changes only the `undirected` flag, and only of records that need a repair. */
  lemma {:induction false} CheckFromRepairs(c: Catalog, t: Table, keys: seq<string>, rewritable: set<string>)
    requires Distinct(keys) && forall i :: 0 <= i < |keys| ==> keys[i] in t.vars
    ensures RepairsOnly(c, t, keys, rewritable, CheckFrom(c, t, keys, rewritable))
    decreases |keys|, 1
  {
    if keys != [] {
      var rec := t.vars[keys[0]];
      if BasicMatches(c, rec) && DirectionMatches(c, rec) {
        DistinctTail(keys);
        CheckFromRepairs(c, t, keys[1..], rewritable);
        RepairsOnlyWiden(c, t, keys, rewritable, CheckFrom(c, t, keys[1..], rewritable));
      } else if BasicMatches(c, rec) && Repairable(c, rec) {
        RepairThenRest(c, t, keys, rewritable);
      }
    }
  }

  /** What holds of the loop over the later keys holds of the loop over all of them. */
  lemma RepairsOnlyWiden(c: Catalog, t: Table, keys: seq<string>, rewritable: set<string>, r: (Table, bool, seq<string>))
    requires keys != [] && RepairsOnly(c, t, keys[1..], rewritable, r)
    ensures RepairsOnly(c, t, keys, rewritable, r)
  {
    assert forall k :: k in keys[1..] ==> k in keys;
  }

  /** The case where the first variable needs a repair: its flag is set, then the others are checked if its bracket is found. */
  lemma {:induction false} RepairThenRest(c: Catalog, t: Table, keys: seq<string>, rewritable: set<string>)
    requires Distinct(keys) && forall i :: 0 <= i < |keys| ==> keys[i] in t.vars
    requires keys != [] && NeedsRepair(c, t.vars[keys[0]])
    ensures RepairsOnly(c, t, keys, rewritable, CheckFrom(c, t, keys, rewritable))
    decreases |keys|, 0
  {
    var k := keys[0];
    var rec := t.vars[k];
    var rest := keys[1..];
    DistinctTail(keys);
    var t1 := Put(t, k, rec.(undirected := true));
    if k !in rewritable {
      assert CheckFrom(c, t, keys, rewritable) == (t1, false, []);
      forall j | j in t.vars && t1.vars[j] != t.vars[j] ensures j == k { }
    } else {
      CheckFromRepairs(c, t1, rest, rewritable);
      var r1 := CheckFrom(c, t1, rest, rewritable);
      assert CheckFrom(c, t, keys, rewritable) == (r1.0, r1.1, [k] + r1.2);
      forall j | j in r1.2 ensures j in rest && j != k && t1.vars[j] == t.vars[j] {
        assert j in rest;
      }
      forall j | j in t.vars && j !in [k] + r1.2 && r1.0.vars[j] != t.vars[j]
        ensures !r1.1 && j in keys && j !in rewritable && NeedsRepair(c, t.vars[j])
          && r1.0.vars[j] == t.vars[j].(undirected := true)
      {
        assert j != k && t1.vars[j] == t.vars[j];
        assert j in rest;
      }
    }
  }

  /** The verdict loop keeps the table well formed. */
  lemma CheckWellFormed(c: Catalog, t: Table, rewritable: set<string>)
    requires WellFormed(t)
    ensures WellFormed(Check(c, t, rewritable).0)
  {
    CheckFromRepairs(c, t, t.order, rewritable);
  }

  /** After a `true` verdict every variable passes all four checks, the repaired relations included. */
  lemma {:induction false} CheckFromConformant(c: Catalog, t: Table, keys: seq<string>, rewritable: set<string>)
    requires Distinct(keys) && forall i :: 0 <= i < |keys| ==> keys[i] in t.vars
    ensures var r := CheckFrom(c, t, keys, rewritable);
      r.1 ==> forall i :: 0 <= i < |keys| ==>
        keys[i] in r.0.vars && BasicMatches(c, r.0.vars[keys[i]]) && DirectionMatches(c, r.0.vars[keys[i]])
    decreases |keys|
  {
    if keys != [] {
      var k := keys[0];
      var rec := t.vars[k];
      var rest := keys[1..];
      DistinctTail(keys);
      if BasicMatches(c, rec) && DirectionMatches(c, rec) {
        CheckFromConformant(c, t, rest, rewritable);
        CheckFromRepairs(c, t, rest, rewritable);
        forall i | 0 <= i < |rest| ensures rest[i] == keys[i + 1] { }
      } else if BasicMatches(c, rec) && Repairable(c, rec) && k in rewritable {
        var t1 := Put(t, k, rec.(undirected := true));
        CheckFromConformant(c, t1, rest, rewritable);
        CheckFromRepairs(c, t1, rest, rewritable);
        RepairPassesDirection(c, rec);
        forall i | 0 <= i < |rest| ensures rest[i] == keys[i + 1] { }
      }
    }
  }
}
