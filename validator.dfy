/**
 * The validator object: the schema catalog, the symbol table
 * `variables_dic` and the counter `num_var`, updated in place by the
 * extraction passes, and the verdict of `schema_valid`.
 */
module Validator {
  import opened Text
  import opened Wrappers
  import opened Schema
  import opened Symbols
  import opened Fragments
  import opened Extraction
  import opened Aliases
  import opened Attributes
  import opened Matching
  import opened ReturnList

  /** What `schema_valid` leaves in the object and returns; the direction rewrites are given by the repaired names. */
  datatype Outcome = Outcome(table: Table, numVar: nat, query: string, valid: bool, repaired: seq<string>)

  /** The node pass keeps the table well formed. */
  lemma NodesFoldWellFormed(s: State, defs: seq<string>)
    requires NodeDefinitions(defs) && WellFormed(s.table)
    ensures WellFormed(NodesFold(s, defs).table)
  {
    NodesFoldTable(s, defs);
    PutAllWellFormed(s.table, NodeEntries(defs, s.numVar));
  }

  /** The table after the second alias pass and a successful attribute pass, before the verdict loop. */
  function Collected(query: string, defs: seq<string>, ms: seq<RelationMatch>, refs: seq<Reference>): (r: (State, State, bool, Table, bool))
    requires NodeDefinitions(defs)
    ensures r.2 && r.4 ==> WellFormed(r.3)
  {
    var s1 := NodesFold(State(EmptyTable, 0, query), defs);
    NodesFoldWellFormed(State(EmptyTable, 0, query), defs);
    var s2 := s1.(table := AliasPass(s1.table, Words(s1.query)));
    AliasFromPreserves(s1.table, Words(s1.query), 1);
    var (s3, ok3) := RelationsFold(s2, ms);
    RelationsFoldWellFormed(s2, ms);
    var t4 := AliasPass(s3.table, Words(s3.query));
    AliasFromPreserves(s3.table, Words(s3.query), 1);
    var (t5, ok5) := CollectAll(t4, refs);
    CollectAllFrame(t4, refs);
    (s1, s3, ok3, t5, ok5)
  }

  /**
   * `schema_valid`: reset the table, run the node pass, an alias pass, the
   * relation pass, a second alias pass, the attribute pass and the verdict
   * loop. A failed lookup during the relation or attribute pass makes the
   * verdict `false` and leaves the table as far as it got; the returned query
   * is the one last assigned before the failure. `rewritable` holds the
   * relation names whose bracket the repair step finds in the query.
   */
  function SchemaValidSpec(c: Catalog, query: string, defs: seq<string>, ms: seq<RelationMatch>, refs: seq<Reference>, rewritable: set<string>): Outcome
    requires NodeDefinitions(defs)
  {
    var (s1, s3, ok3, t5, ok5) := Collected(query, defs, ms, refs);
    if !ok3 then Outcome(s3.table, s3.numVar, s1.query, false, [])
    else if !ok5 then Outcome(t5, s3.numVar, s3.query, false, [])
    else
      var (t6, valid, repaired) := Check(c, t5, rewritable);
      Outcome(t6, s3.numVar, s3.query, valid, repaired)
  }

  /**
   * A `true` verdict means every relation endpoint and every attribute
   * reference resolved, and every variable left in the table passes the
   * label, type, attribute and direction checks, repaired relations included.
   */
  lemma SchemaValidSound(c: Catalog, query: string, defs: seq<string>, ms: seq<RelationMatch>, refs: seq<Reference>, rewritable: set<string>)
    requires NodeDefinitions(defs)
    ensures var o := SchemaValidSpec(c, query, defs, ms, refs, rewritable);
      var (s1, s3, ok3, t5, ok5) := Collected(query, defs, ms, refs);
      o.valid ==>
        && ok3 && ok5
        && (forall i :: 0 <= i < |refs| ==> Known(AliasPass(s3.table, Words(s3.query)), refs[i]))
        && (forall k :: k in o.table.vars ==> BasicMatches(c, o.table.vars[k]) && DirectionMatches(c, o.table.vars[k]))
  {
    var o := SchemaValidSpec(c, query, defs, ms, refs, rewritable);
    var (s1, s3, ok3, t5, ok5) := Collected(query, defs, ms, refs);
    if o.valid {
      var t4 := AliasPass(s3.table, Words(s3.query));
      CollectAllSucceeds(t4, refs);
      CheckFromConformant(c, t5, t5.order, rewritable);
      CheckFromRepairs(c, t5, t5.order, rewritable);
      forall k | k in o.table.vars ensures BasicMatches(c, o.table.vars[k]) && DirectionMatches(c, o.table.vars[k]) {
        assert k in t5.order;
        var i :| 0 <= i < |t5.order| && t5.order[i] == k;
      }
    }
  }

  /**
   * The verdict is `true` exactly when both lookup passes succeed and every
   * variable passes the checks, with the bracket of each relation needing a
   * repair found in the query.
   */
  lemma SchemaValidVerdict(c: Catalog, query: string, defs: seq<string>, ms: seq<RelationMatch>, refs: seq<Reference>, rewritable: set<string>)
    requires NodeDefinitions(defs)
    ensures var (s1, s3, ok3, t5, ok5) := Collected(query, defs, ms, refs);
      SchemaValidSpec(c, query, defs, ms, refs, rewritable).valid <==>
        ok3 && ok5 && forall k :: k in t5.vars ==> Passes(c, k, t5.vars[k], rewritable)
  {
    var (s1, s3, ok3, t5, ok5) := Collected(query, defs, ms, refs);
    if ok3 && ok5 {
      CheckFromVerdict(c, t5, t5.order, rewritable);
      assert (forall k :: k in t5.vars ==> Passes(c, k, t5.vars[k], rewritable)) <==>
        forall i :: 0 <= i < |t5.order| ==> Passes(c, t5.order[i], t5.vars[t5.order[i]], rewritable) by {
        forall k | k in t5.vars ensures exists i :: 0 <= i < |t5.order| && t5.order[i] == k {
          assert k in t5.order;
        }
      }
    }
  }

  /** The Relation-typed variables of the table. */
  function RelationKeys(vars: map<string, VarRecord>): set<string>
  {
    set k | k in vars && vars[k].kind == Relation
  }

  /** The Relation-typed variables among `keys`, counted one by one. */
  function CountRelationsIn(vars: map<string, VarRecord>, keys: seq<string>): nat
    requires forall i :: 0 <= i < |keys| ==> keys[i] in vars
    decreases |keys|
  {
    if keys == [] then 0
    else (if vars[keys[0]].kind == Relation then 1 else 0) + CountRelationsIn(vars, keys[1..])
  }

  /** The Relation-typed variables among `keys`. */
  function RelationsAmong(vars: map<string, VarRecord>, keys: seq<string>): set<string>
  {
    set k | k in keys && k in vars && vars[k].kind == Relation
  }

  /** Counting over keys listed once counts the Relation-typed ones among them. */
  lemma {:induction false} CountRelationsInSet(vars: map<string, VarRecord>, keys: seq<string>)
    requires Distinct(keys) && forall i :: 0 <= i < |keys| ==> keys[i] in vars
    ensures CountRelationsIn(vars, keys) == |RelationsAmong(vars, keys)|
    decreases |keys|
  {
    if keys != [] {
      var rest := keys[1..];
      DistinctTail(keys);
      CountRelationsInSet(vars, rest);
      RelationsAmongCons(vars, keys);
    }
  }

  /** The first key joins the Relation-typed ones of the others exactly when it is one. */
  lemma RelationsAmongCons(vars: map<string, VarRecord>, keys: seq<string>)
    requires keys != [] && keys[0] in vars
    ensures RelationsAmong(vars, keys) ==
      RelationsAmong(vars, keys[1..]) + (if vars[keys[0]].kind == Relation then {keys[0]} else {})
  {
    assert forall k :: k in keys <==> k == keys[0] || k in keys[1..];
  }

  class CypherValidator {
    const schema: Catalog
    var order: seq<string>
    var vars: map<string, VarRecord>
    var numVar: nat

    /** `variables_dic` with its insertion order. */
    function Variables(): Table
      reads this
    {
      Table(order, vars)
    }

    predicate Valid()
      reads this
    {
      WellFormed(Variables())
    }

    /** A validator over an already-built catalog, with an empty symbol table. */
    constructor(c: Catalog)
      ensures schema == c && Variables() == EmptyTable && numVar == 0 && Valid()
    {
      schema := c;
      order := [];
      vars := map[];
      numVar := 0;
    }

    /** `__initialzie_variabe_dict` */
    method InitializeVariableDict()
      modifies this
      ensures Variables() == EmptyTable && numVar == 0 && Valid()
    {
      order := [];
      vars := map[];
      numVar := 0;
    }

    /** `variables_dic[k] = v` */
    method PutVariable(k: string, v: VarRecord)
      modifies this
      ensures Variables() == Put(old(Variables()), k, v) && numVar == old(numVar)
    {
      if k !in vars {
        order := order + [k];
      }
      vars := vars[k := v];
    }

    /** One pass of `__create_node_variables_dict`'s loop: a single node definition. */
    method AddNodeDefinition(query: string, f: string) returns (q: string)
      requires ':' in Body(f)
      modifies this
      ensures State(Variables(), numVar, q) == NodeStep(State(old(Variables()), old(numVar), query), f)
    {
      var p := ParseFragment(f, Node, numVar);
      q := query;
      if p.synthesized {
        q := ReplaceFirst(query, f, NameInserted(f, p.name));
      }
      PutVariable(p.name, NewRecord(Node, p.labelName, p.attributes));
      numVar := numVar + 1;
    }

    /** `__create_node_variables_dict` */
    method CreateNodeVariables(query: string, defs: seq<string>) returns (q: string)
      requires NodeDefinitions(defs) && Valid()
      modifies this
      ensures State(Variables(), numVar, q) == NodesFold(State(old(Variables()), old(numVar), query), defs)
      ensures Valid()
    {
      NodesFoldWellFormed(State(Variables(), numVar, query), defs);
      q := query;
      var i := 0;
      while i < |defs|
        invariant 0 <= i <= |defs|
        invariant NodeDefinitions(defs[i..])
        invariant NodesFold(State(old(Variables()), old(numVar), query), defs) == NodesFold(State(Variables(), numVar, q), defs[i..])
      {
        NodesFoldUnroll(State(Variables(), numVar, q), defs, i);
        q := AddNodeDefinition(q, defs[i]);
        i := i + 1;
      }
    }

    /** `__add_alias_variable` */
    method AddAliasVariable(query: string)
      requires Valid()
      modifies this
      ensures Variables() == AliasPass(old(Variables()), Words(query)) && numVar == old(numVar)
      ensures Valid()
    {
      AliasFromPreserves(Variables(), Words(query), 1);
      var toks := Words(query);
      var i := 1;
      while i < |toks| - 1
        invariant 1 <= i
        invariant AliasPass(old(Variables()), toks) == AliasFrom(Variables(), toks, i)
        invariant numVar == old(numVar)
        decreases |toks| - i
      {
        var t := Variables();
        if IsAliasKeyword(toks[i]) && '.' !in toks[i - 1] {
          var before := toks[i - 1];
          var after := RemoveChar(toks[i + 1], ',');
          if before in vars {
            PutVariable(after, vars[before]);
            PutVariable(before, vars[before].(alias := after));
            PutVariable(after, vars[after].(alias := before));
          }
        }
        assert Variables() == AliasAt(t, toks, i);
        i := i + 1;
      }
    }

    /** `__extract_relation_variable`: record the relation bracket's variable and count it. */
    method ExtractRelationVariable(query: string, relation: string) returns (q: string, name: string)
      modifies this
      ensures var d := Declaration(relation, Relation, old(numVar));
        && name == d.0
        && Variables() == Put(old(Variables()), d.0, d.1)
        && numVar == old(numVar) + 1
        && q == NamedQuery(query, relation, Relation, old(numVar))
    {
      var p := ParseFragment(relation, Relation, numVar);
      q := query;
      if p.synthesized {
        q := ReplaceFirst(query, relation, NameInserted(relation, p.name));
      }
      name := p.name;
      PutVariable(name, NewRecord(Relation, p.labelName, p.attributes));
      numVar := numVar + 1;
    }

    /** The endpoint assignments of `__extract_relation_info`; `false` where `__extract_node_variable` raises. */
    method WireEndpoints(name: string, first: string, second: string) returns (ok: bool)
      requires name in vars
      modifies this
      ensures (Variables(), ok) == Wire(old(Variables()), name, first, second) && numVar == old(numVar)
    {
      var from := Endpoint(first, vars);
      if from.None? {
        return false;
      }
      PutVariable(name, vars[name].(fromVariable := from.value.0, fromLabel := from.value.1));
      var to := Endpoint(second, vars);
      if to.None? {
        return false;
      }
      PutVariable(name, vars[name].(toVariable := to.value.0, toLabel := to.value.1));
      return true;
    }

    /** `__extract_relation_info` on one isolated triple. */
    method ExtractRelationInfo(query: string, m: RelationMatch) returns (q: string, ok: bool)
      modifies this
      ensures (State(Variables(), numVar, q), ok) == RelationStep(State(old(Variables()), old(numVar), query), m)
    {
      ghost var s0 := State(Variables(), numVar, query);
      ghost var d := Declaration(m.relation, Relation, numVar);
      ghost var e := RelationEntry(m, numVar);
      assert e == (d.0, d.1.(undirected := m.leftEdge == "-" && m.rightEdge == "-"));
      var name;
      q, name := ExtractRelationVariable(query, m.relation);
      PutVariable(name, vars[name].(undirected := m.leftEdge == "-" && m.rightEdge == "-"));
      PutTwice(s0.table, d.0, d.1, e.1);
      var first, second := m.leftNode, m.rightNode;
      if m.leftEdge != "-" {
        first, second := m.rightNode, m.leftNode;
      }
      assert (first, second) == Ends(m);
      RelationStepWire(s0, m);
      ok := WireEndpoints(name, first, second);
    }

    /** `__create_relation_variables_dict`: stops with `false` at the first triple whose endpoint lookup raises. */
    method CreateRelationVariables(query: string, ms: seq<RelationMatch>) returns (q: string, ok: bool)
      requires Valid()
      modifies this
      ensures (State(Variables(), numVar, q), ok) == RelationsFold(State(old(Variables()), old(numVar), query), ms)
      ensures Valid()
    {
      RelationsFoldWellFormed(State(Variables(), numVar, query), ms);
      q := query;
      var i := 0;
      while i < |ms|
        invariant 0 <= i <= |ms|
        invariant RelationsFold(State(old(Variables()), old(numVar), query), ms) == RelationsFold(State(Variables(), numVar, q), ms[i..])
      {
        RelationsFoldUnroll(State(Variables(), numVar, q), ms, i);
        q, ok := ExtractRelationInfo(q, ms[i]);
        if !ok {
          return;
        }
        i := i + 1;
      }
      ok := true;
    }

    /** `__update_attribute`: `false` where an undefined variable raises. */
    method UpdateAttribute(refs: seq<Reference>) returns (ok: bool)
      requires Valid()
      modifies this
      ensures (Variables(), ok) == CollectAll(old(Variables()), refs) && numVar == old(numVar)
      ensures Valid()
    {
      CollectAllWellFormed(Variables(), refs);
      var i := 0;
      while i < |refs|
        invariant 0 <= i <= |refs|
        invariant CollectAll(old(Variables()), refs) == CollectAll(Variables(), refs[i..])
        invariant numVar == old(numVar)
      {
        var r := refs[i];
        assert refs[i..][1..] == refs[i + 1..];
        if r.variable in vars {
          PutVariable(r.variable, vars[r.variable].(attributes := vars[r.variable].attributes + [r.attribute]));
        } else if Lower(r.variable) !in DatatypeList {
          ok := false;
          return;
        }
        i := i + 1;
      }
      ok := true;
    }

    /**
     * One pass of the verdict loop: the checks on variable `k`, making it
     * undirected where the repair applies; `false` where the repaired
     * relation's bracket is not in `rewritable`, after the flag is set.
     */
    method CheckVariable(k: string, rewritable: set<string>) returns (pass: bool, fixed: bool)
      requires k in vars
      modifies this
      ensures var rec := old(vars[k]);
        && pass == Passes(schema, k, rec, rewritable)
        && fixed == (pass && !DirectionMatches(schema, rec))
        && Variables() == (if NeedsRepair(schema, rec) then Put(old(Variables()), k, rec.(undirected := true)) else old(Variables()))
        && numVar == old(numVar)
    {
      var rec := vars[k];
      if !BasicMatches(schema, rec) {
        return false, false;
      }
      if DirectionMatches(schema, rec) {
        return true, false;
      }
      if !Repairable(schema, rec) {
        return false, false;
      }
      PutVariable(k, rec.(undirected := true));
      if k !in rewritable {
        return false, false;
      }
      return true, true;
    }

    /** The verdict loop of `schema_valid`, stopping at the first variable that fails. */
    method CheckVariables(rewritable: set<string>) returns (valid: bool, repaired: seq<string>)
      requires Valid()
      modifies this
      ensures (Variables(), valid, repaired) == Check(schema, old(Variables()), rewritable) && numVar == old(numVar)
      ensures Valid()
    {
      ghost var t0 := Variables();
      CheckWellFormed(schema, t0, rewritable);
      repaired := [];
      var i := 0;
      var keys := order;
      ghost var goal := CheckFrom(schema, Variables(), keys, rewritable);
      assert keys[0..] == keys && repaired + goal.2 == goal.2;
      assert WellFormed(goal.0);
      while i < |keys|
        invariant 0 <= i <= |keys| && order == keys
        invariant forall j :: 0 <= j < |keys| ==> keys[j] in vars
        invariant var r := CheckFrom(schema, Variables(), keys[i..], rewritable);
          goal == (r.0, r.1, repaired + r.2)
        invariant numVar == old(numVar)
      {
        var k := keys[i];
        ghost var t := Variables();
        var pass, fixed := CheckVariable(k, rewritable);
        CheckFromStep(schema, t, keys, rewritable, i, Variables(), pass, fixed);
        if !pass {
          assert repaired + [] == repaired;
          return false, repaired;
        }
        if fixed {
          ghost var r := CheckFrom(schema, Variables(), keys[i + 1..], rewritable);
          assert repaired + ([k] + r.2) == (repaired + [k]) + r.2;
          repaired := repaired + [k];
        }
        i := i + 1;
      }
      assert keys[i..] == [] && repaired + [] == repaired;
      valid := true;
    }

    /** `schema_valid`, over the fragments, relation triples and references the query yields. */
    method SchemaValid(query: string, defs: seq<string>, ms: seq<RelationMatch>, refs: seq<Reference>, rewritable: set<string>)
      returns (q: string, valid: bool, repaired: seq<string>)
      requires NodeDefinitions(defs)
      modifies this
      ensures Outcome(Variables(), numVar, q, valid, repaired) == SchemaValidSpec(schema, query, defs, ms, refs, rewritable)
      ensures Valid()
    {
      InitializeVariableDict();
      q := CreateNodeVariables(query, defs);
      AddAliasVariable(q);
      var q3, ok3 := CreateRelationVariables(q, ms);
      repaired := [];
      if !ok3 {
        valid := false;
        return;
      }
      q := q3;
      AddAliasVariable(q);
      var ok5 := UpdateAttribute(refs);
      if !ok5 {
        valid := false;
        return;
      }
      assert Variables() == Collected(query, defs, ms, refs).3;
      valid, repaired := CheckVariables(rewritable);
    }

    /** `count_relations`: `None` where the empty table raises. */
    method CountRelations() returns (r: Option<nat>)
      requires Valid()
      ensures r.None? <==> vars == map[]
      ensures r.Some? ==> r.value == |RelationKeys(vars)|
    {
      if |order| == 0 {
        return None;
      }
      var count := 0;
      var i := 0;
      while i < |order|
        invariant 0 <= i <= |order|
        invariant count + CountRelationsIn(vars, order[i..]) == CountRelationsIn(vars, order)
      {
        assert order[i..][1..] == order[i + 1..];
        if vars[order[i]].kind == Relation {
          count := count + 1;
        }
        i := i + 1;
      }
      CountRelationsInSet(vars, order);
      assert RelationsAmong(vars, order) == RelationKeys(vars);
      return Some(count);
    }

    /** `include_all_variable` on the RETURN text. */
    method IncludeAllVariable(text: string) returns (r: string)
      requires Valid()
      ensures r == Join(IncludeFrom(vars, order, Dedupe(ReturnItems(text))), ", ")
    {
      var names := DedupeNames(ReturnItems(text));
      var keys, table := order, vars;
      assert forall j :: 0 <= j < |keys| ==> keys[j] in table;
      ghost var goal := IncludeFrom(table, keys, names);
      var i := 0;
      while i < |keys|
        invariant 0 <= i <= |keys|
        invariant goal == IncludeFrom(table, keys[i..], names)
      {
        var k := keys[i];
        IncludeFromUnroll(table, keys, i, names);
        var a := table[k].alias;
        if a != "" {
          if k !in names && a !in names {
            names := [k] + names;
          }
        } else if k !in names {
          names := [k] + names;
        }
        i := i + 1;
      }
      r := Join(names, ", ");
    }
  }
}
