/**
 * Building the symbol table from the extracted fragments: one step per node
 * definition and one per isolated relation triple, each as the validator
 * runs it, plus the folds over all of them.
 */
module Extraction {
  import opened Text
  import opened Wrappers
  import opened Schema
  import opened Symbols
  import opened Fragments

  /** The symbol table, the `num_var` counter and the query text as extraction rewrites it. */
  datatype State = State(table: Table, numVar: nat, query: string)

  /** Every node definition carries a colon inside its parentheses, as the node-definition pattern demands. */
  predicate NodeDefinitions(defs: seq<string>)
  {
    forall i :: 0 <= i < |defs| ==> ':' in Body(defs[i])
  }

  /** The variable a fragment of the given kind declares at counter value `n`, with its fresh record. */
  function Declaration(f: string, kind: Kind, n: nat): (e: (string, VarRecord))
    requires kind == Node ==> ':' in Body(f)
  {
    var p := ParseFragment(f, kind, n);
    (p.name, NewRecord(kind, p.labelName, p.attributes))
  }

  /** The assignment one node definition makes, given the counter value it meets. */
  function NodeEntry(f: string, n: nat): (e: (string, VarRecord))
    requires ':' in Body(f)
  {
    Declaration(f, Node, n)
  }

  /**
   * The query after one fragment of the given kind is parsed at counter value
   * `n`: a synthesized name is written into the first occurrence of the fragment.
   */
  function NamedQuery(query: string, f: string, kind: Kind, n: nat): string
    requires kind == Node ==> ':' in Body(f)
  {
    var p := ParseFragment(f, kind, n);
    if p.synthesized then ReplaceFirst(query, f, NameInserted(f, p.name)) else query
  }

  /** One node definition: parse it, write a synthesized name into the query, record the node, count it. */
  function NodeStep(s: State, f: string): (s': State)
    requires ':' in Body(f)
  {
    var e := NodeEntry(f, s.numVar);
    State(Put(s.table, e.0, e.1), s.numVar + 1, NamedQuery(s.query, f, Node, s.numVar))
  }

  function NodesFold(s: State, defs: seq<string>): (s': State)
    requires NodeDefinitions(defs)
    decreases |defs|
  {
    if defs == [] then s else NodesFold(NodeStep(s, defs[0]), defs[1..])
  }

  /** Every definition from `i` on carries a colon. */
  lemma NodeDefinitionsFrom(defs: seq<string>, i: nat)
    requires NodeDefinitions(defs) && i <= |defs|
    ensures NodeDefinitions(defs[i..])
  {
    forall j | 0 <= j < |defs| - i ensures ':' in Body(defs[i..][j]) {
      assert defs[i..][j] == defs[i + j];
    }
  }

  /** The node pass from definition `i` on takes one step, then goes on from `i + 1`. */
  lemma NodesFoldUnroll(s: State, defs: seq<string>, i: nat)
    requires NodeDefinitions(defs) && i < |defs|
    ensures NodeDefinitions(defs[i..]) && NodeDefinitions(defs[i + 1..])
    ensures NodesFold(s, defs[i..]) == NodesFold(NodeStep(s, defs[i]), defs[i + 1..])
  {
    NodeDefinitionsFrom(defs, i);
    NodeDefinitionsFrom(defs, i + 1);
    assert defs[i..][0] == defs[i] && defs[i..][1..] == defs[i + 1..];
  }

  /** The assignments of the whole node pass: the `i`-th definition meets counter value `n + i`. */
  function NodeEntries(defs: seq<string>, n: nat): (es: seq<(string, VarRecord)>)
    requires NodeDefinitions(defs)
  {
    seq(|defs|, i requires 0 <= i < |defs| => NodeEntry(defs[i], n + i))
  }

  /** Splitting off the first definition of the node pass. */
  lemma NodeEntriesTail(defs: seq<string>, n: nat)
    requires NodeDefinitions(defs) && defs != []
    ensures NodeDefinitions(defs[1..])
    ensures NodeEntries(defs, n)[0] == NodeEntry(defs[0], n)
    ensures NodeEntries(defs, n)[1..] == NodeEntries(defs[1..], n + 1)
  {
    var rest := defs[1..];
    assert NodeDefinitions(rest) by {
      forall i | 0 <= i < |rest| ensures ':' in Body(rest[i]) { assert rest[i] == defs[i + 1]; }
    }
    var es := NodeEntries(defs, n);
    var tail := NodeEntries(rest, n + 1);
    forall i | 0 <= i < |rest| ensures es[1..][i] == tail[i] {
      assert rest[i] == defs[i + 1];
    }
  }

  /**
   * The node pass makes exactly the assignments of `NodeEntries` and counts one
   * per definition; with `PutAllKeys`, `PutAllLastWriter` and `PutAllUntouched`
   * this says which keys result and which record each name ends with.
   */
  lemma {:induction false} NodesFoldTable(s: State, defs: seq<string>)
    requires NodeDefinitions(defs)
    ensures NodesFold(s, defs).table == PutAll(s.table, NodeEntries(defs, s.numVar))
    ensures NodesFold(s, defs).numVar == s.numVar + |defs|
    decreases |defs|
  {
    if defs != [] {
      NodeEntriesTail(defs, s.numVar);
      var s1 := NodeStep(s, defs[0]);
      var es := NodeEntries(defs, s.numVar);
      var tail := NodeEntries(defs[1..], s1.numVar);
      NodesFoldTable(s1, defs[1..]);
      assert NodesFold(s, defs) == NodesFold(s1, defs[1..]);
      assert s1.table == Put(s.table, es[0].0, es[0].1);
      PutAllFirst(s.table, es);
      assert s1.numVar == s.numVar + 1;
      assert es[1..] == tail;
      calc {
        NodesFold(s, defs).table;
        NodesFold(s1, defs[1..]).table;
        PutAll(s1.table, tail);
        PutAll(Put(s.table, es[0].0, es[0].1), es[1..]);
        PutAll(s.table, es);
      }
    } else {
      assert |NodeEntries(defs, s.numVar)| == 0;
    }
  }

  /** One isolated relation triple: `left node, left edge, relation bracket, right edge, right node`. */
  datatype RelationMatch = RelationMatch(
    leftNode: string, leftEdge: string, relation: string, rightEdge: string, rightNode: string)

  /** The endpoint read as `from` and the one read as `to`: the left node unless the left edge carries the arrowhead. */
  function Ends(m: RelationMatch): (string, string)
  {
    if m.leftEdge == "-" then (m.leftNode, m.rightNode) else (m.rightNode, m.leftNode)
  }

  /** The assignment a relation triple makes before its endpoints are looked up: `undirected` when neither edge has an arrowhead. */
  function RelationEntry(m: RelationMatch, n: nat): (string, VarRecord)
  {
    var d := Declaration(m.relation, Relation, n);
    (d.0, d.1.(undirected := m.leftEdge == "-" && m.rightEdge == "-"))
  }

  /**
   * Filling in the endpoints of relation `name`: look up `from`, store it,
   * then look up `to` and store it. A lookup of an unknown node raises: the
   * wiring stops there with `false`, keeping what it has written so far.
   */
  function Wire(t: Table, name: string, first: string, second: string): (r: (Table, bool))
    requires name in t.vars
  {
    match Endpoint(first, t.vars)
    case None => (t, false)
    case Some(from) =>
      var t1 := Put(t, name, t.vars[name].(fromVariable := from.0, fromLabel := from.1));
      match Endpoint(second, t1.vars)
      case None => (t1, false)
      case Some(to) => (Put(t1, name, t1.vars[name].(toVariable := to.0, toLabel := to.1)), true)
  }

  /**
   * One relation triple: parse the bracket, write a synthesized name into the
   * query, record the relation, count it, then wire its endpoints.
   */
  function RelationStep(s: State, m: RelationMatch): (r: (State, bool))
  {
    var e := RelationEntry(m, s.numVar);
    var t := Put(s.table, e.0, e.1);
    var (first, second) := Ends(m);
    var (t', ok) := Wire(t, e.0, first, second);
    (State(t', s.numVar + 1, NamedQuery(s.query, m.relation, Relation, s.numVar)), ok)
  }

  /** A relation step is the recording of the bracket followed by the wiring of its ends. */
  lemma RelationStepWire(s: State, m: RelationMatch)
    ensures var e := RelationEntry(m, s.numVar);
      var w := Wire(Put(s.table, e.0, e.1), e.0, Ends(m).0, Ends(m).1);
      RelationStep(s, m) == (State(w.0, s.numVar + 1, NamedQuery(s.query, m.relation, Relation, s.numVar)), w.1)
  {
  }

  function RelationsFold(s: State, ms: seq<RelationMatch>): (r: (State, bool))
    decreases |ms|
  {
    if ms == [] then (s, true)
    else
      var (s1, ok) := RelationStep(s, ms[0]);
      if ok then RelationsFold(s1, ms[1..]) else (s1, false)
  }

  /** The relation pass from triple `i` on takes one step, then stops or goes on from `i + 1`. */
  lemma RelationsFoldUnroll(s: State, ms: seq<RelationMatch>, i: nat)
    requires i < |ms|
    ensures var (s1, ok) := RelationStep(s, ms[i]);
      RelationsFold(s, ms[i..]) == if ok then RelationsFold(s1, ms[i + 1..]) else (s1, false)
  {
    assert ms[i..][0] == ms[i] && ms[i..][1..] == ms[i + 1..];
  }

  /**
   * Wiring succeeds exactly when both endpoints name known variables; it then
   * changes only the relation's record, setting `from` and `to` to the
   * endpoints' names and their labels. It never adds or drops a key.
   */
  lemma WireResult(t: Table, name: string, first: string, second: string)
    requires name in t.vars
    ensures var (t', ok) := Wire(t, name, first, second);
      && t'.order == t.order
      && t'.vars.Keys == t.vars.Keys
      && (ok <==> EndpointName(first) in t.vars && EndpointName(second) in t.vars)
      && (ok ==> var a := EndpointName(first); var b := EndpointName(second);
           t'.vars == t.vars[name := t.vars[name].(fromVariable := a, fromLabel := t.vars[a].labelName,
                                                  toVariable := b, toLabel := t.vars[b].labelName)])
  {
  }

  /** Wiring keeps the table's keys listed once, in insertion order. */
  lemma WireWellFormed(t: Table, name: string, first: string, second: string)
    requires name in t.vars && WellFormed(t)
    ensures WellFormed(Wire(t, name, first, second).0)
  {
  }

  /**
   * What a successful relation step records under the relation's name:
   * `undirected` exactly when both edges are plain `-`; `from` is the left
   * node when the left edge is plain and the right node otherwise, `to` the
   * other one; both labels are read from the nodes' records. The step fails
   * exactly when an endpoint names no variable known once the relation is
   * recorded, and it counts the relation either way.
   */
  lemma RelationStepRecord(s: State, m: RelationMatch)
    ensures var e := RelationEntry(m, s.numVar);
      var t := s.table.vars[e.0 := e.1];
      var (s', ok) := RelationStep(s, m);
      var a := EndpointName(if m.leftEdge == "-" then m.leftNode else m.rightNode);
      var b := EndpointName(if m.leftEdge == "-" then m.rightNode else m.leftNode);
      && s'.numVar == s.numVar + 1
      && s'.table.vars.Keys == t.Keys
      && (ok <==> a in t && b in t)
      && (ok ==> s'.table.vars == t[e.0 := e.1.(fromVariable := a, fromLabel := t[a].labelName,
                                                 toVariable := b, toLabel := t[b].labelName)])
  {
    var e := RelationEntry(m, s.numVar);
    var t := Put(s.table, e.0, e.1);
    WireResult(t, e.0, Ends(m).0, Ends(m).1);
  }

  /** What a relation step records under the parsed name, spelled out field by field. */
  lemma RelationEntryFields(m: RelationMatch, n: nat)
    ensures var p := ParseFragment(m.relation, Relation, n);
      var e := RelationEntry(m, n);
      && e.0 == p.name
      && e.1.kind == Relation && e.1.labelName == p.labelName && e.1.attributes == p.attributes && e.1.alias == ""
      && e.1.undirected == (m.leftEdge == "-" && m.rightEdge == "-")
  {
  }

  /**
   * `(a)-[r]->(b)` and `(b)<-[r]-(a)` describe the same relation: both record
   * the same direction and endpoints.
   */
  lemma MirroredPatternsAgree(s: State, a: string, rel: string, b: string)
    ensures RelationStep(s, RelationMatch(a, "-", rel, "->", b)) == RelationStep(s, RelationMatch(b, "<-", rel, "-", a))
  {
    assert RelationEntry(RelationMatch(a, "-", rel, "->", b), s.numVar) == RelationEntry(RelationMatch(b, "<-", rel, "-", a), s.numVar);
  }

  /** A relation pass keeps the table's keys listed once, in insertion order. */
  lemma {:induction false} RelationsFoldWellFormed(s: State, ms: seq<RelationMatch>)
    requires WellFormed(s.table)
    ensures WellFormed(RelationsFold(s, ms).0.table)
    decreases |ms|
  {
    if ms != [] {
      var e := RelationEntry(ms[0], s.numVar);
      var t := Put(s.table, e.0, e.1);
      WireWellFormed(t, e.0, Ends(ms[0]).0, Ends(ms[0]).1);
      var (s1, ok) := RelationStep(s, ms[0]);
      if ok {
        RelationsFoldWellFormed(s1, ms[1..]);
      }
    }
  }

  /** A successful relation pass counts one per triple. */
  lemma {:induction false} RelationsFoldCounter(s: State, ms: seq<RelationMatch>)
    ensures RelationsFold(s, ms).1 ==> RelationsFold(s, ms).0.numVar == s.numVar + |ms|
    decreases |ms|
  {
    if ms != [] {
      var (s1, ok) := RelationStep(s, ms[0]);
      if ok {
        RelationsFoldCounter(s1, ms[1..]);
      }
    }
  }
}
