/**
 * The symbol table `variables_dic`: a Python dictionary from pattern-variable
 * name to its record. Python dictionaries iterate in insertion order and an
 * assignment to an existing key keeps its place, so the table is a map plus
 * the order in which its keys were first inserted.
 */
module Symbols {
  import opened Schema

  /**
   * One variable's record: `type`, `label` (empty when untyped), the
   * attributes referenced on it, `alias` (empty when none) and, on relation
   * records, `undirected` and the two endpoints' variable names and labels.
   */
  datatype VarRecord = VarRecord(
    kind: Kind,
    labelName: string,
    attributes: seq<string>,
    alias: string,
    undirected: bool,
    fromVariable: string,
    fromLabel: string,
    toVariable: string,
    toLabel: string)

  /** A freshly extracted record: no alias, direction fields not yet set. */
  function NewRecord(kind: Kind, labelName: string, attributes: seq<string>): VarRecord
  {
    VarRecord(kind, labelName, attributes, "", false, "", "", "", "")
  }

  datatype Table = Table(order: seq<string>, vars: map<string, VarRecord>)

  const EmptyTable := Table([], map[])

  predicate Distinct(s: seq<string>)
  {
    forall i, j :: 0 <= i < j < |s| ==> s[i] != s[j]
  }

  /** The keys, each once, in insertion order. */
  predicate WellFormed(t: Table)
  {
    && Distinct(t.order)
    && (forall k :: k in t.vars ==> k in t.order)
    && (forall i :: 0 <= i < |t.order| ==> t.order[i] in t.vars)
  }

  /** `variables_dic[k] = v` */
  function Put(t: Table, k: string, v: VarRecord): (r: Table)
    ensures WellFormed(t) ==> WellFormed(r)
    ensures r.vars == t.vars[k := v]
    ensures k in t.vars ==> r.order == t.order
    ensures k !in t.vars ==> r.order == t.order + [k]
  {
    if k in t.vars then Table(t.order, t.vars[k := v]) else Table(t.order + [k], t.vars[k := v])
  }

  /** A second assignment to the same name overrides the first and keeps its place. */
  lemma PutTwice(t: Table, k: string, v: VarRecord, w: VarRecord)
    ensures Put(Put(t, k, v), k, w) == Put(t, k, w)
  {
    assert t.vars[k := v][k := w] == t.vars[k := w];
  }

  /** A run of assignments `variables_dic[k] = v`, in order. */
  function PutAll(t: Table, entries: seq<(string, VarRecord)>): (r: Table)
    decreases |entries|
  {
    if entries == [] then t else PutAll(Put(t, entries[0].0, entries[0].1), entries[1..])
  }

  /** Assignments keep every key listed once, in insertion order. */
  lemma {:induction false} PutAllWellFormed(t: Table, entries: seq<(string, VarRecord)>)
    requires WellFormed(t)
    ensures WellFormed(PutAll(t, entries))
    decreases |entries|
  {
    if entries != [] {
      PutAllWellFormed(Put(t, entries[0].0, entries[0].1), entries[1..]);
    }
  }

  /** The first assignment of a run, then the others. */
  lemma PutAllFirst(t: Table, entries: seq<(string, VarRecord)>)
    requires entries != []
    ensures PutAll(t, entries) == PutAll(Put(t, entries[0].0, entries[0].1), entries[1..])
  {
  }

  /** The keys after a run of assignments: the old keys and every assigned name. */
  lemma {:induction false} PutAllKeys(t: Table, entries: seq<(string, VarRecord)>)
    ensures forall k :: k in PutAll(t, entries).vars <==> k in t.vars || exists i :: 0 <= i < |entries| && entries[i].0 == k
    decreases |entries|
  {
    if entries != [] {
      var rest := entries[1..];
      PutAllKeys(Put(t, entries[0].0, entries[0].1), rest);
      forall k | k in PutAll(t, entries).vars && k !in t.vars && k != entries[0].0
        ensures exists i :: 0 <= i < |entries| && entries[i].0 == k
      {
        var i :| 0 <= i < |rest| && rest[i].0 == k;
        assert entries[i + 1].0 == k;
      }
      forall k | exists i :: 0 <= i < |entries| && entries[i].0 == k
        ensures k in PutAll(t, entries).vars
      {
        var i :| 0 <= i < |entries| && entries[i].0 == k;
        if i > 0 {
          assert rest[i - 1].0 == k;
        }
      }
    }
  }

  /** A name no assignment touches keeps its record. */
  lemma {:induction false} PutAllUntouched(t: Table, entries: seq<(string, VarRecord)>, k: string)
    requires k in t.vars
    requires forall i :: 0 <= i < |entries| ==> entries[i].0 != k
    ensures k in PutAll(t, entries).vars && PutAll(t, entries).vars[k] == t.vars[k]
    decreases |entries|
  {
    if entries != [] {
      assert entries[0].0 != k;
      var rest := entries[1..];
      forall i | 0 <= i < |rest| ensures rest[i].0 != k {
        assert rest[i] == entries[i + 1];
      }
      PutAllUntouched(Put(t, entries[0].0, entries[0].1), rest, k);
    }
  }

  /** The last assignment to a name decides its record. */
  lemma {:induction false} PutAllLastWriter(t: Table, entries: seq<(string, VarRecord)>, i: nat)
    requires i < |entries|
    requires forall j :: i < j < |entries| ==> entries[j].0 != entries[i].0
    ensures entries[i].0 in PutAll(t, entries).vars && PutAll(t, entries).vars[entries[i].0] == entries[i].1
    decreases |entries|
  {
    var t1 := Put(t, entries[0].0, entries[0].1);
    var rest := entries[1..];
    if i > 0 {
      forall j | i - 1 < j < |rest| ensures rest[j].0 != rest[i - 1].0 {
        assert rest[j] == entries[j + 1];
      }
      PutAllLastWriter(t1, rest, i - 1);
    } else {
      forall j | 0 <= j < |rest| ensures rest[j].0 != entries[0].0 {
        assert rest[j] == entries[j + 1];
      }
      PutAllUntouched(t1, rest, entries[0].0);
    }
  }

  /** Assignments never drop a key and never reorder the ones already present. */
  lemma {:induction false} PutAllOrder(t: Table, entries: seq<(string, VarRecord)>)
    ensures t.order <= PutAll(t, entries).order
    decreases |entries|
  {
    if entries != [] {
      var t1 := Put(t, entries[0].0, entries[0].1);
      PutAllOrder(t1, entries[1..]);
    }
  }
}
