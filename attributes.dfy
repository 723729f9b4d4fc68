/**
 * Attribute collection: each `variable.attribute` reference found in the
 * query appends the attribute to that variable's record.
 */
module Attributes {
  import opened Text
  import opened Symbols

  /** One `variable.attribute` reference, split at its dot. */
  datatype Reference = Reference(variable: string, attribute: string)

  /** Type names that may stand before a dot without being variables. */
  const DatatypeList: seq<string> :=
    ["boolean", "float", "integer", "path", "string", "date", "time", "datetime", "duration", "point"]

  /** A reference is acceptable when its variable is known or its lower-cased name is a type name. */
  predicate Known(t: Table, r: Reference)
  {
    r.variable in t.vars || Lower(r.variable) in DatatypeList
  }

  /** One reference: append to a known variable, skip a type name, otherwise raise (`false`). */
  function CollectStep(t: Table, r: Reference): (Table, bool)
  {
    if r.variable in t.vars then
      var rec := t.vars[r.variable];
      (Put(t, r.variable, rec.(attributes := rec.attributes + [r.attribute])), true)
    else if Lower(r.variable) in DatatypeList then (t, true)
    else (t, false)
  }

  /** All references in order, stopping at the first undefined variable with what was appended so far. */
  function CollectAll(t: Table, refs: seq<Reference>): (Table, bool)
    decreases |refs|
  {
    if refs == [] then (t, true)
    else
      var (t1, ok) := CollectStep(t, refs[0]);
      if ok then CollectAll(t1, refs[1..]) else (t1, false)
  }

  /** The attributes the references attach to variable `k`, in order. */
  function AttributesFor(refs: seq<Reference>, k: string): (attrs: seq<string>)
    ensures |attrs| <= |refs|
    decreases |refs|
  {
    if refs == [] then []
    else (if refs[0].variable == k then [refs[0].attribute] else []) + AttributesFor(refs[1..], k)
  }

  /** A step keeps the keys, their order and which references are acceptable. */
  lemma CollectStepFrame(t: Table, r: Reference)
    ensures var (t1, ok) := CollectStep(t, r);
      && t1.order == t.order && t1.vars.Keys == t.vars.Keys
      && (ok <==> Known(t, r))
      && (forall r' :: Known(t1, r') <==> Known(t, r'))
  {
  }

  /** Collection never adds, drops or reorders a key. */
  lemma {:induction false} CollectAllFrame(t: Table, refs: seq<Reference>)
    ensures var (t', ok) := CollectAll(t, refs);
      t'.order == t.order && t'.vars.Keys == t.vars.Keys
    decreases |refs|
  {
    if refs != [] {
      CollectStepFrame(t, refs[0]);
      var (t1, ok1) := CollectStep(t, refs[0]);
      if ok1 {
        CollectAllFrame(t1, refs[1..]);
      }
    }
  }

  /** The attribute pass keeps the table well formed. */
  lemma CollectAllWellFormed(t: Table, refs: seq<Reference>)
    requires WellFormed(t)
    ensures WellFormed(CollectAll(t, refs).0)
  {
    CollectAllFrame(t, refs);
  }

  /** Collection succeeds exactly when every reference names a known variable or a type name. */
  lemma {:induction false} CollectAllSucceeds(t: Table, refs: seq<Reference>)
    ensures CollectAll(t, refs).1 <==> forall i :: 0 <= i < |refs| ==> Known(t, refs[i])
    decreases |refs|
  {
    if refs != [] {
      CollectStepFrame(t, refs[0]);
      var (t1, ok1) := CollectStep(t, refs[0]);
      if ok1 {
        CollectAllSucceeds(t1, refs[1..]);
        assert (forall i :: 0 <= i < |refs| ==> Known(t, refs[i])) <==>
          forall i :: 0 <= i < |refs| - 1 ==> Known(t1, refs[1..][i]) by {
          forall i | 0 <= i < |refs| - 1 ensures refs[1..][i] == refs[i + 1] { }
        }
      }
    }
  }

  /**
   * On success each record differs from its old self only by the attributes
   * referenced on it, appended in the order of the references.
   */
  lemma {:induction false} CollectAllAttributes(t: Table, refs: seq<Reference>)
    ensures CollectAll(t, refs).1 ==> forall k :: k in t.vars ==>
      && k in CollectAll(t, refs).0.vars
      && CollectAll(t, refs).0.vars[k] == t.vars[k].(attributes := t.vars[k].attributes + AttributesFor(refs, k))
    decreases |refs|
  {
    if refs != [] && CollectStep(t, refs[0]).1 {
      var t1 := CollectStep(t, refs[0]).0;
      var rest := refs[1..];
      assert CollectAll(t, refs) == CollectAll(t1, rest);
      CollectStepFrame(t, refs[0]);
      CollectAllAttributes(t1, rest);
      var t' := CollectAll(t1, rest).0;
      if CollectAll(t1, rest).1 {
        forall k | k in t.vars
          ensures t'.vars[k] == t.vars[k].(attributes := t.vars[k].attributes + AttributesFor(refs, k))
        {
          var here := if refs[0].variable == k then [refs[0].attribute] else [];
          CollectStepAttribute(t, refs[0], k);
          assert AttributesFor(refs, k) == here + AttributesFor(rest, k);
          assert t.vars[k].attributes + here + AttributesFor(rest, k) == t.vars[k].attributes + AttributesFor(refs, k);
        }
      }
    }
  }

  /** A successful step appends the reference's attribute to its own variable and to no other. */
  lemma CollectStepAttribute(t: Table, r: Reference, k: string)
    requires CollectStep(t, r).1 && k in t.vars
    ensures k in CollectStep(t, r).0.vars
    ensures CollectStep(t, r).0.vars[k] ==
      t.vars[k].(attributes := t.vars[k].attributes + if r.variable == k then [r.attribute] else [])
  {
  }
}
