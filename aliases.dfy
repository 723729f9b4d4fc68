/**
 * Alias resolution: in `x AS y`, the variable `y` becomes an independent
 * copy of `x`'s record and the two records name each other as aliases.
 */
module Aliases {
  import opened Text
  import opened Symbols

  /** The alias keyword in the four spellings the validator accepts. */
  predicate IsAliasKeyword(w: string)
  {
    w in {"as", "As", "aS", "AS"}
  }

  /** The conditions under which token `i` introduces an alias: a keyword whose left neighbour is a known variable without a dot. */
  predicate AliasApplies(t: Table, toks: seq<string>, i: nat)
    requires 1 <= i < |toks| - 1
  {
    IsAliasKeyword(toks[i]) && '.' !in toks[i - 1] && toks[i - 1] in t.vars
  }

  /** The token after the keyword with its commas removed. */
  function AliasTarget(toks: seq<string>, i: nat): string
    requires 1 <= i < |toks| - 1
  {
    RemoveChar(toks[i + 1], ',')
  }

  /** The three assignments one alias makes: copy the record, then point each record at the other name. */
  function AliasAt(t: Table, toks: seq<string>, i: nat): Table
    requires 1 <= i < |toks| - 1
  {
    if AliasApplies(t, toks, i) then
      var before := toks[i - 1];
      var after := AliasTarget(toks, i);
      var t1 := Put(t, after, t.vars[before]);
      var t2 := Put(t1, before, t1.vars[before].(alias := after));
      Put(t2, after, t2.vars[after].(alias := before))
    else
      t
  }

  /** The alias pass from token `i` on; the whole pass starts at token 1 and stops before the last token. */
  function AliasFrom(t: Table, toks: seq<string>, i: nat): Table
    requires i >= 1
    decreases |toks| - i
  {
    if i >= |toks| - 1 then t else AliasFrom(AliasAt(t, toks, i), toks, i + 1)
  }

  function AliasPass(t: Table, toks: seq<string>): Table
  {
    AliasFrom(t, toks, 1)
  }

  /**
   * One alias step, when it applies and the two names differ: the new name
   * holds the old record with `alias` set to the old name, the old name's
   * record gets `alias` set to the new name, and every other entry is
   * unchanged. When it does not apply the table is unchanged.
   */
  lemma AliasAtEffect(t: Table, toks: seq<string>, i: nat)
    requires 1 <= i < |toks| - 1
    ensures !AliasApplies(t, toks, i) ==> AliasAt(t, toks, i) == t
    ensures AliasApplies(t, toks, i) && toks[i - 1] != AliasTarget(toks, i) ==>
      var before := toks[i - 1];
      var after := AliasTarget(toks, i);
      var r := AliasAt(t, toks, i);
      && r.vars.Keys == t.vars.Keys + {after}
      && r.vars[after] == t.vars[before].(alias := before)
      && r.vars[before] == t.vars[before].(alias := after)
      && (forall k :: k in t.vars && k != before && k != after ==> r.vars[k] == t.vars[k])
  {
  }

  /** `x AS x` leaves `x`'s record naming itself as its alias. */
  lemma SelfAlias(t: Table, toks: seq<string>, i: nat)
    requires 1 <= i < |toks| - 1
    requires AliasApplies(t, toks, i) && toks[i - 1] == AliasTarget(toks, i)
    ensures var x := toks[i - 1];
      AliasAt(t, toks, i).vars == t.vars[x := t.vars[x].(alias := x)]
  {
  }

  /** The parts of a record aliasing never touches. */
  function Core(r: VarRecord): VarRecord
  {
    r.(alias := "")
  }

  /** The records of a table with their aliases blanked. */
  function Cores(t: Table): set<VarRecord>
  {
    set k | k in t.vars :: Core(t.vars[k])
  }

  /** One alias step keeps the table well formed and drops or reorders no key. */
  lemma AliasAtFrame(t: Table, toks: seq<string>, i: nat)
    requires 1 <= i < |toks| - 1 && WellFormed(t)
    ensures var r := AliasAt(t, toks, i);
      WellFormed(r) && t.vars.Keys <= r.vars.Keys && t.order <= r.order
  {
    if AliasApplies(t, toks, i) {
      var before := toks[i - 1];
      var after := AliasTarget(toks, i);
      var t1 := Put(t, after, t.vars[before]);
      assert t.order <= t1.order;
      var t2 := Put(t1, before, t1.vars[before].(alias := after));
      assert t2.order == t1.order && AliasAt(t, toks, i).order == t2.order;
    }
  }

  /** One alias step only copies records. */
  lemma AliasAtCores(t: Table, toks: seq<string>, i: nat)
    requires 1 <= i < |toks| - 1
    ensures Cores(AliasAt(t, toks, i)) <= Cores(t)
  {
    var r := AliasAt(t, toks, i);
    if AliasApplies(t, toks, i) {
      var before := toks[i - 1];
      forall k | k in r.vars ensures Core(r.vars[k]) in Cores(t) {
        if k == before || k == AliasTarget(toks, i) {
          assert Core(r.vars[k]) == Core(t.vars[before]);
        } else {
          assert Core(r.vars[k]) == Core(t.vars[k]);
        }
      }
    }
  }

  /**
   * The alias pass keeps the table well formed, never drops a key, and every
   * record it leaves behind is a copy of a record extracted before it, up to
   * the alias field: aliasing never invents a label, an attribute or an
   * endpoint.
   */
  lemma {:induction false} AliasFromPreserves(t: Table, toks: seq<string>, i: nat)
    requires i >= 1 && WellFormed(t)
    ensures var r := AliasFrom(t, toks, i);
      WellFormed(r) && t.vars.Keys <= r.vars.Keys && t.order <= r.order && Cores(r) <= Cores(t)
    decreases |toks| - i
  {
    if i >= |toks| - 1 {
    } else {
      var t1 := AliasAt(t, toks, i);
      AliasAtFrame(t, toks, i);
      AliasAtCores(t, toks, i);
      AliasFromPreserves(t1, toks, i + 1);
    }
  }
}
