/**
 * Splitting one node or relation fragment, such as `(n:Person{name:'x'})` or
 * `[:LIVES_IN]`, into its variable name, label and attribute keys, and the
 * name given to a fragment that has none.
 */
module Fragments {
  import opened Text
  import opened Wrappers
  import opened Schema
  import opened Symbols

  /** What one fragment declares; `synthesized` when the name was made up from the counter. */
  datatype Fragment = Fragment(name: string, synthesized: bool, labelName: string, attributes: seq<string>)

  /** `'node' + str(num_var)` or `'relation' + str(num_var)`. */
  function SynthesizedName(kind: Kind, n: nat): (s: string)
    ensures s != [] && NoSpace(s) && ':' !in s
  {
    var prefix := if kind == Node then "node" else "relation";
    var s := prefix + NatToString(n);
    assert forall i :: |prefix| <= i < |s| ==> s[i] == NatToString(n)[i - |prefix|];
    s
  }

  /** `''.join(fragment.split()).strip()[1:-1]`: the text between the brackets, without whitespace. */
  function Body(f: string): (txt: string)
    ensures NoSpace(txt)
    ensures forall c :: c in txt ==> c in f
  {
    var s := RemoveSpaces(f);
    var txt := Inner(s);
    assert forall i :: 0 <= i < |txt| ==> txt[i] == s[i + 1];
    txt
  }

  /** The keys of a brace body: for each comma-separated piece, the text before its first colon. */
  function AttributeKeys(body: string): seq<string>
  {
    var pieces := Split(RemoveChar(body, '}'), ',');
    seq(|pieces|, i requires 0 <= i < |pieces| => KeyOf(pieces[i]))
  }

  /**
   * One key per comma-separated piece of the brace body (so at least one),
   * each the piece itself or its part before the first colon, and holding
   * neither a colon nor a comma.
   */
  lemma AttributeKeysShape(body: string)
    ensures var pieces := Split(RemoveChar(body, '}'), ',');
      var keys := AttributeKeys(body);
      && |keys| == |pieces| >= 1
      && forall i :: 0 <= i < |keys| ==>
           && ':' !in keys[i] && ',' !in keys[i]
           && (keys[i] == pieces[i] || pieces[i][..|keys[i]| + 1] == keys[i] + [':'])
  {
  }

  /**
   * A fragment's variable, label and attributes, from its whitespace-free
   * body. With a colon, the body reads `<written name>:<label>` followed by
   * nothing or by `{...}`; an empty written name is replaced by the
   * synthesized one. A relation body without a colon is all name (possibly
   * empty) and has no label.
   */
  function ParseBody(txt: string, kind: Kind, n: nat): (p: Fragment)
    requires kind == Node ==> ':' in txt
    ensures p.synthesized ==> p.name == SynthesizedName(kind, n)
    ensures ':' !in txt ==> p == Fragment(txt, false, "", [])
  {
    if ':' in txt then
      var (written, rest) := SplitAtFirst(txt, ':');
      var name := if written == [] then SynthesizedName(kind, n) else written;
      var (labelName, keys) := LabelPart(rest);
      Fragment(name, written == [], labelName, keys)
    else
      Fragment(txt, false, "", [])
  }

  /** What follows the colon: the label up to the first brace, and the keys of the brace body if there is one. */
  function LabelPart(rest: string): (r: (string, seq<string>))
  {
    if '{' in rest then
      var (labelName, body) := SplitAtFirst(rest, '{');
      (labelName, AttributeKeys(body))
    else
      (rest, [])
  }

  /**
   * Reading back a body assembled from its parts: a written name without a
   * colon (empty for a synthesized one), the colon, a label without a brace,
   * and optionally a brace followed by the attribute text. Every body with a
   * colon splits this way, so this says what `ParseBody` does on all of them.
   */
  lemma ParseBodyOfParts(written: string, labelName: string, body: string, kind: Kind, n: nat)
    requires ':' !in written && '{' !in labelName
    ensures var name := if written == [] then SynthesizedName(kind, n) else written;
      && ParseBody(written + [':'] + labelName, kind, n) == Fragment(name, written == [], labelName, [])
      && ParseBody(written + [':'] + labelName + ['{'] + body, kind, n) == Fragment(name, written == [], labelName, AttributeKeys(body))
  {
    SplitAtFirstUnique(written + [':'] + labelName, ':', written, labelName);
    var rest := labelName + ['{'] + body;
    assert written + [':'] + labelName + ['{'] + body == written + [':'] + rest;
    SplitAtFirstUnique(written + [':'] + rest, ':', written, rest);
    SplitAtFirstUnique(rest, '{', labelName, body);
  }

  /** `__create_node_variables_dict` / `__extract_relation_variable` on one fragment. */
  function ParseFragment(f: string, kind: Kind, n: nat): Fragment
    requires kind == Node ==> ':' in Body(f)
  {
    ParseBody(Body(f), kind, n)
  }

  /** The fragment with `name` written just before its first colon (the text rewrite of a synthesized name). */
  function NameInserted(f: string, name: string): string
    requires ':' in f
  {
    var (before, after) := SplitAtFirst(f, ':');
    before + name + [':'] + after
  }

  /** The fragment opens with a bracket, so its whitespace-free text does not start with the colon. */
  predicate Enclosed(f: string)
  {
    var s := RemoveSpaces(f);
    |s| >= 2 && s[0] != ':'
  }

  /** The rewritten fragment's body is the name followed by the old body. */
  lemma {:induction false} InsertedNameBody(f: string, name: string)
    requires Enclosed(f) && ':' in Body(f) && Body(f)[0] == ':'
    requires NoSpace(name)
    ensures ':' in f && Body(NameInserted(f, name)) == name + Body(f)
  {
    OpeningBeforeColon(f);
    var a := RemoveSpaces(SplitAtFirst(f, ':').0);
    var b := RemoveSpaces([':'] + SplitAtFirst(f, ':').1);
    InsertedNameSpaces(f, name);
    InnerAfterFirst(a, name, b);
    InnerAfterFirst(a, [], b);
    assert a + [] + b == RemoveSpaces(f);
  }

  /** Without whitespace, the rewritten fragment is the text before the colon, the name, then the rest. */
  lemma InsertedNameSpaces(f: string, name: string)
    requires ':' in f && NoSpace(name)
    ensures RemoveSpaces(NameInserted(f, name)) ==
      RemoveSpaces(SplitAtFirst(f, ':').0) + name + RemoveSpaces([':'] + SplitAtFirst(f, ':').1)
  {
    var before := SplitAtFirst(f, ':').0;
    var after := SplitAtFirst(f, ':').1;
    assert NameInserted(f, name) == before + name + ([':'] + after);
    RemoveSpacesAround(before, name, [':'] + after);
  }

  lemma RemoveSpacesAround(before: string, name: string, rest: string)
    requires NoSpace(name)
    ensures RemoveSpaces(before + name + rest) == RemoveSpaces(before) + name + RemoveSpaces(rest)
  {
    var tail := name + rest;
    assert before + name + rest == before + tail;
    RemoveSpacesAppend(before, tail);
    RemoveSpacesAppend(name, rest);
    RemoveSpacesOfNoSpace(name);
  }

  /** When the body starts with the colon, one character (the bracket) precedes the fragment's first colon. */
  lemma OpeningBeforeColon(f: string)
    requires Enclosed(f) && ':' in Body(f) && Body(f)[0] == ':'
    ensures ':' in f
    ensures var (before, after) := SplitAtFirst(f, ':');
      && |RemoveSpaces(before)| == 1
      && RemoveSpaces([':'] + after) != []
      && RemoveSpaces(f) == RemoveSpaces(before) + RemoveSpaces([':'] + after)
  {
    var s := RemoveSpaces(f);
    var (before, after) := SplitAtFirst(f, ':');
    assert f == before + ([':'] + after);
    RemoveSpacesAppend(before, [':'] + after);
    var a := RemoveSpaces(before);
    var b := RemoveSpaces([':'] + after);
    assert ':' !in a;
    assert ([':'] + after)[1..] == after;
    assert b == [':'] + RemoveSpaces(after);
    assert s[|a|] == ':' && s[1] == ':';
    assert forall i :: 0 <= i < |a| ==> s[i] == a[i] != ':';
  }

  /** `s[1:-1]` of a text whose first part is one character long. */
  lemma InnerAfterFirst(a: string, x: string, b: string)
    requires |a| == 1 && b != []
    ensures Inner(a + x + b) == x + b[..|b| - 1]
  {
    var s := a + x + b;
    assert s[1..|s| - 1] == x + b[..|b| - 1];
  }

  /** A body that starts with the colon, once a name is put in front, parses to that name and nothing else changes. */
  lemma {:induction false} NamedBodyParse(txt: string, name: string, kind: Kind, n: nat, m: nat)
    requires txt != [] && txt[0] == ':'
    requires name != [] && ':' !in name
    ensures ParseBody(name + txt, kind, m) == ParseBody(txt, kind, n).(name := name, synthesized := false)
  {
    SplitAtFirstAppend(name, txt, ':');
    assert SplitAtFirst(txt, ':') == ([], txt[1..]);
  }

  /**
   * Writing the synthesized name into the fragment makes the fragment carry
   * that name: parsing the rewritten text yields the same name, label and
   * attributes, and needs no name of its own.
   */
  lemma {:induction false} SynthesizedNameReparses(f: string, kind: Kind, n: nat, m: nat)
    requires Enclosed(f) && ':' in Body(f)
    requires ParseFragment(f, kind, n).synthesized
    ensures ':' in f
    ensures var p := ParseFragment(f, kind, n);
      var g := NameInserted(f, p.name);
      ':' in Body(g) && ParseFragment(g, kind, m) == p.(synthesized := false)
  {
    var p := ParseFragment(f, kind, n);
    var txt := Body(f);
    assert SplitAtFirst(txt, ':').0 == [];
    assert txt[0] == ':';
    InsertedNameBody(f, p.name);
    NamedBodyParse(txt, p.name, kind, n, m);
  }

  /** `__extract_node_variable`'s name: the text before the colon, or the whole body. */
  function EndpointName(f: string): string
  {
    var txt := Body(f);
    if ':' in txt then SplitAtFirst(txt, ':').0 else txt
  }

  /** The endpoint's name and its current label; `None` where the lookup raises a KeyError. */
  function Endpoint(f: string, vars: map<string, VarRecord>): (r: Option<(string, string)>)
    ensures r.Some? <==> EndpointName(f) in vars
    ensures r.Some? ==> r.value == (EndpointName(f), vars[EndpointName(f)].labelName)
  {
    var name := EndpointName(f);
    if name in vars then Some((name, vars[name].labelName)) else None
  }

  /**
   * Where the fragment wrote its own name, the endpoint lookup uses the name
   * the fragment declared.
   */
  lemma EndpointOfWrittenName(f: string, kind: Kind, n: nat)
    requires kind == Node ==> ':' in Body(f)
    requires !ParseFragment(f, kind, n).synthesized
    ensures EndpointName(f) == ParseFragment(f, kind, n).name
  {
  }

  /**
   * Where the node's name was synthesized, the endpoint lookup on the
   * rewritten fragment uses that synthesized name, so a later relation finds
   * the node declared for it.
   */
  lemma EndpointOfInsertedName(f: string, n: nat)
    requires Enclosed(f) && ':' in Body(f)
    requires ParseFragment(f, Node, n).synthesized
    ensures ':' in f
    ensures var p := ParseFragment(f, Node, n);
      EndpointName(NameInserted(f, p.name)) == p.name
  {
    var p := ParseFragment(f, Node, n);
    SynthesizedNameReparses(f, Node, n, n);
    EndpointOfWrittenName(NameInserted(f, p.name), Node, n);
  }
}
