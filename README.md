# CypherValidator schema conformance, modelled in Dafny

This project models the schema-conformance core of the `CypherValidator`
class (`code/CypherValidator.py`). The validator reads a Cypher query
without a parser. It recovers a symbol table of pattern variables and
checks each variable against a schema catalog. The symbol table is
`variables_dic`, a dictionary kept in insertion order, and the counter
`num_var` counts the fragments parsed so far. Each variable is checked for
its label, its type, its attributes and the direction of its relation. A
relation drawn against its declared direction is repaired by making it
undirected.

The model works on the fragments the validator's regular expressions would
extract, not on raw query text:

- node-definition fragments such as `(n:Person{name:'x'})`;
- relation triples of left node, left edge, relation bracket, right edge
  and right node;
- `variable.attribute` references;
- the text of the RETURN list.

Module by module:

- `Text` writes out the Python string operations used: `split`, `strip`,
  `find`, `replace(…, 1)`, `join`, `str(n)` and lower-casing.
- `Schema` builds the catalog from the parsed schema records.
- `Symbols` holds `variables_dic` as a map plus the insertion order of its
  keys.
- `Fragments` splits one fragment into its name, label and attribute keys,
  and synthesizes `node<k>` / `relation<k>` names.
- `Extraction` holds the node pass and the relation pass as functions over
  a state made of the table, the counter and the query.
- `Aliases` is the `AS` resolver.
- `Attributes` is the attribute collector.
- `Matching` holds the four schema checks, the repair guard and the
  verdict loop.
- `ReturnList` holds the RETURN-list dedupe and include-all logic and the
  whitespace-insensitive query comparison.
- `Validator` holds the `CypherValidator` class. Its fields `order`, `vars`
  and `numVar` are updated in place by methods that follow the source's
  loops. Each method is proved equal to the functional specification of
  the same step.

An exception raised inside `schema_valid` becomes a `false` verdict. The
table keeps whatever the passes wrote before the exception, as the Python
object does, and the returned query is the last one assigned before it.
This includes the repair step: it sets the relation's `undirected` flag
before it looks up the relation's bracket with its edges in the query, and
a failed lookup raises. The model takes the outcome of that lookup as the
input `rewritable`, the set of relation names whose bracket is found. A
relation needing a repair outside that set keeps its new flag and ends the
loop with `false`.

In three places the code behaves differently from what its names suggest;
the model follows the code:

- A variable's `attributes` is a list that keeps repeats, not an ordered
  set.
- The alias keyword is one of the four spellings `as`, `As`, `aS`, `AS`.
- The repair guard tests both orientations of the endpoint pair.
  `RepairNeedsReversedPair` proves that, where the guard is consulted, this
  is the same as testing the reversed pair only.

## Model

| member | source | states |
|---|---|---|
| Schema.BuildCatalog | code/CypherValidator.py:71-87 | The schema loop returns exactly `CatalogOf(records)`, the catalog or the first error. |
| Schema.CatalogSucceeds | code/CypherValidator.py:75-86 | Building fails exactly when a label repeats with a node record on either side of the repetition. |
| Schema.CatalogKeys | code/CypherValidator.py:75-86 | The catalog's keys are exactly the labels of the records. |
| Schema.CatalogKinds | code/CypherValidator.py:76-86 | Every record's label is a key, and its entry has that record's kind. |
| Schema.CatalogFirstRecords | code/CypherValidator.py:81-82 | An entry carries the kind and the attributes of the first record with its label. |
| Schema.CatalogPairs | code/CypherValidator.py:76-86 | A relation entry's `From_To` is every (From, To) pair declared under its label: the first record's pair, plus one pair per repetition. |
| Schema.FailureSticks | code/CypherValidator.py:80 | Once a prefix of the records fails, the whole load fails with the same error. |
| Symbols.Put | code/CypherValidator.py:99 | A dictionary assignment keeps every key listed once. An existing key keeps its place; a new key goes last. |
| Symbols.PutAllKeys | code/CypherValidator.py:91-110 | After a run of assignments the keys are the old keys plus every assigned name. |
| Symbols.PutAllLastWriter | code/CypherValidator.py:91-110 | The last assignment to a name decides its record. |
| Symbols.PutAllUntouched | code/CypherValidator.py:91-110 | A name that no assignment touches keeps its record. |
| Symbols.PutAllOrder | code/CypherValidator.py:91-110 | Assignments never drop or reorder the keys already present. |
| Symbols.PutTwice | code/CypherValidator.py:166-167 | A second assignment to a name overrides the first and keeps the name's place. |
| Text.KeyOf | code/CypherValidator.py:107 | `pair.split(':')[0]` holds no colon and is either the whole piece or the part before its first colon. |
| Text.NatToString | code/CypherValidator.py:96 | `str(num_var)` is a non-empty run of decimal digits. |
| Text.Lower | code/CypherValidator.py:239 | Lower-casing keeps the length and maps each character by itself. |
| Text.SplitAtFirstUnique | code/CypherValidator.py:93-94 | The split at the first `find(c)` is the only split whose left part holds no `c`. |
| Fragments.SynthesizedName | code/CypherValidator.py:96 | A synthesized name is non-empty and holds no whitespace and no colon. |
| Fragments.Body | code/CypherValidator.py:92 | The whitespace-free inner text holds no whitespace and no character absent from the fragment. |
| Fragments.ParseBody | code/CypherValidator.py:128-150 | A synthesized name is `relation<n>` (or `node<n>`). A relation body without a colon is all name, with no label and no attributes. |
| Fragments.ParseBodyOfParts | code/CypherValidator.py:93-109 | A body made of name, colon, label and optionally `{` and attribute text parses to that name (or the synthesized one when it is empty), that label and the keys of that attribute text. |
| Fragments.AttributeKeysShape | code/CypherValidator.py:104-107 | There is one key per comma-separated piece of the brace body, in order. Each key is its piece up to the first colon and holds no colon or comma. |
| Fragments.SynthesizedNameReparses | code/CypherValidator.py:95-98 | Writing the synthesized name before the fragment's colon gives a fragment that parses to the same name, label and attributes, with no name to synthesize. |
| Fragments.InsertedNameBody | code/CypherValidator.py:97-98 | The rewritten fragment's body is the name followed by the old body. |
| Fragments.EndpointOfWrittenName | code/CypherValidator.py:154-162 | Where a fragment writes its own name, the endpoint lookup uses exactly the name the fragment declared. |
| Fragments.EndpointOfInsertedName | code/CypherValidator.py:95-98 | Once a synthesized node name is written into the query, the endpoint lookup on the rewritten fragment uses that synthesized name, so the relation finds the node declared for it. |
| Extraction.NodesFoldTable | code/CypherValidator.py:89-111 | The node pass makes exactly one assignment per definition, the `i`-th at counter `n + i`, and adds one to the counter per definition. |
| Extraction.RelationEntryFields | code/CypherValidator.py:126-150 | A relation bracket records its parsed name, label and attributes with no alias. `undirected` holds iff both edges are `-`. |
| Extraction.RelationStepRecord | code/CypherValidator.py:164-174 | `from` is the left node when the left edge is `-` and the right node otherwise. `to` is the other one, and both labels are read from the nodes' records. The step fails exactly when an endpoint is unknown, and counts the relation either way. |
| Extraction.WireResult | code/CypherValidator.py:168-173 | Wiring succeeds iff both endpoints are known variables. It then changes only the relation's record, and never adds or drops a key. |
| Extraction.MirroredPatternsAgree | code/CypherValidator.py:167-173 | `(a)-[r]->(b)` and `(b)<-[r]-(a)` record the same relation, direction and endpoints. |
| Extraction.RelationsFoldWellFormed | code/CypherValidator.py:209-213 | The relation pass keeps every key listed once, in insertion order. |
| Extraction.RelationsFoldCounter | code/CypherValidator.py:209-213 | A successful relation pass adds one to the counter per triple. |
| Aliases.AliasAtEffect | code/CypherValidator.py:219-228 | An applying `x AS y` (with `y` not `x`) adds `y` holding `x`'s record with alias `x`, and sets `x`'s alias to `y`; every other entry is unchanged. A step that does not apply changes nothing. |
| Aliases.SelfAlias | code/CypherValidator.py:225-228 | `x AS x` leaves `x` naming itself as its alias. |
| Aliases.AliasFromPreserves | code/CypherValidator.py:215-229 | The alias pass keeps the table well formed and drops no key. Every record it leaves is a copy of an earlier record up to its alias. |
| Attributes.CollectAllSucceeds | code/CypherValidator.py:233-242 | Collection succeeds exactly when every reference names a known variable or a datatype name. |
| Attributes.CollectAllAttributes | code/CypherValidator.py:237-238 | On success each record differs only by the attributes referenced on its own name, appended in reference order. |
| Attributes.CollectAllFrame | code/CypherValidator.py:233-242 | Collection never adds, drops or reorders a key. |
| Attributes.CollectAllWellFormed | code/CypherValidator.py:233-242 | Collection keeps every key listed once, in insertion order. |
| Matching.LabelCheckDeclared | code/CypherValidator.py:244-248 | Against the catalog of the schema records, a label passes exactly when it is empty or some record declares it. |
| Matching.TypeCheckDeclared | code/CypherValidator.py:250-255 | A blank label passes; a declared label passes exactly when every record declaring it has the variable's kind. The check compares kinds, where the code compares the lower-cased `type` and `Type` strings. |
| Matching.AttributesCheckDeclared | code/CypherValidator.py:269-277 | A variable passes exactly when each of its attributes is declared by the first record carrying its label; with no such record, only a variable without attributes passes. |
| Matching.DirectionCheckDeclared | code/CypherValidator.py:257-267 | A typed relation passes exactly when a record of its label declares its (from, to) pair, or, when undirected, the pair in either orientation; untyped variables and nodes always pass. |
| Matching.RepairGuardDeclared | code/CypherValidator.py:294 | The repair guard holds exactly for a typed, directed relation whose pair some record of its label declares in either orientation. |
| Matching.BasicMatchesReadable | code/CypherValidator.py:253-265 | Once the label and type checks pass, the direction check's `From_To` lookup is on a relation entry of the catalog. |
| Matching.RepairNeedsReversedPair | code/CypherValidator.py:294 | Where the direction check failed, the repair guard fires exactly on a directed relation whose reversed pair is declared. |
| Matching.RepairPassesDirection | code/CypherValidator.py:293-295 | A repaired relation, made undirected, passes the direction check. |
| Matching.UntypedAttributesRejected | code/CypherValidator.py:270-273 | An untyped variable carrying an attribute never conforms. |
| Matching.CheckFromVerdict | code/CypherValidator.py:374-383 | The verdict loop returns `true` exactly when every variable passes the three checks and either its direction holds or it can be repaired and its bracket is found in the query. |
| Matching.CheckFromRepairs | code/CypherValidator.py:288-299 | The loop keeps the keys and their order. The names it reports repaired all needed a repair and had their bracket found, and they are made undirected. Any other record it changes needed a repair whose bracket lookup failed: it is made undirected and the verdict is `false`. |
| Matching.CheckFromConformant | code/CypherValidator.py:374-383 | After a `true` verdict every variable passes all four checks, repaired relations included. |
| Matching.CheckWellFormed | code/CypherValidator.py:374-383 | The verdict loop keeps every key listed once, in insertion order. |
| ReturnList.ReturnItemsShape | code/CypherValidator.py:310-312 | Every stripped return item is stripped and holds no comma. |
| ReturnList.Dedupe | code/CypherValidator.py:309-313 | The deduplicated list has no repeats and exactly the names of the input. |
| ReturnList.DedupeOrder | code/CypherValidator.py:309-313 | The names keep the order of their first occurrences. |
| ReturnList.DedupeIdempotent | code/CypherValidator.py:309-313 | Deduplicating twice is deduplicating once. |
| ReturnList.DedupeNames | code/CypherValidator.py:324-326 | The dedupe loop builds exactly `Dedupe(items)`. |
| ReturnList.RemoveDuplicateReturnVariable | code/CypherValidator.py:304-315 | The rewritten RETURN text is the deduplicated stripped names joined by `", "`. |
| ReturnList.ReturnItemsOfJoin | code/CypherValidator.py:310-313 | Reading back a joined list of stripped, comma-free names gives the names. |
| ReturnList.DedupeTextIdempotent | code/CypherValidator.py:304-315 | Removing duplicate return names from already deduplicated text changes nothing. |
| ReturnList.IncludeFromPrepends | code/CypherValidator.py:328-334 | Include-all only prepends: the old list is a suffix, every added name is a variable, and no name is listed twice. |
| ReturnList.IncludeFromCovers | code/CypherValidator.py:328-334 | Afterwards every variable, or its alias when it has one, is listed. |
| ReturnList.QueryExactMatchWords | code/CypherValidator.py:387-390 | Two queries match exactly when they have the same whitespace-separated words in the same order. |
| ReturnList.WhitespaceIrrelevant | code/CypherValidator.py:387-390 | Replacing one whitespace character by another never changes the verdict. |
| ReturnList.RunsCollapse | code/CypherValidator.py:387-390 | A whitespace run counts as one space: adding a second whitespace character after one never changes the verdict. |
| ReturnList.EndsTrimmed | code/CypherValidator.py:387-390 | Whitespace at the start or the end of a query never changes the verdict. |
| ReturnList.WordsCollapseRun | code/CypherValidator.py:388 | `split()` reads the same words when a whitespace run grows by one character. |
| ReturnList.WordsTrailingSpace | code/CypherValidator.py:388 | `split()` reads no word from trailing whitespace. |
| ReturnList.WordsOfJoin | code/CypherValidator.py:388 | Splitting a space-joined list of words gives the words back. |
| Validator.Collected | code/CypherValidator.py:367-373 | After successful passes the table is well formed. |
| Validator.SchemaValidSound | code/CypherValidator.py:362-385 | A `true` verdict means every endpoint and attribute reference resolved, and every variable left passes all four checks. |
| Validator.SchemaValidVerdict | code/CypherValidator.py:362-385 | The verdict is `true` exactly when both lookup passes succeed and every variable passes the checks, with the bracket of each relation needing a repair found in the query. |
| Validator.CountRelationsInSet | code/CypherValidator.py:345-349 | Counting over keys listed once gives the number of Relation-typed variables among them. |
| Validator.NodesFoldWellFormed | code/CypherValidator.py:89-111 | The node pass keeps the table well formed. |
| Validator.CypherValidator.constructor | code/CypherValidator.py:43-46 | A validator starts with the given catalog, an empty table and counter 0. |
| Validator.CypherValidator.InitializeVariableDict | code/CypherValidator.py:66-69 | The table is emptied and the counter reset to 0. |
| Validator.CypherValidator.PutVariable | code/CypherValidator.py:99 | The object's table becomes `Put` of the old one. |
| Validator.CypherValidator.AddNodeDefinition | code/CypherValidator.py:92-110 | One node definition updates table, counter and query exactly as `NodeStep`. |
| Validator.CypherValidator.CreateNodeVariables | code/CypherValidator.py:89-111 | The node loop leaves table, counter and query exactly as `NodesFold`, and keeps the table well formed. |
| Validator.CypherValidator.AddAliasVariable | code/CypherValidator.py:215-229 | The alias loop leaves the table exactly as `AliasPass` over the query's words, and keeps it well formed. |
| Validator.CypherValidator.ExtractRelationVariable | code/CypherValidator.py:126-151 | The bracket's variable is recorded with a fresh relation record, the counter grows by one, and a synthesized name is written into the query. |
| Validator.CypherValidator.WireEndpoints | code/CypherValidator.py:168-173 | The endpoint assignments leave the table exactly as `Wire`, `false` where a lookup raises. |
| Validator.CypherValidator.ExtractRelationInfo | code/CypherValidator.py:164-174 | One triple updates table, counter and query exactly as `RelationStep`. |
| Validator.CypherValidator.CreateRelationVariables | code/CypherValidator.py:209-213 | The relation loop leaves the state exactly as `RelationsFold`, stopping at the first failure, and keeps the table well formed. |
| Validator.CypherValidator.UpdateAttribute | code/CypherValidator.py:231-242 | The attribute loop leaves the table exactly as `CollectAll`, `false` at an undefined variable, and keeps the table well formed. |
| Validator.CypherValidator.CheckVariable | code/CypherValidator.py:288-299 | One variable passes iff it conforms and, where its direction fails, its bracket is found. A record needing a repair is made undirected whether or not its bracket is found; it counts as repaired only when found. |
| Validator.CypherValidator.CheckVariables | code/CypherValidator.py:374-383 | The verdict loop leaves the table, verdict and repaired names exactly as `Check`, and keeps the table well formed. |
| Validator.CypherValidator.SchemaValid | code/CypherValidator.py:362-385 | `schema_valid` leaves the object and returns exactly `SchemaValidSpec`, with the table well formed. |
| Validator.CypherValidator.CountRelations | code/CypherValidator.py:340-349 | No count for an empty table; otherwise the number of Relation-typed variables. |
| Validator.CypherValidator.IncludeAllVariable | code/CypherValidator.py:317-338 | The rewritten RETURN text is the include-all list over the table's keys in insertion order, joined by `", "`. |

## Left out

- The database connection, `__query_db` and `grammatical_valid`: these are network I/O.
- Loading the schema file with `json.load`: the model takes the parsed records as a sequence.
- The constructor's file loading: the class takes an already-built catalog, and `BuildCatalog` models the loading loop.
- The feature flags, `turnon_*` and their exceptions: every modelled operation is the one that runs with schema validation switched on.
- The pattern constants and every regular-expression scan. These are the node-definition search, `__relation_breakdown`, `__isolate_relations`, `__replace_special_chat`, `__string_masking` and the attribute-reference search. The model takes their results as inputs instead.
- The repair's bracket lookup at code/CypherValidator.py:296-298 is a regular-expression search built from the variable and its label. The model takes its outcome as the input `rewritable` instead, the names whose lookup finds a match.
- The scans' own failures are outside the model: a `.group()` on a failed search in `__relation_breakdown` (code/CypherValidator.py:114-120) and the `[0]` on an empty result in `__isolate_relations` (code/CypherValidator.py:195-198). The fragments, triples and references taken as inputs are those of scans that succeeded.
- Node fragments are required to carry a colon inside their brackets, which the node-definition pattern guarantees.
- Locating the RETURN clause and the final `query.replace` of the return list: both utilities work on the RETURN text itself.
- Matching.CheckFromRepairs: the text rewrite in `__fix_relation_direction` is not modelled. The model returns the names of the repaired relations instead of the rewritten query.
- Schema `Type` strings other than `Node` and `Relation`, and their case variants, are not modelled. The type check compares kinds directly instead of lower-cased strings.
- Text.Lower: only ASCII letters are lower-cased. That is exact for membership in the all-ASCII datatype list.
- Exception messages are not modelled: every exception is a `false` verdict or an error value.
