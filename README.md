# ArtifactGenerator core, modelled in Dafny

This project models the core of `main.py` of ArtifactGenerator. That core has two independent pipelines.

1. **Model building and projection.** A UML-style document declares classes, with their attributes, and aggregations. `ModelParser.parse` turns the declarations into an insertion-ordered dictionary `name -> ClassModel`. Each aggregation becomes a child entry `(child, min, max)` on its target class. From that dictionary, `ConfigXmlGenerator.generate` expands the first root class into a nested element tree, and `MetaJsonGenerator.generate` emits one flat descriptor per class.
2. **Configuration diff and patch.** `ConfigComparator.compare` sorts every key of two flat dictionaries into additions, deletions or updates, or leaves it out when its value is unchanged. `ConfigComparator.apply_delta` replays such a delta on a base dictionary.

Files, one module each:

- `wrappers.dfy`: `Option` and `Result`.
- `entities.dfy`: `Attribute`, `ChildRef` and `Aggregation` as datatypes. `ClassModel` is a class, because the parser appends to its lists in place. `ModelMap` is the ordered dictionary: a key order plus a map.
- `multiplicity.dfy`: Python's `str.split("..")` and the min/max taken from it.
- `model_parser.dfy`: the two passes of `ModelParser.parse`, as methods with loops over decoded elements.
- `config_xml.dfy`: `build_xml` and `generate` as functions producing a `Tree`.
- `meta_json.dfy`: `MetaJsonGenerator.generate` as a method with loops producing `Descriptor` values.
- `config_comparator.dfy`: `compare` and `apply_delta` as methods over `map<string, V>`, with specification functions and the round-trip theorem.

Behaviour worth knowing, as the code has it:

- **Several root classes.** The code takes the first root class in dictionary order and ignores the others.
- **Multiplicity split.** min and max are the first and the last piece of `split("..")`, not the two sides of one separator. So `"1..2..3"` gives `("1", "3")`, and `"0...5"` gives `("0", ".5")`, because the split scans left to right (`Multiplicity.MultiplicityExamples`).
- **Unknown child names.** A child name that is not a class key is not checked when the model is built. `build_xml` then fails with a `KeyError`. The model returns `UnknownClass` in that case.

## Model

| member | source | states |
|---|---|---|
| Entities.ClassModel.constructor | main.py:13-19 | a new class record has the given name, root flag and documentation, and empty attribute and child lists |
| Multiplicity.JoinPieces | main.py:63-64 | joining the pieces of `split("..")` with ".." gives back the multiplicity text |
| Multiplicity.FirstPiece | main.py:63 | the first piece is exactly the text before the leftmost "..", or the whole text when there is none |
| Multiplicity.LastPiece | main.py:64 | the last piece is a suffix of the text, and it follows a ".." when there are several pieces |
| Multiplicity.LastPieceHasNoSep | main.py:64 | the last piece has no ".." in it |
| Multiplicity.SeveralPiecesIffSep | main.py:64 | the split yields more than one piece exactly when ".." occurs in the text |
| Multiplicity.MinOf | main.py:63 | min is the whole text when it has no ".."; otherwise it is the prefix ending right before the first ".." |
| Multiplicity.MaxOf | main.py:64 | max is the whole text when it has no ".."; otherwise it is a ".."-free suffix that follows a ".." |
| Multiplicity.MultiplicityExamples | main.py:63-64 | "0..*" gives ("0","*"); "1" gives ("1","1"); "1..5" gives ("1","5"); "0...5" gives ("0",".5") |
| ModelParser.AttributesOf | main.py:43-45 | a class keeps exactly the `Attribute` children of its element |
| ModelParser.AttributesInOrder | main.py:43-45 | attributes keep document order: the attributes of a concatenation are those of each part, one after the other |
| ModelParser.AggregationsOf | main.py:49-55 | the collected aggregations are exactly the `Aggregation` elements |
| ModelParser.AggregationsInOrder | main.py:49-55 | aggregations keep document order: the aggregations of a concatenation are those of each part, one after the other |
| ModelParser.ClassOrder | main.py:36-47 | the dictionary keys are the declared class names, each exactly once |
| ModelParser.ClassOrderGrows | main.py:47 | the key order only grows by appending, so each name sits where it was first declared, even when it is redeclared |
| ModelParser.LastClassElem | main.py:47 | a record is kept for `k` exactly when some class element is named `k`, and it comes from such an element |
| ModelParser.LastDeclarationWins | main.py:47 | a later class element with the same name replaces the earlier record |
| ModelParser.ChildRefsFor | main.py:58-65 | every aggregation aimed at `k` gives `k` its `(source, min, max)` entry, and every entry comes from such an aggregation |
| ModelParser.ChildRefsInOrder | main.py:58-65 | child entries follow aggregation order: one per aggregation, concatenated in order |
| ModelParser.Parse | main.py:31-68 | the dictionary is well formed and unaliased, in first-declaration order; each key holds the last declaration's record, with attributes in order and the child entries of the aggregations aimed at it; aggregations with an unknown target are dropped |
| ModelParser.ReadElements | main.py:36-55 | the first pass gives a fresh, unaliased record per declared name, with empty child lists, and the aggregations in order |
| ModelParser.NewClassModel | main.py:38-45 | a class element gives a fresh record with its name, root flag, documentation and attributes, and no children |
| ModelParser.StoreClassStep | main.py:47 | storing a record keeps the key order, the invariant of the dictionary and the last-declaration records consistent |
| ModelParser.OtherElementStep | main.py:36-55 | an aggregation or any other element leaves the key order and the class records unchanged |
| ModelParser.ResolveAggregations | main.py:57-65 | after the second pass, each record's child list holds exactly the entries of the aggregations aimed at it, in order; no other field changes |
| ConfigXml.AttributeLeaves | main.py:82-84 | one leaf per attribute, in order, labelled with the attribute name and holding its type as text |
| ConfigXml.Expand | main.py:78-90 | a successful expansion is a node labelled with the class name, with one leaf per attribute, then one subtree per child entry labelled with the child's name. At any depth left, a name that is not a key fails with `UnknownClass(name)`. Any other `UnknownClass` names a child that is not a key |
| ConfigXml.ExpandAll | main.py:86-88 | the child entries expand into as many subtrees, in order and labelled with the children's names, or into the first failure |
| ConfigXml.ExpandIsExpanded | main.py:78-90 | a successful expansion is expanded all the way down (`Expanded`): every node is the element of the class its tag names, with its attribute leaves, then the expansion of each of its child entries |
| ConfigXml.ExpandAllIsExpanded | main.py:86-88 | every subtree of a successful list expansion is expanded all the way down |
| ConfigXml.ExpandAllFirstFailure | main.py:86-88 | a failed list expansion reports the error of its first failing child entry; every entry before that one expands |
| ConfigXml.ExpandFirstFailure | main.py:78-90 | a class that fails to expand, with depth left, fails with the error of its first failing child entry, expanded one level deeper, as the depth-first `build_xml` raises it |
| ConfigXml.ExpandedUnique | main.py:78-90 | two fully expanded trees with the same top tag are equal, so the tree `build_xml` builds for a class is determined by the model |
| ConfigXml.FirstRootFrom | main.py:74 | it finds the first root class in dictionary order, or reports that there is none |
| ConfigXml.GenerateConfig | main.py:73-92 | it fails with `NoRoot` exactly when no class is a root; otherwise it expands the first root class |
| ConfigXml.ExpandFuelMonotone | main.py:78-90 | allowing more depth does not change an expansion that already succeeded |
| ConfigXml.ExpandAllFuelMonotone | main.py:86-88 | the same, for a list of child entries |
| ConfigXml.CardinalityIgnored | main.py:86-88 | two models that differ only in min and max give the same tree |
| ConfigXml.CardinalityIgnoredAll | main.py:86-88 | the same, for a list of child entries |
| ConfigXml.RankedExpandSucceeds | main.py:78-90 | in an acyclic model where every child name resolves, a class expands once the allowed depth exceeds its rank |
| ConfigXml.RankedExpandAllSucceeds | main.py:86-88 | the same, for a list of child entries |
| ConfigXml.RankedGenerateSucceeds | main.py:73-92 | an acyclic, fully resolvable model with a root class always generates a tree, given enough depth |
| MetaJson.GenerateMeta | main.py:98-135 | there is one descriptor per class, in dictionary order. Its parameters are the attributes as (name, type), then the children as (name, "class"). min/max are present exactly when the class has children, and are taken from the first child |
| MetaJson.OneDescriptorPerClass | main.py:101-133 | the descriptor class names are exactly the dictionary keys, each once |
| ConfigComparator.Compare | main.py:139-169 | additions are exactly the keys only in `patched`, with their patched value. Deletions are exactly the keys only in `base`. Updates are exactly the keys in both with different values, with `from` and `to`. No key appears twice in a bucket |
| ConfigComparator.ClassifyStep | main.py:147-163 | classifying one more key by the three tests keeps the delta exact for the keys seen so far |
| ConfigComparator.BucketsExclusive | main.py:145-163 | every key of either dictionary is in exactly one of additions, deletions, updates or unchanged |
| ConfigComparator.WithUpdatesSpec | main.py:181-182 | after the updates loop, each update key holds the `to` of its last update, and every other key is unchanged |
| ConfigComparator.WithAdditionsSpec | main.py:185-186 | after the additions loop, each addition key holds the value of its last addition, and every other key is unchanged |
| ConfigComparator.DeleteStep | main.py:176-178 | deleting a listed key only when it is present is the same as removing the set of listed keys |
| ConfigComparator.PatchedFrom | main.py:172-188 | a delta whose additions and updates carry the values of `patched`, with distinct keys, that covers every key where `start` and `patched` differ, turns `start` into exactly `patched` |
| ConfigComparator.ApplyDelta | main.py:172-188 | the result is the base with the deletions removed, then the updates set, then the additions set |
| ConfigComparator.RoundTrip | main.py:139-188 | applying the delta from `base` to `patched` to `base` gives `patched`, in any key order |
| ConfigComparator.PatchIdempotent | main.py:172-188 | applying that delta once more to its own result changes nothing |
| ConfigComparator.NotSelfInverse | main.py:139-188 | applied to `patched`, the delta need not give back `base` |
| ConfigComparator.ExampleDelta | main.py:139-169 | the delta from {a:1, b:2} to {b:3, c:4} adds c=4, deletes a and updates b from 2 to 3 |
| ConfigComparator.ExampleDeltaUnique | main.py:139-169 | conversely, every delta from {a:1, b:2} to {b:3, c:4} is exactly that one, whatever the key order |
| ConfigComparator.CompareAndApply | main.py:219-224 | comparing and then applying, as the program does, gives back the patched dictionary |

## Left out

- XML decoding (`ET.fromstring`, attribute lookup, main.py:32-55): the input is a sequence of already-decoded elements. A missing required XML attribute raises `KeyError` in the source. The model cannot express that, because every decoded element has all its fields.
- The root flag: `elem.attrib.get("isRoot", "false").lower() == "true"` arrives already decoded as a boolean. Python's Unicode `lower()` is not modelled.
- Serialisation (`ET.Element`/`SubElement`, `ET.indent`, `ET.tostring`, `json.dumps`): the outputs are the `Tree` and `Descriptor` datatypes, not text.
- `main()` (main.py:191-226): directory creation and file reads and writes are I/O. Only its compare-then-apply sequence is modelled, as `CompareAndApply`.
- ConfigXml.Expand: Python's recursion limit is a `fuel` parameter. `DepthExceeded` stands for the `RecursionError` that a containment cycle causes. The contract does not say at which depth it occurs; `ExpandFuelMonotone` and `RankedExpandSucceeds` bound it instead.
- Multiplicity.MaxOf: its contract gives a "..-free suffix after a ..". It does not say which one when dots run together ("0...5"). That choice is fixed by `Pieces`, the left-to-right split, which `JoinPieces`, `LastPiece` and `LastPieceHasNoSep` describe.
- JSON values: the values of a configuration dictionary are a type parameter with equality only, and that equality is reflexive. Python's cross-type equalities, such as `1 == 1.0 == True`, are not modelled. Neither is `NaN`, which `json.load` accepts and which is unequal to itself: a key holding `NaN` on both sides is an update in the program but is in no bucket in the model.
- The order of `compare`'s buckets: Python iterates a set, so the order is unspecified. The model picks keys in an unspecified order (`:|`), and every property is stated over keys, not positions.
- Aliasing: ClassModel records are objects. The model proves that no record sits under two keys (`ModelMap.Unaliased`). Records replaced by a redeclaration are not tracked any further.
