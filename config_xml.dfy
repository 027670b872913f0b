/**
 * ConfigXmlGenerator.generate (main.py:71-94): find the first root class and
 * expand it depth first into a tree: one leaf per attribute (its text is the
 * attribute type), then one subtree per child entry, whatever its min/max.
 * The element tree stands for the XML that the source then serialises.
 */
module ConfigXml {
  import opened Wrappers
  import opened Entities

  /** An XML element: an attribute leaf with text, or a class node. */
  datatype Tree = Leaf(tag: string, text: string) | Node(tag: string, kids: seq<Tree>)

  /** `NoRoot` is the source's ValueError; `UnknownClass` its KeyError on a
      child name that is not a key; `DepthExceeded` its RecursionError, met
      after `fuel` nested expansions (a containment cycle ends there). */
  datatype ConfigError = NoRoot | UnknownClass(name: string) | DepthExceeded

  /** One leaf per attribute, in order (main.py:82-84). */
  function AttributeLeaves(attrs: seq<Attribute>): (r: seq<Tree>)
    ensures |r| == |attrs|
    ensures forall i | 0 <= i < |attrs| :: r[i] == Leaf(attrs[i].name, attrs[i].typ)
  {
    if attrs == [] then [] else [Leaf(attrs[0].name, attrs[0].typ)] + AttributeLeaves(attrs[1..])
  }

  /** `t` is the element built for class record `c` looked up under `name`:
      labelled `name`, one leaf per attribute, then one subtree per child
      entry, labelled with the child's name. */
  ghost predicate Shaped(t: Tree, name: string, c: ClassModel)
    reads c
  {
    && t.Node? && t.tag == name
    && |t.kids| == |c.attributes| + |c.childClasses|
    && (forall i | 0 <= i < |c.attributes| :: t.kids[i] == Leaf(c.attributes[i].name, c.attributes[i].typ))
    && (forall j | 0 <= j < |c.childClasses| ::
          t.kids[|c.attributes| + j].Node? && t.kids[|c.attributes| + j].tag == c.childClasses[j].name)
  }

  /** Every node of `t`, from the top down, is the element built for the
      class record its tag names: its attribute leaves, then the expansion
      of each of its child entries. */
  ghost predicate Expanded(m: ModelMap, t: Tree)
    reads m.classes.Values
    decreases t
  {
    && t.Node? && t.tag in m.classes
    && Shaped(t, t.tag, m.classes[t.tag])
    && forall j | |m.classes[t.tag].attributes| <= j < |t.kids| :: Expanded(m, t.kids[j])
  }

  /** The model determines the expanded tree of a class: two expanded trees
      with the same top tag are the same tree, so `Expand` has no other
      result to choose from. */
  lemma {:induction false} ExpandedUnique(m: ModelMap, t1: Tree, t2: Tree)
    requires Expanded(m, t1) && Expanded(m, t2) && t1.tag == t2.tag
    ensures t1 == t2
    decreases t1
  {
    var c := m.classes[t1.tag];
    forall j | 0 <= j < |t1.kids| ensures t1.kids[j] == t2.kids[j] {
      if j >= |c.attributes| {
        var i := j - |c.attributes|;
        assert t1.kids[j].tag == c.childClasses[i].name == t2.kids[j].tag;
        ExpandedUnique(m, t1.kids[j], t2.kids[j]);
      }
    }
    assert t1.kids == t2.kids;
  }

  /** Some class of the model lists `n` as a child. */
  ghost predicate ReferencedName(m: ModelMap, n: string)
    reads m.classes.Values
  {
    exists k, j | k in m.classes && 0 <= j < |m.classes[k].childClasses| :: m.classes[k].childClasses[j].name == n
  }

  /** `build_xml(name)` with at most `fuel` nested calls. */
  function Expand(m: ModelMap, name: string, fuel: nat): (r: Result<Tree, ConfigError>)
    reads m.classes.Values
    ensures r.Success? ==> name in m.classes && Shaped(r.value, name, m.classes[name])
    ensures fuel > 0 && name !in m.classes ==> r == Failure(UnknownClass(name))
    ensures r.Failure? ==> r.error != NoRoot
    ensures r.Failure? && r.error.UnknownClass? ==>
      r.error.name !in m.classes && (r.error.name == name || ReferencedName(m, r.error.name))
    decreases fuel, 0
  {
    if fuel == 0 then Failure(DepthExceeded)
    else if name !in m.classes then Failure(UnknownClass(name))
    else
      var c := m.classes[name];
      match ExpandAll(m, c.childClasses, fuel - 1)
      case Failure(e) =>
        ChildReferenced(m, name, e);
        Failure(e)
      case Success(subtrees) =>
        ShapedNode(c, name, subtrees);
        Success(Node(name, AttributeLeaves(c.attributes) + subtrees))
  }

  /** A node made of a class's attribute leaves, then one subtree per child
      entry carrying the child's name, is shaped for that class. */
  lemma ShapedNode(c: ClassModel, name: string, subtrees: seq<Tree>)
    requires |subtrees| == |c.childClasses|
    requires forall j | 0 <= j < |subtrees| :: subtrees[j].Node? && subtrees[j].tag == c.childClasses[j].name
    ensures Shaped(Node(name, AttributeLeaves(c.attributes) + subtrees), name, c)
  {
    var kids := AttributeLeaves(c.attributes) + subtrees;
    forall j | 0 <= j < |c.childClasses| ensures kids[|c.attributes| + j] == subtrees[j] {
    }
  }

  /** A name listed among the child entries of class `name` is referenced. */
  lemma ChildReferenced(m: ModelMap, name: string, e: ConfigError)
    requires name in m.classes
    ensures e.UnknownClass? ==>
      (exists j | 0 <= j < |m.classes[name].childClasses| :: m.classes[name].childClasses[j].name == e.name) ==>
      ReferencedName(m, e.name)
  {
  }

  /** The subtrees of the child entries `refs`, in order; the first failure
      stops the expansion (main.py:86-88). */
  function ExpandAll(m: ModelMap, refs: seq<ChildRef>, fuel: nat): (r: Result<seq<Tree>, ConfigError>)
    reads m.classes.Values
    ensures r.Success? ==> |r.value| == |refs|
    ensures r.Success? ==> forall j | 0 <= j < |refs| :: r.value[j].Node? && r.value[j].tag == refs[j].name
    ensures r.Failure? ==> r.error != NoRoot
    ensures r.Failure? && r.error.UnknownClass? ==>
      r.error.name !in m.classes
      && ((exists j | 0 <= j < |refs| :: refs[j].name == r.error.name) || ReferencedName(m, r.error.name))
    decreases fuel, |refs| + 1
  {
    if refs == [] then Success([])
    else
      match Expand(m, refs[0].name, fuel)
      case Failure(e) => Failure(e)
      case Success(t) =>
        match ExpandAll(m, refs[1..], fuel)
        case Failure(e) =>
          assert e.UnknownClass? ==> (exists j | 0 <= j < |refs[1..]| :: refs[1..][j].name == e.name) ==>
            (exists j | 0 <= j < |refs| :: refs[j].name == e.name) by {
            if e.UnknownClass? && exists j | 0 <= j < |refs[1..]| :: refs[1..][j].name == e.name {
              var j :| 0 <= j < |refs[1..]| && refs[1..][j].name == e.name;
              assert refs[j + 1].name == e.name;
            }
          }
          Failure(e)
        case Success(ts) => Success([t] + ts)
  }

  /** A shaped node whose subtrees after the attribute leaves are expanded
      is expanded. */
  lemma ExpandedNode(m: ModelMap, t: Tree, subtrees: seq<Tree>)
    requires t.Node? && t.tag in m.classes && Shaped(t, t.tag, m.classes[t.tag])
    requires t.kids == AttributeLeaves(m.classes[t.tag].attributes) + subtrees
    requires forall j | 0 <= j < |subtrees| :: Expanded(m, subtrees[j])
    ensures Expanded(m, t)
  {
    var n := |m.classes[t.tag].attributes|;
    forall j | n <= j < |t.kids| ensures Expanded(m, t.kids[j]) {
      assert t.kids[j] == subtrees[j - n];
    }
  }

  /** `build_xml` expands all the way down: a successful expansion is
      `Expanded` at every node, not only at the top. */
  lemma {:induction false} ExpandIsExpanded(m: ModelMap, name: string, fuel: nat)
    ensures Expand(m, name, fuel).Success? ==> Expanded(m, Expand(m, name, fuel).value)
    decreases fuel, 0
  {
    if fuel == 0 {
      assert Expand(m, name, fuel) == Failure(DepthExceeded);
    } else if name in m.classes {
      var c := m.classes[name];
      var sub := ExpandAll(m, c.childClasses, fuel - 1);
      if sub.Success? {
        ExpandAllIsExpanded(m, c.childClasses, fuel - 1);
        var t := Node(name, AttributeLeaves(c.attributes) + sub.value);
        assert Expand(m, name, fuel) == Success(t);
        ExpandedNode(m, t, sub.value);
      } else {
        assert Expand(m, name, fuel) == Failure(sub.error);
      }
    }
  }

  lemma {:induction false} ExpandAllIsExpanded(m: ModelMap, refs: seq<ChildRef>, fuel: nat)
    ensures ExpandAll(m, refs, fuel).Success? ==>
      forall j | 0 <= j < |refs| :: Expanded(m, ExpandAll(m, refs, fuel).value[j])
    decreases fuel, |refs| + 1
  {
    if refs != [] {
      ExpandIsExpanded(m, refs[0].name, fuel);
      ExpandAllIsExpanded(m, refs[1..], fuel);
    }
  }

  /** The error of a failed list expansion is that of its first failing
      child entry: every entry before it expands. */
  lemma {:induction false} ExpandAllFirstFailure(m: ModelMap, refs: seq<ChildRef>, fuel: nat)
    ensures ExpandAll(m, refs, fuel).Failure? ==>
      exists j | 0 <= j < |refs| ::
        && (forall i | 0 <= i < j :: Expand(m, refs[i].name, fuel).Success?)
        && Expand(m, refs[j].name, fuel) == Failure(ExpandAll(m, refs, fuel).error)
    decreases |refs|
  {
    if refs != [] && ExpandAll(m, refs, fuel).Failure? {
      var e := ExpandAll(m, refs, fuel).error;
      if Expand(m, refs[0].name, fuel).Failure? {
        assert Expand(m, refs[0].name, fuel) == Failure(e);
      } else {
        var rest := refs[1..];
        assert ExpandAll(m, rest, fuel) == Failure(e);
        ExpandAllFirstFailure(m, rest, fuel);
        var j :| 0 <= j < |rest|
          && (forall i | 0 <= i < j :: Expand(m, rest[i].name, fuel).Success?)
          && Expand(m, rest[j].name, fuel) == Failure(e);
        forall i | 0 <= i < j + 1 ensures Expand(m, refs[i].name, fuel).Success? {
          if i > 0 {
            assert refs[i] == rest[i - 1];
          }
        }
        assert refs[j + 1] == rest[j];
      }
    }
  }

  /** A class that fails to expand, with depth left, fails with the error
      of its first failing child entry, expanded one level deeper. */
  lemma ExpandFirstFailure(m: ModelMap, name: string, fuel: nat)
    requires fuel > 0 && name in m.classes && Expand(m, name, fuel).Failure?
    ensures exists j | 0 <= j < |m.classes[name].childClasses| ::
      && (forall i | 0 <= i < j :: Expand(m, m.classes[name].childClasses[i].name, fuel - 1).Success?)
      && Expand(m, m.classes[name].childClasses[j].name, fuel - 1) == Expand(m, name, fuel)
  {
    ExpandAllFirstFailure(m, m.classes[name].childClasses, fuel - 1);
  }

  /** Class `order[i]` is the first root class in dictionary order. */
  ghost predicate IsFirstRoot(m: ModelMap, i: int)
    requires m.WellFormed()
    reads m.classes.Values
  {
    && 0 <= i < |m.order|
    && m.classes[m.order[i]].isRoot
    && forall j | 0 <= j < i :: !m.classes[m.order[j]].isRoot
  }

  /** `next((c for c in model.values() if c.is_root), None)`, searching
      from position `from` of the dictionary order. */
  function FirstRootFrom(m: ModelMap, from: nat): (r: Option<nat>)
    requires m.WellFormed() && from <= |m.order|
    reads m.classes.Values
    ensures r.Some? ==> from <= r.value < |m.order| && m.classes[m.order[r.value]].isRoot
    ensures r.Some? ==> forall j | from <= j < r.value :: !m.classes[m.order[j]].isRoot
    ensures r.None? ==> forall j | from <= j < |m.order| :: !m.classes[m.order[j]].isRoot
    decreases |m.order| - from
  {
    if from == |m.order| then None
    else if m.classes[m.order[from]].isRoot then Some(from)
    else FirstRootFrom(m, from + 1)
  }

  /** `ConfigXmlGenerator.generate`, up to serialisation: NoRoot exactly when
      no class is a root, otherwise the expansion of the first root class. */
  function GenerateConfig(m: ModelMap, fuel: nat): (r: Result<Tree, ConfigError>)
    requires m.WellFormed()
    reads m.classes.Values
    ensures r == Failure(NoRoot) <==> forall k | k in m.classes :: !m.classes[k].isRoot
    ensures forall i | IsFirstRoot(m, i) :: r == Expand(m, m.classes[m.order[i]].name, fuel)
  {
    match FirstRootFrom(m, 0)
    case None =>
      assert forall k | k in m.classes :: !m.classes[k].isRoot by {
        forall k | k in m.classes ensures !m.classes[k].isRoot {
          assert k in m.order;
          var j :| 0 <= j < |m.order| && m.order[j] == k;
        }
      }
      Failure(NoRoot)
    case Some(i) =>
      assert forall i' | IsFirstRoot(m, i') :: i' == i;
      Expand(m, m.classes[m.order[i]].name, fuel)
  }

  /** More depth does not change an expansion that already succeeded: the
      fuel only stands for the interpreter's recursion limit. */
  lemma {:induction false} ExpandFuelMonotone(m: ModelMap, name: string, fuel: nat, more: nat)
    requires Expand(m, name, fuel).Success? && fuel <= more
    ensures Expand(m, name, more) == Expand(m, name, fuel)
    decreases fuel, 0
  {
    ExpandAllFuelMonotone(m, m.classes[name].childClasses, fuel - 1, more - 1);
  }

  lemma {:induction false} ExpandAllFuelMonotone(m: ModelMap, refs: seq<ChildRef>, fuel: nat, more: nat)
    requires ExpandAll(m, refs, fuel).Success? && fuel <= more
    ensures ExpandAll(m, refs, more) == ExpandAll(m, refs, fuel)
    decreases fuel, |refs| + 1
  {
    if refs != [] {
      ExpandFuelMonotone(m, refs[0].name, fuel, more);
      ExpandAllFuelMonotone(m, refs[1..], fuel, more);
    }
  }

  /** Two lists of child entries that name the same classes in the same
      order, whatever their min and max. */
  predicate SameNames(refs1: seq<ChildRef>, refs2: seq<ChildRef>) {
    |refs1| == |refs2| && forall j | 0 <= j < |refs1| :: refs1[j].name == refs2[j].name
  }

  /** Two models with the same classes, attributes and child names; only
      the cardinalities may differ. */
  ghost predicate SameShape(m1: ModelMap, m2: ModelMap)
    reads m1.classes.Values, m2.classes.Values
  {
    && m1.classes.Keys == m2.classes.Keys
    && forall k | k in m1.classes ::
         && m1.classes[k].attributes == m2.classes[k].attributes
         && SameNames(m1.classes[k].childClasses, m2.classes[k].childClasses)
  }

  /** Cardinality is ignored: the tree depends only on names, attributes and
      the order of child entries, never on min or max. */
  lemma {:induction false} CardinalityIgnored(m1: ModelMap, m2: ModelMap, name: string, fuel: nat)
    requires SameShape(m1, m2)
    ensures Expand(m1, name, fuel) == Expand(m2, name, fuel)
    decreases fuel, 0
  {
    if fuel > 0 && name in m1.classes {
      CardinalityIgnoredAll(m1, m2, m1.classes[name].childClasses, m2.classes[name].childClasses, fuel - 1);
    }
  }

  lemma {:induction false} CardinalityIgnoredAll(m1: ModelMap, m2: ModelMap, refs1: seq<ChildRef>, refs2: seq<ChildRef>, fuel: nat)
    requires SameShape(m1, m2) && SameNames(refs1, refs2)
    ensures ExpandAll(m1, refs1, fuel) == ExpandAll(m2, refs2, fuel)
    decreases fuel, |refs1| + 1
  {
    if refs1 != [] {
      CardinalityIgnored(m1, m2, refs1[0].name, fuel);
      CardinalityIgnoredAll(m1, m2, refs1[1..], refs2[1..], fuel);
    }
  }

  /** `rank` shows the containment relation acyclic and every child name
      resolvable: each child of a class is a known class of lower rank. */
  ghost predicate Ranked(m: ModelMap, rank: map<string, nat>)
    reads m.classes.Values
  {
    forall k | k in m.classes ::
      && k in rank
      && forall j | 0 <= j < |m.classes[k].childClasses| ::
           var n := m.classes[k].childClasses[j].name;
           n in m.classes && n in rank && rank[n] < rank[k]
  }

  /** In an acyclic, fully resolvable model the expansion of a class succeeds
      once the depth allowed exceeds its rank. */
  lemma {:induction false} RankedExpandSucceeds(m: ModelMap, rank: map<string, nat>, name: string, fuel: nat)
    requires Ranked(m, rank) && name in m.classes && rank[name] < fuel
    ensures Expand(m, name, fuel).Success?
    decreases fuel, 0
  {
    RankedExpandAllSucceeds(m, rank, m.classes[name].childClasses, rank[name], fuel - 1);
  }

  lemma {:induction false} RankedExpandAllSucceeds(m: ModelMap, rank: map<string, nat>, refs: seq<ChildRef>, bound: nat, fuel: nat)
    requires Ranked(m, rank) && bound <= fuel
    requires forall j | 0 <= j < |refs| :: refs[j].name in m.classes && refs[j].name in rank && rank[refs[j].name] < bound
    ensures ExpandAll(m, refs, fuel).Success?
    decreases fuel, |refs| + 1
  {
    if refs != [] {
      RankedExpandSucceeds(m, rank, refs[0].name, fuel);
      RankedExpandAllSucceeds(m, rank, refs[1..], bound, fuel);
    }
  }

  /** With a root class and an acyclic, fully resolvable model, generation
      succeeds once the depth allowed exceeds every rank. */
  lemma RankedGenerateSucceeds(m: ModelMap, rank: map<string, nat>, fuel: nat)
    requires m.WellFormed() && Ranked(m, rank)
    requires forall k | k in m.classes :: m.classes[k].name == k && rank[k] < fuel
    requires exists k | k in m.classes :: m.classes[k].isRoot
    ensures GenerateConfig(m, fuel).Success?
  {
    var k :| k in m.classes && m.classes[k].isRoot;
    assert k in m.order;
    var i := FirstRootFrom(m, 0).value;
    assert IsFirstRoot(m, i);
    RankedExpandSucceeds(m, rank, m.order[i], fuel);
  }
}
