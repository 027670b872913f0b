/**
 * ModelParser.parse (main.py:29-68): one pass over the decoded top-level
 * elements builds the class dictionary and the list of aggregations, and a
 * second pass appends one child entry per aggregation to its target class.
 */
module ModelParser {
  import opened Wrappers
  import opened Entities
  import opened Multiplicity

  /** A child element of a `Class` element: an `Attribute` or anything else. */
  datatype Member = AttributeElem(attr: Attribute) | OtherMember

  /** A top-level element of the model document, already decoded. */
  datatype Element =
    | ClassElem(name: string, isRoot: bool, documentation: string, members: seq<Member>)
    | AggregationElem(agg: Aggregation)
    | OtherElem

  predicate NamesClass(e: Element, k: string) {
    e.ClassElem? && e.name == k
  }

  /** Some class element of `elems` is named `k`. */
  ghost predicate Declared(elems: seq<Element>, k: string) {
    exists j | 0 <= j < |elems| :: NamesClass(elems[j], k)
  }

  /** The attributes of a class element, in document order (main.py:43-45). */
  function AttributesOf(members: seq<Member>): (r: seq<Attribute>)
    ensures |r| <= |members|
    ensures forall a :: a in r <==> AttributeElem(a) in members
  {
    if members == [] then []
    else
      var m := members[|members| - 1];
      assert members == members[..|members| - 1] + [m];
      AttributesOf(members[..|members| - 1]) + (if m.AttributeElem? then [m.attr] else [])
  }

  /** Attributes keep their document order: the attributes of a concatenation
      are the attributes of each part, one after the other. */
  lemma {:induction false} AttributesInOrder(m1: seq<Member>, m2: seq<Member>)
    ensures AttributesOf(m1 + m2) == AttributesOf(m1) + AttributesOf(m2)
    decreases |m2|
  {
    if m2 != [] {
      var last := m2[|m2| - 1];
      assert (m1 + m2)[..|m1 + m2| - 1] == m1 + m2[..|m2| - 1];
      AttributesInOrder(m1, m2[..|m2| - 1]);
    } else {
      assert m1 + m2 == m1;
    }
  }

  /** The aggregations of the document, in document order (main.py:49-55). */
  function AggregationsOf(elems: seq<Element>): (r: seq<Aggregation>)
    ensures |r| <= |elems|
    ensures forall a :: a in r <==> AggregationElem(a) in elems
  {
    if elems == [] then []
    else
      var e := elems[|elems| - 1];
      assert elems == elems[..|elems| - 1] + [e];
      AggregationsOf(elems[..|elems| - 1]) + (if e.AggregationElem? then [e.agg] else [])
  }

  /** Aggregations keep their document order: the aggregations of a
      concatenation are those of each part, one after the other. */
  lemma {:induction false} AggregationsInOrder(e1: seq<Element>, e2: seq<Element>)
    ensures AggregationsOf(e1 + e2) == AggregationsOf(e1) + AggregationsOf(e2)
    decreases |e2|
  {
    if e2 != [] {
      assert (e1 + e2)[..|e1 + e2| - 1] == e1 + e2[..|e2| - 1];
      AggregationsInOrder(e1, e2[..|e2| - 1]);
    } else {
      assert e1 + e2 == e1;
    }
  }

  /** The key order of the class dictionary after the first pass: a name
      enters when it is first declared and keeps that place when a later
      element redeclares it (main.py:47). */
  function ClassOrder(elems: seq<Element>): (r: seq<string>)
    ensures forall i, j | 0 <= i < j < |r| :: r[i] != r[j]
    ensures forall k :: k in r <==> Declared(elems, k)
  {
    if elems == [] then []
    else
      var init := elems[..|elems| - 1];
      var e := elems[|elems| - 1];
      var pre := ClassOrder(init);
      assert forall k :: Declared(elems, k) <==> Declared(init, k) || NamesClass(e, k) by {
        forall k ensures Declared(elems, k) <==> Declared(init, k) || NamesClass(e, k) {
          if Declared(init, k) {
            var j :| 0 <= j < |init| && NamesClass(init[j], k);
            assert elems[j] == init[j];
          }
          if Declared(elems, k) && !NamesClass(e, k) {
            var j :| 0 <= j < |elems| && NamesClass(elems[j], k);
            assert init[j] == elems[j];
          }
        }
      }
      if e.ClassElem? && e.name !in pre then pre + [e.name] else pre
  }

  /** The key order only grows by appending: the order after any prefix of
      the document is a prefix of the final order. Together with
      `ClassOrder`'s contract this places each name by its first declaration. */
  lemma {:induction false} ClassOrderGrows(elems: seq<Element>, n: nat)
    requires n <= |elems|
    ensures ClassOrder(elems[..n]) <= ClassOrder(elems)
    decreases |elems| - n
  {
    if n < |elems| {
      var init := elems[..|elems| - 1];
      assert elems[..n] == init[..n];
      ClassOrderGrows(init, n);
    } else {
      assert elems[..n] == elems;
    }
  }

  /** The element whose record the dictionary keeps for `k`: the last class
      element named `k`, since each assignment replaces the previous one. */
  function LastClassElem(elems: seq<Element>, k: string): (r: Option<Element>)
    ensures r.Some? ==> NamesClass(r.value, k) && r.value in elems
    ensures r.Some? <==> Declared(elems, k)
  {
    if elems == [] then None
    else
      var init := elems[..|elems| - 1];
      var e := elems[|elems| - 1];
      if NamesClass(e, k) then Some(e)
      else
        var r := LastClassElem(init, k);
        assert Declared(init, k) ==> Declared(elems, k) by {
          if Declared(init, k) {
            var j :| 0 <= j < |init| && NamesClass(init[j], k);
            assert elems[j] == init[j];
          }
        }
        assert Declared(elems, k) ==> Declared(init, k) by {
          if Declared(elems, k) {
            var j :| 0 <= j < |elems| && NamesClass(elems[j], k);
            assert j < |init| && init[j] == elems[j];
          }
        }
        r
  }

  /** A later declaration replaces an earlier one: the record kept for `k`
      comes from the class element named `k` that no other follows. */
  lemma {:induction false} LastDeclarationWins(elems: seq<Element>, k: string, j: nat)
    requires j < |elems| && NamesClass(elems[j], k)
    requires forall j' | j < j' < |elems| :: !NamesClass(elems[j'], k)
    ensures LastClassElem(elems, k) == Some(elems[j])
    decreases |elems|
  {
    if j < |elems| - 1 {
      var init := elems[..|elems| - 1];
      assert init[j] == elems[j];
      LastDeclarationWins(init, k, j);
    }
  }

  /** The child entry an aggregation contributes: the source class with the
      min and max of the source multiplicity (main.py:61-65). */
  function ChildRefOf(a: Aggregation): ChildRef {
    ChildRef(a.source, MinOf(a.sourceMultiplicity), MaxOf(a.sourceMultiplicity))
  }

  /** The child entries that the aggregations `aggs` give to class `k`. */
  function ChildRefsFor(k: string, aggs: seq<Aggregation>): (r: seq<ChildRef>)
    ensures |r| <= |aggs|
    ensures forall a | a in aggs && a.target == k :: ChildRefOf(a) in r
    ensures forall c | c in r :: exists a | a in aggs :: a.target == k && c == ChildRefOf(a)
  {
    if aggs == [] then []
    else
      var init := aggs[..|aggs| - 1];
      var a := aggs[|aggs| - 1];
      assert aggs == init + [a];
      ChildRefsFor(k, init) + (if a.target == k then [ChildRefOf(a)] else [])
  }

  /** One entry per aggregation aimed at `k`, in aggregation order. */
  lemma {:induction false} ChildRefsInOrder(k: string, a1: seq<Aggregation>, a2: seq<Aggregation>)
    ensures ChildRefsFor(k, a1 + a2) == ChildRefsFor(k, a1) + ChildRefsFor(k, a2)
    decreases |a2|
  {
    if a2 != [] {
      assert (a1 + a2)[..|a1 + a2| - 1] == a1 + a2[..|a2| - 1];
      ChildRefsInOrder(k, a1, a2[..|a2| - 1]);
    } else {
      assert a1 + a2 == a1;
    }
  }

  /** The record `c` stored under `k` is the last class element named `k`,
      with the child entries that `aggs` give it. */
  ghost predicate BuiltFrom(c: ClassModel, k: string, elems: seq<Element>, aggs: seq<Aggregation>)
    reads c
  {
    && LastClassElem(elems, k).Some?
    && var e := LastClassElem(elems, k).value;
    && c.name == k
    && c.isRoot == e.isRoot
    && c.documentation == e.documentation
    && c.attributes == AttributesOf(e.members)
    && c.childClasses == ChildRefsFor(k, aggs)
  }

  /** `ModelParser.parse` on decoded elements: the two passes below, one
      after the other. The returned aggregation list is the second result. */
  method Parse(elems: seq<Element>) returns (model: ModelMap, aggs: seq<Aggregation>)
    ensures model.WellFormed() && model.Unaliased()
    ensures model.order == ClassOrder(elems)
    ensures aggs == AggregationsOf(elems)
    ensures forall k | k in model.classes :: BuiltFrom(model.classes[k], k, elems, aggs)
  {
    model, aggs := ReadElements(elems);
    ResolveAggregations(model, aggs, elems);
  }

  /** The first pass (main.py:36-55): a fresh record per class element,
      stored under its name, and the aggregations collected in order. */
  method ReadElements(elems: seq<Element>) returns (model: ModelMap, aggs: seq<Aggregation>)
    ensures model.WellFormed() && model.Unaliased()
    ensures model.order == ClassOrder(elems)
    ensures aggs == AggregationsOf(elems)
    ensures forall k | k in model.classes :: fresh(model.classes[k])
    ensures forall k | k in model.classes :: BuiltFrom(model.classes[k], k, elems, [])
  {
    model := ModelMap([], map[]);
    aggs := [];
    for i := 0 to |elems|
      invariant model.order == ClassOrder(elems[..i])
      invariant aggs == AggregationsOf(elems[..i])
      invariant model.WellFormed() && model.Unaliased()
      invariant forall k | k in model.classes :: fresh(model.classes[k])
      invariant forall k | k in model.classes :: BuiltFrom(model.classes[k], k, elems[..i], [])
    {
      var e := elems[i];
      assert elems[..i + 1] == elems[..i] + [e];
      if e.ClassElem? {
        var cm := NewClassModel(e);
        StoreClassStep(elems[..i], e, model, cm);
        model := Store(model, e.name, cm);
      } else {
        OtherElementStep(elems[..i], e, model);
        if e.AggregationElem? {
          aggs := aggs + [e.agg];
        }
      }
    }
    assert elems[..|elems|] == elems;
  }

  /** `classes[class_name] = class_model`: a new key goes to the end of the
      order, an existing key keeps its place and gets the new record. */
  function Store(model: ModelMap, k: string, c: ClassModel): ModelMap {
    ModelMap(if k in model.classes then model.order else model.order + [k], model.classes[k := c])
  }

  /** Lines 38-45: a record for one class element, with its attributes. */
  method NewClassModel(e: Element) returns (cm: ClassModel)
    requires e.ClassElem?
    ensures fresh(cm)
    ensures cm.name == e.name && cm.isRoot == e.isRoot && cm.documentation == e.documentation
    ensures cm.attributes == AttributesOf(e.members) && cm.childClasses == []
  {
    cm := new ClassModel(e.name, e.isRoot, e.documentation);
    for j := 0 to |e.members|
      invariant cm.attributes == AttributesOf(e.members[..j])
      invariant cm.childClasses == []
    {
      assert e.members[..j + 1][..j] == e.members[..j];
      if e.members[j].AttributeElem? {
        cm.attributes := cm.attributes + [e.members[j].attr];
      }
    }
    assert e.members[..|e.members|] == e.members;
  }

  /** Storing the record of class element `e` keeps the first-pass state
      consistent with the document extended by `e`. */
  lemma StoreClassStep(done: seq<Element>, e: Element, model: ModelMap, cm: ClassModel)
    requires e.ClassElem?
    requires model.order == ClassOrder(done)
    requires model.WellFormed() && model.Unaliased()
    requires forall k | k in model.classes :: BuiltFrom(model.classes[k], k, done, [])
    requires forall k | k in model.classes :: model.classes[k] != cm
    requires cm.name == e.name && cm.isRoot == e.isRoot && cm.documentation == e.documentation
    requires cm.attributes == AttributesOf(e.members) && cm.childClasses == []
    ensures Store(model, e.name, cm).order == ClassOrder(done + [e])
    ensures Store(model, e.name, cm).WellFormed() && Store(model, e.name, cm).Unaliased()
    ensures forall k | k in Store(model, e.name, cm).classes ::
      BuiltFrom(Store(model, e.name, cm).classes[k], k, done + [e], [])
  {
    var elems := done + [e];
    assert elems[..|elems| - 1] == done;
    var m' := Store(model, e.name, cm);
    assert m'.order == ClassOrder(elems);
    assert m'.WellFormed() by {
      forall k ensures k in m'.classes <==> k in m'.order {
        assert k in model.classes <==> k in model.order;
      }
    }
    forall k | k in m'.classes ensures BuiltFrom(m'.classes[k], k, elems, []) {
      if k != e.name {
        assert LastClassElem(elems, k) == LastClassElem(done, k);
        assert BuiltFrom(model.classes[k], k, done, []);
      }
    }
  }

  /** An element that is not a class element changes neither the key order
      nor any stored record. */
  lemma OtherElementStep(done: seq<Element>, e: Element, model: ModelMap)
    requires !e.ClassElem?
    requires model.order == ClassOrder(done)
    requires forall k | k in model.classes :: BuiltFrom(model.classes[k], k, done, [])
    ensures model.order == ClassOrder(done + [e])
    ensures forall k | k in model.classes :: BuiltFrom(model.classes[k], k, done + [e], [])
  {
    var elems := done + [e];
    assert elems[..|elems| - 1] == done;
  }

  /** The second pass (main.py:58-65): each aggregation whose target is a
      known class appends its child entry to that class; the others are
      dropped. */
  method ResolveAggregations(model: ModelMap, aggs: seq<Aggregation>, ghost elems: seq<Element>)
    requires model.Unaliased()
    requires forall k | k in model.classes :: BuiltFrom(model.classes[k], k, elems, [])
    modifies model.classes.Values
    ensures forall k | k in model.classes :: BuiltFrom(model.classes[k], k, elems, aggs)
  {
    for i := 0 to |aggs|
      invariant forall k | k in model.classes :: BuiltFrom(model.classes[k], k, elems, aggs[..i])
    {
      var a := aggs[i];
      assert aggs[..i + 1][..i] == aggs[..i];
      if a.target in model.classes {
        var t := model.classes[a.target];
        t.childClasses := t.childClasses + [ChildRefOf(a)];
      }
    }
    assert aggs[..|aggs|] == aggs;
  }
}
