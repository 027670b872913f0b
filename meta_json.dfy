/**
 * MetaJsonGenerator.generate (main.py:96-135): one descriptor per class, in
 * dictionary order. The descriptor list stands for the JSON text the source
 * then writes.
 */
module MetaJson {
  import opened Wrappers
  import opened Entities

  /** An entry of "parameters": an attribute with its type, or a child class
      with the type "class". */
  datatype Parameter = Parameter(name: string, typ: string)

  /** The "min" and "max" keys of a descriptor. */
  datatype Bounds = Bounds(min: string, max: string)

  /** One class entry; `bounds` is None when the entry has no "min"/"max". */
  datatype Descriptor = Descriptor(
    className: string,
    documentation: string,
    isRoot: bool,
    parameters: seq<Parameter>,
    bounds: Option<Bounds>)

  /** `d` is the entry for record `c` stored under `key`: the attributes as
      (name, type) then the children as (name, "class"), and min/max present
      exactly when there are children, taken from the first child only. */
  ghost predicate Describes(d: Descriptor, key: string, c: ClassModel)
    reads c
  {
    && d.className == key
    && d.documentation == c.documentation
    && d.isRoot == c.isRoot
    && |d.parameters| == |c.attributes| + |c.childClasses|
    && (forall j | 0 <= j < |c.attributes| ::
          d.parameters[j] == Parameter(c.attributes[j].name, c.attributes[j].typ))
    && (forall j | 0 <= j < |c.childClasses| ::
          d.parameters[|c.attributes| + j] == Parameter(c.childClasses[j].name, "class"))
    && (d.bounds.Some? <==> c.childClasses != [])
    && (d.bounds.Some? ==> d.bounds.value == Bounds(c.childClasses[0].min, c.childClasses[0].max))
  }

  /** `MetaJsonGenerator.generate`, up to serialisation. */
  method GenerateMeta(m: ModelMap) returns (result: seq<Descriptor>)
    requires m.WellFormed()
    ensures |result| == |m.order|
    ensures forall i | 0 <= i < |m.order| :: Describes(result[i], m.order[i], m.classes[m.order[i]])
  {
    result := [];
    for i := 0 to |m.order|
      invariant |result| == i
      invariant forall i' | 0 <= i' < i :: Describes(result[i'], m.order[i'], m.classes[m.order[i']])
    {
      var className := m.order[i];
      var c := m.classes[className];
      var parameters: seq<Parameter> := [];
      for j := 0 to |c.attributes|
        invariant |parameters| == j
        invariant forall j' | 0 <= j' < j ::
          parameters[j'] == Parameter(c.attributes[j'].name, c.attributes[j'].typ)
      {
        parameters := parameters + [Parameter(c.attributes[j].name, c.attributes[j].typ)];
      }
      for j := 0 to |c.childClasses|
        invariant |parameters| == |c.attributes| + j
        invariant forall j' | 0 <= j' < |c.attributes| ::
          parameters[j'] == Parameter(c.attributes[j'].name, c.attributes[j'].typ)
        invariant forall j' | 0 <= j' < j ::
          parameters[|c.attributes| + j'] == Parameter(c.childClasses[j'].name, "class")
      {
        parameters := parameters + [Parameter(c.childClasses[j].name, "class")];
      }
      var bounds: Option<Bounds> := None;
      if c.childClasses != [] {
        bounds := Some(Bounds(c.childClasses[0].min, c.childClasses[0].max));
      }
      result := result + [Descriptor(className, c.documentation, c.isRoot, parameters, bounds)];
    }
  }

  /** Every class gets exactly one descriptor, and every descriptor names a
      class: the class names of a generated list are the dictionary keys,
      each once. */
  lemma OneDescriptorPerClass(m: ModelMap, result: seq<Descriptor>)
    requires m.WellFormed()
    requires |result| == |m.order|
    requires forall i | 0 <= i < |m.order| :: Describes(result[i], m.order[i], m.classes[m.order[i]])
    ensures forall k :: k in m.classes <==> exists i | 0 <= i < |result| :: result[i].className == k
    ensures forall i, j | 0 <= i < j < |result| :: result[i].className != result[j].className
  {
    forall k | k in m.classes ensures exists i | 0 <= i < |result| :: result[i].className == k {
      assert k in m.order;
      var i :| 0 <= i < |m.order| && m.order[i] == k;
      assert result[i].className == k;
    }
  }
}
