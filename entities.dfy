/**
 * The records of the UML-style model (main.py:8-26) and the dictionary
 * `name -> ClassModel` that the parser builds and both generators read.
 */
module Entities {

  /** An attribute of a class: its name and its type, both plain text. */
  datatype Attribute = Attribute(name: string, typ: string)

  /** One entry of `child_classes`: the child class name with the min and max
      taken from the aggregation's source multiplicity. */
  datatype ChildRef = ChildRef(name: string, min: string, max: string)

  /** An aggregation edge: `source` is contained in `target`. */
  datatype Aggregation = Aggregation(
    source: string,
    target: string,
    sourceMultiplicity: string,
    targetMultiplicity: string)

  /** A class record. The parser creates it with empty lists and then appends
      to `attributes` and `childClasses` in place. */
  class ClassModel {
    const name: string
    const isRoot: bool
    const documentation: string
    var attributes: seq<Attribute>
    var childClasses: seq<ChildRef>

    constructor (name: string, isRoot: bool, documentation: string)
      ensures this.name == name && this.isRoot == isRoot
      ensures this.documentation == documentation
      ensures attributes == [] && childClasses == []
    {
      this.name := name;
      this.isRoot := isRoot;
      this.documentation := documentation;
      attributes := [];
      childClasses := [];
    }
  }

  /** An insertion-ordered dictionary from class name to class record:
      `order` lists the keys in the order they were first inserted. */
  datatype ModelMap = ModelMap(order: seq<string>, classes: map<string, ClassModel>) {

    /** The dictionary invariant: each key once in `order`, and `order` lists
        exactly the keys of `classes`. */
    ghost predicate WellFormed() {
      && (forall i, j | 0 <= i < j < |order| :: order[i] != order[j])
      && (forall k :: k in classes <==> k in order)
    }

    /** No record is stored under two keys. */
    ghost predicate Unaliased() {
      forall k, k' | k in classes && k' in classes && k != k' :: classes[k] != classes[k']
    }
  }
}
