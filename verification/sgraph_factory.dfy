/**
 * The graph factory: turns a schema into a live graph element of the right
 * class, chosen by the schema's basic type, and hands an element that is
 * already live back as it is. `getBasicType` is not part of this model: it is
 * passed in as a function on schemas.
 */
module SGraphFactory {
  import opened Wrappers
  import opened SModel

  /** The class a live element was created as. */
  datatype ElementKind = NodeKind | EdgeKind | LabelKind | CompartmentKind | GenericChildKind | GraphKind | GenericRootKind

  /** A live model element; only its parent link is ever reassigned. */
  class LiveElement {
    const id: string
    const stype: string
    const kind: ElementKind
    var parent: Option<LiveElement>

    constructor(id: string, stype: string, kind: ElementKind, parent: Option<LiveElement>)
      ensures this.id == id && this.stype == stype && this.kind == kind && this.parent == parent
    {
      this.id := id;
      this.stype := stype;
      this.kind := kind;
      this.parent := parent;
    }
  }

  /** Whether a live element is a child element: what `instanceof SChildElement` tests. */
  predicate IsChildKind(k: ElementKind)
  {
    k != GraphKind && k != GenericRootKind
  }

  /**
   * What the factory is given: a plain schema, or an object that is already
   * live, of whatever class.
   */
  datatype SchemaInput = PlainSchema(schema: Schema) | LiveObject(element: LiveElement)

  /** The input read as a schema: a live object shows its id and type. */
  function SchemaOf(input: SchemaInput): (s: Schema)
    ensures input.PlainSchema? ==> s == input.schema
    ensures input.LiveObject? ==> s.id == input.element.id && s.stype == input.element.stype
  {
    match input
    case PlainSchema(s) => s
    case LiveObject(e) => Schema(e.id, e.stype, None, Absent)
  }

  predicate IsGraphSchema(basicType: Schema -> string, s: Schema)
  {
    basicType(s) == "graph"
  }

  predicate IsNodeSchema(basicType: Schema -> string, s: Schema)
  {
    basicType(s) == "node"
  }

  predicate IsEdgeSchema(basicType: Schema -> string, s: Schema)
  {
    basicType(s) == "edge"
  }

  predicate IsLabelSchema(basicType: Schema -> string, s: Schema)
  {
    basicType(s) == "label"
  }

  /** Compartments are recognised by the short basic type "comp". */
  predicate IsCompartmentSchema(basicType: Schema -> string, s: Schema)
  {
    basicType(s) == "comp"
  }

  /**
   * The class createElement picks for a plain schema: the predicates are
   * tried in the order node, edge, label, compartment; anything else falls
   * back to the generic child.
   */
  function ChildKindOf(basicType: Schema -> string, s: Schema): (k: ElementKind)
    ensures k == NodeKind <==> IsNodeSchema(basicType, s)
    ensures k == EdgeKind <==> IsEdgeSchema(basicType, s)
    ensures k == LabelKind <==> IsLabelSchema(basicType, s)
    ensures k == CompartmentKind <==> IsCompartmentSchema(basicType, s)
    ensures k == GenericChildKind <==> basicType(s) !in {"node", "edge", "label", "comp"}
    ensures k != GraphKind && k != GenericRootKind
  {
    if IsNodeSchema(basicType, s) then NodeKind
    else if IsEdgeSchema(basicType, s) then EdgeKind
    else if IsLabelSchema(basicType, s) then LabelKind
    else if IsCompartmentSchema(basicType, s) then CompartmentKind
    else GenericChildKind
  }

  /** The class createRoot picks for a plain schema: a graph for "graph", the generic root otherwise. */
  function RootKindOf(basicType: Schema -> string, s: Schema): (k: ElementKind)
    ensures k == GraphKind <==> IsGraphSchema(basicType, s)
    ensures k == GenericRootKind <==> !IsGraphSchema(basicType, s)
  {
    if IsGraphSchema(basicType, s) then GraphKind else GenericRootKind
  }

  /**
   * createElement: a live child element is returned as the same object, its
   * parent overwritten only when a parent is given; anything else, a live
   * root included, yields a fresh element of the class its basic type
   * selects, under the given parent.
   */
  method CreateElement(basicType: Schema -> string, input: SchemaInput, parent: Option<LiveElement>) returns (r: LiveElement)
    modifies if input.LiveObject? && IsChildKind(input.element.kind) then {input.element} else {}
    ensures input.LiveObject? && IsChildKind(input.element.kind) ==>
      && r == input.element
      && (parent.Some? ==> r.parent == parent)
      && (parent.None? ==> unchanged(r))
    ensures !(input.LiveObject? && IsChildKind(input.element.kind)) ==>
      && fresh(r) && r.kind == ChildKindOf(basicType, SchemaOf(input))
      && r.id == SchemaOf(input).id && r.stype == SchemaOf(input).stype && r.parent == parent
  {
    if input.LiveObject? && IsChildKind(input.element.kind) {
      var e := input.element;
      if parent.Some? {
        e.parent := parent;
      }
      r := e;
    } else {
      var s := SchemaOf(input);
      r := new LiveElement(s.id, s.stype, ChildKindOf(basicType, s), parent);
    }
  }

  /**
   * createRoot: a live root is returned unchanged; anything else, a live
   * child included, yields a fresh graph or generic root.
   */
  method CreateRoot(basicType: Schema -> string, input: SchemaInput) returns (r: LiveElement)
    ensures input.LiveObject? && !IsChildKind(input.element.kind) ==> r == input.element
    ensures !(input.LiveObject? && !IsChildKind(input.element.kind)) ==>
      && fresh(r) && r.kind == RootKindOf(basicType, SchemaOf(input))
      && r.id == SchemaOf(input).id && r.stype == SchemaOf(input).stype && r.parent == None
  {
    if input.LiveObject? && !IsChildKind(input.element.kind) {
      r := input.element;
    } else {
      var s := SchemaOf(input);
      r := new LiveElement(s.id, s.stype, RootKindOf(basicType, s), None);
    }
  }

  /** The schema predicates compare one basic type against distinct strings, so at most one holds. */
  lemma AtMostOneSchemaPredicate(basicType: Schema -> string, s: Schema)
    ensures IsNodeSchema(basicType, s) ==> !IsEdgeSchema(basicType, s) && !IsLabelSchema(basicType, s) && !IsCompartmentSchema(basicType, s) && !IsGraphSchema(basicType, s)
    ensures IsEdgeSchema(basicType, s) ==> !IsLabelSchema(basicType, s) && !IsCompartmentSchema(basicType, s) && !IsGraphSchema(basicType, s)
    ensures IsLabelSchema(basicType, s) ==> !IsCompartmentSchema(basicType, s) && !IsGraphSchema(basicType, s)
    ensures IsCompartmentSchema(basicType, s) ==> !IsGraphSchema(basicType, s)
  {
  }

  /** Classification sees a schema only through its basic type. */
  lemma KindDependsOnBasicTypeOnly(basicType: Schema -> string, s: Schema, t: Schema)
    requires basicType(s) == basicType(t)
    ensures ChildKindOf(basicType, s) == ChildKindOf(basicType, t)
    ensures RootKindOf(basicType, s) == RootKindOf(basicType, t)
  {
  }

  /** "compartment" spelled out is not recognised: it becomes a generic child; a "graph" child does too. */
  lemma UnrecognisedBasicTypes(basicType: Schema -> string, s: Schema)
    requires basicType(s) in {"compartment", "graph", ""}
    ensures ChildKindOf(basicType, s) == GenericChildKind
  {
  }
}
