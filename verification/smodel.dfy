/**
 * Model elements in their two forms: the schema exchanged with a server (plain
 * data whose `position` and `children` may be absent) and the materialized
 * element built from it.
 */
module SModel {
  import opened Wrappers

  /** A position in diagram coordinates. Positions are compared exactly. */
  datatype Point = Point(x: int, y: int)

  /** The wire form of an element: an id, a type discriminant and optional properties. */
  datatype Schema = Schema(id: string, stype: string, position: Option<Point>, children: SchemaChildren)

  /** A schema's `children` property, which may be left out. */
  datatype SchemaChildren = Absent | Present(items: seq<Schema>)

  /** A materialized element; an absent child list has become an empty one. */
  datatype Element = Element(id: string, etype: string, position: Option<Point>, children: seq<Element>)

  /** Copies a schema's properties onto a new element, materializing its children in order. */
  function Build(s: Schema): (e: Element)
  {
    Element(s.id, s.stype, s.position,
      match s.children
      case Absent => []
      case Present(cs) => seq(|cs|, i requires 0 <= i < |cs| => Build(cs[i])))
  }

  /**
   * The `compare` helper of the update tests: every property present in the
   * expected schema equals the element's, and the expected children are
   * compared position by position. An element may carry properties and
   * trailing children the schema does not mention; an expected child with no
   * counterpart fails.
   */
  predicate Matches(expected: Schema, actual: Element)
  {
    && expected.id == actual.id
    && expected.stype == actual.etype
    && (expected.position.Some? ==> actual.position == expected.position)
    && (expected.children.Present? ==>
          var cs := expected.children.items;
          && |cs| <= |actual.children|
          && forall i :: 0 <= i < |cs| ==> Matches(cs[i], actual.children[i]))
  }

  /** Materializing a schema yields an element that matches it. */
  lemma {:induction false} BuildMatches(s: Schema)
    ensures Matches(s, Build(s))
  {
    if s.children.Present? {
      var cs := s.children.items;
      forall i | 0 <= i < |cs| ensures Matches(cs[i], Build(s).children[i]) {
        BuildMatches(cs[i]);
      }
    }
  }

  /** `compare` ignores children the schema does not list. */
  lemma {:induction false} MatchesIgnoresExtraChildren(s: Schema, e: Element, extra: seq<Element>)
    requires Matches(s, e)
    ensures Matches(s, e.(children := e.children + extra))
  {
  }
}
