/**
 * The model matcher: pairs the elements of an old (left) and a new (right)
 * tree by id. The result is a dictionary from id to match record, listed in
 * the order the ids were first registered: the left tree's ids in pre-order
 * come first, then the ids that only the right tree has.
 */
module ModelMatching {
  import opened Wrappers
  import opened SModel

  /** One id's match record: the element on each side, with the id of its parent there. */
  datatype Match<T> = Match(left: Option<T>, leftParentId: Option<string>, right: Option<T>, rightParentId: Option<string>)

  /** An element of a tree together with the id of its parent (none for the root). */
  datatype Entry = Entry(element: Element, parentId: Option<string>)

  /** The elements of a tree in pre-order, each with its parent's id. */
  function Flatten(e: Element, parentId: Option<string>): (r: seq<Entry>)
    decreases e, |e.children| + 1
    ensures |r| >= 1 && r[0] == Entry(e, parentId)
  {
    [Entry(e, parentId)] + FlattenChildren(e, 0)
  }

  /** The entries of the subtrees of `e.children[i..]`, in order. */
  function FlattenChildren(e: Element, i: nat): seq<Entry>
    requires i <= |e.children|
    decreases e, |e.children| - i
  {
    if i == |e.children| then []
    else Flatten(e.children[i], Some(e.id)) + FlattenChildren(e, i + 1)
  }

  /** The ids occurring in a list of entries. */
  function IdsOf(entries: seq<Entry>): set<string>
  {
    if entries == [] then {} else {entries[0].element.id} + IdsOf(entries[1..])
  }

  /** The ids of all elements of a tree, its root included. */
  function Ids(t: Element): set<string>
  {
    IdsOf(Flatten(t, None))
  }

  /** The last entry carrying `id`: the one whose registration survives a repeated id. */
  function Last(entries: seq<Entry>, id: string): (en: Entry)
    requires id in IdsOf(entries)
    ensures en.element.id == id
  {
    if id in IdsOf(entries[1..]) then Last(entries[1..], id) else entries[0]
  }

  datatype Side = Left | Right

  function Opposite(side: Side): Side
  {
    if side == Left then Right else Left
  }

  /** One side of a match record: the element and its parent's id. */
  datatype Half = Half(element: Option<Element>, parentId: Option<string>)

  const NoHalf := Half(None, None)

  function EntryHalf(en: Entry): Half
  {
    Half(Some(en.element), en.parentId)
  }

  function HalfOf(m: Match<Element>, side: Side): Half
  {
    if side == Left then Half(m.left, m.leftParentId) else Half(m.right, m.rightParentId)
  }

  function WithHalf(m: Match<Element>, side: Side, h: Half): (r: Match<Element>)
    ensures HalfOf(r, side) == h && HalfOf(r, Opposite(side)) == HalfOf(m, Opposite(side))
  {
    if side == Left then m.(left := h.element, leftParentId := h.parentId)
    else m.(right := h.element, rightParentId := h.parentId)
  }

  /** The strings listed in a sequence. */
  function Listed(s: seq<string>): set<string>
  {
    if s == [] then {} else Listed(s[..|s| - 1]) + {s[|s| - 1]}
  }

  /** A listed string stands at some index. */
  lemma {:induction false} ListedIndex(s: seq<string>, x: string) returns (i: nat)
    requires x in Listed(s)
    ensures i < |s| && s[i] == x
  {
    if s[|s| - 1] == x {
      i := |s| - 1;
    } else {
      i := ListedIndex(s[..|s| - 1], x);
    }
  }

  /** Match records keyed by id, with the order in which the ids were first seen. */
  datatype MatchResult = MatchResult(order: seq<string>, records: map<string, Match<Element>>)
  {
    /**
     * Every id is listed once, the listed ids are exactly the keys, and each
     * record holds at least one element, whose id is its key.
     */
    ghost predicate Valid()
    {
      && (forall i, j :: 0 <= i < j < |order| ==> order[i] != order[j])
      && (forall i :: 0 <= i < |order| ==> order[i] in records)
      && records.Keys == Listed(order)
      && (forall id :: id in records ==> records[id].left.Some? || records[id].right.Some?)
      && (forall id :: id in records && records[id].left.Some? ==> records[id].left.value.id == id)
      && (forall id :: id in records && records[id].right.Some? ==> records[id].right.value.id == id)
    }

    /** The records in iteration order. */
    function Records(): (ms: seq<Match<Element>>)
      requires Valid()
      ensures |ms| == |order|
      ensures forall i :: 0 <= i < |order| ==> ms[i] == records[order[i]]
    {
      seq(|order|, i requires 0 <= i < |order| => records[order[i]])
    }
  }

  const EmptyResult := MatchResult([], map[])

  /** Registers one element on one side, as matchLeft/matchRight do for each element they visit. */
  function Register(acc: MatchResult, side: Side, en: Entry): (r: MatchResult)
    ensures r.records.Keys == acc.records.Keys + {en.element.id}
    ensures HalfOf(r.records[en.element.id], side) == EntryHalf(en)
    ensures en.element.id in acc.records ==>
      HalfOf(r.records[en.element.id], Opposite(side)) == HalfOf(acc.records[en.element.id], Opposite(side))
    ensures en.element.id !in acc.records ==> HalfOf(r.records[en.element.id], Opposite(side)) == NoHalf
    ensures forall id :: id in acc.records && id != en.element.id ==> r.records[id] == acc.records[id]
  {
    var id := en.element.id;
    if id in acc.records then
      acc.(records := acc.records[id := WithHalf(acc.records[id], side, EntryHalf(en))])
    else
      var m := WithHalf(Match(None, None, None, None), side, EntryHalf(en));
      MatchResult(acc.order + [id], acc.records[id := m])
  }

  /** Registering keeps the result well formed: a new id is listed once, a known id stays where it is. */
  lemma RegisterValid(acc: MatchResult, side: Side, en: Entry)
    requires acc.Valid()
    ensures Register(acc, side, en).Valid()
  {
    if en.element.id in acc.records {
      RegisterKnownValid(acc, side, en);
    } else {
      RegisterNewValid(acc, side, en);
    }
  }

  lemma RegisterKnownValid(acc: MatchResult, side: Side, en: Entry)
    requires acc.Valid() && en.element.id in acc.records
    ensures Register(acc, side, en).Valid()
  {
    var id := en.element.id;
    var m := Register(acc, side, en).records[id];
    assert m == WithHalf(acc.records[id], side, EntryHalf(en));
    assert m.left.Some? ==> m.left.value.id == id;
    assert m.right.Some? ==> m.right.value.id == id;
  }

  lemma RegisterNewValid(acc: MatchResult, side: Side, en: Entry)
    requires acc.Valid() && en.element.id !in acc.records
    ensures Register(acc, side, en).Valid()
  {
    var id := en.element.id;
    var order := acc.order + [id];
    assert Register(acc, side, en).order == order;
    assert order[..|acc.order|] == acc.order;
    assert Listed(order) == Listed(acc.order) + {id};
    assert forall i :: 0 <= i < |acc.order| ==> order[i] == acc.order[i] != id;
  }

  /** Registers a list of entries on one side, in order. */
  function MatchSide(entries: seq<Entry>, side: Side, acc: MatchResult): (r: MatchResult)
    ensures r.records.Keys == acc.records.Keys + IdsOf(entries)
  {
    if entries == [] then acc
    else MatchSide(entries[1..], side, Register(acc, side, entries[0]))
  }

  /** Registering a list of entries keeps the result well formed. */
  lemma {:induction false} MatchSideValid(entries: seq<Entry>, side: Side, acc: MatchResult)
    requires acc.Valid()
    ensures MatchSide(entries, side, acc).Valid()
    decreases |entries|
  {
    if entries != [] {
      RegisterValid(acc, side, entries[0]);
      MatchSideValid(entries[1..], side, Register(acc, side, entries[0]));
    }
  }

  /** ModelMatcher.match: register the left tree, then the right tree. */
  function MatchTrees(left: Element, right: Element): (r: MatchResult)
    ensures r.Valid()
  {
    var l := MatchSide(Flatten(left, None), Left, EmptyResult);
    MatchSideValid(Flatten(left, None), Left, EmptyResult);
    MatchSideValid(Flatten(right, None), Right, l);
    MatchSide(Flatten(right, None), Right, l)
  }

  /**
   * After registering `entries` on one side, that side of an id's record
   * holds the last entry with that id, or what it held before; the other side
   * is untouched.
   */
  lemma {:induction false} MatchSideHalf(entries: seq<Entry>, side: Side, acc: MatchResult, id: string)
    requires id in acc.records || id in IdsOf(entries)
    ensures var r := MatchSide(entries, side, acc);
      && id in r.records
      && HalfOf(r.records[id], side) ==
           (if id in IdsOf(entries) then EntryHalf(Last(entries, id)) else HalfOf(acc.records[id], side))
      && HalfOf(r.records[id], Opposite(side)) ==
           (if id in acc.records then HalfOf(acc.records[id], Opposite(side)) else NoHalf)
    decreases |entries|
  {
    if entries != [] {
      var en, rest := entries[0], entries[1..];
      var acc' := Register(acc, side, en);
      assert IdsOf(entries) == {en.element.id} + IdsOf(rest);
      MatchSideHalf(rest, side, acc', id);
      assert MatchSide(entries, side, acc) == MatchSide(rest, side, acc');
      if id != en.element.id {
        assert id in acc.records ==> acc'.records[id] == acc.records[id];
      }
    }
  }

  /** The matcher loses and invents no id: its keys are the ids of both trees. */
  lemma MatchTreesKeys(left: Element, right: Element)
    ensures MatchTrees(left, right).records.Keys == Ids(left) + Ids(right)
  {
  }

  /**
   * The left side of a record holds the old tree's element with the record's
   * id (with its parent's id), or nothing when the old tree lacks that id.
   */
  lemma MatchTreesLeft(left: Element, right: Element, id: string)
    ensures var r := MatchTrees(left, right);
      id in r.records ==>
        HalfOf(r.records[id], Left) == (if id in Ids(left) then EntryHalf(Last(Flatten(left, None), id)) else NoHalf)
  {
    var fl, fr := Flatten(left, None), Flatten(right, None);
    var l := MatchSide(fl, Left, EmptyResult);
    var r := MatchSide(fr, Right, l);
    assert r == MatchTrees(left, right);
    if id in r.records {
      assert id in l.records || id in IdsOf(fr);
      MatchSideHalf(fr, Right, l, id);
      if id in l.records {
        MatchSideHalf(fl, Left, EmptyResult, id);
      }
    }
  }

  /**
   * The right side of a record holds the new tree's element with the record's
   * id (with its parent's id), or nothing when the new tree lacks that id.
   */
  lemma MatchTreesRight(left: Element, right: Element, id: string)
    ensures var r := MatchTrees(left, right);
      id in r.records ==>
        HalfOf(r.records[id], Right) == (if id in Ids(right) then EntryHalf(Last(Flatten(right, None), id)) else NoHalf)
  {
    var fl, fr := Flatten(left, None), Flatten(right, None);
    var l := MatchSide(fl, Left, EmptyResult);
    var r := MatchSide(fr, Right, l);
    assert r == MatchTrees(left, right);
    if id in r.records {
      assert id in l.records || id in IdsOf(fr);
      MatchSideHalf(fr, Right, l, id);
      if id !in IdsOf(fr) {
        MatchSideHalf(fl, Left, EmptyResult, id);
      }
    }
  }

  /**
   * Left-only records are exactly the removed ids and right-only records
   * exactly the added ones; ids in both trees get a two-sided record.
   */
  lemma MatchTreesSides(left: Element, right: Element, id: string)
    requires id in MatchTrees(left, right).records
    ensures var m := MatchTrees(left, right).records[id];
      && (m.left.Some? <==> id in Ids(left))
      && (m.right.Some? <==> id in Ids(right))
  {
    MatchTreesLeft(left, right, id);
    MatchTreesRight(left, right, id);
  }

  /** Matching a tree against itself pairs every element with itself, under the same parent. */
  lemma MatchSelf(t: Element, id: string)
    ensures MatchTrees(t, t).records.Keys == Ids(t)
    ensures id in MatchTrees(t, t).records ==>
      var m := MatchTrees(t, t).records[id];
      && m.left.Some?
      && m.left == m.right
      && m.leftParentId == m.rightParentId
  {
    var r := MatchTrees(t, t);
    MatchTreesKeys(t, t);
    if id in r.records {
      MatchTreesLeft(t, t, id);
      MatchTreesRight(t, t, id);
      var h := EntryHalf(Last(Flatten(t, None), id));
      assert HalfOf(r.records[id], Left) == h;
      assert HalfOf(r.records[id], Right) == h;
    }
  }
}
