/**
 * Which animation an update produces: a fade for every element that appears
 * or disappears, a move for every element whose position changed, and the
 * wrapping of the two into nothing, one of them, or a compound of both.
 * Playback (timing, opacity, interpolated positions) is not modelled.
 */
module UpdateAnimation {
  import opened Wrappers
  import opened SModel
  import opened ModelMatching

  /** The direction of a fade: `'in'` for an added element, `'out'` for a removed one. */
  datatype FadeType = FadeIn | FadeOut

  datatype ElementFade = ElementFade(element: Element, fadeType: FadeType)

  datatype ElementMove = ElementMove(elementId: string, fromPosition: Point, toPosition: Point)

  /** The result of computeAnimation: no animation (adopt the new root at once) or a descriptor. */
  datatype Animation =
    | NoAnimation
    | FadeAnimation(elementFades: seq<ElementFade>)
    | MoveAnimation(elementMoves: map<string, ElementMove>)
    | CompoundAnimation(components: seq<Animation>)

  /** Only the new tree has the element. */
  predicate Added(m: Match<Element>)
  {
    m.left.None? && m.right.Some?
  }

  /** Only the old tree has the element. */
  predicate Removed(m: Match<Element>)
  {
    m.left.Some? && m.right.None?
  }

  /** Both trees have the element, both sides have a position, and the positions differ on some axis. */
  predicate Moved(m: Match<Element>)
  {
    && m.left.Some? && m.right.Some?
    && m.left.value.position.Some? && m.right.value.position.Some?
    && (m.left.value.position.value.x != m.right.value.position.value.x
        || m.left.value.position.value.y != m.right.value.position.value.y)
  }

  /** The id a record is about. */
  function RecordId(m: Match<Element>): string
  {
    if m.left.Some? then m.left.value.id else if m.right.Some? then m.right.value.id else ""
  }

  /** No two records are about the same id. */
  ghost predicate DistinctIds(ms: seq<Match<Element>>)
  {
    forall i, j :: 0 <= i < j < |ms| ==> RecordId(ms[i]) != RecordId(ms[j])
  }

  /** The fade a single record contributes, if any. */
  function FadeOf(m: Match<Element>): (fs: seq<ElementFade>)
    ensures |fs| <= 1
    ensures |fs| == 1 ==> fs[0].element.id == RecordId(m)
  {
    if Added(m) then [ElementFade(m.right.value, FadeIn)]
    else if Removed(m) then [ElementFade(m.left.value, FadeOut)]
    else []
  }

  /** The fades of all records, in record order. */
  function Fades(ms: seq<Match<Element>>): (fs: seq<ElementFade>)
    ensures fs == [] <==> forall i :: 0 <= i < |ms| ==> !Added(ms[i]) && !Removed(ms[i])
  {
    if ms == [] then [] else FadeOf(ms[0]) + Fades(ms[1..])
  }

  /** The move a record contributes: the old and the new position, verbatim. */
  function MoveOf(m: Match<Element>): ElementMove
    requires Moved(m)
  {
    ElementMove(m.right.value.id, m.left.value.position.value, m.right.value.position.value)
  }

  /** The moves of all records, keyed by element id; a later record with the same id wins. */
  function Moves(ms: seq<Match<Element>>): (mm: map<string, ElementMove>)
    ensures mm.Keys == {} <==> forall i :: 0 <= i < |ms| ==> !Moved(ms[i])
  {
    if ms == [] then map[]
    else
      var head := if Moved(ms[0]) then map[RecordId(ms[0]) := MoveOf(ms[0])] else map[];
      var tail := Moves(ms[1..]);
      assert (head + tail).Keys == head.Keys + tail.Keys;
      assert Moved(ms[0]) ==> RecordId(ms[0]) in head.Keys;
      head + tail
  }

  /**
   * computeAnimation: fades and moves are collected in one pass over the
   * records; both kinds give a compound whose first component is the fade.
   */
  function ComputeAnimation(ms: seq<Match<Element>>): (a: Animation)
    ensures a.NoAnimation? <==> forall i :: 0 <= i < |ms| ==> !Added(ms[i]) && !Removed(ms[i]) && !Moved(ms[i])
    ensures a.FadeAnimation? ==> a.elementFades != [] && forall i :: 0 <= i < |ms| ==> !Moved(ms[i])
    ensures a.MoveAnimation? ==> a.elementMoves.Keys != {} && forall i :: 0 <= i < |ms| ==> !Added(ms[i]) && !Removed(ms[i])
    ensures a.CompoundAnimation? ==>
      && |a.components| == 2
      && a.components[0].FadeAnimation? && a.components[0].elementFades != []
      && a.components[1].MoveAnimation? && a.components[1].elementMoves.Keys != {}
    ensures a.FadeAnimation? ==> a.elementFades == Fades(ms)
    ensures a.MoveAnimation? ==> a.elementMoves == Moves(ms)
    ensures a.CompoundAnimation? ==> a.components[0].elementFades == Fades(ms) && a.components[1].elementMoves == Moves(ms)
  {
    var fades := Fades(ms);
    var moves := Moves(ms);
    if fades != [] && moves.Keys != {} then CompoundAnimation([FadeAnimation(fades), MoveAnimation(moves)])
    else if fades != [] then FadeAnimation(fades)
    else if moves.Keys != {} then MoveAnimation(moves)
    else NoAnimation
  }

  /** A fade is produced exactly for an added or a removed record, and carries that record's element. */
  lemma {:induction false} FadesMembership(ms: seq<Match<Element>>, f: ElementFade)
    ensures f in Fades(ms) <==> exists i :: 0 <= i < |ms| && FadeOf(ms[i]) == [f]
  {
    if ms != [] {
      FadesMembership(ms[1..], f);
      if f in Fades(ms[1..]) {
        var i :| 0 <= i < |ms[1..]| && FadeOf(ms[1..][i]) == [f];
        assert FadeOf(ms[i + 1]) == [f];
      }
      if exists i :: 0 <= i < |ms| && FadeOf(ms[i]) == [f] {
        var i :| 0 <= i < |ms| && FadeOf(ms[i]) == [f];
        if i > 0 {
          assert FadeOf(ms[1..][i - 1]) == [f];
        }
      }
    }
  }

  /** Records about distinct ids give fades of distinct elements: one fade per added or removed id. */
  lemma {:induction false} FadesDistinct(ms: seq<Match<Element>>)
    requires DistinctIds(ms)
    ensures forall j, k :: 0 <= j < k < |Fades(ms)| ==> Fades(ms)[j].element.id != Fades(ms)[k].element.id
  {
    if ms != [] {
      var rest := ms[1..];
      FadesDistinct(rest);
      var head, tail := FadeOf(ms[0]), Fades(rest);
      assert Fades(ms) == head + tail;
      if |head| == 1 {
        forall k | 0 <= k < |tail| ensures tail[k].element.id != head[0].element.id {
          FadesMembership(rest, tail[k]);
          var i :| 0 <= i < |rest| && FadeOf(rest[i]) == [tail[k]];
          assert rest[i] == ms[i + 1];
        }
      }
    }
  }

  /** The move map has an entry for exactly the moved records' ids, whatever the records. */
  lemma {:induction false} MovesKeys(ms: seq<Match<Element>>, id: string)
    ensures id in Moves(ms) <==> exists i :: 0 <= i < |ms| && RecordId(ms[i]) == id && Moved(ms[i])
  {
    if ms != [] {
      var rest := ms[1..];
      MovesKeys(rest, id);
      if id in Moves(rest) {
        var i :| 0 <= i < |rest| && RecordId(rest[i]) == id && Moved(rest[i]);
        assert rest[i] == ms[i + 1];
      }
      if exists i :: 0 <= i < |ms| && RecordId(ms[i]) == id && Moved(ms[i]) {
        var i :| 0 <= i < |ms| && RecordId(ms[i]) == id && Moved(ms[i]);
        if i > 0 {
          assert rest[i - 1] == ms[i];
        }
      }
    }
  }

  /**
   * The move map has an entry for exactly the moved records' ids, and with
   * distinct ids each entry is that record's move.
   */
  lemma {:induction false} MovesMembership(ms: seq<Match<Element>>, id: string)
    requires DistinctIds(ms)
    ensures id in Moves(ms) <==> exists i :: 0 <= i < |ms| && RecordId(ms[i]) == id && Moved(ms[i])
    ensures forall i :: 0 <= i < |ms| && RecordId(ms[i]) == id && Moved(ms[i]) ==> Moves(ms)[id] == MoveOf(ms[i])
  {
    MovesKeys(ms, id);
    if ms != [] {
      var rest := ms[1..];
      MovesMembership(rest, id);
      forall i | 0 <= i < |rest| ensures rest[i] == ms[i + 1] {}
      if id in Moves(rest) {
        var i :| 0 <= i < |rest| && RecordId(rest[i]) == id && Moved(rest[i]);
        assert RecordId(ms[i + 1]) == id;
      }
    }
  }

  /** The records of a valid match result are about their keys, hence about distinct ids. */
  lemma RecordsDistinct(res: MatchResult)
    requires res.Valid()
    ensures forall i :: 0 <= i < |res.order| ==> RecordId(res.Records()[i]) == res.order[i]
    ensures DistinctIds(res.Records())
  {
  }

  /** A record of the matcher is about the id it is filed under. */
  lemma RecordAt(res: MatchResult, i: int)
    requires res.Valid() && 0 <= i < |res.order|
    ensures res.Records()[i] == res.records[res.order[i]]
    ensures RecordId(res.Records()[i]) == res.order[i]
  {
  }

  /** Where the matcher files the record of an id of either tree, and what that record holds. */
  lemma RecordOf(left: Element, right: Element, id: string) returns (i: nat)
    requires id in Ids(left) + Ids(right)
    ensures var res := MatchTrees(left, right);
      && i < |res.order| && res.order[i] == id
      && RecordId(res.Records()[i]) == id
      && HalfOf(res.Records()[i], Left) == (if id in Ids(left) then EntryHalf(Last(Flatten(left, None), id)) else NoHalf)
      && HalfOf(res.Records()[i], Right) == (if id in Ids(right) then EntryHalf(Last(Flatten(right, None), id)) else NoHalf)
  {
    var res := MatchTrees(left, right);
    MatchTreesKeys(left, right);
    i := ListedIndex(res.order, id);
    RecordAt(res, i);
    MatchTreesLeft(left, right, id);
    MatchTreesRight(left, right, id);
  }

  /** Updating a tree to itself is visually silent. */
  lemma UnchangedTreeIsSilent(t: Element)
    ensures ComputeAnimation(MatchTrees(t, t).Records()) == NoAnimation
  {
    var res := MatchTrees(t, t);
    var ms := res.Records();
    forall i | 0 <= i < |ms| ensures !Added(ms[i]) && !Removed(ms[i]) && !Moved(ms[i]) {
      MatchSelf(t, res.order[i]);
    }
  }

  /** A record with only a right element is of an id only the new tree has, and holds that tree's element. */
  lemma AddedRecordOfTrees(left: Element, right: Element, id: string)
    requires id in MatchTrees(left, right).records && Added(MatchTrees(left, right).records[id])
    ensures id in Ids(right) - Ids(left)
    ensures MatchTrees(left, right).records[id].right == Some(Last(Flatten(right, None), id).element)
  {
    MatchTreesSides(left, right, id);
    MatchTreesRight(left, right, id);
  }

  /** A record with only a left element is of an id only the old tree has, and holds that tree's element. */
  lemma RemovedRecordOfTrees(left: Element, right: Element, id: string)
    requires id in MatchTrees(left, right).records && Removed(MatchTrees(left, right).records[id])
    ensures id in Ids(left) - Ids(right)
    ensures MatchTrees(left, right).records[id].left == Some(Last(Flatten(left, None), id).element)
  {
    MatchTreesSides(left, right, id);
    MatchTreesLeft(left, right, id);
  }

  /** The record behind a fade of an update, with the id it is filed under. */
  lemma FadeSource(left: Element, right: Element, f: ElementFade) returns (id: string)
    requires f in Fades(MatchTrees(left, right).Records())
    ensures id in MatchTrees(left, right).records && FadeOf(MatchTrees(left, right).records[id]) == [f]
  {
    var res := MatchTrees(left, right);
    var ms := res.Records();
    FadesMembership(ms, f);
    var i :| 0 <= i < |ms| && FadeOf(ms[i]) == [f];
    RecordAt(res, i);
    id := res.order[i];
  }

  /**
   * Every `'in'` fade of an update is of an element only the new tree has,
   * and carries the new tree's element.
   */
  lemma FadeInOfTrees(left: Element, right: Element, f: ElementFade)
    requires f in Fades(MatchTrees(left, right).Records()) && f.fadeType == FadeIn
    ensures f.element.id in Ids(right) - Ids(left)
    ensures f.element == Last(Flatten(right, None), f.element.id).element
  {
    var id := FadeSource(left, right, f);
    AddedRecordOfTrees(left, right, id);
  }

  /**
   * Every `'out'` fade of an update is of an element only the old tree has,
   * and carries the old tree's element.
   */
  lemma FadeOutOfTrees(left: Element, right: Element, f: ElementFade)
    requires f in Fades(MatchTrees(left, right).Records()) && f.fadeType == FadeOut
    ensures f.element.id in Ids(left) - Ids(right)
    ensures f.element == Last(Flatten(left, None), f.element.id).element
  {
    var id := FadeSource(left, right, f);
    RemovedRecordOfTrees(left, right, id);
  }

  /** Every added id gets an `'in'` fade and every removed id an `'out'` fade. */
  lemma FadesCoverTrees(left: Element, right: Element, id: string)
    ensures id in Ids(right) - Ids(left) ==>
      ElementFade(Last(Flatten(right, None), id).element, FadeIn) in Fades(MatchTrees(left, right).Records())
    ensures id in Ids(left) - Ids(right) ==>
      ElementFade(Last(Flatten(left, None), id).element, FadeOut) in Fades(MatchTrees(left, right).Records())
  {
    var ms := MatchTrees(left, right).Records();
    if id in Ids(right) - Ids(left) || id in Ids(left) - Ids(right) {
      var i := RecordOf(left, right, id);
      FadesMembership(ms, FadeOf(ms[i])[0]);
    }
  }

  /** No element is faded twice. */
  lemma FadesOfTreesDistinct(left: Element, right: Element)
    ensures var fs := Fades(MatchTrees(left, right).Records());
      forall j, k :: 0 <= j < k < |fs| ==> fs[j].element.id != fs[k].element.id
  {
    RecordsDistinct(MatchTrees(left, right));
    FadesDistinct(MatchTrees(left, right).Records());
  }

  /** Only an element both trees have can move. */
  lemma MovedOnlyIfShared(left: Element, right: Element, id: string)
    requires id in Moves(MatchTrees(left, right).Records())
    ensures id in Ids(left) && id in Ids(right)
  {
    var res := MatchTrees(left, right);
    var ms := res.Records();
    RecordsDistinct(res);
    MovesMembership(ms, id);
    var i :| 0 <= i < |ms| && RecordId(ms[i]) == id && Moved(ms[i]);
    RecordAt(res, i);
    MatchTreesSides(left, right, id);
  }

  /**
   * An element both trees have moves exactly when it has a position on both
   * sides and the positions differ; the move is keyed by its id and carries
   * the old and the new position verbatim.
   */
  lemma MovesOfSharedIds(left: Element, right: Element, id: string)
    requires id in Ids(left) && id in Ids(right)
    ensures var mm := Moves(MatchTrees(left, right).Records());
      var before, after := Last(Flatten(left, None), id).element, Last(Flatten(right, None), id).element;
      && (id in mm <==> before.position.Some? && after.position.Some? && before.position != after.position)
      && (id in mm ==>
            mm[id].elementId == id && Some(mm[id].fromPosition) == before.position && Some(mm[id].toPosition) == after.position)
  {
    var ms := MatchTrees(left, right).Records();
    var i := RecordOf(left, right, id);
    RecordsDistinct(MatchTrees(left, right));
    MovesMembership(ms, id);
  }
}
