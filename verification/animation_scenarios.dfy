/**
 * The four animation scenarios of the update-model command, worked out on
 * concrete trees: the matcher's dictionary is computed entry by entry and the
 * animation that computeAnimation derives from it is stated exactly.
 */
module AnimationScenarios {
  import opened Wrappers
  import opened SModel
  import opened ModelMatching
  import opened UpdateAnimation

  const Empty := Element("model", "graph", None, [])
  const Child1 := Element("child1", "node", None, [])
  const Child2 := Element("child2", "node", None, [])
  const Child3 := Element("child3", "node", None, [])
  const Child1At100 := Element("child1", "node", Some(Point(100, 100)), [])
  const Child1At150 := Element("child1", "node", Some(Point(150, 200)), [])
  /** The graph with two plain nodes. */
  const Pair := Element("model", "graph", None, [Child1, Child2])
  /** The graph whose child1 sits at (100,100). */
  const Before := Element("model", "graph", None, [Child1At100])
  /** The graph whose child1 sits at (150,200). */
  const After := Element("model", "graph", None, [Child1At150])
  /** child1 at (100,100) and child2. */
  const MixedBefore := Element("model", "graph", None, [Child1At100, Child2])
  /** child1 at (150,200) and child3. */
  const MixedAfter := Element("model", "graph", None, [Child1At150, Child3])

  /** A two-child graph flattens to its root followed by its children, each under "model". */
  lemma FlattenTwo(t: Element, a: Element, b: Element)
    requires t == Element("model", "graph", None, [a, b]) && a.children == [] && b.children == []
    ensures Flatten(t, None) == [Entry(t, None), Entry(a, Some("model")), Entry(b, Some("model"))]
  {
    assert FlattenChildren(t, 2) == [];
    assert Flatten(b, Some("model")) == [Entry(b, Some("model"))];
    assert Flatten(a, Some("model")) == [Entry(a, Some("model"))];
    assert FlattenChildren(t, 1) == [Entry(b, Some("model"))];
  }

  /** A graph without children flattens to its root alone. */
  lemma FlattenLeaf(t: Element)
    requires t.children == []
    ensures Flatten(t, None) == [Entry(t, None)]
  {
    assert FlattenChildren(t, 0) == [];
  }

  /** A one-child graph flattens to its root followed by its child. */
  lemma FlattenOne(t: Element, a: Element)
    requires t == Element("model", "graph", None, [a]) && a.children == []
    ensures Flatten(t, None) == [Entry(t, None), Entry(a, Some("model"))]
  {
    assert FlattenChildren(t, 1) == [];
    assert Flatten(a, Some("model")) == [Entry(a, Some("model"))];
  }

  /** Matching one entry registers it. */
  lemma FoldOne(a: Entry, side: Side, acc: MatchResult)
    ensures MatchSide([a], side, acc) == Register(acc, side, a)
  {
    assert [a][1..] == [];
  }

  /** Matching two entries registers them in order. */
  lemma FoldTwo(a: Entry, b: Entry, side: Side, acc: MatchResult)
    ensures MatchSide([a, b], side, acc) == Register(Register(acc, side, a), side, b)
  {
    assert [a, b][1..] == [b];
    FoldOne(b, side, Register(acc, side, a));
  }

  /** Matching three entries registers them in order. */
  lemma FoldThree(a: Entry, b: Entry, c: Entry, side: Side, acc: MatchResult)
    ensures MatchSide([a, b, c], side, acc) == Register(Register(Register(acc, side, a), side, b), side, c)
  {
    assert [a, b, c][1..] == [b, c];
    FoldTwo(b, c, side, Register(acc, side, a));
  }

  // ---- fades in new elements ----

  const InRoot := Match(Some(Empty), None, Some(Pair), None)
  const In1 := Match(None, None, Some(Child1), Some("model"))
  const In2 := Match(None, None, Some(Child2), Some("model"))
  const InStep0 := MatchResult(["model"], map["model" := Match(Some(Empty), None, None, None)])
  const InStep1 := MatchResult(["model"], map["model" := InRoot])
  const InStep2 := MatchResult(["model", "child1"], map["model" := InRoot, "child1" := In1])
  const InAll := MatchResult(["model", "child1", "child2"], map["model" := InRoot, "child1" := In1, "child2" := In2])

  lemma FadeInSteps()
    ensures Register(EmptyResult, Left, Entry(Empty, None)) == InStep0
    ensures Register(InStep0, Right, Entry(Pair, None)) == InStep1
    ensures Register(InStep1, Right, Entry(Child1, Some("model"))) == InStep2
    ensures Register(InStep2, Right, Entry(Child2, Some("model"))) == InAll
  {
  }

  lemma FadeInMatch()
    ensures MatchTrees(Empty, Pair) == InAll
  {
    FlattenTwo(Pair, Child1, Child2);
    FlattenLeaf(Empty);
    FadeInSteps();
    FoldOne(Entry(Empty, None), Left, EmptyResult);
    FoldThree(Entry(Pair, None), Entry(Child1, Some("model")), Entry(Child2, Some("model")), Right, InStep0);
  }

  lemma FadeInRecords()
    requires InAll.Valid()
    ensures InAll.Records() == [InRoot, In1, In2]
  {
  }

  lemma FadeInAnimation()
    ensures ComputeAnimation([InRoot, In1, In2]) == FadeAnimation([ElementFade(Child1, FadeIn), ElementFade(Child2, FadeIn)])
  {
    var ms := [InRoot, In1, In2];
    assert Fades(ms[2..]) == [ElementFade(Child2, FadeIn)];
    assert Fades(ms[1..]) == [ElementFade(Child1, FadeIn), ElementFade(Child2, FadeIn)];
    assert !Moved(ms[0]);
  }

  /** A graph that gains two nodes fades both in, in tree order, and nothing else. */
  lemma FadeInScenario()
    ensures ComputeAnimation(MatchTrees(Empty, Pair).Records()) ==
      FadeAnimation([ElementFade(Child1, FadeIn), ElementFade(Child2, FadeIn)])
  {
    FadeInMatch();
    FadeInRecords();
    FadeInAnimation();
  }

  // ---- fades out deleted elements ----

  const OutRoot := Match(Some(Pair), None, Some(Empty), None)
  const Out1 := Match(Some(Child1), Some("model"), None, None)
  const Out2 := Match(Some(Child2), Some("model"), None, None)
  const OutStep0 := MatchResult(["model"], map["model" := Match(Some(Pair), None, None, None)])
  const OutStep1 := MatchResult(["model", "child1"], map["model" := Match(Some(Pair), None, None, None), "child1" := Out1])
  const OutStep2 := MatchResult(["model", "child1", "child2"], map["model" := Match(Some(Pair), None, None, None), "child1" := Out1, "child2" := Out2])
  const OutAll := MatchResult(["model", "child1", "child2"], map["model" := OutRoot, "child1" := Out1, "child2" := Out2])

  lemma FadeOutSteps()
    ensures Register(EmptyResult, Left, Entry(Pair, None)) == OutStep0
    ensures Register(OutStep0, Left, Entry(Child1, Some("model"))) == OutStep1
    ensures Register(OutStep1, Left, Entry(Child2, Some("model"))) == OutStep2
    ensures Register(OutStep2, Right, Entry(Empty, None)) == OutAll
  {
  }

  lemma FadeOutMatch()
    ensures MatchTrees(Pair, Empty) == OutAll
  {
    FlattenTwo(Pair, Child1, Child2);
    FlattenLeaf(Empty);
    FadeOutSteps();
    FoldThree(Entry(Pair, None), Entry(Child1, Some("model")), Entry(Child2, Some("model")), Left, EmptyResult);
    FoldOne(Entry(Empty, None), Right, OutStep2);
  }

  lemma FadeOutRecords()
    requires OutAll.Valid()
    ensures OutAll.Records() == [OutRoot, Out1, Out2]
  {
  }

  lemma FadeOutAnimation()
    ensures ComputeAnimation([OutRoot, Out1, Out2]) == FadeAnimation([ElementFade(Child1, FadeOut), ElementFade(Child2, FadeOut)])
  {
    var ms := [OutRoot, Out1, Out2];
    assert Fades(ms[2..]) == [ElementFade(Child2, FadeOut)];
    assert Fades(ms[1..]) == [ElementFade(Child1, FadeOut), ElementFade(Child2, FadeOut)];
    assert !Moved(ms[0]);
  }

  /** A graph that loses its two nodes fades both out, in tree order, and nothing else. */
  lemma FadeOutScenario()
    ensures ComputeAnimation(MatchTrees(Pair, Empty).Records()) ==
      FadeAnimation([ElementFade(Child1, FadeOut), ElementFade(Child2, FadeOut)])
  {
    FadeOutMatch();
    FadeOutRecords();
    FadeOutAnimation();
  }

  // ---- moves relocated elements ----

  const MoveRoot := Match(Some(Before), None, Some(After), None)
  const Move1 := Match(Some(Child1At100), Some("model"), Some(Child1At150), Some("model"))
  const MoveStep0 := MatchResult(["model"], map["model" := Match(Some(Before), None, None, None)])
  const MoveStep1 := MatchResult(["model", "child1"], map["model" := Match(Some(Before), None, None, None),
    "child1" := Match(Some(Child1At100), Some("model"), None, None)])
  const MoveStep2 := MatchResult(["model", "child1"], map["model" := MoveRoot, "child1" := Match(Some(Child1At100), Some("model"), None, None)])
  const MoveAll := MatchResult(["model", "child1"], map["model" := MoveRoot, "child1" := Move1])

  lemma MoveSteps()
    ensures Register(EmptyResult, Left, Entry(Before, None)) == MoveStep0
    ensures Register(MoveStep0, Left, Entry(Child1At100, Some("model"))) == MoveStep1
    ensures Register(MoveStep1, Right, Entry(After, None)) == MoveStep2
    ensures Register(MoveStep2, Right, Entry(Child1At150, Some("model"))) == MoveAll
  {
  }

  lemma MoveMatch()
    ensures MatchTrees(Before, After) == MoveAll
  {
    FlattenOne(Before, Child1At100);
    FlattenOne(After, Child1At150);
    MoveSteps();
    FoldTwo(Entry(Before, None), Entry(Child1At100, Some("model")), Left, EmptyResult);
    FoldTwo(Entry(After, None), Entry(Child1At150, Some("model")), Right, MoveStep1);
  }

  lemma MoveRecords()
    requires MoveAll.Valid()
    ensures MoveAll.Records() == [MoveRoot, Move1]
  {
  }

  lemma MoveAnimationOf()
    ensures ComputeAnimation([MoveRoot, Move1]) ==
      MoveAnimation(map["child1" := ElementMove("child1", Point(100, 100), Point(150, 200))])
  {
    var ms := [MoveRoot, Move1];
    assert Fades(ms[1..]) == [];
    assert Moves(ms[1..]) == map["child1" := ElementMove("child1", Point(100, 100), Point(150, 200))];
  }

  /** A position-only change is a plain move of child1 from (100,100) to (150,200). */
  lemma MoveScenario()
    ensures ComputeAnimation(MatchTrees(Before, After).Records()) ==
      MoveAnimation(map["child1" := ElementMove("child1", Point(100, 100), Point(150, 200))])
  {
    MoveMatch();
    MoveRecords();
    MoveAnimationOf();
  }

  // ---- combines fade and move animations ----

  const MixRoot := Match(Some(MixedBefore), None, Some(MixedAfter), None)
  const Mix2 := Match(Some(Child2), Some("model"), None, None)
  const Mix3 := Match(None, None, Some(Child3), Some("model"))
  const MixStep0 := MatchResult(["model"], map["model" := Match(Some(MixedBefore), None, None, None)])
  const MixStep1 := MatchResult(["model", "child1"], map["model" := Match(Some(MixedBefore), None, None, None),
    "child1" := Match(Some(Child1At100), Some("model"), None, None)])
  const MixLeft := MatchResult(["model", "child1", "child2"], map["model" := Match(Some(MixedBefore), None, None, None),
    "child1" := Match(Some(Child1At100), Some("model"), None, None), "child2" := Mix2])
  const MixRight1 := MixLeft.(records := MixLeft.records["model" := MixRoot])
  const MixRight2 := MixRight1.(records := MixRight1.records["child1" := Move1])
  const MixAll := MatchResult(["model", "child1", "child2", "child3"], map["model" := MixRoot, "child1" := Move1, "child2" := Mix2, "child3" := Mix3])

  lemma MixedLeftSteps()
    ensures Register(EmptyResult, Left, Entry(MixedBefore, None)) == MixStep0
    ensures Register(MixStep0, Left, Entry(Child1At100, Some("model"))) == MixStep1
    ensures Register(MixStep1, Left, Entry(Child2, Some("model"))) == MixLeft
  {
  }

  lemma MixedRightSteps()
    ensures Register(MixLeft, Right, Entry(MixedAfter, None)) == MixRight1
    ensures Register(MixRight1, Right, Entry(Child1At150, Some("model"))) == MixRight2
    ensures Register(MixRight2, Right, Entry(Child3, Some("model"))) == MixAll
  {
  }

  lemma MixedLeftMatch()
    ensures MatchSide(Flatten(MixedBefore, None), Left, EmptyResult) == MixLeft
  {
    FlattenTwo(MixedBefore, Child1At100, Child2);
    MixedLeftSteps();
    FoldThree(Entry(MixedBefore, None), Entry(Child1At100, Some("model")), Entry(Child2, Some("model")), Left, EmptyResult);
  }

  lemma MixedMatch()
    ensures MatchTrees(MixedBefore, MixedAfter) == MixAll
  {
    MixedLeftMatch();
    FlattenTwo(MixedAfter, Child1At150, Child3);
    MixedRightSteps();
    FoldThree(Entry(MixedAfter, None), Entry(Child1At150, Some("model")), Entry(Child3, Some("model")), Right, MixLeft);
  }

  lemma MixedRecords()
    requires MixAll.Valid()
    ensures MixAll.Records() == [MixRoot, Move1, Mix2, Mix3]
  {
  }

  lemma MixedFades()
    ensures Fades([MixRoot, Move1, Mix2, Mix3]) == [ElementFade(Child2, FadeOut), ElementFade(Child3, FadeIn)]
  {
    var ms := [MixRoot, Move1, Mix2, Mix3];
    assert Fades(ms[3..]) == [ElementFade(Child3, FadeIn)];
    assert Fades(ms[2..]) == [ElementFade(Child2, FadeOut), ElementFade(Child3, FadeIn)];
    assert Fades(ms[1..]) == Fades(ms[2..]);
  }

  lemma MixedMoves()
    ensures Moves([MixRoot, Move1, Mix2, Mix3]) == map["child1" := ElementMove("child1", Point(100, 100), Point(150, 200))]
  {
    var ms := [MixRoot, Move1, Mix2, Mix3];
    assert Moves(ms[3..]) == map[];
    assert Moves(ms[2..]) == map[];
    assert Moves(ms[1..]) == map["child1" := ElementMove("child1", Point(100, 100), Point(150, 200))];
  }

  /**
   * Adding child3, removing child2 and moving child1 gives a compound of a
   * fade (child2 out, child3 in) followed by the move of child1.
   */
  lemma MixedScenario()
    ensures ComputeAnimation(MatchTrees(MixedBefore, MixedAfter).Records()) ==
      CompoundAnimation([
        FadeAnimation([ElementFade(Child2, FadeOut), ElementFade(Child3, FadeIn)]),
        MoveAnimation(map["child1" := ElementMove("child1", Point(100, 100), Point(150, 200))])])
  {
    MixedMatch();
    MixedRecords();
    MixedFades();
    MixedMoves();
  }
}
