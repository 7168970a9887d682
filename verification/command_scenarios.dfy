/**
 * The update-model command on concrete models: replacing a root without
 * animation, undoing and redoing that, and applying a given diff.
 */
module CommandScenarios {
  import opened Wrappers
  import opened SModel
  import opened ModelMatching
  import opened UpdateAnimation
  import opened UpdateModel

  const Model1Schema := Schema("model", "graph", None, Present([]))
  const Model2Schema := Schema("model", "graph2", None, Present([]))

  /** Execute with animation off installs a root matching the new schema; undo and redo hand back the two roots. */
  method ReplaceWithoutAnimation() returns (executed: CommandResult, undone: Option<Element>, redone: Option<Element>)
    ensures Matches(Model2Schema, executed.root) && executed.animation == NoAnimation
    ensures undone == Some(Build(Model1Schema))
    ensures redone == Some(executed.root) && Matches(Model2Schema, redone.value)
  {
    var model1 := Build(Model1Schema);
    var command := new UpdateModelCommand(UpdateModelAction(Some(Model2Schema), None, false));
    executed := command.Execute(model1);
    undone := command.Undo(Build(Model2Schema));
    redone := command.Redo(model1);
  }

  const Child1Schema := Schema("child1", "node", Some(Point(100, 100)), Absent)
  const Child2Schema := Schema("child2", "node", None, Absent)
  const Child3Schema := Schema("child3", "node", None, Absent)
  const Moved1Schema := Schema("child1", "node", Some(Point(150, 200)), Absent)
  /** The current root: child1 at (100,100) and child2. */
  const DiffRootSchema := Schema("model", "graph", None, Present([Child1Schema, Child2Schema]))
  /** Add child3, remove child2, move child1 to (150,200). */
  const Diff := [
    Match(None, None, Some(Child3Schema), Some("model")),
    Match(Some(Child2Schema), Some("model"), None, None),
    Match(Some(Child1Schema), Some("model"), Some(Moved1Schema), Some("model"))]
  /** The expected result: child3, then child1 at (150,200). */
  const DiffResultSchema := Schema("model", "graph", None, Present([Child3Schema, Moved1Schema]))

  const C1 := Build(Child1Schema)
  const C2 := Build(Child2Schema)
  const C3 := Build(Child3Schema)
  const M1 := Build(Moved1Schema)

  lemma DiffRootBuilt()
    ensures Build(DiffRootSchema) == Element("model", "graph", None, [C1, C2])
  {
  }

  lemma DiffFirst()
    ensures ApplyMatch(Element("model", "graph", None, [C1, C2]), Diff[0]) == Element("model", "graph", None, [C1, C2, C3])
  {
    var e := Element("model", "graph", None, [C1, C2]);
    assert !Has(C1, "model") && !Has(C2, "model");
    AddToRoot(e, "model", C3);
  }

  lemma DiffSecond()
    ensures ApplyMatch(Element("model", "graph", None, [C1, C2, C3]), Diff[1]) == Element("model", "graph", None, [C1, C3])
  {
    var e := Element("model", "graph", None, [C1, C2, C3]);
    RemoveAbsent(C1, "child2");
    RemoveAbsent(C3, "child2");
    assert RemoveFrom(e, "child2", 3) == [];
    assert RemoveFrom(e, "child2", 2) == [C3];
    assert RemoveFrom(e, "child2", 1) == [C3];
    assert RemoveFrom(e, "child2", 0) == [C1, C3];
  }

  lemma DiffThird()
    ensures ApplyMatch(Element("model", "graph", None, [C1, C3]), Diff[2]) == Element("model", "graph", None, [C3, M1])
  {
    var e := Element("model", "graph", None, [C1, C3]);
    RemoveAbsent(C3, "child1");
    assert RemoveFrom(e, "child1", 2) == [];
    assert RemoveFrom(e, "child1", 1) == [C3];
    var removed := Element("model", "graph", None, [C3]);
    assert RemoveId(e, "child1") == removed;
    assert !Has(C3, "model");
    AddToRoot(removed, "model", M1);
  }

  /**
   * Applying add child3, remove child2, move child1 to [child1, child2]
   * leaves exactly [child3, child1] with child1 at (150,200).
   */
  lemma DiffScenario()
    ensures var r := ApplyAll(Build(DiffRootSchema), Diff);
      && r == Element("model", "graph", None, [C3, M1])
      && |r.children| == 2
      && Matches(DiffResultSchema, r)
  {
    DiffRootBuilt();
    DiffFirst();
    DiffSecond();
    DiffThird();
    var root := Build(DiffRootSchema);
    assert Diff[..1][..0] == [];
    assert ApplyAll(root, Diff[..1]) == Element("model", "graph", None, [C1, C2, C3]);
    assert Diff[..2][..1] == Diff[..1];
    assert ApplyAll(root, Diff[..2]) == Element("model", "graph", None, [C1, C3]);
    BuildMatches(DiffResultSchema);
  }

  /** The command with the diff and animation off returns that root. */
  method ApplyDiffWithoutAnimation() returns (executed: CommandResult)
    ensures executed.root == Element("model", "graph", None, [C3, M1]) && Matches(DiffResultSchema, executed.root)
    ensures executed.animation == NoAnimation
  {
    var command := new UpdateModelCommand(UpdateModelAction(None, Some(Diff), false));
    DiffScenario();
    executed := command.Execute(Build(DiffRootSchema));
  }
}
