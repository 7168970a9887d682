/**
 * The update-model command: it replaces the current root by a new one,
 * either materialized from a schema or obtained by applying a list of match
 * records (a diff) to the current root, remembers both roots for undo and
 * redo, and derives the animation between them.
 */
module UpdateModel {
  import opened Wrappers
  import opened SModel
  import opened ModelMatching
  import opened UpdateAnimation

  /** Whether `e` or one of its descendants carries `id`: what the root's index finds. */
  predicate Has(e: Element, id: string)
  {
    e.id == id || exists i :: 0 <= i < |e.children| && Has(e.children[i], id)
  }

  /** The element without any descendant carrying `id`; the root itself is never removed. */
  function RemoveId(e: Element, id: string): (r: Element)
    decreases e, |e.children| + 1
    ensures r.id == e.id && r.etype == e.etype && r.position == e.position
    ensures forall k :: 0 <= k < |r.children| ==> !Has(r.children[k], id)
  {
    e.(children := RemoveFrom(e, id, 0))
  }

  /** `e.children[i..]` with every element carrying `id` cut out, together with its subtree. */
  function RemoveFrom(e: Element, id: string, i: nat): (cs: seq<Element>)
    requires i <= |e.children|
    decreases e, |e.children| - i
    ensures |cs| <= |e.children| - i
    ensures forall k :: 0 <= k < |cs| ==> !Has(cs[k], id)
  {
    if i == |e.children| then []
    else if e.children[i].id == id then RemoveFrom(e, id, i + 1)
    else [RemoveId(e.children[i], id)] + RemoveFrom(e, id, i + 1)
  }

  /** The element with `c` appended to the children of the element carrying `pid`. */
  function AddTo(e: Element, pid: string, c: Element): (r: Element)
    decreases e, |e.children| + 1
    ensures r.id == e.id && r.etype == e.etype && r.position == e.position
    ensures |r.children| == |e.children| + (if e.id == pid then 1 else 0)
    ensures e.id == pid ==> r.children[|e.children|] == c
  {
    var cs := AddFrom(e, pid, c, 0);
    e.(children := if e.id == pid then cs + [c] else cs)
  }

  /** `e.children[i..]`, each with `c` added below the element carrying `pid`. */
  function AddFrom(e: Element, pid: string, c: Element, i: nat): (cs: seq<Element>)
    requires i <= |e.children|
    decreases e, |e.children| - i
    ensures |cs| == |e.children| - i
    ensures forall k :: 0 <= k < |cs| ==> cs[k].id == e.children[i + k].id
  {
    if i == |e.children| then []
    else [AddTo(e.children[i], pid, c)] + AddFrom(e, pid, c, i + 1)
  }

  /**
   * One match record of a diff: the left element, if any, is looked up by id
   * and removed from its parent; the right element, if any, is materialized
   * and added as the last child of the element named by its parent id.
   */
  function ApplyMatch(root: Element, m: Match<Schema>): (r: Element)
    ensures r.id == root.id && r.etype == root.etype && r.position == root.position
  {
    var removed := if m.left.Some? then RemoveId(root, m.left.value.id) else root;
    if m.right.Some? && m.rightParentId.Some? then AddTo(removed, m.rightParentId.value, Build(m.right.value))
    else removed
  }

  /** The match records applied in list order. */
  function ApplyAll(root: Element, ms: seq<Match<Schema>>): (r: Element)
    decreases |ms|
    ensures r.id == root.id && r.etype == root.etype && r.position == root.position
  {
    if ms == [] then root else ApplyMatch(ApplyAll(root, ms[..|ms| - 1]), ms[|ms| - 1])
  }

  /** applyMatches: walks the match list once, applying each record to the root. */
  method ApplyMatches(root: Element, matches: seq<Match<Schema>>) returns (r: Element)
    ensures r == ApplyAll(root, matches)
  {
    r := root;
    var i := 0;
    while i < |matches|
      invariant 0 <= i <= |matches|
      invariant r == ApplyAll(root, matches[..i])
    {
      assert matches[..i + 1][..i] == matches[..i];
      r := ApplyMatch(r, matches[i]);
      i := i + 1;
    }
    assert matches[..i] == matches;
  }

  /** Applying two diffs in turn is applying their concatenation. */
  lemma {:induction false} ApplyAllConcat(root: Element, a: seq<Match<Schema>>, b: seq<Match<Schema>>)
    ensures ApplyAll(root, a + b) == ApplyAll(ApplyAll(root, a), b)
    decreases |b|
  {
    if b == [] {
      assert a + b == a;
    } else {
      var b' := b[..|b| - 1];
      assert (a + b)[..|a + b| - 1] == a + b';
      assert (a + b)[|a + b| - 1] == b[|b| - 1];
      ApplyAllConcat(root, a, b');
    }
  }

  /** Removing an id that no descendant carries changes nothing. */
  lemma {:induction false} RemoveAbsent(e: Element, id: string)
    requires forall k :: 0 <= k < |e.children| ==> !Has(e.children[k], id)
    ensures RemoveId(e, id) == e
    decreases e, |e.children| + 1
  {
    RemoveFromAbsent(e, id, 0);
  }

  lemma {:induction false} RemoveFromAbsent(e: Element, id: string, i: nat)
    requires i <= |e.children|
    requires forall k :: i <= k < |e.children| ==> !Has(e.children[k], id)
    ensures RemoveFrom(e, id, i) == e.children[i..]
    decreases e, |e.children| - i
  {
    if i < |e.children| {
      var c := e.children[i];
      assert !Has(c, id);
      assert forall k :: 0 <= k < |c.children| ==> !Has(c.children[k], id);
      RemoveAbsent(c, id);
      RemoveFromAbsent(e, id, i + 1);
      assert e.children[i..] == [c] + e.children[i + 1..];
    }
  }

  /**
   * When child `j` is the only element below the root carrying `id`, removal
   * cuts exactly that child and keeps the others, in order.
   */
  lemma RemoveOnlyChild(e: Element, id: string, j: nat)
    requires j < |e.children| && e.children[j].id == id
    requires forall k :: 0 <= k < |e.children| && k != j ==> !Has(e.children[k], id)
    ensures RemoveId(e, id) == e.(children := e.children[..j] + e.children[j + 1..])
  {
    RemoveFromBefore(e, id, j, 0);
    assert e.children[0..j] == e.children[..j];
  }

  lemma {:induction false} RemoveFromBefore(e: Element, id: string, j: nat, i: nat)
    requires i <= j < |e.children| && e.children[j].id == id
    requires forall k :: i <= k < |e.children| && k != j ==> !Has(e.children[k], id)
    ensures RemoveFrom(e, id, i) == e.children[i..j] + e.children[j + 1..]
    decreases j - i
  {
    if i == j {
      RemoveFromAbsent(e, id, j + 1);
      assert e.children[j..j] == [];
    } else {
      var c := e.children[i];
      assert !Has(c, id);
      assert forall k :: 0 <= k < |c.children| ==> !Has(c.children[k], id);
      RemoveAbsent(c, id);
      RemoveFromBefore(e, id, j, i + 1);
      assert e.children[i..j] == [c] + e.children[i + 1..j];
    }
  }

  /** Adding below an id that the tree does not carry changes nothing. */
  lemma {:induction false} AddAbsent(e: Element, pid: string, c: Element)
    requires !Has(e, pid)
    ensures AddTo(e, pid, c) == e
    decreases e, |e.children| + 1
  {
    AddFromAbsent(e, pid, c, 0);
  }

  lemma {:induction false} AddFromAbsent(e: Element, pid: string, c: Element, i: nat)
    requires i <= |e.children|
    requires forall k :: 0 <= k < |e.children| ==> !Has(e.children[k], pid)
    ensures AddFrom(e, pid, c, i) == e.children[i..]
    decreases e, |e.children| - i
  {
    if i < |e.children| {
      AddAbsent(e.children[i], pid, c);
      AddFromAbsent(e, pid, c, i + 1);
      assert e.children[i..] == [e.children[i]] + e.children[i + 1..];
    }
  }

  /** When only the root carries `pid`, the new element becomes its last child and nothing else changes. */
  lemma AddToRoot(e: Element, pid: string, c: Element)
    requires e.id == pid
    requires forall k :: 0 <= k < |e.children| ==> !Has(e.children[k], pid)
    ensures AddTo(e, pid, c) == e.(children := e.children + [c])
  {
    AddFromAbsent(e, pid, c, 0);
    assert e.children[0..] == e.children;
  }

  /** A removal record leaves no element below the root with the removed id. */
  lemma RemovalRemoves(root: Element, m: Match<Schema>)
    requires m.left.Some? && m.right.None?
    ensures var r := ApplyMatch(root, m);
      forall k :: 0 <= k < |r.children| ==> !Has(r.children[k], m.left.value.id)
  {
  }

  /**
   * An addition record whose parent is the root, in a tree where no other
   * element carries the root's id, appends the materialized element to the
   * root's children.
   */
  lemma AdditionAppends(root: Element, m: Match<Schema>)
    requires m.left.None? && m.right.Some? && m.rightParentId == Some(root.id)
    requires forall k :: 0 <= k < |root.children| ==> !Has(root.children[k], root.id)
    ensures ApplyMatch(root, m).children == root.children + [Build(m.right.value)]
  {
    AddToRoot(root, root.id, Build(m.right.value));
  }

  /**
   * A removal record whose element is child `j` of the root, carried by no
   * other element, cuts that child and keeps the others in order.
   */
  lemma RemovalCutsChild(root: Element, m: Match<Schema>, j: nat)
    requires m.left.Some? && m.right.None?
    requires j < |root.children| && root.children[j].id == m.left.value.id
    requires forall k :: 0 <= k < |root.children| && k != j ==> !Has(root.children[k], m.left.value.id)
    ensures ApplyMatch(root, m).children == root.children[..j] + root.children[j + 1..]
  {
    RemoveOnlyChild(root, m.left.value.id, j);
  }

  /**
   * A two-sided record whose old element is child `j` of the root and whose
   * new parent is the root: the child leaves its place, the others keep
   * theirs, and the materialized new element is appended last.
   */
  lemma MoveUnderRoot(root: Element, m: Match<Schema>, j: nat)
    requires m.left.Some? && m.right.Some? && m.rightParentId == Some(root.id)
    requires j < |root.children| && root.children[j].id == m.left.value.id
    requires forall k :: 0 <= k < |root.children| && k != j ==> !Has(root.children[k], m.left.value.id)
    requires forall k :: 0 <= k < |root.children| ==> !Has(root.children[k], root.id)
    ensures ApplyMatch(root, m).children == root.children[..j] + root.children[j + 1..] + [Build(m.right.value)]
  {
    RemoveOnlyChild(root, m.left.value.id, j);
    var rest := root.children[..j] + root.children[j + 1..];
    forall k | 0 <= k < |rest| ensures !Has(rest[k], root.id) {
      if k < j {
        assert rest[k] == root.children[k];
      } else {
        assert rest[k] == root.children[k + 1];
      }
    }
    AddToRoot(root.(children := rest), root.id, Build(m.right.value));
  }

  /** The action: a new root schema, or a diff to apply to the current root, and whether to animate. */
  datatype UpdateModelAction = UpdateModelAction(newRoot: Option<Schema>, matches: Option<seq<Match<Schema>>>, animate: bool)

  /** The root the command installs when executed on `contextRoot`. */
  function NewModel(action: UpdateModelAction, contextRoot: Element): (r: Element)
    ensures action.newRoot.Some? ==> Matches(action.newRoot.value, r)
    ensures action.newRoot.None? ==> r.id == contextRoot.id && r.etype == contextRoot.etype
    ensures action.newRoot.None? && action.matches.None? ==> r == contextRoot
  {
    match action.newRoot
    case Some(s) => BuildMatches(s); Build(s)
    case None => if action.matches.Some? then ApplyAll(contextRoot, action.matches.value) else contextRoot
  }

  /** The animation shown when going from `from` to `to`; none when animation is suppressed. */
  function AnimationFor(animate: bool, from: Element, to: Element): (a: Animation)
    ensures !animate ==> a == NoAnimation
    ensures animate && from == to ==> a == NoAnimation
  {
    if animate then (UnchangedTreeIsSilent(from); ComputeAnimation(MatchTrees(from, to).Records())) else NoAnimation
  }

  /** What execute hands back: the root now shown and the animation leading to it. */
  datatype CommandResult = CommandResult(root: Element, animation: Animation)

  class UpdateModelCommand {
    const action: UpdateModelAction
    var oldRoot: Option<Element>
    var newRoot: Option<Element>

    constructor(action: UpdateModelAction)
      ensures this.action == action && oldRoot == None && newRoot == None
    {
      this.action := action;
      oldRoot := None;
      newRoot := None;
    }

    /** Builds or derives the new root, remembers both roots and returns the new one with its animation. */
    method Execute(contextRoot: Element) returns (r: CommandResult)
      modifies this
      ensures oldRoot == Some(contextRoot) && newRoot == Some(r.root)
      ensures r.root == NewModel(action, contextRoot)
      ensures r.animation == AnimationFor(action.animate, contextRoot, r.root)
    {
      var root: Element;
      if action.newRoot.Some? {
        root := Build(action.newRoot.value);
      } else if action.matches.Some? {
        root := ApplyMatches(contextRoot, action.matches.value);
      } else {
        root := contextRoot;
      }
      oldRoot := Some(contextRoot);
      newRoot := Some(root);
      r := CommandResult(root, AnimationFor(action.animate, contextRoot, root));
    }

    /** Hands back the root that was current before execute, whatever the current root is now. */
    method Undo(contextRoot: Element) returns (r: Option<Element>)
      ensures r == oldRoot
    {
      r := oldRoot;
    }

    /** Hands back the root execute installed. */
    method Redo(contextRoot: Element) returns (r: Option<Element>)
      ensures r == newRoot
    {
      r := newRoot;
    }
  }
}
