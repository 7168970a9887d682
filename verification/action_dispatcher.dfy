/**
 * The action dispatcher: undo and redo go straight to the command stack,
 * actions with a registered handler are handled, anything else is only
 * logged. The command stack and the logger are observed through the trace of
 * calls made on them.
 */
module ActionDispatcher {
  import opened Wrappers
  import opened SModel
  import opened Actions
  import opened UndoRedo

  /** One call on the command stack or the logger. */
  datatype Call = StackUndo | StackRedo | StackExecute(commands: seq<Command>) | Warn(action: Action) | Log(action: Action)

  /** The handler registry: a handler per registered kind. */
  type Registry = map<string, Action -> HandlerResult>

  predicate IsStackCall(c: Call)
  {
    c.StackUndo? || c.StackRedo? || c.StackExecute?
  }

  /** The execute call a handler's result leads to: one batch, and only when there are commands. */
  function ExecuteCalls(result: HandlerResult): (r: seq<Call>)
    ensures |r| <= 1
    ensures r != [] <==> result.commands.Some? && result.commands.value != []
    ensures r != [] ==> r[0] == StackExecute(result.commands.value)
  {
    if result.commands.Some? && |result.commands.value| > 0 then [StackExecute(result.commands.value)] else []
  }

  /**
   * The calls dispatch makes. Follow-up actions may lead to further
   * dispatches; `fuel` bounds how deep those nest.
   */
  function DispatchCalls(registry: Registry, a: Action, fuel: nat): (r: seq<Call>)
    decreases fuel, 1, 0
    ensures a.kind == UndoKind ==> r == [StackUndo]
    ensures a.kind == RedoKind ==> r == [StackRedo]
    ensures a.kind != UndoKind && a.kind != RedoKind && a.kind !in registry ==> r == [Warn(a)]
    ensures a.kind != UndoKind && a.kind != RedoKind && a.kind in registry ==> |r| >= 1 && r[0] == Log(a)
  {
    if a.kind == UndoKind then [StackUndo]
    else if a.kind == RedoKind then [StackRedo]
    else if a.kind in registry then HandleCalls(registry, a, fuel)
    else [Warn(a)]
  }

  /** The calls handleAction makes: a log entry, the execute batch, then the follow-up dispatches. */
  function HandleCalls(registry: Registry, a: Action, fuel: nat): (r: seq<Call>)
    requires a.kind in registry
    decreases fuel, 0, 0
    ensures |r| >= 1 && r[0] == Log(a)
  {
    var result := registry[a.kind](a);
    var followUps := if result.actions.Some? && |result.actions.value| > 0 && fuel > 0
      then DispatchAllCalls(registry, result.actions.value, fuel - 1) else [];
    [Log(a)] + ExecuteCalls(result) + followUps
  }

  /** The calls dispatchAll makes: each action dispatched in list order. */
  function DispatchAllCalls(registry: Registry, actions: seq<Action>, fuel: nat): (r: seq<Call>)
    decreases fuel, 2, |actions|
  {
    if actions == [] then []
    else DispatchAllCalls(registry, actions[..|actions| - 1], fuel) + DispatchCalls(registry, actions[|actions| - 1], fuel)
  }

  class Dispatcher {
    const registry: Registry
    /** The calls made so far on the command stack and the logger. */
    var trace: seq<Call>

    constructor(registry: Registry)
      ensures this.registry == registry && trace == []
    {
      this.registry := registry;
      trace := [];
    }

    method DispatchAll(actions: seq<Action>, fuel: nat)
      modifies this
      decreases fuel, 2, 0
      ensures trace == old(trace) + DispatchAllCalls(registry, actions, fuel)
    {
      var i := 0;
      while i < |actions|
        invariant 0 <= i <= |actions|
        invariant trace == old(trace) + DispatchAllCalls(registry, actions[..i], fuel)
      {
        assert actions[..i + 1][..i] == actions[..i];
        Dispatch(actions[i], fuel);
        i := i + 1;
      }
      assert actions[..i] == actions;
    }

    method Dispatch(a: Action, fuel: nat)
      modifies this
      decreases fuel, 1, 0
      ensures trace == old(trace) + DispatchCalls(registry, a, fuel)
    {
      if a.kind == UndoKind {
        trace := trace + [StackUndo];
      } else if a.kind == RedoKind {
        trace := trace + [StackRedo];
      } else if a.kind in registry {
        HandleAction(a, fuel);
      } else {
        trace := trace + [Warn(a)];
      }
    }

    method HandleAction(a: Action, fuel: nat)
      requires a.kind in registry
      modifies this
      decreases fuel, 0, 0
      ensures trace == old(trace) + HandleCalls(registry, a, fuel)
    {
      trace := trace + [Log(a)];
      var result := registry[a.kind](a);
      if result.commands.Some? && |result.commands.value| > 0 {
        trace := trace + [StackExecute(result.commands.value)];
      }
      if result.actions.Some? && |result.actions.value| > 0 && fuel > 0 {
        DispatchAll(result.actions.value, fuel - 1);
      }
    }
  }

  /** Dispatching two lists in turn is dispatching their concatenation. */
  lemma {:induction false} DispatchAllConcat(registry: Registry, xs: seq<Action>, ys: seq<Action>, fuel: nat)
    ensures DispatchAllCalls(registry, xs + ys, fuel) == DispatchAllCalls(registry, xs, fuel) + DispatchAllCalls(registry, ys, fuel)
    decreases |ys|
  {
    if ys == [] {
      assert xs + ys == xs;
    } else {
      var init := ys[..|ys| - 1];
      assert (xs + ys)[..|xs + ys| - 1] == xs + init;
      assert (xs + ys)[|xs + ys| - 1] == ys[|ys| - 1];
      DispatchAllConcat(registry, xs, init, fuel);
    }
  }

  /** A list of undo and redo actions reaches the command stack once per action, in order, and nothing else. */
  lemma {:induction false} UndoRedoSequence(registry: Registry, actions: seq<Action>, fuel: nat)
    requires forall i :: 0 <= i < |actions| ==> actions[i].kind in {UndoKind, RedoKind}
    ensures DispatchAllCalls(registry, actions, fuel) ==
      seq(|actions|, i requires 0 <= i < |actions| => if actions[i].kind == UndoKind then StackUndo else StackRedo)
    decreases |actions|
  {
    if actions != [] {
      var init := actions[..|actions| - 1];
      UndoRedoSequence(registry, init, fuel);
    }
  }

  /** The undo and redo routing does not look at the registry, so a handler registered for them is never used. */
  lemma UndoRedoIgnoreRegistry(r1: Registry, r2: Registry, a: Action, fuel: nat)
    requires a.kind in {UndoKind, RedoKind}
    ensures DispatchCalls(r1, a, fuel) == DispatchCalls(r2, a, fuel)
    ensures DispatchCalls(r1, a, fuel) == (if a.kind == UndoKind then [StackUndo] else [StackRedo])
  {
  }

  /** An unregistered kind other than undo and redo only warns: the command stack sees nothing. */
  lemma UnregisteredOnlyWarns(registry: Registry, a: Action, fuel: nat)
    requires a.kind !in registry && a.kind != UndoKind && a.kind != RedoKind
    ensures forall c :: c in DispatchCalls(registry, a, fuel) ==> !IsStackCall(c)
  {
  }

  /** The capitalised kinds are not undo or redo: they go to their handler, or only warn. */
  lemma LegacyKindsFallThrough(registry: Registry, kind: string, fuel: nat)
    requires kind in {LegacyUndoKind, LegacyRedoKind}
    ensures kind !in registry ==> DispatchCalls(registry, Action(kind), fuel) == [Warn(Action(kind))]
    ensures kind in registry ==> DispatchCalls(registry, Action(kind), fuel) == HandleCalls(registry, Action(kind), fuel)
  {
  }

  /**
   * A handled action: after the log entry come the execute batch, if there
   * are commands, and only then the calls of the follow-up actions.
   */
  lemma ExecuteBeforeFollowUps(registry: Registry, a: Action, fuel: nat)
    requires a.kind in registry && a.kind != UndoKind && a.kind != RedoKind
    ensures var result := registry[a.kind](a);
      var r := DispatchCalls(registry, a, fuel);
      && (result.commands.Some? && result.commands.value != [] ==> |r| >= 2 && r[1] == StackExecute(result.commands.value))
      && (result.actions.Some? && result.actions.value != [] && fuel > 0 ==>
            r[1 + |ExecuteCalls(result)|..] == DispatchAllCalls(registry, result.actions.value, fuel - 1))
      && (result.actions.None? || result.actions.value == [] || fuel == 0 ==> r == [Log(a)] + ExecuteCalls(result))
  {
  }

  /** An action handled by a CommandActionHandler leads to a log entry and one execute of its single command. */
  lemma CommandHandlerExecutesOnce(registry: Registry, a: Action, commandType: string, fuel: nat)
    requires a.kind in registry && a.kind != UndoKind && a.kind != RedoKind
    requires registry[a.kind] == (x => CommandActionHandle(commandType, x))
    ensures DispatchCalls(registry, a, fuel) == [Log(a), StackExecute([Command(commandType, a)])]
  {
  }

  /**
   * The command action handler as written returns a bare list, so the
   * dispatcher finds no commands in it: the action is only logged and its
   * command never reaches the stack.
   */
  lemma CommandHandlerAsWrittenOnlyLogs(registry: Registry, a: Action, commandType: string, fuel: nat)
    requires a.kind in registry && a.kind != UndoKind && a.kind != RedoKind
    requires registry[a.kind] == (x => ReadResult(CommandActionHandleAsWritten(commandType, x)))
    ensures DispatchCalls(registry, a, fuel) == [Log(a)]
    ensures forall c :: c in DispatchCalls(registry, a, fuel) ==> !IsStackCall(c)
  {
    assert ReadResult(CommandActionHandleAsWritten(commandType, a)) == HandlerResult(None, None);
  }

  /**
   * Key presses through the dispatcher: Ctrl/Cmd+Shift+Z reaches the stack as
   * one redo, Ctrl/Cmd+Z as one undo, any other key not at all.
   */
  lemma KeyPressDispatch(registry: Registry, element: Element, event: KeyEvent, fuel: nat)
    ensures var calls := DispatchAllCalls(registry, KeyPress(element, event), fuel);
      && (event.ctrlOrCmd && event.keyCode == KeyZ && event.shiftKey ==> calls == [StackRedo])
      && (event.ctrlOrCmd && event.keyCode == KeyZ && !event.shiftKey ==> calls == [StackUndo])
      && (!event.ctrlOrCmd || event.keyCode != KeyZ ==> calls == [])
  {
    var actions := KeyPress(element, event);
    UndoRedoSequence(registry, actions, fuel);
  }
}
