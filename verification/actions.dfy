/**
 * Actions, commands and the handler contract the dispatcher relies on.
 */
module Actions {
  import opened Wrappers

  /** An action describes a change declaratively; only its kind matters for routing. */
  datatype Action = Action(kind: string)

  /** A command built for an action by a handler, named by its command type. */
  datatype Command = Command(commandType: string, action: Action)

  /** What a handler hands back: commands for the command stack and follow-up actions, each possibly absent. */
  datatype HandlerResult = HandlerResult(commands: Option<seq<Command>>, actions: Option<seq<Action>>)

  /** The older capitalised kinds, which the dispatcher does not route to the command stack. */
  const LegacyUndoKind := "Undo"
  const LegacyRedoKind := "Redo"

  /**
   * CommandActionHandler.handle, in the result shape the dispatcher reads:
   * one command of the handler's type for the action, and no follow-ups.
   */
  function CommandActionHandle(commandType: string, action: Action): (r: HandlerResult)
    ensures r.commands.Some? && |r.commands.value| == 1
    ensures r.commands.value[0].commandType == commandType && r.commands.value[0].action == action
    ensures r.actions.None?
  {
    HandlerResult(Some([Command(commandType, action)]), None)
  }

  /** What a handler returns as declared: a bare command list, or an object in the dispatcher's shape. */
  datatype HandlerReturn = CommandList(items: seq<Command>) | ResultObject(result: HandlerResult)

  /**
   * The result as the dispatcher reads it: `commands` and `actions` of a bare
   * list are undefined, so a list reads as neither.
   */
  function ReadResult(ret: HandlerReturn): (r: HandlerResult)
    ensures ret.CommandList? ==> r.commands.None? && r.actions.None?
    ensures ret.ResultObject? ==> r == ret.result
  {
    match ret
    case CommandList(_) => HandlerResult(None, None)
    case ResultObject(result) => result
  }

  /** CommandActionHandler.handle as written: a bare list holding one command for the action. */
  function CommandActionHandleAsWritten(commandType: string, action: Action): (r: HandlerReturn)
    ensures r.CommandList? && |r.items| == 1
    ensures r.items[0].commandType == commandType && r.items[0].action == action
  {
    CommandList([Command(commandType, action)])
  }
}
