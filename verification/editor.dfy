/**
 * `Editor` (src/editing/editor.js): runs one command at a time through
 * `execCommand`, adopts the selection each completed command ends with and
 * pushes one undo record for it.
 */
module Editors {
  import opened NodeForest
  import opened Selections
  import opened EditingContexts

  /**
   * An entry of `undoStack_`, with the fields `execCommand` stores;
   * `instructions` is None where the record holds `undefined`.
   */
  datatype UndoRecord = UndoRecord(commandName: string, endingSelection: Option<ReadOnlySelection>,
                                   instructions: Option<seq<Instruction>>, startingSelection: Option<ReadOnlySelection>)

  /**
   * The record `execCommand` pushes, as written: it reads
   * `context.instructions`, which `EditingContext` does not define (its log
   * is `instructions_`), so the record's instructions are `undefined`.
   */
  function RecordAsWritten(name: string, ending: Option<ReadOnlySelection>, log: seq<Instruction>,
                           starting: Option<ReadOnlySelection>): (r: UndoRecord)
    ensures r.commandName == name && r.endingSelection == ending && r.startingSelection == starting
    ensures r.instructions.None?
  {
    UndoRecord(name, ending, None, starting)
  }

  /** The record with the log read from `instructions_`, which is what an undo needs to replay. */
  function Record(name: string, ending: Option<ReadOnlySelection>, log: seq<Instruction>,
                  starting: Option<ReadOnlySelection>): (r: UndoRecord)
    ensures r.commandName == name && r.endingSelection == ending && r.startingSelection == starting
    ensures r.instructions == Some(log)
  {
    UndoRecord(name, ending, Some(log), starting)
  }

  /**
   * As written, the record does not depend on the log: two commands that
   * log different instructions push the same record, and neither record
   * holds its log.
   */
  lemma RecordAsWrittenDropsLog(name: string, ending: Option<ReadOnlySelection>, a: seq<Instruction>,
                                b: seq<Instruction>, starting: Option<ReadOnlySelection>)
    requires a != b
    ensures RecordAsWritten(name, ending, a, starting) == RecordAsWritten(name, ending, b, starting)
    ensures RecordAsWritten(name, ending, a, starting) != Record(name, ending, a, starting)
  {
  }

  /** With the log read from `instructions_`, the record determines the log it was made from. */
  lemma RecordKeepsLog(name: string, ending: Option<ReadOnlySelection>, a: seq<Instruction>,
                       b: seq<Instruction>, starting: Option<ReadOnlySelection>)
    ensures Record(name, ending, a, starting) == Record(name, ending, b, starting) <==> a == b
    ensures Record(name, ending, a, starting).instructions.value == a
  {
  }

  /**
   * What the registered command function does with the context it is
   * given (its code is not part of this model): it may first call
   * `execCommand` again (`reenter`); otherwise it logs `log`, sets the
   * ending selection when `ending` is given, and returns `result` or, when
   * there is none, throws.
   */
  datatype CommandRun = CommandRun(reenter: bool, log: seq<Instruction>, ending: Option<ReadOnlySelection>,
                                   result: Option<bool>)

  /** Why `execCommand` throws. */
  datatype Thrown = NameNotAString | UnknownCommand | Reentered | NoEndingSelection

  /** What `execCommand` gives back: the command's value, the string 'FAILED', or an exception. */
  datatype ExecResult = Returned(value: bool) | Failed | Threw(reason: Thrown)

  /** The selection `new EditingSelection(context, domSelection)` leaves when domSelection has no range. */
  const NoRange := EditingSelection(false, None, 0, None, 0, [])

  /** Whether a command run completes: it does not re-enter and it returns. */
  predicate Completes(run: CommandRun) {
    !run.reenter && run.result.Some?
  }

  /** What a completed command's context holds once the run is over. */
  function Applied(run: CommandRun): (r: (seq<Instruction>, Option<ReadOnlySelection>))
    ensures run.reenter ==> r == ([], None)
    ensures !run.reenter ==> r.0 == run.log && r.1 == run.ending
  {
    if run.reenter then ([], None) else (run.log, run.ending)
  }

  class Editor {
    var currentContext: Option<EditingContext>
    var selection: Option<ReadOnlySelection>
    var undoStack: seq<UndoRecord>
    var redoStack: seq<UndoRecord>

    /** `new Editor(document)`; the document is not part of this model. */
    constructor ()
      ensures currentContext.None? && selection.None? && undoStack == [] && redoStack == []
    {
      currentContext := None;
      selection := None;
      undoStack := [];
      redoStack := [];
    }

    /**
     * `createContext(name, selection)` as written: it passes the editor
     * and the command name where `EditingContext` expects a document and a
     * DOM selection, so the context has the empty selection and no
     * starting selection, whatever the editor's selection is.
     */
    method CreateContext(name: string) returns (context: EditingContext)
      ensures fresh(context)
      ensures context.selection == NoRange && context.startingSelection.None? && context.endingSelection.None?
      ensures context.instructions == [] && context.hashCode == 0
    {
      context := new EditingContext(NoRange, false);
    }

    /**
     * `setSelection(selection)`: the editor adopts it; pushing a null
     * selection to the DOM throws (false) once it is adopted.
     */
    method SetSelection(s: Option<ReadOnlySelection>) returns (ok: bool)
      modifies this
      ensures selection == s && (ok <==> s.Some?)
      ensures currentContext == old(currentContext) && undoStack == old(undoStack) && redoStack == old(redoStack)
    {
      selection := s;
      ok := s.Some?;
    }

    /**
     * `commandFunction(context, userInterface, value)` while `context` is
     * the current one: a re-entering command throws what the nested
     * `execCommand` throws; any other logs and sets the ending selection
     * as its run says, then returns or throws.
     */
    method RunCommand(context: EditingContext, name: JsValue, commands: set<string>, run: CommandRun)
      returns (succeeded: bool, value: bool)
      requires currentContext == Some(context) && context.endingSelection.None?
      modifies this, context
      decreases 1
      ensures succeeded <==> Completes(run)
      ensures succeeded ==> value == run.result.value
      ensures context.instructions == old(context.instructions) + Applied(run).0
      ensures context.endingSelection == Applied(run).1 && context.startingSelection == old(context.startingSelection)
      ensures currentContext == old(currentContext) && selection == old(selection)
      ensures undoStack == old(undoStack) && redoStack == old(redoStack)
    {
      if run.reenter {
        var nested := ExecCommand(name, None, None, commands, run);
        assert nested == Threw(Reentered) || nested == Threw(NameNotAString) || nested == Threw(UnknownCommand);
        return false, false;
      }
      context.instructions := context.instructions + run.log;
      if run.ending.Some? {
        var ended := context.SetEndingSelection(run.ending);
        assert ended;
      }
      if run.result.None? {
        return false, false;
      }
      return true, run.result.value;
    }

    /**
     * `execCommand(name, opt_userInterface, opt_value)`: a bad name and a
     * call made while another command runs throw and change nothing. A
     * command that throws gives 'FAILED' and leaves the selection and the
     * undo stack as they were. A completed command's ending selection is
     * adopted and one undo record is pushed. A completed command that set
     * no ending selection makes the `endingSelection` getter throw inside
     * `finally`, before `setSelection`, so the editor keeps its selection
     * and its undo stack. The editor has no current context again
     * afterwards.
     */
    method ExecCommand(name: JsValue, userInterface: Option<bool>, value: Option<string>, commands: set<string>,
                       run: CommandRun)
      returns (r: ExecResult)
      modifies this
      decreases if currentContext.None? then 2 else 0
      ensures currentContext == old(currentContext) && redoStack == old(redoStack)
      ensures var d := EditingContexts.ExecCommand(name, userInterface, value, commands);
              (d.NameNotString? ==> r == Threw(NameNotAString)) &&
              (d.NoSuchCommand? ==> r == Threw(UnknownCommand)) &&
              (d.Call? && old(currentContext).Some? ==> r == Threw(Reentered)) &&
              (d.Call? && old(currentContext).None? ==> r.Returned? || r.Failed? || r == Threw(NoEndingSelection))
      ensures r.Failed? <==> EditingContexts.ExecCommand(name, userInterface, value, commands).Call? &&
                             old(currentContext).None? && !Completes(run)
      ensures r.Returned? <==> EditingContexts.ExecCommand(name, userInterface, value, commands).Call? &&
                               old(currentContext).None? && Completes(run) && run.ending.Some?
      ensures r.Returned? ==> r.value == run.result.value
      ensures r == Threw(NoEndingSelection) <==> EditingContexts.ExecCommand(name, userInterface, value, commands).Call? &&
                                                 old(currentContext).None? && Completes(run) && run.ending.None?
      ensures !r.Returned? ==> selection == old(selection) && undoStack == old(undoStack)
      ensures r.Returned? ==>
                selection == run.ending &&
                undoStack == old(undoStack) + [RecordAsWritten(name.s, run.ending, run.log, None)]
    {
      var d := EditingContexts.ExecCommand(name, userInterface, value, commands);
      if d.NameNotString? {
        return Threw(NameNotAString);
      }
      if d.NoSuchCommand? {
        return Threw(UnknownCommand);
      }
      if currentContext.Some? {
        return Threw(Reentered);
      }
      var context := CreateContext(d.name);
      currentContext := Some(context);
      var succeeded, returnValue := RunCommand(context, name, commands, run);
      currentContext := None;
      if !succeeded {
        return Failed;
      }
      var ending := context.EndingSelection();
      if ending.None? {
        return Threw(NoEndingSelection);
      }
      var adopted := SetSelection(ending);
      assert adopted;
      assert d.name == name.s;
      undoStack := undoStack + [RecordAsWritten(d.name, context.endingSelection, context.instructions,
                                                context.startingSelection)];
      return Returned(returnValue);
    }
  }

  /**
   * Two completed commands run from outside any command push two records
   * in order and leave the editor without a current context.
   */
  method TwoCommands(editor: Editor, a: string, b: string, commands: set<string>, runA: CommandRun, runB: CommandRun)
    returns (ra: ExecResult, rb: ExecResult)
    requires editor.currentContext.None? && a in commands && b in commands
    requires Completes(runA) && runA.ending.Some? && Completes(runB) && runB.ending.Some?
    modifies editor
    ensures ra == Returned(runA.result.value) && rb == Returned(runB.result.value)
    ensures editor.currentContext.None? && editor.selection == runB.ending
    ensures editor.undoStack ==
              old(editor.undoStack) + [RecordAsWritten(a, runA.ending, runA.log, None),
                                       RecordAsWritten(b, runB.ending, runB.log, None)]
  {
    ra := editor.ExecCommand(Str(a), None, None, commands, runA);
    rb := editor.ExecCommand(Str(b), None, None, commands, runB);
  }
}
