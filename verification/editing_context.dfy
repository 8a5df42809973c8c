/**
 * `EditingContext` (src/editing/editing_context.js): the log of editing
 * instructions a command leaves behind, the hash-code counter that names
 * new nodes, the write-once ending selection and the command dispatch.
 */
module EditingContexts {
  import opened NodeForest
  import opened Selections

  /** One entry of `instructions_`, with the fields its recorder stores. */
  datatype Instruction =
    | AppendChildRecord(parentNode: NodeId, newChild: NodeId)
    | CloneNodeRecord(clonedNode: Option<NodeId>)
    | InsertBeforeRecord(parentNode: NodeId, newChild: NodeId, refChild: NodeId)
    | RemoveAttributeRecord(node: NodeId, name: string)
    | RemoveChildRecord(parentNode: NodeId, oldChild: NodeId)
    | ReplaceChildRecord(parentNode: NodeId, newChild: NodeId, replacedChild: Option<NodeId>)
    | SetAttributeRecord(element: NodeId, attrName: string, attrValue: string)
    | SplitTextRecord(node: NodeId, offset: int, newNode: NodeId)
  {
    /** The `opcode` field. */
    function Opcode(): string {
      match this
      case AppendChildRecord(_, _) => "appendChild"
      case CloneNodeRecord(_) => "cloneNode"
      case InsertBeforeRecord(_, _, _) => "insertBefore"
      case RemoveAttributeRecord(_, _) => "removeAttribute"
      case RemoveChildRecord(_, _) => "removeChild"
      case ReplaceChildRecord(_, _, _) => "replaceChild"
      case SetAttributeRecord(_, _, _) => "setAttribute"
      case SplitTextRecord(_, _, _) => "splitText"
    }
  }

  /** Distinct instructions kinds carry distinct opcodes. */
  lemma OpcodesDistinct(a: Instruction, b: Instruction)
    requires a.Opcode() == b.Opcode()
    ensures a.AppendChildRecord? == b.AppendChildRecord? && a.InsertBeforeRecord? == b.InsertBeforeRecord?
    ensures a.RemoveChildRecord? == b.RemoveChildRecord? && a.ReplaceChildRecord? == b.ReplaceChildRecord?
    ensures a.SetAttributeRecord? == b.SetAttributeRecord? && a.RemoveAttributeRecord? == b.RemoveAttributeRecord?
    ensures a.SplitTextRecord? == b.SplitTextRecord? && a.CloneNodeRecord? == b.CloneNodeRecord?
  {
  }

  /** A value passed as a command name: a string or anything else. */
  datatype JsValue = Str(s: string) | NotAString

  /** What `execCommand` does with its arguments. */
  datatype Dispatch =
    | NameNotString
    | NoSuchCommand(name: string)
    | Call(name: string, userInterface: bool, value: string)

  /**
   * `execCommand(name, opt_userInterface, opt_value)`: a name that is not a
   * string throws, an unregistered one throws, otherwise the command is
   * called with `userInterface` false and `value` empty when not passed.
   */
  function ExecCommand(name: JsValue, userInterface: Option<bool>, value: Option<string>, commands: set<string>)
    : (r: Dispatch)
    ensures name.NotAString? <==> r.NameNotString?
    ensures r.Call? <==> name.Str? && name.s in commands
    ensures r.NoSuchCommand? <==> name.Str? && name.s !in commands
    ensures r.Call? ==> r.name == name.s
    ensures r.Call? ==> r.userInterface == (userInterface.Some? && userInterface.value)
    ensures r.Call? ==> r.value == (if value.Some? then value.value else "")
  {
    if name.NotAString? then NameNotString
    else if name.s !in commands then NoSuchCommand(name.s)
    else Call(name.s, if userInterface.Some? then userInterface.value else false,
              if value.Some? then value.value else "")
  }

  /** Omitted arguments are the same as `false` and the empty string passed explicitly. */
  lemma ExecCommandDefaults(name: JsValue, commands: set<string>)
    ensures ExecCommand(name, None, None, commands) == ExecCommand(name, Some(false), Some(""), commands)
  {
  }

  /**
   * Registering more commands never turns a call into an error, nor
   * changes the call.
   */
  lemma ExecCommandRegistry(name: JsValue, userInterface: Option<bool>, value: Option<string>,
                            commands: set<string>, more: set<string>)
    requires commands <= more
    ensures ExecCommand(name, userInterface, value, commands).Call? ==>
              ExecCommand(name, userInterface, value, more) == ExecCommand(name, userInterface, value, commands)
  {
  }

  class EditingContext {
    var instructions: seq<Instruction>
    var hashCode: nat
    var startingSelection: Option<ReadOnlySelection>
    var endingSelection: Option<ReadOnlySelection>
    var selection: EditingSelection

    /**
     * `new EditingContext(document, domSelection)`, given the selection it
     * builds: the starting selection is taken only when the DOM selection
     * has a range.
     */
    constructor (selection: EditingSelection, hasRange: bool)
      ensures instructions == [] && hashCode == 0 && endingSelection.None?
      ensures this.selection == selection
      ensures startingSelection == if hasRange then Some(selection.Snapshot()) else None
    {
      instructions := [];
      hashCode := 0;
      endingSelection := None;
      this.selection := selection;
      startingSelection := if hasRange then Some(selection.Snapshot()) else None;
    }

    /**
     * Since the previous state, `codes` hash codes were handed out, exactly
     * `extra` was logged and nothing else changed.
     */
    twostate predicate Changed(codes: nat, new extra: seq<Instruction>)
      reads this
    {
      instructions == old(instructions) + extra && hashCode == old(hashCode) + codes &&
      endingSelection == old(endingSelection) && startingSelection == old(startingSelection) &&
      selection == old(selection)
    }

    /** `nextHashCode`: 1, 2, 3, ... on successive calls. */
    method NextHashCode() returns (h: nat)
      modifies this
      ensures h == old(hashCode) + 1 && hashCode == h
      ensures instructions == old(instructions) && endingSelection == old(endingSelection)
      ensures startingSelection == old(startingSelection) && selection == old(selection)
    {
      hashCode := hashCode + 1;
      h := hashCode;
    }

    /** Every recorder appends one instruction and changes nothing else. */
    method Record(instruction: Instruction)
      modifies this
      ensures instructions == old(instructions) + [instruction]
      ensures hashCode == old(hashCode) && endingSelection == old(endingSelection)
      ensures startingSelection == old(startingSelection) && selection == old(selection)
    {
      instructions := instructions + [instruction];
    }

    /** `appendChild(parentNode, newChild)`. */
    method AppendChild(parentNode: NodeId, newChild: NodeId)
      modifies this
      ensures instructions == old(instructions) + [AppendChildRecord(parentNode, newChild)]
      ensures hashCode == old(hashCode) && endingSelection == old(endingSelection)
      ensures startingSelection == old(startingSelection) && selection == old(selection)
    {
      Record(AppendChildRecord(parentNode, newChild));
    }

    /** `cloneNode(node)`. */
    method CloneNode(node: Option<NodeId>)
      modifies this
      ensures instructions == old(instructions) + [CloneNodeRecord(node)]
      ensures hashCode == old(hashCode) && endingSelection == old(endingSelection)
      ensures startingSelection == old(startingSelection) && selection == old(selection)
    {
      Record(CloneNodeRecord(node));
    }

    /** `insertBefore(parentNode, newChild, refChild)`. */
    method InsertBefore(parentNode: NodeId, newChild: NodeId, refChild: NodeId)
      modifies this
      ensures instructions == old(instructions) + [InsertBeforeRecord(parentNode, newChild, refChild)]
      ensures hashCode == old(hashCode) && endingSelection == old(endingSelection)
      ensures startingSelection == old(startingSelection) && selection == old(selection)
    {
      Record(InsertBeforeRecord(parentNode, newChild, refChild));
    }

    /** `removeAttribute(node, name)`. */
    method RemoveAttribute(node: NodeId, name: string)
      modifies this
      ensures instructions == old(instructions) + [RemoveAttributeRecord(node, name)]
      ensures hashCode == old(hashCode) && endingSelection == old(endingSelection)
      ensures startingSelection == old(startingSelection) && selection == old(selection)
    {
      Record(RemoveAttributeRecord(node, name));
    }

    /** `removeChild(parentNode, oldChild)`. */
    method RemoveChild(parentNode: NodeId, oldChild: NodeId)
      modifies this
      ensures instructions == old(instructions) + [RemoveChildRecord(parentNode, oldChild)]
      ensures hashCode == old(hashCode) && endingSelection == old(endingSelection)
      ensures startingSelection == old(startingSelection) && selection == old(selection)
    {
      Record(RemoveChildRecord(parentNode, oldChild));
    }

    /** `replaceChild(parentNode, newChild, oldChild)`; an omitted `oldChild` is undefined. */
    method ReplaceChild(parentNode: NodeId, newChild: NodeId, oldChild: Option<NodeId>)
      modifies this
      ensures instructions == old(instructions) + [ReplaceChildRecord(parentNode, newChild, oldChild)]
      ensures hashCode == old(hashCode) && endingSelection == old(endingSelection)
      ensures startingSelection == old(startingSelection) && selection == old(selection)
    {
      Record(ReplaceChildRecord(parentNode, newChild, oldChild));
    }

    /** `setAttribute(element, attrName, attrValue)`. */
    method SetAttribute(element: NodeId, attrName: string, attrValue: string)
      modifies this
      ensures instructions == old(instructions) + [SetAttributeRecord(element, attrName, attrValue)]
      ensures hashCode == old(hashCode) && endingSelection == old(endingSelection)
      ensures startingSelection == old(startingSelection) && selection == old(selection)
    {
      Record(SetAttributeRecord(element, attrName, attrValue));
    }

    /** `splitText(textNode, offset, newNode)`. */
    method SplitText(textNode: NodeId, offset: int, newNode: NodeId)
      modifies this
      ensures instructions == old(instructions) + [SplitTextRecord(textNode, offset, newNode)]
      ensures hashCode == old(hashCode) && endingSelection == old(endingSelection)
      ensures startingSelection == old(startingSelection) && selection == old(selection)
    {
      Record(SplitTextRecord(textNode, offset, newNode));
    }

    /**
     * `setEndingSelection(selection)`: write-once. A second call throws and
     * changes nothing; setting null or undefined leaves it unset.
     */
    method SetEndingSelection(s: Option<ReadOnlySelection>) returns (ok: bool)
      modifies this
      ensures ok <==> old(endingSelection).None?
      ensures ok ==> endingSelection == s
      ensures !ok ==> endingSelection == old(endingSelection)
      ensures instructions == old(instructions) && hashCode == old(hashCode)
      ensures startingSelection == old(startingSelection) && selection == old(selection)
    {
      if endingSelection.Some? {
        return false;
      }
      endingSelection := s;
      return true;
    }

    /** The `endingSelection` getter: throws (None) until it is set. */
    method EndingSelection() returns (r: Option<ReadOnlySelection>)
      ensures r == endingSelection
    {
      r := endingSelection;
    }
  }

  /** Setting the ending selection twice fails the second time and keeps the first. */
  method WriteOnce(c: EditingContext, first: ReadOnlySelection, second: ReadOnlySelection)
    requires c.endingSelection.None?
    modifies c
    ensures c.endingSelection == Some(first)
  {
    var ok1 := c.SetEndingSelection(Some(first));
    var ok2 := c.SetEndingSelection(Some(second));
    assert ok1 && !ok2;
  }
}
