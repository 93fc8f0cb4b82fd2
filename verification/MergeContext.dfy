/** The operand list of a merge, which can be grown at either end. */
module MergeContexts {
  import opened Sequences
  import opened SnapshotView

  /** Keeps the operands in the order of the last push, turning the list round when the direction changes. */
  class MergeContext {
    var operandList: seq<Value>
    var operandsReversed: bool

    /** The operands, oldest first. */
    ghost function Operands(): seq<Value>
      reads this
    {
      if operandsReversed then Reversed(operandList) else operandList
    }

    constructor ()
      ensures Operands() == []
    {
      operandList := [];
      operandsReversed := true;
    }

    method Clear()
      modifies this
      ensures Operands() == []
    {
      operandList := [];
    }

    method SetDirectionForward()
      modifies this
      ensures Operands() == old(Operands()) && !operandsReversed
    {
      if operandsReversed {
        operandList := Reversed(operandList);
        operandsReversed := false;
      }
    }

    method SetDirectionBackward()
      modifies this
      ensures Operands() == old(Operands()) && operandsReversed
    {
      if !operandsReversed {
        ReversedTwice(operandList);
        operandList := Reversed(operandList);
        operandsReversed := true;
      }
    }

    /** Adds an operand older than all the others. */
    method PushOperand(operand: Value)
      modifies this
      ensures Operands() == [operand] + old(Operands())
    {
      SetDirectionBackward();
      ReversedAppend(operandList, operand);
      operandList := operandList + [operand];
    }

    /** Adds an operand newer than all the others. */
    method PushOperandBack(operand: Value)
      modifies this
      ensures Operands() == old(Operands()) + [operand]
    {
      SetDirectionForward();
      operandList := operandList + [operand];
    }

    method GetOperands() returns (operands: seq<Value>)
      modifies this
      ensures operands == Operands() == old(Operands())
    {
      SetDirectionForward();
      operands := operandList;
    }
  }
}
