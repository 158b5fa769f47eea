/**
 * The method-call logger: for each virtual or interface call it records
 * the method name, the static type of the receiver, and a best-effort
 * name for the receiver found by looking one instruction back.
 */
module CallLogging {
  import opened Wrappers
  import opened ControlFlow

  /** An instruction of the method's instruction list, at its bytecode position. */
  datatype Handle = Handle(instr: Instruction, position: nat)

  /**
   * The method's local-variable table, as a lookup by (slot, bytecode
   * position): a slot may hold different variables at different points.
   */
  type LocalVariableTable = map<(nat, nat), string>

  /** One logged call: the method called, the receiver's name if resolved, the receiver's static type. */
  datatype CallRecord = CallRecord(methodName: string, target: Option<string>, receiverType: string)

  /** The receiver name of a field load: the field qualified by the type that declares it. */
  function QualifiedFieldName(owner: string, field: string): (name: string)
    ensures |name| == |owner| + 1 + |field|
    ensures name[..|owner|] == owner && name[|owner|] == '.' && name[|owner| + 1..] == field
  {
    owner + "." + field
  }

  /**
   * The local-variable table has an entry wherever the lookup needs one:
   * for a call preceded by an ALOAD, at that ALOAD's slot and position.
   */
  predicate ReceiverResolvable(code: seq<Handle>, i: nat, locals: LocalVariableTable)
    requires i < |code|
  {
    i > 0 && code[i - 1].instr.ALoad? ==> (code[i - 1].instr.slot, code[i - 1].position) in locals
  }

  /**
   * The name of the object the call at index `i` is made on, looked up one
   * instruction back in the method's instruction list: a local variable
   * loaded by ALOAD, or a field loaded by GETFIELD. Anything else, such as
   * the result of another call, and a call with no instruction before it,
   * leaves the name unresolved.
   */
  function FindTargetName(code: seq<Handle>, i: nat, locals: LocalVariableTable): (name: Option<string>)
    requires i < |code|
    requires ReceiverResolvable(code, i, locals)
    ensures i == 0 ==> name == None
    ensures name.Some? ==> i > 0 && (code[i - 1].instr.ALoad? || code[i - 1].instr.GetField?)
    ensures i > 0 && code[i - 1].instr.ALoad? ==>
              name == Some(locals[(code[i - 1].instr.slot, code[i - 1].position)])
    ensures i > 0 && code[i - 1].instr.GetField? ==>
              name == Some(QualifiedFieldName(code[i - 1].instr.owner, code[i - 1].instr.field))
  {
    if i == 0 then
      None
    else
      var prior := code[i - 1];
      match prior.instr
      case ALoad(slot) => Some(locals[(slot, prior.position)])
      case GetField(owner, field) => Some(QualifiedFieldName(owner, field))
      case _ => None
  }

  /**
   * Qualified field names are unique: as long as field names hold no dot
   * (Java identifiers do not), two different fields never get the same
   * name, even when their owner types themselves contain dots.
   */
  lemma QualifiedFieldNamesUnique(owner1: string, field1: string, owner2: string, field2: string)
    requires '.' !in field1 && '.' !in field2
    requires QualifiedFieldName(owner1, field1) == QualifiedFieldName(owner2, field2)
    ensures owner1 == owner2 && field1 == field2
  {
  }

  /**
   * Names resolved through the local-variable table never collide with
   * names resolved from field loads, as long as the table's names hold no
   * dot; so every resolved name identifies one variable or one field.
   */
  lemma LocalAndFieldNamesDistinct(code: seq<Handle>, i: nat, code': seq<Handle>, j: nat,
                                   locals: LocalVariableTable)
    requires i < |code| && ReceiverResolvable(code, i, locals)
    requires j < |code'| && ReceiverResolvable(code', j, locals)
    requires forall key :: key in locals ==> '.' !in locals[key]
    requires i > 0 && code[i - 1].instr.ALoad?
    requires j > 0 && code'[j - 1].instr.GetField?
    ensures FindTargetName(code, i, locals) != FindTargetName(code', j, locals)
  {
  }

  /**
   * The lookup is one step back only: the result depends on the single
   * instruction before the call (and the table), not on the call itself,
   * its position, or anything earlier in the method.
   */
  lemma OnlyPriorInstructionMatters(code: seq<Handle>, i: nat, code': seq<Handle>, j: nat,
                                    locals: LocalVariableTable)
    requires 0 < i < |code| && 0 < j < |code'|
    requires code[i - 1] == code'[j - 1]
    requires ReceiverResolvable(code, i, locals)
    ensures ReceiverResolvable(code', j, locals)
    ensures FindTargetName(code, i, locals) == FindTargetName(code', j, locals)
  {
  }

  /**
   * `a.foo()` where slot 2 holds `a` at the load's position and a
   * different variable `b` from the call's position on: the name is `a`,
   * because the table is consulted at the load's position.
   */
  lemma LookupUsesLoadPosition()
    ensures FindTargetName([Handle(ALoad(2), 7), Handle(Invoke(Virtual, "T", "foo", "()V"), 8)], 1,
                           map[(2, 7) := "a", (2, 8) := "b"]) == Some("a")
  {
  }

  /** A call on a receiver object: virtual or interface dispatch. */
  predicate IsReceiverCall(ins: Instruction)
  {
    ins.Invoke? && (ins.dispatch == Virtual || ins.dispatch == Interface)
  }

  /**
   * What the logger records for the instruction at index `i`: nothing
   * unless it is a virtual or interface call (static, special and dynamic
   * calls are skipped); for such a call, its method name, its resolved
   * receiver name and the receiver's static type.
   */
  function LogMethodCallInstruction(code: seq<Handle>, i: nat, locals: LocalVariableTable): (r: Option<CallRecord>)
    requires i < |code|
    requires IsReceiverCall(code[i].instr) ==> ReceiverResolvable(code, i, locals)
    ensures r.Some? <==> IsReceiverCall(code[i].instr)
    ensures r.Some? ==> r.value.methodName == code[i].instr.name
                        && r.value.receiverType == code[i].instr.owner
                        && r.value.target == FindTargetName(code, i, locals)
  {
    if IsReceiverCall(code[i].instr) then
      Some(CallRecord(code[i].instr.name, FindTargetName(code, i, locals), code[i].instr.owner))
    else
      None
  }

  /**
   * The records the logger produces for the instructions from index
   * `from` on, in program order: exactly one for each virtual or interface
   * call.
   */
  function CallLog(code: seq<Handle>, from: nat, locals: LocalVariableTable): (log: seq<CallRecord>)
    requires from <= |code|
    requires forall j :: from <= j < |code| && IsReceiverCall(code[j].instr) ==> ReceiverResolvable(code, j, locals)
    ensures |log| == |ReceiverCalls(code, from)|
    ensures forall rec :: rec in log <==>
              exists j :: from <= j < |code| && LogMethodCallInstruction(code, j, locals) == Some(rec)
    decreases |code| - from
  {
    if from == |code| then
      assert ReceiverCalls(code, from) == {};
      []
    else
      var rest := CallLog(code, from + 1, locals);
      ReceiverCallsStep(code, from);
      match LogMethodCallInstruction(code, from, locals)
      case Some(rec) => [rec] + rest
      case None => rest
  }

  /** The indices, from `from` on, of the virtual and interface calls. */
  function ReceiverCalls(code: seq<Handle>, from: nat): set<nat>
  {
    set j: nat | from <= j < |code| && IsReceiverCall(code[j].instr)
  }

  /** Moving `from` past one instruction drops one call from the count exactly when that instruction is a call. */
  lemma ReceiverCallsStep(code: seq<Handle>, from: nat)
    requires from < |code|
    ensures |ReceiverCalls(code, from)| == |ReceiverCalls(code, from + 1)| + (if IsReceiverCall(code[from].instr) then 1 else 0)
  {
    var later := ReceiverCalls(code, from + 1);
    assert from !in later;
    if IsReceiverCall(code[from].instr) {
      assert ReceiverCalls(code, from) == later + {from};
    } else {
      assert ReceiverCalls(code, from) == later;
    }
  }
}
