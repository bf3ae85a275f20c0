/** The parts of LLVM IR the analyses look at: functions with their blocks, call sites and
    terminators, and function declarations. */
module LlvmIr {
  import opened Wrappers

  datatype Name = Name(text: string) | Number(index: nat)

  type TypeRef = string

  /** What a call or invoke calls. A pointer operand carries the function type it is called at. */
  datatype Callee =
    | GlobalReference(name: Name)
    | ConstantPointer(ty: TypeRef)
    | OtherOperand(ty: TypeRef)
    | InlineAssembly

  datatype Instruction = Call(callee: Callee) | OtherInstruction

  datatype Terminator =
    | Br(dest: Name)
    | CondBr(trueDest: Name, falseDest: Name)
    | IndirectBr(possibleDests: seq<Name>)
    | Switch(defaultDest: Name, dests: seq<Name>)
    | Ret
    | Resume
    | Invoke(callee: Callee, returnLabel: Name, exceptionLabel: Name)
    | CleanupRet(unwindDest: Option<Name>)
    | CatchRet(successor: Name)
    | CatchSwitch(catchHandlers: seq<Name>, defaultUnwindDest: Option<Name>)
    | CallBr
    | Unreachable

  datatype BasicBlock = BasicBlock(name: Name, instrs: seq<Instruction>, term: Terminator)

  datatype Function = Function(name: string, ty: TypeRef, basicBlocks: seq<BasicBlock>)

  datatype Module = Module(functions: seq<Function>, funcDeclarations: seq<string>)
}
