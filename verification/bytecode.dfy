/**
 * The decoded form of a JVM class as the analysis sees it: the class name and
 * its methods, each with its visible annotations and its instruction list.
 * The instruction kinds are the node kinds of the ASM tree API, closed into
 * one variant; the kinds the analysis never inspects beyond their opcode keep
 * their operands so that it is visible which operands are NOT hashed.
 */
module Bytecode {
  import opened Wrappers

  /** A Kotlin `Int`. */
  type Int32 = x: int | -0x8000_0000 <= x < 0x8000_0000

  /** A Kotlin `Long`. */
  type Long = x: int | -0x8000_0000_0000_0000 <= x < 0x8000_0000_0000_0000

  /** An unsigned byte. */
  type Byte = b: int | 0 <= b < 0x100

  const LDC := 18
  const IINC := 132
  const INVOKEVIRTUAL := 182
  const INVOKESPECIAL := 183
  const INVOKESTATIC := 184
  const INVOKEINTERFACE := 185
  const INVOKEDYNAMIC := 186
  /** The opcode ASM gives its pseudo-instructions: labels, line numbers and frames. */
  const PSEUDO_OPCODE := -1

  /** A method handle constant: `Handle(tag, owner, name, desc, itf)`. */
  datatype Handle = Handle(tag: int, owner: string, name: string, desc: string, isInterface: bool)

  /** A constant-pool value as `ldc` loads it or as a bootstrap argument carries it. */
  datatype Constant =
    | IntConstant(i: Int32)
    | LongConstant(l: Long)
    | FloatConstant(floatBits: bv32)
    | DoubleConstant(doubleBits: bv64)
    | StringConstant(s: string)
    | TypeConstant(descriptor: string)
    | HandleConstant(handle: Handle)

  /** The identity of an ASM `Label` object. */
  datatype LabelId = LabelId(id: nat)

  datatype Instruction =
    | MethodInsn(opcode: int, owner: string, name: string, desc: string, itf: bool)
    | FieldInsn(opcode: int, owner: string, name: string, desc: string)
    | LdcInsn(cst: Constant)
    | InvokeDynamicInsn(name: string, desc: string, bsm: Handle, bsmArgs: seq<Constant>)
    | IntInsn(opcode: int, operand: int)
    | VarInsn(opcode: int, varIndex: int)
    | LabelNode(labelId: LabelId)
    | JumpInsn(opcode: int, target: LabelId)
    | TypeInsn(opcode: int, desc: string)
    | IincInsn(varIndex: int, increment: int)
    | LineNumberNode(line: int, start: LabelId)
    /** Zero-operand instructions, switches, frames, `multianewarray`. */
    | OtherInsn(opcode: int)

  /** `AbstractInsnNode.opcode`. */
  function Opcode(insn: Instruction): int {
    match insn
    case MethodInsn(op, _, _, _, _) => op
    case FieldInsn(op, _, _, _) => op
    case LdcInsn(_) => LDC
    case InvokeDynamicInsn(_, _, _, _) => INVOKEDYNAMIC
    case IntInsn(op, _) => op
    case VarInsn(op, _) => op
    case LabelNode(_) => PSEUDO_OPCODE
    case JumpInsn(op, _) => op
    case TypeInsn(op, _) => op
    case IincInsn(_, _) => IINC
    case LineNumberNode(_, _) => PSEUDO_OPCODE
    case OtherInsn(op) => op
  }

  /** An element of `AnnotationNode.values`: names and values alternate in that list. */
  datatype AnnotationValue = StringValue(s: string) | IntValue(i: Int32) | OtherValue(kind: string)

  datatype AnnotationNode = AnnotationNode(desc: string, values: Option<seq<AnnotationValue>>)

  datatype MethodNode = MethodNode(
    name: string,
    desc: string,
    visibleAnnotations: Option<seq<AnnotationNode>>,
    instructions: seq<Instruction>)

  datatype ClassNode = ClassNode(name: string, methods: seq<MethodNode>)

  /** Kotlin's `String.startsWith`. */
  predicate StartsWith(s: string, prefix: string) {
    |prefix| <= |s| && s[..|prefix|] == prefix
  }
}
