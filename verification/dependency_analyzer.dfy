/**
 * `RuntimeScopeMethodDependencyAnalyzer`: which instructions make the current
 * scope depend on another method. A static call outside the platform
 * namespaces depends on its target; a lambda created through
 * `LambdaMetafactory.metafactory` depends on its implementation method.
 */
module DependencyAnalyzer {
  import opened Wrappers
  import opened Bytecode
  import opened RuntimeInfos
  import opened AnalysisContext

  const LAMBDA_METAFACTORY := "java/lang/invoke/LambdaMetafactory"
  const METAFACTORY := "metafactory"

  /** Owners whose static methods are never recorded as dependencies. */
  predicate PlatformOwner(owner: string) {
    StartsWith(owner, "androidx/compose/") || StartsWith(owner, "android/")
    || StartsWith(owner, "java/") || StartsWith(owner, "kotlin/")
  }

  /** A call site bootstrapped by `LambdaMetafactory.metafactory`. */
  predicate LambdaBootstrap(insn: Instruction) {
    insn.InvokeDynamicInsn? && insn.bsm.owner == LAMBDA_METAFACTORY && insn.bsm.name == METAFACTORY
  }

  /** The dependency one instruction records, if any. */
  function Dependency(insn: Instruction): (r: Option<MethodId>)
    ensures r.Some? ==> insn.MethodInsn? || insn.InvokeDynamicInsn?
  {
    match insn
    case MethodInsn(opcode, owner, name, desc, _) =>
      if opcode == INVOKESTATIC && !PlatformOwner(owner) then Some(MethodId(owner, name, desc)) else None
    case InvokeDynamicInsn(_, _, bsm, bsmArgs) =>
      if LambdaBootstrap(insn) && |bsmArgs| > 1 && bsmArgs[1].HandleConstant? then
        var handle := bsmArgs[1].handle;
        Some(MethodId(handle.owner, handle.name, handle.desc))
      else None
    case _ => None
  }

  /**
   * A method call records a dependency exactly when it is a static call
   * outside the platform namespaces, and the dependency is the call target.
   */
  lemma StaticCallDependency(insn: Instruction)
    requires insn.MethodInsn?
    ensures Dependency(insn).Some? <==> insn.opcode == INVOKESTATIC && !PlatformOwner(insn.owner)
    ensures Dependency(insn).Some? ==> Dependency(insn).value == MethodId(insn.owner, insn.name, insn.desc)
  {
  }

  /** Virtual, special and interface calls never record a dependency, whatever their owner. */
  lemma NonStaticCallsIgnored(opcode: int, owner: string, name: string, desc: string, itf: bool)
    requires opcode in {INVOKEVIRTUAL, INVOKESPECIAL, INVOKEINTERFACE}
    ensures Dependency(MethodInsn(opcode, owner, name, desc, itf)) == None
  {
  }

  /**
   * The owner filter is by literal prefix: `kotlinx/...` is not `kotlin/...`,
   * and `androidx/` outside `androidx/compose/` is not excluded either, so
   * static calls into those namespaces are recorded.
   */
  lemma PrefixFilterIsLiteral(owner: string, name: string, desc: string)
    requires StartsWith(owner, "kotlinx/") || StartsWith(owner, "androidx/lifecycle/")
    ensures Dependency(MethodInsn(INVOKESTATIC, owner, name, desc, false)) == Some(MethodId(owner, name, desc))
  {
    if StartsWith(owner, "kotlinx/") {
      PrefixChar(owner, "kotlinx/", 0);
      PrefixChar(owner, "kotlinx/", 6);
      PrefixChar(owner, "kotlin/", 6);
      PrefixChar(owner, "java/", 0);
      PrefixChar(owner, "android/", 0);
      PrefixChar(owner, "androidx/compose/", 0);
    } else {
      PrefixChar(owner, "androidx/lifecycle/", 0);
      PrefixChar(owner, "androidx/lifecycle/", 7);
      PrefixChar(owner, "androidx/lifecycle/", 9);
      PrefixChar(owner, "androidx/compose/", 9);
      PrefixChar(owner, "android/", 7);
      PrefixChar(owner, "java/", 0);
      PrefixChar(owner, "kotlin/", 0);
    }
  }

  /** A string with a prefix agrees with it character by character. */
  lemma PrefixChar(s: string, prefix: string, i: nat)
    requires i < |prefix|
    ensures StartsWith(s, prefix) ==> i < |s| && s[i] == prefix[i]
  {
    if StartsWith(s, prefix) {
      assert s[..|prefix|][i] == s[i];
    }
  }

  /**
   * A lambda call site records its implementation handle, exactly when the
   * bootstrap is the metafactory and its second argument is a handle; the
   * platform prefix filter does not apply here.
   */
  lemma LambdaDependency(insn: Instruction)
    requires insn.InvokeDynamicInsn?
    ensures Dependency(insn).Some? <==> LambdaBootstrap(insn) && |insn.bsmArgs| > 1 && insn.bsmArgs[1].HandleConstant?
    ensures Dependency(insn).Some? ==>
      var h := insn.bsmArgs[1].handle; Dependency(insn).value == MethodId(h.owner, h.name, h.desc)
  {
  }

  /** `RuntimeScopeMethodDependencyAnalyzer.analyze`: records the instruction's dependency, if any, in the current scope. */
  method Analyze(context: MethodAnalysisContext, instructionNode: Instruction)
    modifies context
    ensures context.stack == WithDependency(old(context.stack), Dependency(instructionNode))
  {
    if !context.HasScope() {
      return;
    }
    if instructionNode.MethodInsn? && instructionNode.opcode == INVOKESTATIC {
      if StartsWith(instructionNode.owner, "androidx/compose/") { return; }
      if StartsWith(instructionNode.owner, "android/") { return; }
      if StartsWith(instructionNode.owner, "java/") { return; }
      if StartsWith(instructionNode.owner, "kotlin/") { return; }
      context.AttachDependency(MethodId(instructionNode.owner, instructionNode.name, instructionNode.desc));
    }
    if instructionNode.InvokeDynamicInsn? && instructionNode.bsm.owner == LAMBDA_METAFACTORY && instructionNode.bsm.name == METAFACTORY {
      if |instructionNode.bsmArgs| <= 1 || !instructionNode.bsmArgs[1].HandleConstant? {
        return;
      }
      var handle := instructionNode.bsmArgs[1].handle;
      context.AttachDependency(MethodId(handle.owner, handle.name, handle.desc));
    }
  }
}
