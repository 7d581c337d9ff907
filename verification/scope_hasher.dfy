/**
 * `RuntimeScopeHasher`: which values each instruction feeds, in which order,
 * into the hash of the current scope.
 */
module RuntimeScopeHasher {
  import opened Wrappers
  import opened Collections
  import opened Bytecode
  import opened RuntimeInfos
  import opened AnalysisContext

  function ConstantTokens(cs: seq<Constant>): (r: seq<HashToken>)
    ensures |r| == |cs|
    ensures forall i :: 0 <= i < |cs| ==> r[i] == ConstantToken(cs[i])
  {
    seq(|cs|, i requires 0 <= i < |cs| => ConstantToken(cs[i]))
  }

  /**
   * The tokens one instruction feeds: its opcode, then the operands of its
   * kind. Kinds the hasher does not list (jumps, type instructions, `iinc`,
   * line numbers, the rest) feed their opcode only.
   */
  function HashTokens(insn: Instruction): (r: seq<HashToken>)
    ensures |r| >= 1 && r[0] == IntToken(Opcode(insn))
  {
    [IntToken(Opcode(insn))] +
    match insn
    case MethodInsn(_, owner, name, desc, itf) =>
      [StringToken(owner), StringToken(name), StringToken(desc), BoolToken(itf)]
    case LdcInsn(cst) =>
      [ConstantToken(cst)]
    case InvokeDynamicInsn(name, desc, bsm, bsmArgs) =>
      [StringToken(name), StringToken(desc), StringToken(bsm.name), StringToken(bsm.owner), IntToken(bsm.tag), StringToken(bsm.desc)]
      + ConstantTokens(bsmArgs)
    case FieldInsn(_, owner, name, desc) =>
      [StringToken(owner), StringToken(name), StringToken(desc)]
    case IntInsn(_, operand) =>
      [IntToken(operand)]
    case VarInsn(_, varIndex) =>
      [IntToken(varIndex)]
    case LabelNode(labelId) =>
      [LabelToken(labelId)]
    case _ => []
  }

  /** The tokens a whole instruction list feeds into one scope, instruction by instruction. */
  function StreamTokens(insns: seq<Instruction>): seq<HashToken>
    decreases |insns|
  {
    if insns == [] then [] else StreamTokens(insns[..|insns| - 1]) + HashTokens(Last(insns))
  }

  /** The feed of a list is the feed of its parts, one after the other: hashing is order-sensitive and position-free. */
  lemma {:induction false} StreamTokensAppend(a: seq<Instruction>, b: seq<Instruction>)
    ensures StreamTokens(a + b) == StreamTokens(a) + StreamTokens(b)
    decreases |b|
  {
    if b == [] {
      assert a + b == a;
    } else {
      var init := b[..|b| - 1];
      assert (a + b)[..|a + b| - 1] == a + init;
      StreamTokensAppend(a, init);
    }
  }

  /** The feed of the first `n` instructions extends the feed of the first `n - 1` by the tokens of instruction `n - 1`. */
  lemma StreamTokensPrefix(insns: seq<Instruction>, n: nat)
    requires 0 < n <= |insns|
    ensures StreamTokens(insns[..n]) == StreamTokens(insns[..n - 1]) + HashTokens(insns[n - 1])
  {
    assert insns[..n][..n - 1] == insns[..n - 1];
  }

  /**
   * Line-number entries, jumps, type instructions and `iinc` feed nothing but
   * their opcode: changing their operands (a shifted line, a different jump
   * target, cast type or increment) leaves the hash as it was.
   */
  lemma OperandsNotHashed(line1: int, line2: int, l1: LabelId, l2: LabelId, op: int, d1: string, d2: string, v1: int, v2: int, inc1: int, inc2: int)
    ensures HashTokens(LineNumberNode(line1, l1)) == HashTokens(LineNumberNode(line2, l2)) == [IntToken(PSEUDO_OPCODE)]
    ensures HashTokens(JumpInsn(op, l1)) == HashTokens(JumpInsn(op, l2)) == [IntToken(op)]
    ensures HashTokens(TypeInsn(op, d1)) == HashTokens(TypeInsn(op, d2)) == [IntToken(op)]
    ensures HashTokens(IincInsn(v1, inc1)) == HashTokens(IincInsn(v2, inc2)) == [IntToken(IINC)]
  {
  }

  /** A label feeds its identity: two different label objects hash differently. */
  lemma LabelIdentityHashed(l1: LabelId, l2: LabelId)
    ensures HashTokens(LabelNode(l1)) == HashTokens(LabelNode(l2)) <==> l1 == l2
  {
    if HashTokens(LabelNode(l1)) == HashTokens(LabelNode(l2)) {
      assert HashTokens(LabelNode(l1))[1] == LabelToken(l1);
    }
  }

  /** A method call feeds every part of its target: two calls hash alike exactly when they are the same call. */
  lemma MethodCallHashed(a: Instruction, b: Instruction)
    requires a.MethodInsn? && b.MethodInsn?
    ensures HashTokens(a) == HashTokens(b) <==> a == b
  {
    if HashTokens(a) == HashTokens(b) {
      assert HashTokens(a)[1] == StringToken(a.owner) && HashTokens(a)[2] == StringToken(a.name);
      assert HashTokens(a)[3] == StringToken(a.desc) && HashTokens(a)[4] == BoolToken(a.itf);
    }
  }

  /** A dynamic call site feeds its bootstrap arguments last, in order, one token each. */
  lemma InvokeDynamicArgumentsHashed(insn: Instruction)
    requires insn.InvokeDynamicInsn?
    ensures |HashTokens(insn)| == 7 + |insn.bsmArgs|
    ensures HashTokens(insn)[7..] == ConstantTokens(insn.bsmArgs)
  {
  }

  /** Bootstrap argument lists feed the same tokens exactly when they are the same list. */
  lemma ConstantTokensInjective(a: seq<Constant>, b: seq<Constant>)
    ensures ConstantTokens(a) == ConstantTokens(b) <==> a == b
  {
    if ConstantTokens(a) == ConstantTokens(b) {
      assert |a| == |b|;
      forall i | 0 <= i < |a| ensures a[i] == b[i] {
        assert ConstantTokens(a)[i] == ConstantToken(a[i]);
      }
    }
  }

  /** A field access feeds its opcode, owner, name and descriptor: two accesses hash alike exactly when they are the same access. */
  lemma FieldAccessHashed(a: Instruction, b: Instruction)
    requires a.FieldInsn? && b.FieldInsn?
    ensures HashTokens(a) == HashTokens(b) <==> a == b
  {
    if HashTokens(a) == HashTokens(b) {
      assert HashTokens(a)[1] == StringToken(a.owner) && HashTokens(a)[2] == StringToken(a.name);
      assert HashTokens(a)[3] == StringToken(a.desc);
    }
  }

  /** `ldc` feeds the loaded constant: two loads hash alike exactly when they load the same constant. */
  lemma ConstantLoadHashed(c1: Constant, c2: Constant)
    ensures HashTokens(LdcInsn(c1)) == HashTokens(LdcInsn(c2)) <==> c1 == c2
  {
    if HashTokens(LdcInsn(c1)) == HashTokens(LdcInsn(c2)) {
      assert HashTokens(LdcInsn(c1))[1] == ConstantToken(c1);
    }
  }

  /**
   * `bipush`/`sipush`/`newarray` feed their operand and local-variable
   * instructions their slot: two such instructions of one kind hash alike
   * exactly when they are the same instruction.
   */
  lemma OperandHashed(a: Instruction, b: Instruction)
    requires (a.IntInsn? && b.IntInsn?) || (a.VarInsn? && b.VarInsn?)
    ensures HashTokens(a) == HashTokens(b) <==> a == b
  {
    if HashTokens(a) == HashTokens(b) {
      assert HashTokens(a)[1] == HashTokens(b)[1];
    }
  }

  /**
   * A dynamic call site feeds its name, descriptor, the bootstrap method's
   * name, owner, tag and descriptor, and the bootstrap arguments: two call
   * sites hash alike exactly when all of these agree. The bootstrap handle's
   * interface flag is not fed.
   */
  lemma InvokeDynamicHashed(a: Instruction, b: Instruction)
    requires a.InvokeDynamicInsn? && b.InvokeDynamicInsn?
    ensures HashTokens(a) == HashTokens(b) <==>
      a.name == b.name && a.desc == b.desc && a.bsm.name == b.bsm.name && a.bsm.owner == b.bsm.owner
      && a.bsm.tag == b.bsm.tag && a.bsm.desc == b.bsm.desc && a.bsmArgs == b.bsmArgs
  {
    var ta, tb := HashTokens(a), HashTokens(b);
    if ta == tb {
      assert ta[1] == StringToken(a.name) && ta[2] == StringToken(a.desc);
      assert ta[3] == StringToken(a.bsm.name) && ta[4] == StringToken(a.bsm.owner);
      assert ta[5] == IntToken(a.bsm.tag) && ta[6] == StringToken(a.bsm.desc);
      assert tb[1] == StringToken(b.name) && tb[2] == StringToken(b.desc);
      assert tb[3] == StringToken(b.bsm.name) && tb[4] == StringToken(b.bsm.owner);
      assert tb[5] == IntToken(b.bsm.tag) && tb[6] == StringToken(b.bsm.desc);
      assert ta[7..] == ConstantTokens(a.bsmArgs) && tb[7..] == ConstantTokens(b.bsmArgs);
      ConstantTokensInjective(a.bsmArgs, b.bsmArgs);
    }
  }

  /** `RuntimeScopeHasher.analyze`: feeds the instruction's tokens to the current scope, if there is one. */
  method Analyze(context: MethodAnalysisContext, instructionNode: Instruction)
    modifies context
    ensures context.stack == WithTokens(old(context.stack), HashTokens(instructionNode))
  {
    if !context.HasScope() {
      return;
    }
    ghost var before := context.stack;
    context.PushHash(IntToken(Opcode(instructionNode)));
    ghost var pushed := [IntToken(Opcode(instructionNode))];
    match instructionNode {
      case MethodInsn(_, owner, name, desc, itf) =>
        PushAll(context, [StringToken(owner), StringToken(name), StringToken(desc), BoolToken(itf)], before, pushed);
      case LdcInsn(cst) =>
        PushAll(context, [ConstantToken(cst)], before, pushed);
      case InvokeDynamicInsn(name, desc, bsm, bsmArgs) =>
        var header := [StringToken(name), StringToken(desc), StringToken(bsm.name), StringToken(bsm.owner), IntToken(bsm.tag), StringToken(bsm.desc)];
        PushAll(context, header, before, pushed);
        pushed := pushed + header;
        assert pushed + ConstantTokens(bsmArgs[..0]) == pushed;
        var i := 0;
        while i < |bsmArgs|
          invariant 0 <= i <= |bsmArgs|
          invariant context.stack == WithTokens(before, pushed + ConstantTokens(bsmArgs[..i]))
        {
          assert ConstantTokens(bsmArgs[..i + 1]) == ConstantTokens(bsmArgs[..i]) + [ConstantToken(bsmArgs[i])];
          PushAll(context, [ConstantToken(bsmArgs[i])], before, pushed + ConstantTokens(bsmArgs[..i]));
          assert pushed + ConstantTokens(bsmArgs[..i]) + [ConstantToken(bsmArgs[i])] == pushed + ConstantTokens(bsmArgs[..i + 1]);
          i := i + 1;
        }
        assert bsmArgs[..i] == bsmArgs;
        assert HashTokens(instructionNode) == pushed + ConstantTokens(bsmArgs);
      case FieldInsn(_, owner, name, desc) =>
        PushAll(context, [StringToken(owner), StringToken(name), StringToken(desc)], before, pushed);
      case IntInsn(_, operand) =>
        PushAll(context, [IntToken(operand)], before, pushed);
      case VarInsn(_, varIndex) =>
        PushAll(context, [IntToken(varIndex)], before, pushed);
      case LabelNode(labelId) =>
        PushAll(context, [LabelToken(labelId)], before, pushed);
      case _ =>
        assert pushed + [] == pushed;
    }
  }

  /** Successive `pushHash` calls, one per token. */
  method PushAll(context: MethodAnalysisContext, tokens: seq<HashToken>, ghost before: seq<OpenScope>, ghost pushed: seq<HashToken>)
    requires before != [] && context.stack == WithTokens(before, pushed)
    modifies context
    ensures context.stack == WithTokens(before, pushed + tokens)
  {
    assert pushed + tokens[..0] == pushed;
    var i := 0;
    while i < |tokens|
      invariant 0 <= i <= |tokens|
      invariant context.stack == WithTokens(before, pushed + tokens[..i])
    {
      WithTokensTwice(before, pushed + tokens[..i], [tokens[i]]);
      assert pushed + tokens[..i] + [tokens[i]] == pushed + tokens[..i + 1];
      context.PushHash(tokens[i]);
      i := i + 1;
    }
    assert tokens[..i] == tokens;
  }
}
