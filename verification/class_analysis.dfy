/**
 * The analysis of one class: the namespace filter, the function key read
 * from the `FunctionKeyMeta` annotation, and the per-method instruction walk
 * that drives the hasher, the dependency analyzer and the marker stack of a
 * `MethodAnalysisContext`.
 */
module ClassAnalysis {
  import opened Wrappers
  import opened Collections
  import opened Bytecode
  import opened RuntimeInfos
  import opened AnalysisContext
  import Hasher = RuntimeScopeHasher
  import Dependencies = DependencyAnalyzer

  const FUNCTION_KEY_META := "Landroidx/compose/runtime/internal/FunctionKeyMeta;"

  /** Class names under these namespaces are never analysed. */
  predicate ExcludedClass(name: string) {
    StartsWith(name, "java/") || StartsWith(name, "javax/") || StartsWith(name, "jdk/") || StartsWith(name, "sun/")
    || StartsWith(name, "kotlin/") || StartsWith(name, "kotlinx/") || StartsWith(name, "androidx/")
  }

  /** `find { it.desc == FunctionKeyMeta }`: the first `FunctionKeyMeta` annotation. */
  function FindFunctionKeyMeta(annotations: seq<AnnotationNode>): (r: Option<nat>)
    ensures r.Some? ==> (r.value < |annotations| && annotations[r.value].desc == FUNCTION_KEY_META
      && forall j :: 0 <= j < r.value ==> annotations[j].desc != FUNCTION_KEY_META)
    ensures r.None? ==> forall j :: 0 <= j < |annotations| ==> annotations[j].desc != FUNCTION_KEY_META
  {
    if annotations == [] then None
    else if annotations[0].desc == FUNCTION_KEY_META then Some(0)
    else
      var rest := FindFunctionKeyMeta(annotations[1..]);
      if rest.Some? then Some(rest.value + 1) else None
  }

  /** `zipWithNext().find { (name, _) -> name == "key" }`: the first `"key"` that has a successor. */
  function FindKeyName(values: seq<AnnotationValue>): (r: Option<nat>)
    ensures r.Some? ==> (r.value + 1 < |values| && values[r.value] == StringValue("key")
      && forall j :: 0 <= j < r.value ==> values[j] != StringValue("key"))
    ensures r.None? ==> forall j :: 0 <= j < |values| - 1 ==> values[j] != StringValue("key")
  {
    if |values| < 2 then None
    else if values[0] == StringValue("key") then Some(0)
    else
      var rest := FindKeyName(values[1..]);
      if rest.Some? then Some(rest.value + 1) else None
  }

  /**
   * The function key of a method: the `Int` that follows the first `"key"`
   * entry of the first `FunctionKeyMeta` annotation. A missing annotation
   * list, a missing value list, no such entry, or a non-`Int` after it all
   * give no key.
   */
  function FunctionKey(m: MethodNode): (r: Option<ComposeGroupKey>)
    ensures r.Some? <==>
      m.visibleAnnotations.Some? && FindFunctionKeyMeta(m.visibleAnnotations.value).Some?
      && var values := m.visibleAnnotations.value[FindFunctionKeyMeta(m.visibleAnnotations.value).value].values;
      values.Some? && FindKeyName(values.value).Some? && values.value[FindKeyName(values.value).value + 1].IntValue?
  {
    var annotations := m.visibleAnnotations.GetOr([]);
    var found := FindFunctionKeyMeta(annotations);
    if found.None? then None
    else
      var values := annotations[found.value].values;
      if values.None? then None
      else
        var name := FindKeyName(values.value);
        if name.None? then None
        else
          var v := values.value[name.value + 1];
          if v.IntValue? then Some(ComposeGroupKey(v.i)) else None
  }

  /** A method carrying `@FunctionKeyMeta(key = k)` has the function key `k`, whatever precedes it. */
  lemma FunctionKeyOfAnnotation(m: MethodNode, before: seq<AnnotationNode>, after: seq<AnnotationNode>, k: Int32, rest: seq<AnnotationValue>)
    requires forall a :: a in before ==> a.desc != FUNCTION_KEY_META
    requires m.visibleAnnotations == Some(before + [AnnotationNode(FUNCTION_KEY_META, Some([StringValue("key"), IntValue(k)] + rest))] + after)
    ensures FunctionKey(m) == Some(ComposeGroupKey(k))
  {
    var annotations := m.visibleAnnotations.value;
    var found := FindFunctionKeyMeta(annotations);
    assert annotations[|before|].desc == FUNCTION_KEY_META;
    assert forall j :: 0 <= j < |before| ==> annotations[j] == before[j];
  }

  /** The one root scope of a method analysis, carrying the function key as its group. */
  function InitialStack(m: MethodNode): (r: seq<OpenScope>)
    ensures |r| == 1 && r[0].scopeType == Method && r[0].group == FunctionKey(m) && r[0].parentGroup == None
  {
    if FunctionKey(m).Some? then [ROOT.(group := FunctionKey(m))] else [ROOT]
  }

  /** What the analyzers make of one instruction: the tokens hashed, the dependency recorded, the marker action. */
  datatype Effect = Effect(tokens: seq<HashToken>, dependency: Option<MethodId>, action: MarkerAction)

  /** The effect of the instruction at position `i`. */
  function EffectAt(insns: seq<Instruction>, i: nat, recognizer: Recognizer): Effect
    requires i < |insns|
  {
    Effect(Hasher.HashTokens(insns[i]), Dependencies.Dependency(insns[i]), recognizer(insns, i))
  }

  /** One instruction, in analyzer order: hash it, record its dependency, then apply its marker action. */
  function Step(stack: seq<OpenScope>, e: Effect, methodId: MethodId, digest: Digest): seq<OpenScope> {
    ApplyMarker(WithDependency(WithTokens(stack, e.tokens), e.dependency), e.action, methodId, digest)
  }

  /** The stack after the first `n` instructions; the root scope keeps its kind and groups unless the walk aborts. */
  function RunInstructions(stack: seq<OpenScope>, insns: seq<Instruction>, n: nat, recognizer: Recognizer, methodId: MethodId, digest: Digest): (r: seq<OpenScope>)
    requires n <= |insns|
    ensures RootKept(stack, r)
  {
    if n == 0 then stack
    else
      var before := RunInstructions(stack, insns, n - 1, recognizer, methodId, digest);
      var e := EffectAt(insns, n - 1, recognizer);
      StepKeepsRoot(before, e, methodId, digest);
      Step(before, e, methodId, digest)
  }

  lemma RunInstructionsNext(stack: seq<OpenScope>, insns: seq<Instruction>, i: nat, recognizer: Recognizer, methodId: MethodId, digest: Digest)
    requires i < |insns|
    ensures RunInstructions(stack, insns, i + 1, recognizer, methodId, digest)
      == Step(RunInstructions(stack, insns, i, recognizer, methodId, digest), EffectAt(insns, i, recognizer), methodId, digest)
  {
  }

  function MethodIdOfNode(cls: ClassNode, m: MethodNode): MethodId {
    MethodId(cls.name, m.name, m.desc)
  }

  /** `RuntimeScopeInfo(classNode, methodNode)`: the method's root scope, or nothing when the analysis aborted. */
  function MethodScope(cls: ClassNode, m: MethodNode, recognizer: Recognizer, digest: Digest): Option<RuntimeScopeInfo> {
    var methodId := MethodIdOfNode(cls, m);
    EndScopes(RunInstructions(InitialStack(m), m.instructions, |m.instructions|, recognizer, methodId, digest), methodId, digest)
  }

  /** `after` is either aborted or has the same root kind, group and parent group as `before`. */
  predicate RootKept(before: seq<OpenScope>, after: seq<OpenScope>) {
    after != [] ==> (before != [] && after[0].scopeType == before[0].scopeType
      && after[0].group == before[0].group && after[0].parentGroup == before[0].parentGroup)
  }

  /** One instruction step never changes the kind, group or parent group of the root scope, and never revives an aborted walk. */
  lemma StepKeepsRoot(stack: seq<OpenScope>, e: Effect, methodId: MethodId, digest: Digest)
    ensures RootKept(stack, Step(stack, e, methodId, digest))
  {
    var hashed := WithTokens(stack, e.tokens);
    assert RootKept(stack, hashed) by {
      if |stack| > 1 {
        assert hashed[0] == hashed[..|hashed| - 1][0];
      }
    }
    var recorded := WithDependency(hashed, e.dependency);
    assert RootKept(hashed, recorded) by {
      if |stack| > 1 {
        assert recorded[0] == recorded[..|recorded| - 1][0];
      }
    }
  }

  /**
   * A method's analysis yields a scope exactly when the walk was not aborted,
   * and that scope is the method's root: of kind `Method`, owned by the method,
   * with the function key as its group and no parent group.
   */
  lemma MethodScopeIsRoot(cls: ClassNode, m: MethodNode, recognizer: Recognizer, digest: Digest)
    ensures var methodId := MethodIdOfNode(cls, m);
      MethodScope(cls, m, recognizer, digest).Some? <==> RunInstructions(InitialStack(m), m.instructions, |m.instructions|, recognizer, methodId, digest) != []
    ensures MethodScope(cls, m, recognizer, digest).Some? ==>
      var r := MethodScope(cls, m, recognizer, digest).value;
      r.methodId == MethodId(cls.name, m.name, m.desc) && r.scopeType == Method && r.group == FunctionKey(m) && r.parentGroup == None
  {
    var methodId := MethodIdOfNode(cls, m);
    var final := RunInstructions(InitialStack(m), m.instructions, |m.instructions|, recognizer, methodId, digest);
    EndScopesRoot(final, methodId, digest);
  }

  /** Without a marker, a step on a lone root only extends the root's hash input. */
  lemma UnmarkedStep(stack: seq<OpenScope>, e: Effect, methodId: MethodId, digest: Digest)
    requires |stack| == 1 && e.action == NoMarker
    ensures var r := Step(stack, e, methodId, digest);
      |r| == 1 && r[0].hashInput == stack[0].hashInput + e.tokens && r[0].children == stack[0].children
  {
    var hashed := WithTokens(stack, e.tokens);
    assert hashed[0] == Last(hashed);
    var recorded := WithDependency(hashed, e.dependency);
    assert recorded[0] == Last(recorded);
  }

  /** The stack is the lone root, fed with the tokens of the first `n` instructions. */
  predicate FedRoot(stack: seq<OpenScope>, r: seq<OpenScope>, insns: seq<Instruction>, n: nat)
    requires |stack| == 1 && n <= |insns|
  {
    |r| == 1 && r[0].hashInput == stack[0].hashInput + Hasher.StreamTokens(insns[..n]) && r[0].children == stack[0].children
  }

  lemma UnmarkedRunStep(stack: seq<OpenScope>, insns: seq<Instruction>, n: nat, recognizer: Recognizer, methodId: MethodId, digest: Digest)
    requires 0 < n <= |insns| && |stack| == 1 && recognizer(insns, n - 1) == NoMarker
    requires FedRoot(stack, RunInstructions(stack, insns, n - 1, recognizer, methodId, digest), insns, n - 1)
    ensures FedRoot(stack, RunInstructions(stack, insns, n, recognizer, methodId, digest), insns, n)
  {
    var before := RunInstructions(stack, insns, n - 1, recognizer, methodId, digest);
    var e := EffectAt(insns, n - 1, recognizer);
    assert RunInstructions(stack, insns, n, recognizer, methodId, digest) == Step(before, e, methodId, digest);
    UnmarkedStep(before, e, methodId, digest);
    Hasher.StreamTokensPrefix(insns, n);
    var input, fed := stack[0].hashInput, Hasher.StreamTokens(insns[..n - 1]);
    AppendAssociative(input, fed, e.tokens);
  }

  /** The instructions of a method without markers only feed the root: it stays the single open scope. */
  lemma {:induction false} UnmarkedRunFeedsRoot(stack: seq<OpenScope>, insns: seq<Instruction>, n: nat, recognizer: Recognizer, methodId: MethodId, digest: Digest)
    requires n <= |insns| && |stack| == 1
    requires forall i :: 0 <= i < n ==> recognizer(insns, i) == NoMarker
    ensures FedRoot(stack, RunInstructions(stack, insns, n, recognizer, methodId, digest), insns, n)
  {
    if n == 0 {
      assert insns[..0] == [];
    } else {
      UnmarkedRunFeedsRoot(stack, insns, n - 1, recognizer, methodId, digest);
      UnmarkedRunStep(stack, insns, n, recognizer, methodId, digest);
    }
  }

  /** The analysis of one instruction in the context, in analyzer order. */
  method AnalyzeInstruction(context: MethodAnalysisContext, insns: seq<Instruction>, i: nat, recognizer: Recognizer)
    requires i < |insns|
    modifies context
    ensures context.stack == Step(old(context.stack), EffectAt(insns, i, recognizer), context.methodId, context.digest)
  {
    Hasher.Analyze(context, insns[i]);
    Dependencies.Analyze(context, insns[i]);
    context.Mark(recognizer(insns, i));
  }

  /** A fresh context for the method, with its function key, if any, pushed onto the root scope. */
  method NewContext(methodId: MethodId, m: MethodNode, digest: Digest) returns (context: MethodAnalysisContext)
    ensures fresh(context)
    ensures context.methodId == methodId && context.digest == digest && context.stack == InitialStack(m)
  {
    context := new MethodAnalysisContext(methodId, digest);
    var functionKey := FunctionKey(m);
    if functionKey.Some? {
      context.PushFunctionKeyAnnotation(functionKey.value);
    }
  }

  /** `methodNode.instructions.forEach { analyze(context, it) }`. */
  method AnalyzeInstructions(context: MethodAnalysisContext, insns: seq<Instruction>, recognizer: Recognizer)
    modifies context
    ensures context.stack == RunInstructions(old(context.stack), insns, |insns|, recognizer, context.methodId, context.digest)
  {
    ghost var start := context.stack;
    var i := 0;
    while i < |insns|
      invariant 0 <= i <= |insns|
      invariant context.stack == RunInstructions(start, insns, i, recognizer, context.methodId, context.digest)
    {
      RunInstructionsNext(start, insns, i, recognizer, context.methodId, context.digest);
      AnalyzeInstruction(context, insns, i, recognizer);
      i := i + 1;
    }
  }

  /** `RuntimeScopeInfo(classNode, methodNode)`: the instruction walk over one method. */
  method AnalyzeMethod(cls: ClassNode, m: MethodNode, recognizer: Recognizer, digest: Digest) returns (r: Option<RuntimeScopeInfo>)
    ensures r == MethodScope(cls, m, recognizer, digest)
  {
    var context := NewContext(MethodId(cls.name, m.name, m.desc), m, digest);
    AnalyzeInstructions(context, m.instructions, recognizer);
    r := context.End();
  }

  /** `mapNotNull` over the methods: the scopes of the methods whose analysis did not abort, in method order. */
  function ScopesOf(cls: ClassNode, methods: seq<MethodNode>, recognizer: Recognizer, digest: Digest): (r: seq<RuntimeScopeInfo>)
    ensures |r| <= |methods|
    decreases |methods|
  {
    if methods == [] then []
    else
      var init := ScopesOf(cls, methods[..|methods| - 1], recognizer, digest);
      var scope := MethodScope(cls, Last(methods), recognizer, digest);
      init + if scope.Some? then [scope.value] else []
  }

  /** Every scope the class contributes is the scope of one of its methods. */
  lemma {:induction false} ScopesOfMethods(cls: ClassNode, methods: seq<MethodNode>, recognizer: Recognizer, digest: Digest)
    ensures forall s :: s in ScopesOf(cls, methods, recognizer, digest) ==> exists m :: m in methods && MethodScope(cls, m, recognizer, digest) == Some(s)
    decreases |methods|
  {
    if methods != [] {
      var init := methods[..|methods| - 1];
      ScopesOfMethods(cls, init, recognizer, digest);
      assert forall m :: m in init ==> m in methods;
    }
  }

  /** `RuntimeInfo(classNode)`: nothing for an excluded class, else the root scopes of its methods. */
  function ClassInfo(cls: ClassNode, recognizer: Recognizer, digest: Digest): (r: Option<RuntimeInfo>)
    ensures r.None? <==> ExcludedClass(cls.name)
    ensures r.Some? ==> |r.value.scopes| <= |cls.methods|
  {
    if ExcludedClass(cls.name) then None else Some(RuntimeInfo(ScopesOf(cls, cls.methods, recognizer, digest)))
  }

  /**
   * Every root scope of a class belongs to a method of that class, is of kind
   * `Method`, and has no parent group.
   */
  lemma ClassScopesAreRoots(cls: ClassNode, recognizer: Recognizer, digest: Digest)
    requires ClassInfo(cls, recognizer, digest).Some?
    ensures forall s :: s in ClassInfo(cls, recognizer, digest).value.scopes ==>
      s.methodId.className == cls.name && s.scopeType == Method && s.parentGroup == None
      && exists m :: m in cls.methods && s.methodId == MethodId(cls.name, m.name, m.desc) && s.group == FunctionKey(m)
  {
    ScopesOfMethods(cls, cls.methods, recognizer, digest);
    forall s | s in ClassInfo(cls, recognizer, digest).value.scopes
      ensures s.methodId.className == cls.name && s.scopeType == Method && s.parentGroup == None
      ensures exists m :: m in cls.methods && s.methodId == MethodId(cls.name, m.name, m.desc) && s.group == FunctionKey(m)
    {
      var m :| m in cls.methods && MethodScope(cls, m, recognizer, digest) == Some(s);
      MethodScopeIsRoot(cls, m, recognizer, digest);
    }
  }

  /** One more method appends its scope, if it has one: the scopes follow method order. */
  lemma ScopesOfPrefix(cls: ClassNode, methods: seq<MethodNode>, i: nat, recognizer: Recognizer, digest: Digest)
    requires i < |methods|
    ensures var scope := MethodScope(cls, methods[i], recognizer, digest);
      ScopesOf(cls, methods[..i + 1], recognizer, digest) == ScopesOf(cls, methods[..i], recognizer, digest) + if scope.Some? then [scope.value] else []
  {
    assert methods[..i + 1][..i] == methods[..i];
  }

  /** `RuntimeInfo(classNode)` with its `mapNotNull` over the methods. */
  method AnalyzeClass(cls: ClassNode, recognizer: Recognizer, digest: Digest) returns (r: Option<RuntimeInfo>)
    ensures r == ClassInfo(cls, recognizer, digest)
  {
    if ExcludedClass(cls.name) {
      return None;
    }
    var scopes := AnalyzeMethods(cls, recognizer, digest);
    r := Some(RuntimeInfo(scopes));
  }

  /** `classNode.methods.mapNotNull { RuntimeScopeInfo(classNode, it) }`. */
  method AnalyzeMethods(cls: ClassNode, recognizer: Recognizer, digest: Digest) returns (scopes: seq<RuntimeScopeInfo>)
    ensures scopes == ScopesOf(cls, cls.methods, recognizer, digest)
  {
    scopes := [];
    var i := 0;
    while i < |cls.methods|
      invariant 0 <= i <= |cls.methods|
      invariant scopes == ScopesOf(cls, cls.methods[..i], recognizer, digest)
    {
      scopes := AddMethodScope(cls, i, scopes, recognizer, digest);
      i := i + 1;
    }
    assert cls.methods[..i] == cls.methods;
  }

  /** One round of `mapNotNull`: analyses method `i` and keeps its scope, if any. */
  method AddMethodScope(cls: ClassNode, i: nat, scopes: seq<RuntimeScopeInfo>, recognizer: Recognizer, digest: Digest) returns (next: seq<RuntimeScopeInfo>)
    requires i < |cls.methods| && scopes == ScopesOf(cls, cls.methods[..i], recognizer, digest)
    ensures next == ScopesOf(cls, cls.methods[..i + 1], recognizer, digest)
  {
    ScopesOfPrefix(cls, cls.methods, i, recognizer, digest);
    var scope := AnalyzeMethod(cls, cls.methods[i], recognizer, digest);
    next := scopes + if scope.Some? then [scope.value] else [];
  }
}
