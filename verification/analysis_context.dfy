/**
 * The per-method analysis context: a stack of open scopes that the
 * instruction analyzers write into. The analyzers only ever touch the
 * current scope, the top of the stack; `pushHash` appends a token to that
 * scope's hash input and `attachDependency` appends a method id to its
 * dependency list.
 *
 * Which instructions open and close group scopes (the Compose marker calls)
 * is decided by a recognizer that this model takes as a parameter; the stack
 * discipline itself is modelled: entering pushes a scope whose parent group
 * is the group of the scope below it, leaving pops the current scope into the
 * children of the one below, and a shape the recognizer cannot interpret
 * aborts the method's analysis, after which there is no current scope.
 */
module AnalysisContext {
  import opened Wrappers
  import opened Collections
  import opened Bytecode
  import opened RuntimeInfos

  /** A value handed to `pushHash`. */
  datatype HashToken =
    | IntToken(i: int)
    | StringToken(s: string)
    | BoolToken(b: bool)
    | ConstantToken(c: Constant)
    | LabelToken(labelId: LabelId)

  /** The hash arithmetic behind `pushHash`, applied to a scope's whole token input. */
  type Digest = seq<HashToken> -> Long

  /** What the marker recognizer makes of the instruction at one position. */
  datatype MarkerAction =
    | NoMarker
    | EnterScope(scopeType: RuntimeScopeType, key: Option<ComposeGroupKey>)
    | ExitScope
    | Malformed

  /** Decides, for an instruction list and a position in it, the marker action there. */
  type Recognizer = (seq<Instruction>, nat) -> MarkerAction

  /** A scope that is still open: what has been recorded into it so far. */
  datatype OpenScope = OpenScope(
    scopeType: RuntimeScopeType,
    group: Option<ComposeGroupKey>,
    parentGroup: Option<ComposeGroupKey>,
    hashInput: seq<HashToken>,
    children: seq<RuntimeScopeInfo>,
    dependencies: seq<MethodId>)

  /** The implicit root scope every method analysis starts with. */
  const ROOT := OpenScope(Method, None, None, [], [], [])

  /** The stack after the current scope's hash input was extended by `tokens`. */
  function WithTokens(stack: seq<OpenScope>, tokens: seq<HashToken>): (r: seq<OpenScope>)
    ensures |r| == |stack|
    ensures stack != [] ==> r[..|r| - 1] == stack[..|stack| - 1]
    ensures stack != [] ==> Last(r) == Last(stack).(hashInput := Last(stack).hashInput + tokens)
  {
    if stack == [] then []
    else stack[..|stack| - 1] + [Last(stack).(hashInput := Last(stack).hashInput + tokens)]
  }

  /** Pushing tokens one batch after another is pushing them all at once. */
  lemma WithTokensTwice(stack: seq<OpenScope>, a: seq<HashToken>, b: seq<HashToken>)
    ensures WithTokens(WithTokens(stack, a), b) == WithTokens(stack, a + b)
  {
    if stack != [] {
      assert Last(stack).hashInput + a + b == Last(stack).hashInput + (a + b);
    }
  }

  /** The stack after `dependency`, if any, was appended to the current scope's dependencies. */
  function WithDependency(stack: seq<OpenScope>, dependency: Option<MethodId>): (r: seq<OpenScope>)
    ensures |r| == |stack|
    ensures stack != [] ==> r[..|r| - 1] == stack[..|stack| - 1]
    ensures stack != [] ==> Last(r) == Last(stack).(dependencies := Last(stack).dependencies + if dependency.Some? then [dependency.value] else [])
  {
    if stack == [] || dependency.None? then stack
    else stack[..|stack| - 1] + [Last(stack).(dependencies := Last(stack).dependencies + [dependency.value])]
  }

  /** Closing an open scope: its token input is digested into the scope's hash. */
  function CloseScope(s: OpenScope, methodId: MethodId, digest: Digest): (r: RuntimeScopeInfo)
    ensures r.methodId == methodId && r.hash == RuntimeScopeHash(digest(s.hashInput))
    ensures r.scopeType == s.scopeType && r.group == s.group && r.parentGroup == s.parentGroup
    ensures r.children == s.children && r.dependencies == s.dependencies
  {
    RuntimeScopeInfo(methodId, s.scopeType, s.group, s.parentGroup, RuntimeScopeHash(digest(s.hashInput)), s.children, s.dependencies)
  }

  /** The stack after the current scope was popped into the children of the scope below it. */
  function PopScope(stack: seq<OpenScope>, methodId: MethodId, digest: Digest): (r: seq<OpenScope>)
    requires |stack| >= 2
    ensures |r| == |stack| - 1
  {
    var n := |stack|;
    var parent := stack[n - 2];
    stack[..n - 2] + [parent.(children := parent.children + [CloseScope(stack[n - 1], methodId, digest)])]
  }

  /** The effect of one marker action on the stack; an empty stack means the analysis was aborted. */
  function ApplyMarker(stack: seq<OpenScope>, action: MarkerAction, methodId: MethodId, digest: Digest): seq<OpenScope> {
    match action
    case NoMarker => stack
    case Malformed => []
    case EnterScope(scopeType, key) =>
      if stack == [] then [] else stack + [OpenScope(scopeType, key, Last(stack).group, [], [], [])]
    case ExitScope =>
      if |stack| < 2 then [] else PopScope(stack, methodId, digest)
  }

  /** `context.end()`: scopes still open are closed into their parents; an aborted analysis yields nothing. */
  function EndScopes(stack: seq<OpenScope>, methodId: MethodId, digest: Digest): Option<RuntimeScopeInfo>
    decreases |stack|
  {
    if stack == [] then None
    else if |stack| == 1 then Some(CloseScope(stack[0], methodId, digest))
    else EndScopes(PopScope(stack, methodId, digest), methodId, digest)
  }

  /**
   * Ending yields a scope exactly when the analysis was not aborted, and that
   * scope is the root: its kind, group and parent group are the root's.
   */
  lemma {:induction false} EndScopesRoot(stack: seq<OpenScope>, methodId: MethodId, digest: Digest)
    ensures EndScopes(stack, methodId, digest).Some? <==> stack != []
    ensures stack != [] ==> var r := EndScopes(stack, methodId, digest).value;
      r.methodId == methodId && r.scopeType == stack[0].scopeType && r.group == stack[0].group && r.parentGroup == stack[0].parentGroup
    decreases |stack|
  {
    if |stack| >= 2 {
      var popped := PopScope(stack, methodId, digest);
      assert popped[0].scopeType == stack[0].scopeType && popped[0].group == stack[0].group && popped[0].parentGroup == stack[0].parentGroup;
      EndScopesRoot(popped, methodId, digest);
    }
  }

  /** `RuntimeMethodAnalysisContext`: the scope stack of one method under analysis. */
  class MethodAnalysisContext {
    const methodId: MethodId
    const digest: Digest
    /** The open scopes, the root first; the current scope is the last one. */
    var stack: seq<OpenScope>

    constructor (methodId: MethodId, digest: Digest)
      ensures this.methodId == methodId && this.digest == digest
      ensures stack == [ROOT]
    {
      this.methodId := methodId;
      this.digest := digest;
      stack := [ROOT];
    }

    /** Whether there is a current scope (`context.scope != null`). */
    predicate HasScope()
      reads this
    {
      stack != []
    }

    /** `scope.pushHash(token)` on the current scope. */
    method PushHash(token: HashToken)
      requires HasScope()
      modifies this
      ensures stack == WithTokens(old(stack), [token])
    {
      stack := WithTokens(stack, [token]);
    }

    /** `scope.attachDependency(methodId)` on the current scope. */
    method AttachDependency(dependency: MethodId)
      requires HasScope()
      modifies this
      ensures stack == WithDependency(old(stack), Some(dependency))
    {
      stack := WithDependency(stack, Some(dependency));
    }

    /** `pushFunctionKeyAnnotation(key)`: the key from `FunctionKeyMeta` becomes the root scope's group. */
    method PushFunctionKeyAnnotation(key: ComposeGroupKey)
      modifies this
      ensures old(stack) != [] ==> stack == old(stack)[0 := old(stack)[0].(group := Some(key))]
      ensures old(stack) == [] ==> stack == []
    {
      if stack != [] {
        stack := stack[0 := stack[0].(group := Some(key))];
      }
    }

    /** Applies the marker action the recognizer found at the current instruction. */
    method Mark(action: MarkerAction)
      modifies this
      ensures stack == ApplyMarker(old(stack), action, methodId, digest)
    {
      stack := ApplyMarker(stack, action, methodId, digest);
    }

    /**
     * `context.end()`: the method form of `EndScopes` on the context's stack.
     * What it yields is stated by `EndScopesRoot`.
     */
    method End() returns (r: Option<RuntimeScopeInfo>)
      ensures r == EndScopes(stack, methodId, digest)
    {
      r := EndScopes(stack, methodId, digest);
    }
  }
}
