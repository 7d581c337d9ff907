/**
 * The snapshot of everything the agent knows about loaded code
 * (`RuntimeInfo`): a list of per-method root scopes and the two indices
 * derived from it, plus the merge that installs redefined methods.
 */
module RuntimeInfos {
  import opened Wrappers
  import opened Collections
  import opened Closures
  import opened Bytecode

  /** The key the Compose compiler emits for a group: `startRestartGroup(1902)` records 1902. */
  datatype ComposeGroupKey = ComposeGroupKey(key: Int32)

  datatype MethodId = MethodId(className: string, methodName: string, methodDescriptor: string)

  datatype RuntimeScopeType = Method | RestartGroup | ReplaceGroup | SourceInformationMarker

  datatype RuntimeScopeHash = RuntimeScopeHash(value: Long)

  /** One scope: a method body (the root) or a group region nested in it. */
  datatype RuntimeScopeInfo = RuntimeScopeInfo(
    methodId: MethodId,
    scopeType: RuntimeScopeType,
    group: Option<ComposeGroupKey>,
    parentGroup: Option<ComposeGroupKey>,
    hash: RuntimeScopeHash,
    children: seq<RuntimeScopeInfo>,
    dependencies: seq<MethodId>)

  function MethodIdOf(s: RuntimeScopeInfo): MethodId { s.methodId }

  function GroupOf(s: RuntimeScopeInfo): Option<ComposeGroupKey> { s.group }

  function ChildrenOf(s: RuntimeScopeInfo): seq<RuntimeScopeInfo> { s.children }

  /** A scope and everything nested in it, at any depth. */
  ghost function Subtree(s: RuntimeScopeInfo): set<RuntimeScopeInfo>
    decreases s
  {
    {s} + set c, x | c in s.children && x in Subtree(c) :: x
  }

  /** Every scope reachable from one of the roots through `children`, the roots included. */
  ghost function AllScopes(roots: seq<RuntimeScopeInfo>): set<RuntimeScopeInfo> {
    set r, x | r in roots && x in Subtree(r) :: x
  }

  lemma {:induction false} SubtreeNested(s: RuntimeScopeInfo, x: RuntimeScopeInfo)
    requires x in Subtree(s)
    ensures Subtree(x) <= Subtree(s)
    decreases s
  {
    if x != s {
      var c :| c in s.children && x in Subtree(c);
      SubtreeNested(c, x);
    }
  }

  /** The scopes of all root trees form a set that `children` cannot leave. */
  lemma AllScopesClosed(roots: seq<RuntimeScopeInfo>)
    ensures AllIn(roots, AllScopes(roots))
    ensures ClosedUnder(AllScopes(roots), ChildrenOf)
  {
    forall r | r in roots ensures r in AllScopes(roots) {
      assert r in Subtree(r);
    }
    forall x, y | x in AllScopes(roots) && y in ChildrenOf(x)
      ensures y in AllScopes(roots)
    {
      var r :| r in roots && x in Subtree(r);
      SubtreeNested(r, x);
      assert y in Subtree(y);
      assert y in Subtree(x);
    }
  }

  /** A set that holds a scope and is closed under `children` holds its whole subtree. */
  lemma {:induction false} SubtreeInClosedSet(s: RuntimeScopeInfo, closed: set<RuntimeScopeInfo>)
    requires s in closed && ClosedUnder(closed, ChildrenOf)
    ensures Subtree(s) <= closed
    decreases s
  {
    forall c | c in s.children ensures Subtree(c) <= closed {
      assert c in ChildrenOf(s);
      SubtreeInClosedSet(c, closed);
    }
  }

  datatype RuntimeInfo = RuntimeInfo(scopes: seq<RuntimeScopeInfo>) {

    /** The method ids in order of first appearance: the key order of `methods`. */
    function MethodOrder(): seq<MethodId> {
      KeysInOrder(scopes, MethodIdOf)
    }

    /** `methods`: from a method id to its root scopes. */
    function Methods(): map<MethodId, seq<RuntimeScopeInfo>> {
      GroupBy(scopes, MethodIdOf)
    }

    /** `scopes.withClosure { it.children }`: every scope at any depth, each once. */
    function ScopeClosure(): (r: seq<RuntimeScopeInfo>)
      ensures Elements(r) == AllScopes(scopes)
    {
      AllScopesClosed(scopes);
      var r := Closure(scopes, ChildrenOf, AllScopes(scopes));
      assert AllScopes(scopes) <= Elements(r) by {
        forall x | x in AllScopes(scopes) ensures x in r {
          var root :| root in scopes && x in Subtree(root);
          SubtreeInClosedSet(root, Elements(r));
        }
      }
      r
    }

    /** The group keys in order of first appearance: the key order of `groups`. */
    function GroupOrder(): seq<Option<ComposeGroupKey>> {
      KeysInOrder(ScopeClosure(), GroupOf)
    }

    /** `groups`: from a group key (`None` meaning no known group) to every scope carrying it. */
    function Groups(): map<Option<ComposeGroupKey>, seq<RuntimeScopeInfo>> {
      GroupBy(ScopeClosure(), GroupOf)
    }
  }

  const EMPTY := RuntimeInfo([])

  /**
   * The `methods` index: every root scope is filed under its own method id, and
   * a method's list holds only its own root scopes, in the order of `scopes`.
   */
  lemma MethodsIndex(info: RuntimeInfo)
    ensures info.Methods().Keys == Elements(info.MethodOrder())
    ensures forall s :: s in info.scopes ==> s.methodId in info.Methods() && s in info.Methods()[s.methodId]
    ensures forall m, s :: m in info.Methods() && s in info.Methods()[m] ==> s.methodId == m && s in info.scopes
    ensures forall m :: m in info.Methods() ==> info.Methods()[m] == Select(info.scopes, MethodIdOf, m)
  {
  }

  /**
   * The `groups` index files every scope reachable from a root through
   * `children`, the roots included, under its own group key; `None` is a key
   * like any other.
   */
  lemma GroupsIndexComplete(info: RuntimeInfo)
    ensures forall s :: s in AllScopes(info.scopes) ==> s.group in info.Groups() && s in info.Groups()[s.group]
  {
    var all := info.ScopeClosure();
    forall s | s in AllScopes(info.scopes) ensures s.group in info.Groups() && s in info.Groups()[s.group] {
      assert s in all;
      assert GroupOf(s) == s.group;
    }
  }

  /**
   * The list the `groups` index holds for a key is non-empty, holds only
   * reachable scopes carrying that key, and holds each of them once.
   */
  lemma GroupsIndexSound(info: RuntimeInfo)
    ensures forall k, s :: k in info.Groups() && s in info.Groups()[k] ==> s.group == k && s in AllScopes(info.scopes)
    ensures forall k :: k in info.Groups() ==> info.Groups()[k] != [] && Distinct(info.Groups()[k])
  {
    var all, groups := info.ScopeClosure(), info.Groups();
    forall k, s: RuntimeScopeInfo | k in groups && s in groups[k] ensures s.group == k && s in AllScopes(info.scopes) {
      assert s in all;
    }
    forall k | k in groups ensures Distinct(groups[k]) {
      SelectDistinct(all, GroupOf, k);
    }
  }

  /** A filter of a duplicate-free list is duplicate-free. */
  lemma {:induction false} SelectDistinct<T(!new), K(!new)>(xs: seq<T>, key: T -> K, k: K)
    requires Distinct(xs)
    ensures Distinct(Select(xs, key, k))
    decreases |xs|
  {
    if xs != [] {
      var init := xs[..|xs| - 1];
      assert xs == init + [Last(xs)];
      SelectDistinct(init, key, k);
    }
  }

  /** The method ids of `theirs` that `ours` does not have, in the order of `theirs`. */
  function NewMethods(theirs: seq<MethodId>, ours: map<MethodId, seq<RuntimeScopeInfo>>): (r: seq<MethodId>)
    ensures forall m :: m in r <==> m in theirs && m !in ours
    ensures Distinct(theirs) ==> Distinct(r)
    decreases |theirs|
  {
    if theirs == [] then []
    else
      var init := theirs[..|theirs| - 1];
      assert theirs == init + [Last(theirs)];
      NewMethods(init, ours) + if Last(theirs) in ours then [] else [Last(theirs)]
  }

  /** The root scopes a merged snapshot holds for `m`: the incoming ones when there are any. */
  function MergedScopes(m: MethodId, ours: map<MethodId, seq<RuntimeScopeInfo>>, theirs: map<MethodId, seq<RuntimeScopeInfo>>): seq<RuntimeScopeInfo> {
    if m in theirs then theirs[m] else if m in ours then ours[m] else []
  }

  /** The method order of `this.methods + other.methods`: a `LinkedHashMap` keeps the position of a replaced key. */
  function MergedOrder(a: RuntimeInfo, b: RuntimeInfo): seq<MethodId> {
    a.MethodOrder() + NewMethods(b.MethodOrder(), a.Methods())
  }

  /** `RuntimeInfo((this.methods + other.methods).values.flatten())`. */
  function Merge(a: RuntimeInfo, b: RuntimeInfo): RuntimeInfo {
    var order := MergedOrder(a, b);
    RuntimeInfo(Concat(seq(|order|, i requires 0 <= i < |order| => MergedScopes(order[i], a.Methods(), b.Methods()))))
  }

  /** The methods of a snapshot that may be missing (`null`). */
  function MethodsOf(info: Option<RuntimeInfo>): map<MethodId, seq<RuntimeScopeInfo>> {
    if info.Some? then info.value.Methods() else map[]
  }

  /**
   * `RuntimeInfo?.plus`: a missing side leaves the other untouched, two
   * missing sides give the empty snapshot, and two present sides are merged.
   */
  function Plus(a: Option<RuntimeInfo>, b: Option<RuntimeInfo>): (r: RuntimeInfo)
    ensures a.None? ==> r == b.GetOr(EMPTY)
    ensures b.None? && a.Some? ==> r == a.value
  {
    if a.None? then b.GetOr(EMPTY)
    else if b.None? then a.value
    else Merge(a.value, b.value)
  }

  /**
   * Every method of `b` replaces that method of `a + b` wholesale, the
   * methods only `a` has are kept, and no other method appears.
   */
  lemma PlusReplacesMethods(a: Option<RuntimeInfo>, b: Option<RuntimeInfo>)
    ensures Plus(a, b).Methods().Keys == MethodsOf(a).Keys + MethodsOf(b).Keys
    ensures forall m :: m in MethodsOf(b) ==> Plus(a, b).Methods()[m] == MethodsOf(b)[m]
    ensures forall m :: m in MethodsOf(a) && m !in MethodsOf(b) ==> Plus(a, b).Methods()[m] == MethodsOf(a)[m]
  {
    if a.Some? && b.Some? {
      MergeReplacesMethods(a.value, b.value);
    } else if a.None? && b.None? {
      assert EMPTY.Methods() == map[];
    }
  }

  /** The merged method order lists every method of either side exactly once. */
  lemma MergedOrderFacts(a: RuntimeInfo, b: RuntimeInfo)
    ensures Distinct(MergedOrder(a, b))
    ensures Elements(MergedOrder(a, b)) == a.Methods().Keys + b.Methods().Keys
  {
    var order, mine := MergedOrder(a, b), a.MethodOrder();
    var added := NewMethods(b.MethodOrder(), a.Methods());
    assert Distinct(added);
    assert order[..|mine|] == mine && order[|mine|..] == added;
    forall i, j | 0 <= i < j < |order| ensures order[i] != order[j] {
      if j >= |mine| && i < |mine| {
        assert order[j] in added;
        assert order[i] in mine;
      } else if i >= |mine| {
        assert order[i] == order[|mine|..][i - |mine|];
        assert order[j] == order[|mine|..][j - |mine|];
      }
    }
  }

  /** Each block of the merge is non-empty and holds root scopes of its own method only. */
  lemma MergedBlocksFacts(a: RuntimeInfo, b: RuntimeInfo, blocks: seq<seq<RuntimeScopeInfo>>)
    requires blocks == seq(|MergedOrder(a, b)|, i requires 0 <= i < |MergedOrder(a, b)| => MergedScopes(MergedOrder(a, b)[i], a.Methods(), b.Methods()))
    ensures forall i :: 0 <= i < |blocks| ==> blocks[i] != []
    ensures forall i, x :: 0 <= i < |blocks| && x in blocks[i] ==> MethodIdOf(x) == MergedOrder(a, b)[i]
  {
    var order := MergedOrder(a, b);
    MergedOrderFacts(a, b);
    forall i | 0 <= i < |order| ensures order[i] in a.Methods() || order[i] in b.Methods() {
      assert order[i] in Elements(order);
    }
  }

  /**
   * Merging keeps the order of methods: the ids of `a` keep their places,
   * replaced ones included, and ids new in `b` follow in `b`'s order; each
   * method's root scopes are those of `b` if `b` has the method, else `a`'s.
   */
  lemma MergeReplacesMethods(a: RuntimeInfo, b: RuntimeInfo)
    ensures Merge(a, b).MethodOrder() == a.MethodOrder() + NewMethods(b.MethodOrder(), a.Methods())
    ensures Merge(a, b).Methods().Keys == a.Methods().Keys + b.Methods().Keys
    ensures forall m :: m in b.Methods() ==> Merge(a, b).Methods()[m] == b.Methods()[m]
    ensures forall m :: m in a.Methods() && m !in b.Methods() ==> Merge(a, b).Methods()[m] == a.Methods()[m]
  {
    var ours, theirs := a.Methods(), b.Methods();
    var order := MergedOrder(a, b);
    var blocks := seq(|order|, i requires 0 <= i < |order| => MergedScopes(order[i], ours, theirs));
    MergedOrderFacts(a, b);
    MergedBlocksFacts(a, b, blocks);
    GroupedConcat(blocks, order, MethodIdOf);
    var merged := Merge(a, b);
    assert merged.scopes == Concat(blocks);
    forall m | m in theirs ensures merged.Methods()[m] == theirs[m] {
      assert m in Elements(order);
      var i :| 0 <= i < |order| && order[i] == m;
      assert merged.Methods()[m] == Select(Concat(blocks), MethodIdOf, order[i]);
    }
    forall m | m in ours && m !in theirs ensures merged.Methods()[m] == ours[m] {
      assert m in Elements(order);
      var i :| 0 <= i < |order| && order[i] == m;
      assert merged.Methods()[m] == Select(Concat(blocks), MethodIdOf, order[i]);
    }
  }
}
