/**
 * Compose group invalidation: the agent keeps the committed runtime
 * information of every loaded class and, separately, the information of the
 * classes redefined by the reload in progress. After a successful reload the
 * pending information is merged into the committed one, and every group
 * whose invalidation key changed is invalidated, together with the parent
 * groups of its scopes.
 *
 * The two atomic references become two fields of one object; the calls to
 * the Compose runtime's `invalidateGroupsWithKey` become an append-only log
 * of the keys handed to it.
 */
module GroupInvalidation {
  import opened Wrappers
  import opened Collections
  import opened Bytecode
  import opened RuntimeInfos
  import opened AnalysisContext
  import opened ClassAnalysis
  import opened InvalidationKeys

  /** The value an atomic reference held before an update, and the one it holds after. */
  datatype Update<T> = Update(previous: T, updated: T)

  /**
   * The filter deciding whether a known group is invalidated after a reload:
   * the group must have had a key before the reload, and its key now must
   * differ from that one. Keys are the corrected ones, which see all four
   * bytes of every hash.
   */
  predicate Invalidated(previous: Option<RuntimeInfo>, updated: RuntimeInfo, group: ComposeGroupKey) {
    previous.Some? && InvalidationKey(previous.value, group).Some?
    && InvalidationKey(updated, group) != InvalidationKey(previous.value, group)
  }

  /** The known (non-null) groups among `keys` that `keep` accepts, in the order of `keys`. */
  function SelectGroups(keys: seq<Option<ComposeGroupKey>>, keep: ComposeGroupKey -> bool): (r: seq<ComposeGroupKey>)
    ensures forall g :: g in r <==> Some(g) in keys && keep(g)
    ensures Distinct(keys) ==> Distinct(r)
    decreases |keys|
  {
    if keys == [] then []
    else
      var init := SelectGroups(keys[..|keys| - 1], keep);
      assert keys == keys[..|keys| - 1] + [Last(keys)];
      if Last(keys).Some? && keep(Last(keys).value) then init + [Last(keys).value] else init
  }

  /**
   * `newRuntime.groups.filter { ... }`: exactly the known groups of the new
   * snapshot whose key changed over the reload, each once, in the order of
   * the new snapshot's groups.
   */
  function Invalidations(previous: Option<RuntimeInfo>, updated: RuntimeInfo): (r: seq<ComposeGroupKey>)
    ensures Distinct(r)
    ensures forall g :: g in r <==> Some(g) in updated.Groups() && Invalidated(previous, updated, g)
  {
    var keys := updated.GroupOrder();
    assert Elements(keys) == updated.Groups().Keys;
    SelectGroups(keys, g => Invalidated(previous, updated, g))
  }

  /** The filter as written: the same test on keys that see one low byte per hash. */
  predicate InvalidatedAsWritten(previous: Option<RuntimeInfo>, updated: RuntimeInfo, group: ComposeGroupKey) {
    previous.Some? && InvalidationKeyAsWritten(previous.value, group).Some?
    && InvalidationKeyAsWritten(updated, group) != InvalidationKeyAsWritten(previous.value, group)
  }

  /** `newRuntime.groups.filter { ... }` as written: the known groups whose as-written key changed. */
  function InvalidationsAsWritten(previous: Option<RuntimeInfo>, updated: RuntimeInfo): (r: seq<ComposeGroupKey>)
    ensures Distinct(r)
    ensures forall g :: g in r <==> Some(g) in updated.Groups() && InvalidatedAsWritten(previous, updated, g)
  {
    var keys := updated.GroupOrder();
    assert Elements(keys) == updated.Groups().Keys;
    SelectGroups(keys, g => InvalidatedAsWritten(previous, updated, g))
  }

  /** As written, a group whose as-written key is the same before and after the reload is kept. */
  lemma SameAsWrittenKeyKept(previous: RuntimeInfo, updated: RuntimeInfo, g: ComposeGroupKey)
    requires InvalidationKeyAsWritten(previous, g) == InvalidationKeyAsWritten(updated, g)
    ensures g !in InvalidationsAsWritten(Some(previous), updated)
  {
  }

  /**
   * As written, a reload that changes the only scope of a group from hash 0
   * to hash 256 does not invalidate the group, although the corrected
   * checksum input of the group changes.
   */
  lemma AsWrittenReloadKeepsChangedGroup(s: RuntimeScopeInfo, g: ComposeGroupKey)
    requires s.group == Some(g) && s.children == [] && s.dependencies == []
    ensures var before := RuntimeInfo([s.(hash := RuntimeScopeHash(0))]);
      var after := RuntimeInfo([s.(hash := RuntimeScopeHash(256))]);
      Some(g) in before.Groups() && Some(g) in after.Groups() && g !in InvalidationsAsWritten(Some(before), after)
      && ChecksumInput(KeyScopes(before, g)) != ChecksumInput(KeyScopes(after, g))
  {
    AsWrittenKeyMissesReload(s, g);
    SameAsWrittenKeyKept(RuntimeInfo([s.(hash := RuntimeScopeHash(0))]), RuntimeInfo([s.(hash := RuntimeScopeHash(256))]), g);
  }

  /** A group the previous snapshot did not know (it was added by the reload) is never invalidated. */
  lemma NewGroupsNotInvalidated(previous: RuntimeInfo, updated: RuntimeInfo, g: ComposeGroupKey)
    requires Some(g) !in previous.Groups()
    ensures g !in Invalidations(Some(previous), updated)
  {
  }

  /** With no previous snapshot, nothing is invalidated. */
  lemma FirstReloadInvalidatesNothing(updated: RuntimeInfo)
    ensures forall g :: g !in Invalidations(None, updated)
  {
  }

  /** A reload that leaves the snapshot as it was invalidates nothing. */
  lemma UnchangedSnapshotInvalidatesNothing(info: RuntimeInfo)
    ensures forall g :: g !in Invalidations(Some(info), info)
  {
  }

  /**
   * A group is only invalidated when the hashes along its dependency closure
   * changed: a group whose closure hashes as before, scope by scope, keeps
   * its key and is not invalidated.
   */
  lemma UnchangedHashesNotInvalidated(previous: RuntimeInfo, updated: RuntimeInfo, g: ComposeGroupKey)
    requires Some(g) in previous.Groups() && Some(g) in updated.Groups()
    requires HashInts(KeyScopes(previous, g)) == HashInts(KeyScopes(updated, g))
    ensures !Invalidated(Some(previous), updated, g)
  {
    KeyDependsOnlyOnHashes(previous, updated, g);
  }

  /** `newRuntime.groups[group].orEmpty()`: the scopes filed under a known group. */
  function GroupScopes(info: RuntimeInfo, g: ComposeGroupKey): (r: seq<RuntimeScopeInfo>)
    ensures forall s :: s in r ==> s.group == Some(g)
  {
    if Some(g) in info.Groups() then info.Groups()[Some(g)] else []
  }

  /**
   * `scopes.mapNotNull { it.parentGroup }.toSet()`: every parent group some
   * scope names, each once.
   */
  function ParentGroups(scopes: seq<RuntimeScopeInfo>): (r: seq<ComposeGroupKey>)
    ensures Distinct(r)
    ensures forall p :: p in r <==> exists s :: s in scopes && s.parentGroup == Some(p)
    decreases |scopes|
  {
    if scopes == [] then []
    else
      var init := ParentGroups(scopes[..|scopes| - 1]);
      var s := Last(scopes);
      assert scopes == scopes[..|scopes| - 1] + [s];
      if s.parentGroup.Some? && s.parentGroup.value !in init then init + [s.parentGroup.value] else init
  }

  /** What is handed to `invalidateGroupsWithKey` for one invalidated group: the group, then its parent groups. */
  function GroupEvents(updated: RuntimeInfo, g: ComposeGroupKey): seq<ComposeGroupKey> {
    [g] + ParentGroups(GroupScopes(updated, g))
  }

  /** What is handed to `invalidateGroupsWithKey` for a list of invalidated groups, group after group. */
  function Events(updated: RuntimeInfo, groups: seq<ComposeGroupKey>): seq<ComposeGroupKey>
    decreases |groups|
  {
    if groups == [] then [] else Events(updated, groups[..|groups| - 1]) + GroupEvents(updated, Last(groups))
  }

  /**
   * Every invalidated group is handed to `invalidateGroupsWithKey`, and every
   * other key handed to it is a parent group of a scope of one of them.
   */
  lemma {:induction false} EventsAreGroupsAndParents(updated: RuntimeInfo, groups: seq<ComposeGroupKey>)
    ensures forall g :: g in groups ==> g in Events(updated, groups)
    ensures forall e :: e in Events(updated, groups) ==>
      e in groups || exists g, s :: g in groups && s in GroupScopes(updated, g) && s.parentGroup == Some(e)
    decreases |groups|
  {
    if groups != [] {
      var init, g := groups[..|groups| - 1], Last(groups);
      assert groups == init + [g];
      EventsAreGroupsAndParents(updated, init);
      forall e | e in Events(updated, groups) && e !in groups
        ensures exists g, s :: g in groups && s in GroupScopes(updated, g) && s.parentGroup == Some(e)
      {
        if e !in Events(updated, init) {
          assert e in ParentGroups(GroupScopes(updated, g));
        }
      }
    }
  }

  lemma EventsNext(updated: RuntimeInfo, groups: seq<ComposeGroupKey>, k: nat)
    requires k < |groups|
    ensures Events(updated, groups[..k + 1]) == Events(updated, groups[..k]) + GroupEvents(updated, groups[k])
  {
    assert groups[..k + 1][..k] == groups[..k];
  }

  /**
   * The agent's state: the committed runtime information, the information of
   * classes redefined since the last reload, and the keys handed to
   * `invalidateGroupsWithKey` so far.
   */
  class GroupInvalidationAgent {
    /** How Compose's marker calls are recognized, and the hash arithmetic. */
    const recognizer: Recognizer
    const digest: Digest
    var runtimeInfo: Option<RuntimeInfo>
    var runtimeInfoRedefinitions: Option<RuntimeInfo>
    var invalidated: seq<ComposeGroupKey>

    constructor (recognizer: Recognizer, digest: Digest)
      ensures this.recognizer == recognizer && this.digest == digest
      ensures runtimeInfo == None && runtimeInfoRedefinitions == None && invalidated == []
    {
      this.recognizer := recognizer;
      this.digest := digest;
      runtimeInfo := None;
      runtimeInfoRedefinitions := None;
      invalidated := [];
    }

    /**
     * `AtomicReference.update`: replaces the committed snapshot by its merge
     * with `pending`, and reports the snapshot before and after.
     */
    method CommitRuntimeInfo(pending: RuntimeInfo) returns (u: Update<Option<RuntimeInfo>>)
      modifies this
      ensures u.previous == old(runtimeInfo) && u.updated == Some(Plus(old(runtimeInfo), Some(pending)))
      ensures runtimeInfo == u.updated
      ensures runtimeInfoRedefinitions == old(runtimeInfoRedefinitions) && invalidated == old(invalidated)
    {
      var value := runtimeInfo;
      var updated := Some(Plus(value, Some(pending)));
      runtimeInfo := updated;
      u := Update(value, updated);
    }

    /** `invalidateGroupsWithKey(group)`. */
    method InvalidateGroupsWithKey(group: ComposeGroupKey)
      modifies this
      ensures invalidated == old(invalidated) + [group]
      ensures runtimeInfo == old(runtimeInfo) && runtimeInfoRedefinitions == old(runtimeInfoRedefinitions)
    {
      invalidated := invalidated + [group];
    }

    /** Invalidates one group, then each parent group of its scopes. */
    method InvalidateGroup(group: ComposeGroupKey, scopes: seq<RuntimeScopeInfo>)
      modifies this
      ensures invalidated == old(invalidated) + ([group] + ParentGroups(scopes))
      ensures runtimeInfo == old(runtimeInfo) && runtimeInfoRedefinitions == old(runtimeInfoRedefinitions)
    {
      InvalidateGroupsWithKey(group);
      var parentInvalidations := ParentGroups(scopes);
      var k := 0;
      while k < |parentInvalidations|
        invariant 0 <= k <= |parentInvalidations|
        invariant invalidated == old(invalidated) + [group] + parentInvalidations[..k]
        invariant runtimeInfo == old(runtimeInfo) && runtimeInfoRedefinitions == old(runtimeInfoRedefinitions)
      {
        assert parentInvalidations[..k + 1] == parentInvalidations[..k] + [parentInvalidations[k]];
        InvalidateGroupsWithKey(parentInvalidations[k]);
        k := k + 1;
      }
      assert parentInvalidations[..k] == parentInvalidations;
      AppendAssociative(old(invalidated), [group], parentInvalidations);
    }

    /**
     * The action run after every reload. A failed reload changes nothing, and
     * neither does one with no pending redefinitions. Otherwise the pending
     * information is taken (and cleared), merged into the committed one, and
     * every group whose key changed is invalidated together with its parents.
     */
    method AfterReload(error: bool)
      modifies this
      ensures error || old(runtimeInfoRedefinitions).None? ==>
        runtimeInfo == old(runtimeInfo) && runtimeInfoRedefinitions == old(runtimeInfoRedefinitions) && invalidated == old(invalidated)
      ensures !error && old(runtimeInfoRedefinitions).Some? ==>
        var updated := Plus(old(runtimeInfo), old(runtimeInfoRedefinitions));
        runtimeInfoRedefinitions == None && runtimeInfo == Some(updated)
        && invalidated == old(invalidated) + Events(updated, Invalidations(old(runtimeInfo), updated))
    {
      if error {
        return;
      }
      var pending := runtimeInfoRedefinitions;
      runtimeInfoRedefinitions := None;
      if pending.None? {
        return;
      }
      var u := CommitRuntimeInfo(pending.value);
      var newRuntime := u.updated.value;
      var invalidations := Invalidations(u.previous, newRuntime);
      InvalidateAll(newRuntime, invalidations);
    }

    /** `invalidations.forEach { ... }`: invalidates each group of `groups` with its parent groups, in order. */
    method InvalidateAll(newRuntime: RuntimeInfo, groups: seq<ComposeGroupKey>)
      modifies this
      ensures invalidated == old(invalidated) + Events(newRuntime, groups)
      ensures runtimeInfo == old(runtimeInfo) && runtimeInfoRedefinitions == old(runtimeInfoRedefinitions)
    {
      var k := 0;
      while k < |groups|
        invariant 0 <= k <= |groups|
        invariant invalidated == old(invalidated) + Events(newRuntime, groups[..k])
        invariant runtimeInfo == old(runtimeInfo) && runtimeInfoRedefinitions == old(runtimeInfoRedefinitions)
      {
        EventsNext(newRuntime, groups, k);
        AppendAssociative(old(invalidated), Events(newRuntime, groups[..k]), GroupEvents(newRuntime, groups[k]));
        InvalidateGroup(groups[k], GroupScopes(newRuntime, groups[k]));
        k := k + 1;
      }
      assert groups[..k] == groups;
    }

    /**
     * `ComposeGroupInvalidationKeyTransformer.transform`: the class file is
     * handed back unchanged. `parsed` is the class the reader decoded, or
     * `None` when decoding threw. A class that could not be decoded or is
     * excluded from analysis leaves the state as it was; otherwise its
     * information is merged into the committed snapshot on a first load and
     * into the pending redefinitions on a redefinition.
     */
    method Transform(classBeingRedefined: bool, classfileBuffer: seq<Byte>, parsed: Option<ClassNode>) returns (r: seq<Byte>)
      modifies this
      ensures r == classfileBuffer
      ensures invalidated == old(invalidated)
      ensures parsed.None? || ExcludedClass(parsed.value.name) ==>
        runtimeInfo == old(runtimeInfo) && runtimeInfoRedefinitions == old(runtimeInfoRedefinitions)
      ensures parsed.Some? && !ExcludedClass(parsed.value.name) ==>
        var classInfo := ClassInfo(parsed.value, recognizer, digest);
        if classBeingRedefined then
          runtimeInfo == old(runtimeInfo) && runtimeInfoRedefinitions == Some(Plus(old(runtimeInfoRedefinitions), classInfo))
        else
          runtimeInfoRedefinitions == old(runtimeInfoRedefinitions) && runtimeInfo == Some(Plus(old(runtimeInfo), classInfo))
    {
      if parsed.None? {
        return classfileBuffer;
      }
      var classInfo := AnalyzeClass(parsed.value, recognizer, digest);
      if classInfo.None? {
        return classfileBuffer;
      }
      if !classBeingRedefined {
        runtimeInfo := Some(Plus(runtimeInfo, classInfo));
      } else {
        runtimeInfoRedefinitions := Some(Plus(runtimeInfoRedefinitions, classInfo));
      }
      return classfileBuffer;
    }
  }
}
