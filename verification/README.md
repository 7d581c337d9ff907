# Compose hot reload: group invalidation analysis, in Dafny

This project models the part of the Compose hot reload agent that decides
which Compose groups must be invalidated after a class reload, and proves
properties of that model.

- **Scope analysis** (`ClassAnalysis`, `AnalysisContext`): every method of a
  loaded class is walked instruction by instruction. A stack of open scopes
  is kept while walking. The method body is the root scope. The Compose
  marker calls open and close group scopes. Each scope records the hash input
  of its instructions, the methods it depends on, its own group key and the
  group key of the scope around it (its parent group). Classes in platform
  namespaces are skipped.
- **Scope hashing** (`RuntimeScopeHasher`): the opcode and selected operands
  of each instruction are pushed into the current scope's hash input. Line
  numbers, local-variable slots of `IINC`, jump targets and type operands are
  not pushed.
- **Dependencies** (`DependencyAnalyzer`): a static call outside the platform
  namespaces, or a lambda created through `LambdaMetafactory.metafactory`,
  records a dependency on the target method.
- **Runtime information** (`RuntimeInfos`): a snapshot is a list of root
  scopes. It has two derived indices: `methods` (method id to root scopes)
  and `groups` (group key to every scope at any depth carrying it). `plus`
  merges a batch of redefined classes into a snapshot. A method of the batch
  replaces the snapshot's method and keeps its position.
- **Invalidation keys** (`InvalidationKeys`): the key of a group is the
  CRC-32 of the hashes of the group's scopes and of every scope reachable
  from them through dependencies.
- **Group invalidation** (`GroupInvalidation`): the agent holds two cells.
  One is the committed snapshot; the other is the pending redefinitions.
  After a successful reload the pending information is merged in. Every
  known group whose key changed is then handed to `invalidateGroupsWithKey`,
  followed by the parent groups of its scopes.

Kotlin's `groupBy` (insertion-ordered keys) is modelled by `KeysInOrder`,
`Select` and `GroupBy`. `withClosure` is modelled by a work-list closure.
`CRC32` is modelled bit by bit with the reflected polynomial `0xEDB88320`.

Behaviours of the code the model keeps as they are:

- The key of a group is an order-sensitive CRC-32 over the closure, in walk
  order. It is not an order-independent combination of hashes.
- A group the previous snapshot did not know is not invalidated:
  `resolveInvalidationKey` returns `null` for the previous snapshot, so the
  filter answers `false`.
- Scopes without a group are filed in `groups` under the `null` key (`None`).
- The dependency closure follows a dependency to the root scopes of the
  called method (`methods[methodId]`) and not to their children. A scope
  already reached is not added again; there is no separate guard on visited
  methods.
- Parent groups are deduplicated within one invalidated group only. A parent
  shared by two invalidated groups is handed to `invalidateGroupsWithKey`
  once for each of them.
- A scope's hash covers only the instructions met while that scope was the
  innermost open scope (see "## Left out").

The key computation as written feeds one byte per scope to the CRC-32 (see
"## Findings"). The model states both the key as written and a corrected key
that sees all four bytes of every hash. The agent's invalidation decision is
built on the corrected key.

## Model

| member | source | states |
|---|---|---|
| Collections.KeysInOrder | hot-reload-agent/src/main/kotlin/org/jetbrains/compose/reload/agent/analysis/RuntimeInfo.kt:23 | the key order of `groupBy` holds each key once, and exactly the keys of some element |
| Collections.Select | hot-reload-agent/src/main/kotlin/org/jetbrains/compose/reload/agent/analysis/RuntimeInfo.kt:23 | one group of `groupBy` holds exactly the elements with that key, and is no longer than the list |
| Collections.GroupBy | hot-reload-agent/src/main/kotlin/org/jetbrains/compose/reload/agent/analysis/RuntimeInfo.kt:23 | the map's keys are the keys that occur; every element is filed under its key; every group is non-empty and holds only elements with its key |
| Collections.ConcatMembership | hot-reload-agent/src/main/kotlin/org/jetbrains/compose/reload/agent/analysis/RuntimeInfo.kt:107 | an element is in `flatten()` iff it is in one of the blocks |
| Collections.SelectAppend | hot-reload-agent/src/main/kotlin/org/jetbrains/compose/reload/agent/analysis/RuntimeInfo.kt:23 | grouping keeps the original order: a group of `xs + ys` is the group of `xs` followed by the group of `ys` |
| Collections.GroupedConcat | hot-reload-agent/src/main/kotlin/org/jetbrains/compose/reload/agent/analysis/RuntimeInfo.kt:106-107 | grouping flattened single-key blocks by key gives back the key order and each block unchanged |
| Closures.Closure | hot-reload-agent/src/main/kotlin/org/jetbrains/compose/reload/agent/analysis/RuntimeScopeInvalidationKey.kt:13-15 | the closure holds the start elements, is closed under the edges, stays in any closed bounding set and holds no element twice |
| Closures.ClosureLeast | hot-reload-agent/src/main/kotlin/org/jetbrains/compose/reload/agent/analysis/RuntimeScopeInvalidationKey.kt:13-15 | the closure lies inside every edge-closed set holding the start: it is the least closed superset |
| Closures.ClosureAgree | hot-reload-agent/src/main/kotlin/org/jetbrains/compose/reload/agent/analysis/RuntimeScopeInvalidationKey.kt:13-15 | two edge functions that agree on a closed set holding the start give the same closure, in the same order |
| RuntimeInfos.RuntimeInfo.ScopeClosure | hot-reload-agent/src/main/kotlin/org/jetbrains/compose/reload/agent/analysis/RuntimeInfo.kt:30 | the closure of the root scopes under `children` holds exactly the scopes at any depth |
| RuntimeInfos.MethodsIndex | hot-reload-agent/src/main/kotlin/org/jetbrains/compose/reload/agent/analysis/RuntimeInfo.kt:23 | `methods` has exactly the method ids of the root scopes; every root scope is filed under its own method id and nothing else is filed; each entry is the root scopes of that method in order |
| RuntimeInfos.GroupsIndexComplete | hot-reload-agent/src/main/kotlin/org/jetbrains/compose/reload/agent/analysis/RuntimeInfo.kt:29-31 | every scope at any depth is filed in `groups` under its own group key (`None` for no group) |
| RuntimeInfos.GroupsIndexSound | hot-reload-agent/src/main/kotlin/org/jetbrains/compose/reload/agent/analysis/RuntimeInfo.kt:29-31 | `groups` files only scopes of the snapshot, under their own key; every entry is non-empty and duplicate-free |
| RuntimeInfos.NewMethods | hot-reload-agent/src/main/kotlin/org/jetbrains/compose/reload/agent/analysis/RuntimeInfo.kt:106 | the methods a map union appends are exactly the incoming ones the snapshot lacks, each once |
| RuntimeInfos.MergedOrderFacts | hot-reload-agent/src/main/kotlin/org/jetbrains/compose/reload/agent/analysis/RuntimeInfo.kt:106 | the key order of `this.methods + other.methods` lists every method of either side exactly once |
| RuntimeInfos.MergeReplacesMethods | hot-reload-agent/src/main/kotlin/org/jetbrains/compose/reload/agent/analysis/RuntimeInfo.kt:106-108 | the merged snapshot's method order is the old order followed by the new methods; its methods are the union; an incoming method replaces the snapshot's; a method only the snapshot has is kept unchanged |
| RuntimeInfos.Plus | hot-reload-agent/src/main/kotlin/org/jetbrains/compose/reload/agent/analysis/RuntimeInfo.kt:103-105 | a missing left side gives the right side, or the empty snapshot; a missing right side gives the left side |
| RuntimeInfos.PlusReplacesMethods | hot-reload-agent/src/main/kotlin/org/jetbrains/compose/reload/agent/analysis/RuntimeInfo.kt:103-108 | for any mix of missing and present sides, the result's methods are the union, the right side's methods win, and methods only on the left are kept |
| AnalysisContext.WithTokens | hot-reload-agent/src/main/kotlin/org/jetbrains/compose/reload/agent/analysis/RuntimeScopeHasher.kt:11-12 | pushing a hash token changes only the current (top) scope, and only its hash input, by appending |
| AnalysisContext.WithTokensTwice | hot-reload-agent/src/main/kotlin/org/jetbrains/compose/reload/agent/analysis/RuntimeScopeHasher.kt:12-52 | pushing two batches of tokens one after the other is pushing their concatenation |
| AnalysisContext.WithDependency | hot-reload-agent/src/main/kotlin/org/jetbrains/compose/reload/agent/analysis/RuntimeScopeMethodDependencyAnalyzer.kt:24-30 | attaching a dependency changes only the current scope, and only by appending to its dependencies |
| AnalysisContext.EndScopesRoot | hot-reload-agent/src/main/kotlin/org/jetbrains/compose/reload/agent/analysis/RuntimeInfo.kt:97 | `end()` yields a scope iff the analysis was not aborted, and that scope is the root: the root's kind and groups, for this method |
| AnalysisContext.MethodAnalysisContext.constructor | hot-reload-agent/src/main/kotlin/org/jetbrains/compose/reload/agent/analysis/RuntimeInfo.kt:83 | a new context holds only the root scope of the method, with no group |
| AnalysisContext.MethodAnalysisContext.PushHash | hot-reload-agent/src/main/kotlin/org/jetbrains/compose/reload/agent/analysis/RuntimeScopeHasher.kt:12 | the current scope's hash input gains the token |
| AnalysisContext.MethodAnalysisContext.AttachDependency | hot-reload-agent/src/main/kotlin/org/jetbrains/compose/reload/agent/analysis/RuntimeScopeMethodDependencyAnalyzer.kt:24-30 | the current scope's dependencies gain the method id |
| AnalysisContext.MethodAnalysisContext.PushFunctionKeyAnnotation | hot-reload-agent/src/main/kotlin/org/jetbrains/compose/reload/agent/analysis/RuntimeInfo.kt:89-91 | the root scope's group becomes the function key; nothing else changes |
| AnalysisContext.MethodAnalysisContext.Mark | hot-reload-agent/src/main/kotlin/org/jetbrains/compose/reload/agent/analysis/RuntimeInfo.kt:93-95 | a marker action pushes, pops or aborts the scope stack as the stack discipline prescribes |
| AnalysisContext.MethodAnalysisContext.End | hot-reload-agent/src/main/kotlin/org/jetbrains/compose/reload/agent/analysis/RuntimeInfo.kt:97 | the method form of `EndScopes` on the context's stack; what it yields is stated by `AnalysisContext.EndScopesRoot` |
| RuntimeScopeHasher.ConstantTokensInjective | hot-reload-agent/src/main/kotlin/org/jetbrains/compose/reload/agent/analysis/RuntimeScopeHasher.kt:33 | two bootstrap argument lists feed the same tokens iff they are the same list |
| RuntimeScopeHasher.HashTokens | hot-reload-agent/src/main/kotlin/org/jetbrains/compose/reload/agent/analysis/RuntimeScopeHasher.kt:12 | every instruction first pushes its opcode |
| RuntimeScopeHasher.StreamTokensAppend | hot-reload-agent/src/main/kotlin/org/jetbrains/compose/reload/agent/analysis/RuntimeInfo.kt:93-95 | the hash input of a list of instructions is that of its parts in order: it depends on order, not on positions |
| RuntimeScopeHasher.StreamTokensPrefix | hot-reload-agent/src/main/kotlin/org/jetbrains/compose/reload/agent/analysis/RuntimeInfo.kt:93-95 | each further instruction extends the hash input by its own tokens |
| RuntimeScopeHasher.OperandsNotHashed | hot-reload-agent/src/main/kotlin/org/jetbrains/compose/reload/agent/analysis/RuntimeScopeHasher.kt:12-53 | line numbers, jump targets, type operands and `IINC` operands do not reach the hash: only the opcode is pushed |
| RuntimeScopeHasher.LabelIdentityHashed | hot-reload-agent/src/main/kotlin/org/jetbrains/compose/reload/agent/analysis/RuntimeScopeHasher.kt:50-52 | two labels hash alike iff they are the same label object |
| RuntimeScopeHasher.MethodCallHashed | hot-reload-agent/src/main/kotlin/org/jetbrains/compose/reload/agent/analysis/RuntimeScopeHasher.kt:15-20 | two method calls push the same tokens iff they are the same call (opcode, owner, name, descriptor, interface flag) |
| RuntimeScopeHasher.InvokeDynamicArgumentsHashed | hot-reload-agent/src/main/kotlin/org/jetbrains/compose/reload/agent/analysis/RuntimeScopeHasher.kt:26-34 | a dynamic call pushes seven tokens, then its bootstrap arguments in order |
| RuntimeScopeHasher.InvokeDynamicHashed | hot-reload-agent/src/main/kotlin/org/jetbrains/compose/reload/agent/analysis/RuntimeScopeHasher.kt:26-34 | two dynamic call sites hash alike iff their name, descriptor, bootstrap name, owner, tag, descriptor and bootstrap arguments agree; the bootstrap handle's interface flag is not fed |
| RuntimeScopeHasher.FieldAccessHashed | hot-reload-agent/src/main/kotlin/org/jetbrains/compose/reload/agent/analysis/RuntimeScopeHasher.kt:36-40 | two field accesses hash alike iff they are the same access (opcode, owner, name, descriptor) |
| RuntimeScopeHasher.ConstantLoadHashed | hot-reload-agent/src/main/kotlin/org/jetbrains/compose/reload/agent/analysis/RuntimeScopeHasher.kt:22-24 | two `ldc` instructions hash alike iff they load the same constant |
| RuntimeScopeHasher.OperandHashed | hot-reload-agent/src/main/kotlin/org/jetbrains/compose/reload/agent/analysis/RuntimeScopeHasher.kt:42-48 | two int-operand instructions, or two local-variable instructions, hash alike iff they are the same instruction |
| RuntimeScopeHasher.Analyze | hot-reload-agent/src/main/kotlin/org/jetbrains/compose/reload/agent/analysis/RuntimeScopeHasher.kt:7-54 | the successive `pushHash` calls leave the current scope's hash input extended by exactly the instruction's tokens, or change nothing without a current scope |
| RuntimeScopeHasher.PushAll | hot-reload-agent/src/main/kotlin/org/jetbrains/compose/reload/agent/analysis/RuntimeScopeHasher.kt:33 | pushing tokens one by one appends them all, in order |
| DependencyAnalyzer.Dependency | hot-reload-agent/src/main/kotlin/org/jetbrains/compose/reload/agent/analysis/RuntimeScopeMethodDependencyAnalyzer.kt:18-44 | only method calls and dynamic calls can record a dependency |
| DependencyAnalyzer.StaticCallDependency | hot-reload-agent/src/main/kotlin/org/jetbrains/compose/reload/agent/analysis/RuntimeScopeMethodDependencyAnalyzer.kt:18-30 | a call records a dependency iff it is `INVOKESTATIC` with an owner outside the four platform prefixes, and then on exactly the called method |
| DependencyAnalyzer.NonStaticCallsIgnored | hot-reload-agent/src/main/kotlin/org/jetbrains/compose/reload/agent/analysis/RuntimeScopeMethodDependencyAnalyzer.kt:18 | virtual, special and interface calls never record a dependency |
| DependencyAnalyzer.PrefixFilterIsLiteral | hot-reload-agent/src/main/kotlin/org/jetbrains/compose/reload/agent/analysis/RuntimeScopeMethodDependencyAnalyzer.kt:19-22 | the filter is on literal prefixes: static calls into `kotlinx/` and `androidx/lifecycle/` are recorded |
| DependencyAnalyzer.LambdaDependency | hot-reload-agent/src/main/kotlin/org/jetbrains/compose/reload/agent/analysis/RuntimeScopeMethodDependencyAnalyzer.kt:33-44 | a dynamic call records a dependency iff it is bootstrapped by `LambdaMetafactory.metafactory` and its second bootstrap argument is a handle, and then on the handle's method |
| DependencyAnalyzer.Analyze | hot-reload-agent/src/main/kotlin/org/jetbrains/compose/reload/agent/analysis/RuntimeScopeMethodDependencyAnalyzer.kt:13-46 | the current scope gains the instruction's dependency, if any; nothing else changes |
| ClassAnalysis.FindFunctionKeyMeta | hot-reload-agent/src/main/kotlin/org/jetbrains/compose/reload/agent/analysis/RuntimeInfo.kt:85-86 | finds the first `FunctionKeyMeta` annotation, or reports that there is none |
| ClassAnalysis.FindKeyName | hot-reload-agent/src/main/kotlin/org/jetbrains/compose/reload/agent/analysis/RuntimeInfo.kt:87 | finds the first `"key"` that has a successor value, or reports that there is none |
| ClassAnalysis.FunctionKey | hot-reload-agent/src/main/kotlin/org/jetbrains/compose/reload/agent/analysis/RuntimeInfo.kt:85-87 | a method has a function key iff its first `FunctionKeyMeta` annotation has a `"key"` followed by an `Int` |
| ClassAnalysis.FunctionKeyOfAnnotation | hot-reload-agent/src/main/kotlin/org/jetbrains/compose/reload/agent/analysis/RuntimeInfo.kt:85-91 | a method annotated `@FunctionKeyMeta(key = k)` has function key `k` |
| ClassAnalysis.InitialStack | hot-reload-agent/src/main/kotlin/org/jetbrains/compose/reload/agent/analysis/RuntimeInfo.kt:83-91 | the walk starts with one root scope of kind `Method` whose group is the function key |
| ClassAnalysis.RunInstructions | hot-reload-agent/src/main/kotlin/org/jetbrains/compose/reload/agent/analysis/RuntimeInfo.kt:93-95 | the instruction walk never changes the root scope's kind or groups, and never revives an aborted walk |
| ClassAnalysis.StepKeepsRoot | hot-reload-agent/src/main/kotlin/org/jetbrains/compose/reload/agent/analysis/RuntimeInfo.kt:94 | one analysed instruction keeps the root's kind and groups |
| ClassAnalysis.MethodScopeIsRoot | hot-reload-agent/src/main/kotlin/org/jetbrains/compose/reload/agent/analysis/RuntimeInfo.kt:82-98 | the scope of a method is its root: kind `Method`, the method's id, the function key as group, no parent group |
| ClassAnalysis.UnmarkedRunFeedsRoot | hot-reload-agent/src/main/kotlin/org/jetbrains/compose/reload/agent/analysis/RuntimeInfo.kt:93-95 | without markers, the root stays the only open scope and receives the tokens of every instruction in order |
| ClassAnalysis.AnalyzeInstruction | hot-reload-agent/src/main/kotlin/org/jetbrains/compose/reload/agent/analysis/RuntimeInfo.kt:94 | one instruction is hashed, its dependency recorded and its marker applied, in that order |
| ClassAnalysis.NewContext | hot-reload-agent/src/main/kotlin/org/jetbrains/compose/reload/agent/analysis/RuntimeInfo.kt:83-91 | the fresh context holds the initial root scope with the function key |
| ClassAnalysis.AnalyzeInstructions | hot-reload-agent/src/main/kotlin/org/jetbrains/compose/reload/agent/analysis/RuntimeInfo.kt:93-95 | the loop over the instructions leaves the context's stack as the specified walk does |
| ClassAnalysis.AnalyzeMethod | hot-reload-agent/src/main/kotlin/org/jetbrains/compose/reload/agent/analysis/RuntimeInfo.kt:82-98 | the method's analysis yields its specified root scope, or nothing |
| ClassAnalysis.ScopesOf | hot-reload-agent/src/main/kotlin/org/jetbrains/compose/reload/agent/analysis/RuntimeInfo.kt:79 | `mapNotNull` yields at most one scope per method |
| ClassAnalysis.ScopesOfMethods | hot-reload-agent/src/main/kotlin/org/jetbrains/compose/reload/agent/analysis/RuntimeInfo.kt:79 | every scope the class contributes is the scope of one of its methods |
| ClassAnalysis.ScopesOfPrefix | hot-reload-agent/src/main/kotlin/org/jetbrains/compose/reload/agent/analysis/RuntimeInfo.kt:79 | one more method appends its scope, if any: the scopes follow method order |
| ClassAnalysis.ClassInfo | hot-reload-agent/src/main/kotlin/org/jetbrains/compose/reload/agent/analysis/RuntimeInfo.kt:70-80 | a class yields nothing iff its name starts with one of the seven excluded prefixes; otherwise at most one root scope per method |
| ClassAnalysis.ClassScopesAreRoots | hot-reload-agent/src/main/kotlin/org/jetbrains/compose/reload/agent/analysis/RuntimeInfo.kt:79-97 | every root scope of a class belongs to one of its methods, is of kind `Method`, carries that method's function key and has no parent group |
| ClassAnalysis.AnalyzeClass | hot-reload-agent/src/main/kotlin/org/jetbrains/compose/reload/agent/analysis/RuntimeInfo.kt:70-80 | the class analysis yields the specified class information |
| ClassAnalysis.AnalyzeMethods | hot-reload-agent/src/main/kotlin/org/jetbrains/compose/reload/agent/analysis/RuntimeInfo.kt:79 | the loop over the methods collects the specified scopes |
| ClassAnalysis.AddMethodScope | hot-reload-agent/src/main/kotlin/org/jetbrains/compose/reload/agent/analysis/RuntimeInfo.kt:79 | one round of `mapNotNull` extends the scopes of the first `i` methods to those of the first `i + 1` |
| InvalidationKeys.CrcValue | hot-reload-agent/src/main/kotlin/org/jetbrains/compose/reload/agent/analysis/RuntimeScopeInvalidationKey.kt:21 | `crc.value` is an unsigned 32-bit value |
| InvalidationKeys.CrcFeedAppend | hot-reload-agent/src/main/kotlin/org/jetbrains/compose/reload/agent/analysis/RuntimeScopeInvalidationKey.kt:17-19 | feeding two byte runs one after the other is feeding their concatenation |
| InvalidationKeys.ToInt | hot-reload-agent/src/main/kotlin/org/jetbrains/compose/reload/agent/analysis/RuntimeScopeInvalidationKey.kt:18 | `toInt()` keeps the value modulo 2^32 |
| InvalidationKeys.LowByte | hot-reload-agent/src/main/kotlin/org/jetbrains/compose/reload/agent/analysis/RuntimeScopeInvalidationKey.kt:18 | `CRC32.update(int)` consumes the argument modulo 256 |
| InvalidationKeys.IntBytes | hot-reload-agent/src/main/kotlin/org/jetbrains/compose/reload/agent/analysis/RuntimeScopeInvalidationKey.kt:18 | the four big-endian bytes of an `Int` spell its value modulo 2^32 |
| InvalidationKeys.IntBytesInjective | hot-reload-agent/src/main/kotlin/org/jetbrains/compose/reload/agent/analysis/RuntimeScopeInvalidationKey.kt:18 | two `Int`s have the same bytes iff they are equal |
| InvalidationKeys.DependencyTargets | hot-reload-agent/src/main/kotlin/org/jetbrains/compose/reload/agent/analysis/RuntimeScopeInvalidationKey.kt:14 | the flat-mapped targets are exactly the root scopes of the dependencies the snapshot knows |
| InvalidationKeys.UnknownDependencyIsLeaf | hot-reload-agent/src/main/kotlin/org/jetbrains/compose/reload/agent/analysis/RuntimeScopeInvalidationKey.kt:14 | a dependency on an unknown method adds nothing (`?: emptyList()`) |
| InvalidationKeys.DependencyTargetsAgree | hot-reload-agent/src/main/kotlin/org/jetbrains/compose/reload/agent/analysis/RuntimeScopeInvalidationKey.kt:14 | dependencies that resolve alike in two method maps lead to the same scopes |
| InvalidationKeys.UniverseClosed | hot-reload-agent/src/main/kotlin/org/jetbrains/compose/reload/agent/analysis/RuntimeScopeInvalidationKey.kt:13-15 | the start scopes together with all root scopes of the snapshot cannot be left through a dependency |
| InvalidationKeys.DependencyClosure | hot-reload-agent/src/main/kotlin/org/jetbrains/compose/reload/agent/analysis/RuntimeScopeInvalidationKey.kt:13-15 | the closure holds the group's scopes, every root scope of every known dependency of its members, nothing beyond the start and the snapshot's root scopes, and each scope once |
| InvalidationKeys.DependencyClosureLeast | hot-reload-agent/src/main/kotlin/org/jetbrains/compose/reload/agent/analysis/RuntimeScopeInvalidationKey.kt:13-15 | the closure lies inside every dependency-closed set holding the start |
| InvalidationKeys.DependencyClosureAgree | hot-reload-agent/src/main/kotlin/org/jetbrains/compose/reload/agent/analysis/RuntimeScopeInvalidationKey.kt:13-15 | two snapshots whose methods resolve alike along the closure give the same closure |
| InvalidationKeys.ChecksumInputAsWritten | hot-reload-agent/src/main/kotlin/org/jetbrains/compose/reload/agent/analysis/RuntimeScopeInvalidationKey.kt:17-19 | the code feeds one byte per scope |
| InvalidationKeys.IntsBytesInjective | hot-reload-agent/src/main/kotlin/org/jetbrains/compose/reload/agent/analysis/RuntimeScopeInvalidationKey.kt:17-19 | the bytes of a list of `Int`s determine the list |
| InvalidationKeys.ChecksumInput | hot-reload-agent/src/main/kotlin/org/jetbrains/compose/reload/agent/analysis/RuntimeScopeInvalidationKey.kt:17-19 | the corrected checksum input holds four bytes per scope |
| InvalidationKeys.ChecksumInputInjective | hot-reload-agent/src/main/kotlin/org/jetbrains/compose/reload/agent/analysis/RuntimeScopeInvalidationKey.kt:17-19 | two closures give the same checksum input iff their hashes agree scope by scope |
| InvalidationKeys.InvalidationKeyAsWritten | hot-reload-agent/src/main/kotlin/org/jetbrains/compose/reload/agent/analysis/RuntimeScopeInvalidationKey.kt:9-21 | as written, the key exists iff the group is known |
| InvalidationKeys.ClosureKey | hot-reload-agent/src/main/kotlin/org/jetbrains/compose/reload/agent/analysis/RuntimeScopeInvalidationKey.kt:17-21 | the key of a closure is an unsigned 32-bit value |
| InvalidationKeys.InvalidationKey | hot-reload-agent/src/main/kotlin/org/jetbrains/compose/reload/agent/analysis/RuntimeScopeInvalidationKey.kt:9-21 | the key exists iff the group is known (`groups[groupKey] ?: return null`) |
| InvalidationKeys.KeyDependsOnlyOnHashes | hot-reload-agent/src/main/kotlin/org/jetbrains/compose/reload/agent/analysis/RuntimeScopeInvalidationKey.kt:13-21 | two snapshots whose closures of a group hash alike, scope by scope, give the group the same key |
| InvalidationKeys.AsWrittenKeyMissesHashChange | hot-reload-agent/src/main/kotlin/org/jetbrains/compose/reload/agent/analysis/RuntimeScopeInvalidationKey.kt:18 | as written, hashes 0 and 256 feed the same byte; the corrected input tells them apart |
| InvalidationKeys.ResolveInvalidationKey | hot-reload-agent/src/main/kotlin/org/jetbrains/compose/reload/agent/analysis/RuntimeScopeInvalidationKey.kt:9-21 | `resolveInvalidationKey` computes the specified key, or nothing for an unknown group |
| InvalidationKeys.Checksum | hot-reload-agent/src/main/kotlin/org/jetbrains/compose/reload/agent/analysis/RuntimeScopeInvalidationKey.kt:17-19 | the `forEach` over the closure leaves the accumulator at the CRC-32 of the whole checksum input |
| InvalidationKeys.ChecksumInputNext | hot-reload-agent/src/main/kotlin/org/jetbrains/compose/reload/agent/analysis/RuntimeScopeInvalidationKey.kt:17-19 | each further scope extends the checksum input by the four bytes of its hash |
| InvalidationKeys.ResolveInvalidationKeyAsWritten | hot-reload-agent/src/main/kotlin/org/jetbrains/compose/reload/agent/analysis/RuntimeScopeInvalidationKey.kt:9-21 | `resolveInvalidationKey` as written computes the as-written key, or nothing for an unknown group |
| InvalidationKeys.ChecksumAsWritten | hot-reload-agent/src/main/kotlin/org/jetbrains/compose/reload/agent/analysis/RuntimeScopeInvalidationKey.kt:17-19 | the `forEach` as written leaves the accumulator at the CRC-32 of one low byte per scope |
| InvalidationKeys.SingleScopeKeyScopes | hot-reload-agent/src/main/kotlin/org/jetbrains/compose/reload/agent/analysis/RuntimeScopeInvalidationKey.kt:11-15 | in a snapshot of one childless scope without dependencies, the key of its group is computed from that scope alone |
| InvalidationKeys.AsWrittenKeyMissesReload | hot-reload-agent/src/main/kotlin/org/jetbrains/compose/reload/agent/analysis/RuntimeScopeInvalidationKey.kt:18 | such a snapshot with hash 0 and with hash 256 gets the same key as written, but different corrected checksum inputs |
| GroupInvalidation.SelectGroups | hot-reload-agent/src/main/kotlin/org/jetbrains/compose/reload/agent/composeGroupInvalidation.kt:32-33 | the filter keeps exactly the non-null accepted groups, each once when the keys are distinct |
| GroupInvalidation.Invalidations | hot-reload-agent/src/main/kotlin/org/jetbrains/compose/reload/agent/composeGroupInvalidation.kt:32-37 | a group is invalidated iff it is known to the new snapshot, it had a key before the reload and its key changed; each group is listed once |
| GroupInvalidation.InvalidationsAsWritten | hot-reload-agent/src/main/kotlin/org/jetbrains/compose/reload/agent/composeGroupInvalidation.kt:32-37 | as written, a group is invalidated iff it is known to the new snapshot, it had an as-written key before and that key changed; each group once |
| GroupInvalidation.SameAsWrittenKeyKept | hot-reload-agent/src/main/kotlin/org/jetbrains/compose/reload/agent/composeGroupInvalidation.kt:34-36 | as written, a group whose as-written key is unchanged is kept |
| GroupInvalidation.AsWrittenReloadKeepsChangedGroup | hot-reload-agent/src/main/kotlin/org/jetbrains/compose/reload/agent/composeGroupInvalidation.kt:32-37 | as written, a reload that changes a group's only scope from hash 0 to hash 256 does not invalidate the group, although its corrected checksum input changes |
| GroupInvalidation.NewGroupsNotInvalidated | hot-reload-agent/src/main/kotlin/org/jetbrains/compose/reload/agent/composeGroupInvalidation.kt:34 | a group the previous snapshot did not know is never invalidated |
| GroupInvalidation.FirstReloadInvalidatesNothing | hot-reload-agent/src/main/kotlin/org/jetbrains/compose/reload/agent/composeGroupInvalidation.kt:34 | without a previous snapshot nothing is invalidated |
| GroupInvalidation.UnchangedSnapshotInvalidatesNothing | hot-reload-agent/src/main/kotlin/org/jetbrains/compose/reload/agent/composeGroupInvalidation.kt:32-37 | a reload that leaves the snapshot as it was invalidates nothing |
| GroupInvalidation.UnchangedHashesNotInvalidated | hot-reload-agent/src/main/kotlin/org/jetbrains/compose/reload/agent/composeGroupInvalidation.kt:34-36 | a group whose closure hashes alike before and after the reload is not invalidated |
| GroupInvalidation.GroupScopes | hot-reload-agent/src/main/kotlin/org/jetbrains/compose/reload/agent/composeGroupInvalidation.kt:43 | the scopes filed under a group carry that group |
| GroupInvalidation.ParentGroups | hot-reload-agent/src/main/kotlin/org/jetbrains/compose/reload/agent/composeGroupInvalidation.kt:60 | the parent groups are exactly the non-null parent groups of the scopes, each once |
| GroupInvalidation.EventsAreGroupsAndParents | hot-reload-agent/src/main/kotlin/org/jetbrains/compose/reload/agent/composeGroupInvalidation.kt:43-66 | every invalidated group is handed to the runtime, and every key handed over is an invalidated group or a parent group of one of its scopes |
| GroupInvalidation.EventsNext | hot-reload-agent/src/main/kotlin/org/jetbrains/compose/reload/agent/composeGroupInvalidation.kt:43-66 | one more invalidated group appends that group and then its parents |
| GroupInvalidation.GroupInvalidationAgent.constructor | hot-reload-agent/src/main/kotlin/org/jetbrains/compose/reload/agent/composeGroupInvalidation.kt:14-16 | both cells start empty and nothing has been invalidated |
| GroupInvalidation.GroupInvalidationAgent.CommitRuntimeInfo | hot-reload-agent/src/main/kotlin/org/jetbrains/compose/reload/agent/analysis/utils.kt:7-14 | the update replaces the committed snapshot by its merge with the pending one and returns the value before and after |
| GroupInvalidation.GroupInvalidationAgent.InvalidateGroupsWithKey | hot-reload-agent/src/main/kotlin/org/jetbrains/compose/reload/agent/composeGroupInvalidation.kt:53 | the group is handed to the runtime; the snapshots are unchanged |
| GroupInvalidation.GroupInvalidationAgent.InvalidateGroup | hot-reload-agent/src/main/kotlin/org/jetbrains/compose/reload/agent/composeGroupInvalidation.kt:53-66 | the group, then each of its parent groups once, is handed to the runtime |
| GroupInvalidation.GroupInvalidationAgent.InvalidateAll | hot-reload-agent/src/main/kotlin/org/jetbrains/compose/reload/agent/composeGroupInvalidation.kt:43-67 | each invalidated group with its parents is handed over, group after group |
| GroupInvalidation.GroupInvalidationAgent.AfterReload | hot-reload-agent/src/main/kotlin/org/jetbrains/compose/reload/agent/composeGroupInvalidation.kt:23-67 | a failed reload, or one without pending redefinitions, changes nothing; otherwise the pending cell is cleared, the merge is committed and exactly the invalidated groups and their parents are handed over |
| GroupInvalidation.GroupInvalidationAgent.Transform | hot-reload-agent/src/main/kotlin/org/jetbrains/compose/reload/agent/composeGroupInvalidation.kt:81-103 | the class file is returned unchanged; an undecodable or excluded class changes nothing; otherwise its information is merged into the committed snapshot on first load and into the pending one on redefinition |

## Left out

- Class file decoding (ASM's `ClassReader`): `Transform` takes the decoded class, or `None` when decoding threw, as a parameter.
- The arithmetic inside `pushHash`: a scope's hash is a `Digest` parameter applied to the scope's whole token input. `RuntimeScopeHash` and `RuntimeMethodAnalysisContext` are not part of this model.
- A scope's hash input: `AnalysisContext.WithTokens` feeds only the current, innermost scope, and `AnalysisContext.CloseScope` digests only that scope's own tokens. Whether the unseen scope implementation folds the hashes of nested groups into the enclosing scope's hash is not part of this model. So in the model an edit inside a nested group of a dependency method leaves that method's root hash, and the key of a group depending on it, unchanged.
- Recognition of the Compose marker calls (`RuntimeInstructionAnalyzer` and the marker analyzer are not part of this model): a `Recognizer` parameter says what each instruction does to the scope stack. The stack discipline is modelled: entering pushes a scope whose parent group is the group of the scope below; leaving pops the current scope into the children of the scope below; a shape the recognizer cannot interpret aborts the method, and `end()` then yields nothing.
- The order of the analyzers for one instruction is taken as hasher, then dependency analyzer, then markers.
- `RuntimeScopeHasher.Analyze` takes the two-argument shape of the other analyzers; the extra `instructionIndex` parameter is not used by the hasher and is dropped.
- Label objects are compared by identity in the code; the model gives each label a `LabelId`.
- `withClosure` is not part of this model: it is modelled as a work-list closure. The membership, closedness and leastness of the closure are proved; its order (which the CRC-32 depends on) is that of the model's work list.
- InvalidationKeys.DependencyClosure: states membership and closedness, not the exact walk order of `withClosure`.
- GroupInvalidation.UnchangedHashesNotInvalidated: states that unchanged hashes imply no invalidation; the converse (a change always invalidates) does not hold for a 32-bit checksum and is not claimed.
- RuntimeScopeHasher.HashTokens: its own contract states only the leading opcode; the tokens of each instruction kind are stated by `OperandsNotHashed`, `LabelIdentityHashed`, `MethodCallHashed`, `InvokeDynamicHashed`, `InvokeDynamicArgumentsHashed`, `FieldAccessHashed`, `ConstantLoadHashed` and `OperandHashed`, each as which instructions hash alike.
- InvalidationKeys.CrcValue: the CRC-32 standard check value is not proved about the bitwise model.
- InvalidationKeys.ResolveInvalidationKey: computes the corrected key (four bytes per hash), not the one-byte key the code computes; the code's version is `InvalidationKeys.ResolveInvalidationKeyAsWritten`.
- InvalidationKeys.Checksum: feeds the four bytes of each hash, where `CRC32.update(int)` in the code takes one low byte; the code's version is `InvalidationKeys.ChecksumAsWritten`.
- GroupInvalidation.Invalidated: compares corrected keys; the code's comparison is `GroupInvalidation.InvalidatedAsWritten`.
- GroupInvalidation.Invalidations: selects by the corrected key, so a hash change from 0 to 256 invalidates a group the code keeps; the code's selection is `GroupInvalidation.InvalidationsAsWritten`.
- GroupInvalidation.GroupInvalidationAgent.AfterReload: hands over the groups selected by the corrected key; after a change that keeps the low byte of every hash, the code hands over fewer groups (`GroupInvalidation.AsWrittenReloadKeepsChangedGroup`).
- Atomic references and the compare-and-set retry loop of `update`: the agent is sequential, so one pass of the loop is modelled.
- Logging (`logger.orchestration`, `logger.debug`, `logger.error`) and the method list built only for the log message.
- `invalidateGroupsWithKey` belongs to the Compose runtime: it is modelled as an append to a log of keys.
- Registration with `Instrumentation` and `invokeAfterReload`, and the reload request id.
- Exceptions thrown during analysis other than a decoding failure.
- Integer widths: `Int` and `Long` values are unbounded integers constrained to their ranges; `toInt()` is written out.

## Findings

| source | as written | input that shows it | evidently intended | confidence | as-written member | corrected member |
|---|---|---|---|---|---|---|
| hot-reload-agent/src/main/kotlin/org/jetbrains/compose/reload/agent/analysis/RuntimeScopeInvalidationKey.kt:18 | `crc.update(scope.hash.value.toInt())` calls `CRC32.update(int b)`, which consumes only the low eight bits of `b` | a group whose only scope's hash changes from 0 to 256: the checksum input is the same byte, so the key does not change and the group is not invalidated | all 32 bits of each scope hash reach the key | medium, not executed | InvalidationKeys.InvalidationKeyAsWritten, InvalidationKeys.ResolveInvalidationKeyAsWritten, InvalidationKeys.AsWrittenKeyMissesHashChange, GroupInvalidation.AsWrittenReloadKeepsChangedGroup | InvalidationKeys.InvalidationKey, InvalidationKeys.ResolveInvalidationKey, InvalidationKeys.ChecksumInputInjective, GroupInvalidation.Invalidations |
