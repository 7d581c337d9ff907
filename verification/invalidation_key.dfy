/**
 * `resolveInvalidationKey`: the invalidation key of a Compose group. The
 * scopes filed under the group are closed over dependency edges (a scope's
 * dependency leads to the root scopes of that method), and the hashes of the
 * closure are folded, in closure order, through a CRC-32 checksum.
 */
module InvalidationKeys {
  import opened Wrappers
  import opened Collections
  import opened Closures
  import opened Bytecode
  import opened RuntimeInfos

  datatype RuntimeScopeInvalidationKey = RuntimeScopeInvalidationKey(value: Long)

  /* ---------- CRC-32 ---------- */

  /** The reflected CRC-32 polynomial of `java.util.zip.CRC32` (ISO-HDLC). */
  const CRC32_POLYNOMIAL: bv32 := 0xEDB8_8320

  /** `rounds` steps of the bitwise CRC-32 shift register. */
  function CrcShift(c: bv32, rounds: nat): bv32
    decreases rounds
  {
    if rounds == 0 then c
    else CrcShift(if c & 1 == 1 then (c >> 1) ^ CRC32_POLYNOMIAL else c >> 1, rounds - 1)
  }

  /** `CRC32.update(b)`: one byte into the checksum value, with the standard pre- and post-inversion. */
  function CrcUpdate(crc: bv32, b: Byte): bv32 {
    CrcShift(crc ^ 0xFFFF_FFFF ^ (b as bv32), 8) ^ 0xFFFF_FFFF
  }

  /** `CRC32.value`: the checksum as an unsigned 32-bit `Long`. */
  function CrcValue(crc: bv32): (r: Long)
    ensures 0 <= r < 0x1_0000_0000
  {
    crc as int
  }

  /** The checksum value after feeding `bytes` to a checksum whose value is `crc`. */
  function CrcFeed(crc: bv32, bytes: seq<Byte>): bv32
    decreases |bytes|
  {
    if bytes == [] then crc else CrcUpdate(CrcFeed(crc, bytes[..|bytes| - 1]), Last(bytes))
  }

  /** Feeding two byte runs one after the other is feeding their concatenation. */
  lemma {:induction false} CrcFeedAppend(crc: bv32, a: seq<Byte>, b: seq<Byte>)
    ensures CrcFeed(crc, a + b) == CrcFeed(CrcFeed(crc, a), b)
    decreases |b|
  {
    if b == [] {
      assert a + b == a;
    } else {
      var init := b[..|b| - 1];
      assert (a + b)[..|a + b| - 1] == a + init;
      CrcFeedAppend(crc, a, init);
    }
  }

  /* ---------- Integer conversions ---------- */

  /** Kotlin's `Long.toInt()`: the low 32 bits, read as two's complement. */
  function ToInt(x: Long): (r: Int32)
    ensures (r - x) % 0x1_0000_0000 == 0
  {
    var u := x % 0x1_0000_0000;
    if u >= 0x8000_0000 then u - 0x1_0000_0000 else u
  }

  /** The byte `CRC32.update(int)` consumes: the low eight bits of its argument. */
  function LowByte(i: Int32): (r: Byte)
    ensures (r - i) % 0x100 == 0
  {
    i % 0x100
  }

  /** The four bytes of an `Int`, most significant first (`ByteBuffer.putInt`). */
  function IntBytes(i: Int32): (r: seq<Byte>)
    ensures |r| == 4
    ensures r[0] as int * 0x100_0000 + r[1] as int * 0x1_0000 + r[2] as int * 0x100 + r[3] as int == i % 0x1_0000_0000
  {
    var u := i % 0x1_0000_0000;
    var b0, rest0 := u / 0x100_0000, u % 0x100_0000;
    var b1, rest1 := rest0 / 0x1_0000, rest0 % 0x1_0000;
    var b2, b3 := rest1 / 0x100, rest1 % 0x100;
    [b0, b1, b2, b3]
  }

  /** Different `Int`s have different bytes. */
  lemma IntBytesInjective(i: Int32, j: Int32)
    ensures IntBytes(i) == IntBytes(j) <==> i == j
  {
    if IntBytes(i) == IntBytes(j) {
      assert i % 0x1_0000_0000 == j % 0x1_0000_0000;
    }
  }

  /* ---------- Dependency closure ---------- */

  /** `dependencies.flatMap { methods[it] ?: emptyList() }`: the root scopes the dependencies lead to. */
  function DependencyTargets(methods: map<MethodId, seq<RuntimeScopeInfo>>, deps: seq<MethodId>): (r: seq<RuntimeScopeInfo>)
    ensures forall x :: x in r <==> exists d :: d in deps && d in methods && x in methods[d]
    decreases |deps|
  {
    if deps == [] then []
    else
      var init, d := deps[..|deps| - 1], Last(deps);
      assert forall e :: e in deps <==> e in init || e == d;
      DependencyTargets(methods, init) + if d in methods then methods[d] else []
  }

  /** A dependency on a method the snapshot does not know is a leaf: it adds nothing. */
  lemma UnknownDependencyIsLeaf(methods: map<MethodId, seq<RuntimeScopeInfo>>, deps: seq<MethodId>, d: MethodId)
    requires d !in methods
    ensures DependencyTargets(methods, deps + [d]) == DependencyTargets(methods, deps)
  {
    assert (deps + [d])[..|deps|] == deps;
  }

  /** Dependencies that resolve alike in two method maps lead to the same scopes. */
  lemma {:induction false} DependencyTargetsAgree(m1: map<MethodId, seq<RuntimeScopeInfo>>, m2: map<MethodId, seq<RuntimeScopeInfo>>, deps: seq<MethodId>)
    requires forall d :: d in deps ==> (d in m1 <==> d in m2) && (d in m1 ==> m1[d] == m2[d])
    ensures DependencyTargets(m1, deps) == DependencyTargets(m2, deps)
    decreases |deps|
  {
    if deps != [] {
      DependencyTargetsAgree(m1, m2, deps[..|deps| - 1]);
    }
  }

  /** The dependency edges of a snapshot: from a scope to the root scopes of the methods it depends on. */
  function DependencyEdges(methods: map<MethodId, seq<RuntimeScopeInfo>>): RuntimeScopeInfo -> seq<RuntimeScopeInfo> {
    (s: RuntimeScopeInfo) => DependencyTargets(methods, s.dependencies)
  }

  /** Every root scope of the snapshot's methods. */
  ghost function MethodScopes(methods: map<MethodId, seq<RuntimeScopeInfo>>): set<RuntimeScopeInfo> {
    set d, x | d in methods && x in methods[d] :: x
  }

  /** A set that holds all root scopes of the methods cannot be left by a dependency edge. */
  lemma UniverseClosed(methods: map<MethodId, seq<RuntimeScopeInfo>>, start: seq<RuntimeScopeInfo>)
    ensures AllIn(start, Elements(start) + MethodScopes(methods))
    ensures ClosedUnder(Elements(start) + MethodScopes(methods), DependencyEdges(methods))
  {
    forall x, y | y in DependencyEdges(methods)(x) ensures y in MethodScopes(methods) {
      var d :| d in x.dependencies && d in methods && y in methods[d];
    }
  }

  /**
   * `scopes.withClosure { dependency targets }`: the start scopes and every
   * root scope reachable from them through dependency edges, each once. It
   * stays within the start scopes and the snapshot's scopes, so it is finite
   * however cyclic the dependencies are.
   */
  function DependencyClosure(methods: map<MethodId, seq<RuntimeScopeInfo>>, start: seq<RuntimeScopeInfo>): (r: seq<RuntimeScopeInfo>)
    ensures AllIn(start, Elements(r))
    ensures forall x, d, y :: x in r && d in x.dependencies && d in methods && y in methods[d] ==> y in r
    ensures AllIn(r, Elements(start) + MethodScopes(methods))
    ensures Distinct(r)
  {
    UniverseClosed(methods, start);
    var r := Closure(start, DependencyEdges(methods), Elements(start) + MethodScopes(methods));
    assert forall x, d, y :: x in r && d in x.dependencies && d in methods && y in methods[d] ==> y in DependencyEdges(methods)(x);
    r
  }

  /**
   * The closure is the least dependency-closed set holding the start scopes:
   * a scope reached only as the child of a reached scope is not added.
   */
  lemma DependencyClosureLeast(methods: map<MethodId, seq<RuntimeScopeInfo>>, start: seq<RuntimeScopeInfo>, s: set<RuntimeScopeInfo>)
    requires AllIn(start, s)
    requires forall x, d, y :: x in s && d in x.dependencies && d in methods && y in methods[d] ==> y in s
    ensures AllIn(DependencyClosure(methods, start), s)
  {
    UniverseClosed(methods, start);
    assert ClosedUnder(s, DependencyEdges(methods)) by {
      forall x, y | x in s && y in DependencyEdges(methods)(x) ensures y in s {
        var d :| d in x.dependencies && d in methods && y in methods[d];
      }
    }
    ClosureLeast(start, DependencyEdges(methods), Elements(start) + MethodScopes(methods), s);
  }

  /* ---------- The key ---------- */

  /** The scopes the key of group `g` is computed from, when the group is known. */
  function KeyScopes(info: RuntimeInfo, g: ComposeGroupKey): seq<RuntimeScopeInfo>
    requires Some(g) in info.Groups()
  {
    DependencyClosure(info.Methods(), info.Groups()[Some(g)])
  }

  /** `hash.value.toInt()` of each scope. */
  function HashInts(scopes: seq<RuntimeScopeInfo>): (r: seq<Int32>)
    ensures |r| == |scopes| && forall k :: 0 <= k < |scopes| ==> r[k] == ToInt(scopes[k].hash.value)
  {
    seq(|scopes|, k requires 0 <= k < |scopes| => ToInt(scopes[k].hash.value))
  }

  /** The bytes `crc.update(hash.value.toInt())` feeds, as written: one byte per scope. */
  function ChecksumInputAsWritten(scopes: seq<RuntimeScopeInfo>): (r: seq<Byte>)
    ensures |r| == |scopes|
  {
    var ints := HashInts(scopes);
    seq(|ints|, k requires 0 <= k < |ints| => LowByte(ints[k]))
  }

  /** The bytes of each `Int`, four per `Int`, in order. */
  function IntsBytes(ints: seq<Int32>): (r: seq<Byte>)
    ensures |r| == 4 * |ints|
    decreases |ints|
  {
    if ints == [] then [] else IntsBytes(ints[..|ints| - 1]) + IntBytes(Last(ints))
  }

  /** The bytes of a list of `Int`s determine the list. */
  lemma {:induction false} IntsBytesInjective(a: seq<Int32>, b: seq<Int32>)
    requires IntsBytes(a) == IntsBytes(b)
    ensures a == b
    decreases |a|
  {
    if a != [] {
      var ai, bi := a[..|a| - 1], b[..|b| - 1];
      var n := |IntsBytes(ai)|;
      assert IntsBytes(a)[..n] == IntsBytes(ai) && IntsBytes(a)[n..] == IntBytes(Last(a));
      assert IntsBytes(b)[..n] == IntsBytes(bi) && IntsBytes(b)[n..] == IntBytes(Last(b));
      IntsBytesInjective(ai, bi);
      IntBytesInjective(Last(a), Last(b));
      assert a == ai + [Last(a)] && b == bi + [Last(b)];
    }
  }

  /** The checksum input: the four bytes of every hash `Int` of the closure, in closure order. */
  function ChecksumInput(scopes: seq<RuntimeScopeInfo>): (r: seq<Byte>)
    ensures |r| == 4 * |scopes|
  {
    IntsBytes(HashInts(scopes))
  }

  /** The key as the code computes it: the checksum of one byte per scope. */
  function InvalidationKeyAsWritten(info: RuntimeInfo, g: ComposeGroupKey): (r: Option<RuntimeScopeInvalidationKey>)
    ensures r.Some? <==> Some(g) in info.Groups()
  {
    if Some(g) !in info.Groups() then None
    else Some(RuntimeScopeInvalidationKey(CrcValue(CrcFeed(0, ChecksumInputAsWritten(KeyScopes(info, g))))))
  }

  /** The key of a closure: the CRC-32 of the whole hash of each of its scopes, in order; a 32-bit value. */
  function ClosureKey(scopes: seq<RuntimeScopeInfo>): (r: RuntimeScopeInvalidationKey)
    ensures 0 <= r.value < 0x1_0000_0000
  {
    RuntimeScopeInvalidationKey(CrcValue(CrcFeed(0, ChecksumInput(scopes))))
  }

  /**
   * The invalidation key of group `g`: none when the snapshot has no scope
   * with that key, else the key of the group's dependency closure.
   */
  function InvalidationKey(info: RuntimeInfo, g: ComposeGroupKey): (r: Option<RuntimeScopeInvalidationKey>)
    ensures r.Some? <==> Some(g) in info.Groups()
  {
    if Some(g) !in info.Groups() then None else Some(ClosureKey(KeyScopes(info, g)))
  }

  /**
   * The checksum input sees every bit of every hash `Int`: equal inputs come
   * from closures with the same hashes in the same order, and, being computed
   * from the hashes alone, the input sees nothing else of a scope.
   */
  lemma ChecksumInputInjective(xs: seq<RuntimeScopeInfo>, ys: seq<RuntimeScopeInfo>)
    ensures ChecksumInput(xs) == ChecksumInput(ys) <==> HashInts(xs) == HashInts(ys)
  {
    if ChecksumInput(xs) == ChecksumInput(ys) {
      IntsBytesInjective(HashInts(xs), HashInts(ys));
    }
  }

  /** Two groups whose closures hash alike, scope by scope, have the same key. */
  lemma KeyDependsOnlyOnHashes(a: RuntimeInfo, b: RuntimeInfo, g: ComposeGroupKey)
    requires Some(g) in a.Groups() && Some(g) in b.Groups()
    requires HashInts(KeyScopes(a, g)) == HashInts(KeyScopes(b, g))
    ensures InvalidationKey(a, g) == InvalidationKey(b, g)
  {
    ChecksumInputInjective(KeyScopes(a, g), KeyScopes(b, g));
  }

  /**
   * As written, only the low byte of each hash reaches the checksum: a scope
   * whose hash is 0 and one whose hash is 256 feed the same input, so a
   * change of that kind leaves the key as it was. The corrected input tells
   * them apart.
   */
  lemma AsWrittenKeyMissesHashChange(s: RuntimeScopeInfo)
    ensures ChecksumInputAsWritten([s.(hash := RuntimeScopeHash(0))]) == ChecksumInputAsWritten([s.(hash := RuntimeScopeHash(256))])
    ensures ChecksumInput([s.(hash := RuntimeScopeHash(0))]) != ChecksumInput([s.(hash := RuntimeScopeHash(256))])
  {
    var a, b := [s.(hash := RuntimeScopeHash(0))], [s.(hash := RuntimeScopeHash(256))];
    assert ChecksumInputAsWritten(a)[0] == LowByte(0) == LowByte(256) == ChecksumInputAsWritten(b)[0];
    assert HashInts(a)[0] == 0 && HashInts(b)[0] == 256;
    ChecksumInputInjective(a, b);
  }

  /**
   * The closure only looks at the dependencies it meets: two method maps that
   * resolve every dependency of every reached scope alike give the same closure.
   */
  lemma DependencyClosureAgree(ma: map<MethodId, seq<RuntimeScopeInfo>>, mb: map<MethodId, seq<RuntimeScopeInfo>>, start: seq<RuntimeScopeInfo>)
    requires forall x, d :: x in DependencyClosure(ma, start) && d in x.dependencies ==>
      (d in ma <==> d in mb) && (d in ma ==> ma[d] == mb[d])
    ensures DependencyClosure(ma, start) == DependencyClosure(mb, start)
  {
    var reached := Elements(DependencyClosure(ma, start));
    UniverseClosed(ma, start);
    UniverseClosed(mb, start);
    forall x | x in reached ensures DependencyEdges(ma)(x) == DependencyEdges(mb)(x) {
      DependencyTargetsAgree(ma, mb, x.dependencies);
    }
    assert ClosedUnder(reached, DependencyEdges(ma)) by {
      forall x, y | x in reached && y in DependencyEdges(ma)(x) ensures y in reached {
        var d :| d in x.dependencies && d in ma && y in ma[d];
      }
    }
    ClosureAgree(start, DependencyEdges(ma), DependencyEdges(mb), Elements(start) + MethodScopes(ma), Elements(start) + MethodScopes(mb), reached);
  }

  /** A snapshot of one childless scope files exactly that scope under its group. */
  lemma SingleScopeGroup(s: RuntimeScopeInfo)
    requires s.children == []
    ensures s.group in RuntimeInfo([s]).Groups() && RuntimeInfo([s]).Groups()[s.group] == [s]
  {
    var info := RuntimeInfo([s]);
    assert Subtree(s) == {s};
    assert AllScopes([s]) == {s};
    GroupsIndexComplete(info);
    GroupsIndexSound(info);
    DistinctSingleton(info.Groups()[s.group], s);
  }

  /** In a snapshot of one scope without dependencies, the closure of that scope is the scope alone. */
  lemma SingleScopeClosure(s: RuntimeScopeInfo)
    requires s.dependencies == []
    ensures DependencyClosure(RuntimeInfo([s]).Methods(), [s]) == [s]
  {
    var methods := RuntimeInfo([s]).Methods();
    MethodsIndex(RuntimeInfo([s]));
    assert MethodScopes(methods) <= {s};
    var r := DependencyClosure(methods, [s]);
    assert s in r;
    DistinctSingleton(r, s);
  }

  /**
   * A snapshot of one scope with group `g`, no children and no dependencies:
   * the key of `g` is computed from that scope alone.
   */
  lemma SingleScopeKeyScopes(s: RuntimeScopeInfo, g: ComposeGroupKey)
    requires s.group == Some(g) && s.children == [] && s.dependencies == []
    ensures Some(g) in RuntimeInfo([s]).Groups()
    ensures KeyScopes(RuntimeInfo([s]), g) == [s]
  {
    SingleScopeGroup(s);
    SingleScopeClosure(s);
  }

  /**
   * The single-scope snapshots of a group whose scope has hash 0 and hash 256
   * get the same key as written, but different corrected checksum inputs.
   */
  lemma AsWrittenKeyMissesReload(s: RuntimeScopeInfo, g: ComposeGroupKey)
    requires s.group == Some(g) && s.children == [] && s.dependencies == []
    ensures var before := RuntimeInfo([s.(hash := RuntimeScopeHash(0))]);
      var after := RuntimeInfo([s.(hash := RuntimeScopeHash(256))]);
      Some(g) in before.Groups() && Some(g) in after.Groups()
      && InvalidationKeyAsWritten(before, g) == InvalidationKeyAsWritten(after, g)
      && ChecksumInput(KeyScopes(before, g)) != ChecksumInput(KeyScopes(after, g))
  {
    var s0, s1 := s.(hash := RuntimeScopeHash(0)), s.(hash := RuntimeScopeHash(256));
    SingleScopeKeyScopes(s0, g);
    SingleScopeKeyScopes(s1, g);
    AsWrittenKeyMissesHashChange(s);
    assert ChecksumInputAsWritten(KeyScopes(RuntimeInfo([s0]), g)) == ChecksumInputAsWritten(KeyScopes(RuntimeInfo([s1]), g));
  }

  /** `RuntimeInfo.resolveInvalidationKey(groupKey)` as written: one low byte of each hash reaches the CRC-32. */
  method ResolveInvalidationKeyAsWritten(info: RuntimeInfo, groupKey: ComposeGroupKey) returns (r: Option<RuntimeScopeInvalidationKey>)
    ensures r == InvalidationKeyAsWritten(info, groupKey)
  {
    var groups := info.Groups();
    if Some(groupKey) !in groups {
      return None;
    }
    var scopes := DependencyClosure(info.Methods(), groups[Some(groupKey)]);
    var crc := ChecksumAsWritten(scopes);
    r := Some(RuntimeScopeInvalidationKey(CrcValue(crc)));
  }

  /** `scopes.forEach { crc.update(scope.hash.value.toInt()) }` as written: `CRC32.update(int)` takes the low byte. */
  method ChecksumAsWritten(scopes: seq<RuntimeScopeInfo>) returns (crc: bv32)
    ensures crc == CrcFeed(0, ChecksumInputAsWritten(scopes))
  {
    crc := 0;
    var k := 0;
    while k < |scopes|
      invariant 0 <= k <= |scopes|
      invariant crc == CrcFeed(0, ChecksumInputAsWritten(scopes[..k]))
    {
      var input := ChecksumInputAsWritten(scopes[..k + 1]);
      assert input[..k] == ChecksumInputAsWritten(scopes[..k]);
      crc := CrcUpdate(crc, LowByte(ToInt(scopes[k].hash.value)));
      k := k + 1;
    }
    assert scopes[..k] == scopes;
  }

  /**
   * `RuntimeInfo.resolveInvalidationKey(groupKey)` with the checksum
   * corrected to take all four bytes of each hash.
   */
  method ResolveInvalidationKey(info: RuntimeInfo, groupKey: ComposeGroupKey) returns (r: Option<RuntimeScopeInvalidationKey>)
    ensures r == InvalidationKey(info, groupKey)
  {
    var groups := info.Groups();
    if Some(groupKey) !in groups {
      return None;
    }
    var scopes := DependencyClosure(info.Methods(), groups[Some(groupKey)]);
    var crc := Checksum(scopes);
    r := Some(RuntimeScopeInvalidationKey(CrcValue(crc)));
  }

  /** The corrected `scopes.forEach { ... }`: all four bytes of each scope's hash go to a fresh checksum. */
  method Checksum(scopes: seq<RuntimeScopeInfo>) returns (crc: bv32)
    ensures crc == CrcFeed(0, ChecksumInput(scopes))
  {
    crc := 0;
    var k := 0;
    while k < |scopes|
      invariant 0 <= k <= |scopes|
      invariant crc == CrcFeed(0, ChecksumInput(scopes[..k]))
    {
      ChecksumInputNext(scopes, k);
      CrcFeedAppend(0, ChecksumInput(scopes[..k]), IntBytes(ToInt(scopes[k].hash.value)));
      crc := CrcFeed(crc, IntBytes(ToInt(scopes[k].hash.value)));
      k := k + 1;
    }
    assert scopes[..k] == scopes;
  }

  lemma ChecksumInputNext(scopes: seq<RuntimeScopeInfo>, k: nat)
    requires k < |scopes|
    ensures ChecksumInput(scopes[..k + 1]) == ChecksumInput(scopes[..k]) + IntBytes(ToInt(scopes[k].hash.value))
  {
    assert HashInts(scopes[..k + 1])[..k] == HashInts(scopes[..k]);
  }
}
