/** The memory tester's tree of caches. Level by level every subsystem fans out to a number of
    caches, each of which feeds a subsystem of the next level, and carries its own testers.
    Depth 0 is closest to memory; the source counts levels the other way round. */
module CacheTree {
  import opened Distinct

  /** `caches[d]` caches below and `testers[d]` testers in every subsystem of depth `d`. */
  datatype Spec = Spec(caches: seq<int>, testers: seq<int>)

  predicate ValidSpec(s: Spec) {
    && |s.caches| >= 1 && |s.testers| == |s.caches| + 1
    && s.testers[|s.testers| - 1] != 0
    && (forall d :: 0 <= d < |s.testers| ==> s.testers[d] >= 0)
    && (forall d :: 0 <= d < |s.caches| ==> s.caches[d] >= 1)
  }

  /** The number of subsystems of depth `d + k` below one of depth `d`. */
  function Fan(s: Spec, d: nat, k: nat): (n: nat)
    requires ValidSpec(s) && d + k <= |s.caches|
    decreases k
  {
    if k == 0 then 1 else s.caches[d] * Fan(s, d + 1, k - 1)
  }

  /** The testers in the subsystems of depth `d` to `e - 1` below one of depth `d`. */
  function Testers(s: Spec, d: nat, e: nat): nat
    requires ValidSpec(s) && d <= e <= |s.testers|
  {
    if e == d then 0 else Testers(s, d, e - 1) + s.testers[e - 1] * Fan(s, d, e - 1 - d)
  }

  lemma {:induction false} FanSnoc(s: Spec, d: nat, k: nat)
    requires ValidSpec(s) && d + k < |s.caches|
    ensures Fan(s, d, k + 1) == Fan(s, d, k) * s.caches[d + k]
    decreases k
  {
    if k > 0 {
      FanSnoc(s, d + 1, k - 1);
      Associate(s.caches[d], Fan(s, d + 1, k - 1), s.caches[d + k]);
    }
  }

  lemma Associate(a: int, b: int, c: int)
    ensures a * (b * c) == (a * b) * c
  {
  }

  /** One subsystem and everything below it: its own testers and those of its caches. */
  lemma {:induction false} TestersBelow(s: Spec, d: nat, e: nat)
    requires ValidSpec(s) && d < e <= |s.testers|
    ensures d == |s.caches| ==> Testers(s, d, e) == s.testers[d]
    ensures d < |s.caches| ==> Testers(s, d, e) == s.testers[d] + s.caches[d] * Testers(s, d + 1, e)
  {
    if e == d + 1 {
      assert Testers(s, d, d) == 0 && Fan(s, d, 0) == 1;
    } else {
      TestersBelow(s, d, e - 1);
      var t, c, f := s.testers[e - 1], s.caches[d], Fan(s, d + 1, e - 2 - d);
      assert Fan(s, d, e - 1 - d) == c * f;
      Spread(c, Testers(s, d + 1, e - 1), t, f);
    }
  }

  lemma Spread(c: int, a: int, t: int, f: int)
    ensures c * (a + t * f) == c * a + t * (c * f)
  {
  }

  /** The closed-form count: every level's testers times the number of its subsystems. */
  method NumTesters(s: Spec) returns (total: nat)
    requires ValidSpec(s)
    ensures total == Testers(s, 0, |s.testers|)
  {
    var multiplier: seq<int> := [1];
    for d := 0 to |s.caches|
      invariant |multiplier| == d + 1 && forall e :: 0 <= e <= d ==> multiplier[e] == Fan(s, 0, e)
    {
      FanSnoc(s, 0, d);
      multiplier := multiplier + [multiplier[d] * s.caches[d]];
    }
    var sum: int := 0;
    for e := 0 to |s.testers|
      invariant sum == Testers(s, 0, e)
    {
      sum := sum + s.testers[e] * multiplier[e];
    }
    total := sum;
  }

  // ----- Cache prototypes

  /** The parameters of a cache that the script scales from level to level. */
  datatype Proto = Proto(size: nat, assoc: nat, mshrs: nat, latency: nat, mostlyExclusive: bool, writebackClean: bool)

  function TenTo(k: nat): nat {
    if k == 0 then 1 else TenTo(k - 1) * 10
  }

  /** The first-level cache scaled to `k` levels further from the testers. */
  function Scaled(s: Spec, l1: Proto, k: nat): Proto
    requires ValidSpec(s) && k < |s.caches|
  {
    var f := Fan(s, 0, k);
    Proto(l1.size * f, l1.assoc * f, l1.mshrs * f, l1.latency * TenTo(k),
          (k % 2 == 1) != l1.mostlyExclusive, (k % 2 == 0) == l1.writebackClean)
  }

  /** One prototype per level of caches, the one furthest from the testers first. */
  ghost predicate Prototypes(s: Spec, l1: Proto, protos: seq<Proto>)
    requires ValidSpec(s)
  {
    |protos| == |s.caches| && forall d :: 0 <= d < |protos| ==> protos[d] == Scaled(s, l1, |protos| - 1 - d)
  }

  lemma ScaledNext(s: Spec, l1: Proto, k: nat)
    requires ValidSpec(s) && k + 1 < |s.caches|
    ensures var prev, scale := Scaled(s, l1, k), s.caches[k];
            Scaled(s, l1, k + 1)
              == Proto(prev.size * scale, prev.assoc * scale, prev.mshrs * scale, prev.latency * 10,
                       !prev.mostlyExclusive, !prev.writebackClean)
  {
    var f, scale := Fan(s, 0, k), s.caches[k];
    FanSnoc(s, 0, k);
    Associate(l1.size, f, scale);
    Associate(l1.assoc, f, scale);
    Associate(l1.mshrs, f, scale);
    Associate(l1.latency, TenTo(k), 10);
  }

  lemma ScaledFirst(s: Spec, l1: Proto)
    requires ValidSpec(s)
    ensures Scaled(s, l1, 0) == l1
  {
  }

  /** Scales the first-level cache once for every level but the last. */
  method ScalePrototypes(s: Spec, l1: Proto) returns (protos: seq<Proto>)
    requires ValidSpec(s)
    ensures Prototypes(s, l1, protos)
    ensures |protos| == |s.caches| && protos[|protos| - 1] == l1
    ensures forall d :: 0 <= d < |protos| - 1 ==>
              var prev, scale := protos[d + 1], s.caches[|protos| - 2 - d];
              && protos[d].size == prev.size * scale && protos[d].assoc == prev.assoc * scale
              && protos[d].mshrs == prev.mshrs * scale && protos[d].latency == prev.latency * 10
              && protos[d].mostlyExclusive != prev.mostlyExclusive && protos[d].writebackClean != prev.writebackClean
  {
    hide Scaled;
    protos := [l1];
    ScaledFirst(s, l1);
    for k := 0 to |s.caches| - 1
      invariant |protos| == k + 1 && protos[k] == l1
      invariant forall d :: 0 <= d <= k ==> protos[d] == Scaled(s, l1, k - d)
      invariant forall d :: 0 <= d < k ==>
                  var prev, scale := protos[d + 1], s.caches[k - 1 - d];
                  && protos[d].size == prev.size * scale && protos[d].assoc == prev.assoc * scale
                  && protos[d].mshrs == prev.mshrs * scale && protos[d].latency == prev.latency * 10
                  && protos[d].mostlyExclusive != prev.mostlyExclusive
                  && protos[d].writebackClean != prev.writebackClean
    {
      var prev, scale := protos[0], s.caches[k];
      ScaledNext(s, l1, k);
      protos := [Proto(prev.size * scale, prev.assoc * scale, prev.mshrs * scale, prev.latency * 10,
                       !prev.mostlyExclusive, !prev.writebackClean)] + protos;
    }
  }

  // ----- Building the tree

  /** A subsystem is named after its level, counted from the testers, and a running index. */
  datatype Subsystem = Subsystem(level: nat, index: nat)

  /** A tester of a subsystem. */
  datatype Tester = Tester(sub: Subsystem, number: nat)

  /** A cache that fans out from a subsystem of level `level`. */
  datatype TreeCache = TreeCache(level: nat, proto: Proto)

  /** `j` caches of a subsystem of level `level` have been built. */
  ghost predicate FannedOut(s: Spec, before: seq<nat>, after: seq<nat>, level: nat, j: nat)
    requires ValidSpec(s) && 0 < level <= |s.caches|
  {
    && |before| == |after| == |s.testers|
    && forall l :: 0 <= l < level ==> after[l] == before[l] + j * Fan(s, |s.caches| - level + 1, level - 1 - l)
  }

  lemma FannedNone(s: Spec, next: seq<nat>, level: nat)
    requires ValidSpec(s) && 0 < level <= |s.caches| && |next| == |s.testers|
    ensures FannedOut(s, next, next, level, 0)
  {
  }

  lemma FanOneMore(s: Spec, before: seq<nat>, mid: seq<nat>, after: seq<nat>, level: nat, j: nat)
    requires ValidSpec(s) && 0 < level <= |s.caches| && FannedOut(s, before, mid, level, j) && |after| == |mid|
    requires forall l :: 0 <= l < level ==> after[l] == mid[l] + Fan(s, |s.caches| - (level - 1), level - 1 - l)
    ensures FannedOut(s, before, after, level, j + 1)
  {
    var d := |s.caches| - level + 1;
    forall l | 0 <= l < level ensures after[l] == before[l] + (j + 1) * Fan(s, d, level - 1 - l) {
      OneMore(j, Fan(s, d, level - 1 - l));
    }
  }

  lemma OneMore(j: int, f: int)
    ensures (j + 1) * f == j * f + f
  {
  }

  lemma FanUnfolds(s: Spec, d: nat, k: nat)
    requires ValidSpec(s) && d + k <= |s.caches|
    ensures Fan(s, d, k) == if k == 0 then 1 else s.caches[d] * Fan(s, d + 1, k - 1)
  {
  }

  /** How many caches fan out from subsystems of level `l`. */
  function CachesAt(caches: seq<TreeCache>, l: nat): nat {
    if caches == [] then 0
    else CachesAt(caches[..|caches| - 1], l) + if caches[|caches| - 1].level == l then 1 else 0
  }

  lemma {:induction false} MoreCaches(caches: seq<TreeCache>, c: TreeCache, n: nat, l: nat)
    ensures CachesAt(caches + seq(n, _ => c), l) == CachesAt(caches, l) + if c.level == l then n else 0
  {
    if n == 0 {
      assert caches + seq(n, _ => c) == caches;
    } else {
      assert (caches + seq(n, _ => c))[..|caches| + n - 1] == caches + seq(n - 1, _ => c);
      MoreCaches(caches, c, n - 1, l);
    }
  }

  /** What has been made so far. */
  datatype Tree = Tree(next: seq<nat>, made: seq<Subsystem>, testers: seq<Tester>, caches: seq<TreeCache>,
                       attached: seq<Tester>)

  /** From `a` to `b` the testers `added` were made and attached, a full fan of subsystems at
      every level up to `level`, and for each of these subsystems but the first a cache of the
      level above it. */
  ghost predicate Grown(s: Spec, a: Tree, b: Tree, level: nat, added: seq<Tester>)
    requires ValidSpec(s) && level <= |s.caches|
  {
    && |a.next| == |b.next| == |s.testers|
    && a.made <= b.made && b.testers == a.testers + added
    && (forall l :: level < l < |b.next| ==> b.next[l] == a.next[l])
    && (forall l :: 0 <= l <= level ==> b.next[l] == a.next[l] + Fan(s, |s.caches| - level, level - l))
    && |added| == Testers(s, |s.caches| - level, |s.testers|)
    && (forall l :: 0 < l <= level ==> CachesAt(b.caches, l) == CachesAt(a.caches, l) + b.next[l - 1] - a.next[l - 1])
    && (forall l :: l > level ==> CachesAt(b.caches, l) == CachesAt(a.caches, l))
    && multiset(b.attached) == multiset(a.attached) + multiset(added)
  }

  /** From `a` to `b` the caches of a subsystem of level `level` were made and the subtrees of
      the first `j` of them. */
  ghost predicate Below(s: Spec, a: Tree, b: Tree, level: nat, j: nat, below: seq<Tester>)
    requires ValidSpec(s) && 0 < level <= |s.caches|
  {
    && a.made <= b.made && b.testers == a.testers + below
    && FannedOut(s, a.next, b.next, level, j)
    && (forall l :: level <= l < |b.next| ==> b.next[l] == a.next[l])
    && |below| == j * Testers(s, |s.caches| - level + 1, |s.testers|)
    && (forall l :: 0 < l < level ==> CachesAt(b.caches, l) == CachesAt(a.caches, l) + b.next[l - 1] - a.next[l - 1])
    && CachesAt(b.caches, level) == CachesAt(a.caches, level) + s.caches[|s.caches| - level]
    && (forall l :: l > level ==> CachesAt(b.caches, l) == CachesAt(a.caches, l))
    && multiset(b.attached) == multiset(a.attached) + multiset(below)
  }

  lemma BelowNone(s: Spec, a: Tree, b: Tree, level: nat)
    requires ValidSpec(s) && 0 < level <= |s.caches| && |a.next| == |s.testers|
    requires b == a.(caches := b.caches)
    requires forall l: nat :: CachesAt(b.caches, l)
                           == CachesAt(a.caches, l) + if l == level then s.caches[|s.caches| - level] else 0
    ensures Below(s, a, b, level, 0, [])
  {
    hide CachesAt;
    FannedNone(s, a.next, level);
  }

  lemma BelowOneMore(s: Spec, a: Tree, b: Tree, c: Tree, level: nat, j: nat, below: seq<Tester>, added: seq<Tester>)
    requires ValidSpec(s) && 0 < level <= |s.caches|
    requires Below(s, a, b, level, j, below) && Grown(s, b, c, level - 1, added)
    ensures Below(s, a, c, level, j + 1, below + added)
  {
    hide CachesAt, Fan, Testers, FannedOut;
    assert FannedOut(s, a.next, c.next, level, j + 1) by {
      FannedLengths(s, a.next, b.next, level, j);
      FanOneMore(s, a.next, b.next, c.next, level, j);
    }
    OneMore(j, Testers(s, |s.caches| - level + 1, |s.testers|));
  }

  lemma FannedLengths(s: Spec, before: seq<nat>, after: seq<nat>, level: nat, j: nat)
    requires ValidSpec(s) && 0 < level <= |s.caches| && FannedOut(s, before, after, level, j)
    ensures |before| == |after| == |s.testers|
  {
  }

  /** From `a` to `b` a subsystem of level `level` with the testers `own` was registered. */
  ghost predicate Entered(s: Spec, a: Tree, b: Tree, level: nat, own: seq<Tester>)
    requires ValidSpec(s) && level <= |s.caches|
  {
    && |a.next| == |s.testers| && b.next == a.next[level := a.next[level] + 1]
    && |b.made| == |a.made| + 1 && a.made <= b.made
    && b.testers == a.testers + own && |own| == s.testers[|s.caches| - level]
    && b.caches == a.caches && b.attached == a.attached
  }

  lemma GrownLeaf(s: Spec, a: Tree, b: Tree, own: seq<Tester>)
    requires ValidSpec(s) && Entered(s, a, b, 0, own)
    ensures Grown(s, a, b.(attached := b.attached + own), 0, own)
  {
    hide CachesAt, Fan, Testers;
    TestersBelow(s, |s.caches|, |s.testers|);
    FanUnfolds(s, |s.caches|, 0);
  }

  lemma FirstBelow(s: Spec, before: seq<nat>, after: seq<nat>, level: nat, j: nat)
    requires ValidSpec(s) && 0 < level <= |s.caches| && FannedOut(s, before, after, level, j)
    ensures after[level - 1] == before[level - 1] + j
  {
    assert Fan(s, |s.caches| - level + 1, 0) == 1;
  }

  lemma GrownNode(s: Spec, a: Tree, b: Tree, c: Tree, level: nat, own: seq<Tester>, below: seq<Tester>)
    requires ValidSpec(s) && 0 < level <= |s.caches| && Entered(s, a, b, level, own)
    requires Below(s, b, c, level, s.caches[|s.caches| - level], below)
    ensures Grown(s, a, c.(attached := c.attached + own), level, own + below)
  {
    hide CachesAt, Fan, Testers;
    var d := |s.caches| - level;
    TestersBelow(s, d, |s.testers|);
    FirstBelow(s, b.next, c.next, level, s.caches[d]);
    forall l | 0 <= l <= level ensures c.next[l] == a.next[l] + Fan(s, d, level - l) {
      FanUnfolds(s, d, level - l);
    }
  }

  class Builder {
    const spec: Spec
    const protos: seq<Proto>
    const l1: Proto
    var next: seq<nat>
    var made: seq<Subsystem>
    var testers: seq<Tester>
    var caches: seq<TreeCache>
    var attached: seq<Tester>

    /** Exactly the indices below the next free one are in use, each once. */
    ghost predicate Named()
      reads this`next, this`made
    {
      && |next| == |spec.testers|
      && (forall k :: 0 <= k < |made| ==> made[k].level < |next| && made[k].index < next[made[k].level])
      && (forall l, i :: 0 <= l < |next| && 0 <= i < next[l] ==> Subsystem(l, i) in made)
      && NoRepeat(made)
    }

    /** No tester is made twice, and every one belongs to a subsystem that was made. */
    ghost predicate Manned()
      reads this`testers, this`made
    {
      NoRepeat(testers) && forall k :: 0 <= k < |testers| ==> testers[k].sub in made
    }

    /** Every cache of the tree is a copy of the prototype of its level. */
    ghost predicate Copied()
      requires ValidSpec(spec)
      reads this`caches
    {
      forall k :: 0 <= k < |caches| ==>
        0 < caches[k].level <= |spec.caches| && caches[k].proto == Scaled(spec, l1, caches[k].level - 1)
    }

    ghost predicate Valid()
      reads this
    {
      ValidSpec(spec) && Prototypes(spec, l1, protos) && Named() && Manned() && Copied()
    }

    ghost function Now(): Tree
      reads this
    {
      Tree(next, made, testers, caches, attached)
    }

    constructor (s: Spec, first: Proto, ps: seq<Proto>)
      requires ValidSpec(s) && Prototypes(s, first, ps)
      ensures Valid() && spec == s && l1 == first && protos == ps
      ensures made == [] && testers == [] && caches == [] && attached == []
      ensures forall l :: 0 <= l < |next| ==> next[l] == 0
    {
      spec, l1, protos := s, first, ps;
      next := seq(|s.testers|, _ => 0);
      made, testers, caches, attached := [], [], [], [];
    }

    /** Registers a subsystem under a name not used before. */
    method Register(level: nat) returns (sub: Subsystem)
      requires Valid() && level < |next|
      modifies this`next, this`made
      ensures Valid() && next == old(next)[level := old(next)[level] + 1]
      ensures sub == Subsystem(level, old(next)[level]) && sub !in old(made) && made == old(made) + [sub]
    {
      hide Prototypes, Scaled;
      sub := Subsystem(level, next[level]);
      assert sub !in made;
      next := next[level := next[level] + 1];
      made := made + [sub];
      assert forall k :: 0 <= k < |old(made)| ==> made[k] == old(made)[k];
      assert made[|old(made)|] == sub;
    }

    /** Makes the testers of a subsystem. */
    method AddTesters(sub: Subsystem, ntesters: nat) returns (own: seq<Tester>)
      requires Valid() && sub in made && forall k :: 0 <= k < |testers| ==> testers[k].sub != sub
      modifies this`testers
      ensures Valid() && testers == old(testers) + own && |own| == ntesters
    {
      hide Prototypes, Scaled;
      own := seq(ntesters, (i: nat) => Tester(sub, i));
      testers := testers + own;
    }

    /** Connects the ports of testers, one after the other. */
    method Attach(own: seq<Tester>)
      modifies this`attached
      ensures attached == old(attached) + own
    {
      for i := 0 to |own|
        invariant attached == old(attached) + own[..i]
      {
        assert own[..i + 1] == own[..i] + [own[i]];
        attached := attached + [own[i]];
      }
      assert own[..|own|] == own;
    }

    /** What a call is given: the part of the cache list and of the prototypes from its own level
        on. */
    ghost predicate Aligned(ncaches: seq<int>, prototypes: seq<Proto>, level: nat)
      requires Valid()
      reads this
    {
      && level <= |spec.caches|
      && ncaches == spec.caches[|spec.caches| - level..]
      && prototypes == protos[|protos| - level..]
    }

    lemma WholeLists()
      requires Valid()
      ensures Aligned(spec.caches, protos, |spec.caches|)
    {
    }

    /** One subsystem with everything below it. No list is read past its end, and the only
        failure is a subsystem of level 0 without a cache before it. */
    method MakeLevel(ncaches: seq<int>, prototypes: seq<Proto>, level: nat, hasNext: bool)
      returns (ok: bool, ghost added: seq<Tester>)
      requires Valid() && Aligned(ncaches, prototypes, level)
      modifies this
      ensures Valid() && (ok <==> level > 0 || hasNext)
      ensures ok ==> Grown(spec, old(Now()), Now(), level, added)
      decreases level, 1
    {
      hide CachesAt, Fan, Testers, Grown, Below, Prototypes, Copied;
      var sub := Register(level);
      var ntesters := spec.testers[|spec.caches| - level];
      var own := AddTesters(sub, ntesters);
      ghost var entered := Now();
      if level != 0 {
        ghost var below := MakeBelow(ncaches, prototypes, level);
        GrownNode(spec, old(Now()), entered, Now(), level, own, below);
        Attach(own);
        added := own + below;
      } else {
        if !hasNext {
          return false, [];
        }
        GrownLeaf(spec, old(Now()), entered, own);
        if ntesters > 1 {
          Attach(own);
        } else {
          attached := attached + [own[0]];
          assert [own[0]] == own;
        }
        added := own;
      }
      ok := true;
    }

    /** The caches of one subsystem, each with its own subtree. */
    method MakeBelow(ncaches: seq<int>, prototypes: seq<Proto>, level: nat) returns (ghost below: seq<Tester>)
      requires Valid() && Aligned(ncaches, prototypes, level) && level > 0
      modifies this
      ensures Valid() && Below(spec, old(Now()), Now(), level, ncaches[0], below)
      decreases level, 0
    {
      hide CachesAt, Fan, Testers, Grown, Below, Named, Manned, Copied, Prototypes;
      LengthsAgree();
      AddCaches(level, ncaches[0], prototypes[0]);
      below := [];
      BelowNone(spec, old(Now()), Now(), level);
      for j := 0 to ncaches[0]
        invariant Valid() && Below(spec, old(Now()), Now(), level, j, below)
      {
        ghost var before := Now();
        ghost var added;
        var ok;
        ok, added := MakeLevel(ncaches[1..], prototypes[1..], level - 1, true);
        BelowOneMore(spec, old(Now()), before, Now(), level, j, below, added);
        below := below + added;
      }
    }

    lemma LengthsAgree()
      requires Valid()
      ensures |protos| == |spec.caches| && |next| == |spec.testers|
    {
    }

    /** Makes the caches that fan out from a subsystem. */
    method AddCaches(level: nat, n: nat, proto: Proto)
      requires Valid() && 0 < level <= |spec.caches| && proto == protos[|protos| - level]
      modifies this`caches
      ensures Valid()
      ensures forall l: nat :: CachesAt(caches, l) == CachesAt(old(caches), l) + if l == level then n else 0
    {
      hide Scaled, CachesAt;
      forall l: nat
        ensures CachesAt(caches + seq(n, _ => TreeCache(level, proto)), l)
             == CachesAt(caches, l) + if l == level then n else 0
      {
        MoreCaches(caches, TreeCache(level, proto), n, l);
      }
      caches := caches + seq(n, _ => TreeCache(level, proto));
    }
  }

  /** The whole tree: the recursion makes exactly as many testers as the closed form says, at
      every level the product of the fan-outs before it, one cache of the level above for every
      subsystem but the first, and attaches every tester exactly once. */
  method Build(s: Spec, l1: Proto) returns (b: Builder, total: nat)
    requires ValidSpec(s)
    ensures fresh(b) && b.Valid() && b.spec == s && b.l1 == l1
    ensures total == |b.testers| == Testers(s, 0, |s.testers|)
    ensures forall l :: 0 <= l < |b.next| ==> b.next[l] == Fan(s, 0, |s.caches| - l)
    ensures forall l :: 0 < l < |b.next| ==> CachesAt(b.caches, l) == b.next[l - 1]
    ensures multiset(b.attached) == multiset(b.testers)
  {
    hide CachesAt, Fan, Testers, Prototypes, Scaled, Grown, ValidSpec;
    var protos := ScalePrototypes(s, l1);
    b := new Builder(s, l1, protos);
    ghost var empty := b.Now();
    ghost var added;
    var ok;
    b.WholeLists();
    SomeCaches(s);
    ok, added := b.MakeLevel(s.caches, protos, |s.caches|, false);
    GrownFromNothing(s, empty, b.Now(), added);
    total := NumTesters(s);
  }

  lemma SomeCaches(s: Spec)
    requires ValidSpec(s)
    ensures |s.caches| > 0
  {
  }

  lemma GrownFromNothing(s: Spec, a: Tree, b: Tree, added: seq<Tester>)
    requires ValidSpec(s) && Grown(s, a, b, |s.caches|, added)
    requires a.made == [] && a.testers == [] && a.caches == [] && a.attached == []
    requires forall l :: 0 <= l < |a.next| ==> a.next[l] == 0
    ensures |b.testers| == Testers(s, 0, |s.testers|)
    ensures forall l :: 0 <= l < |b.next| ==> b.next[l] == Fan(s, 0, |s.caches| - l)
    ensures forall l :: 0 < l < |b.next| ==> CachesAt(b.caches, l) == b.next[l - 1]
    ensures multiset(b.attached) == multiset(b.testers)
  {
    hide Fan, Testers;
    assert a.testers + added == added;
  }
}
