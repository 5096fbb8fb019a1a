/** Loading the upgraders: each script registers itself, legacy versions are chained, and
    forward dependencies are turned around while ordinary ones are audited. */
module UpgraderLoader {
  import opened Migrations

  type Table = map<Tag, Upgrader>

  /** What one script declares; `legacyVersion` counts only when `isLegacy` is set. */
  datatype Script = Script(upgrader: Upgrader, isLegacy: bool, legacyVersion: int)

  // ----- Legacy versions

  /** Version `v` depends on the version before it and on nothing else. */
  ghost predicate Follows(before: Table, after: Table, legacy: map<int, Tag>, v: int) {
    && v in legacy && v - 1 in legacy && legacy[v] in before && legacy[v] in after
    && after[legacy[v]] == before[legacy[v]].(depends := [legacy[v - 1]])
  }

  ghost predicate InChain(legacy: map<int, Tag>, n: int, t: Tag) {
    exists v :: 3 <= v < n && v in legacy && legacy[v] == t
  }

  /** The versions from 3 up to `n` follow one another; all other upgraders are as before. */
  ghost predicate Chained(before: Table, after: Table, legacy: map<int, Tag>, n: int) {
    && after.Keys == before.Keys
    && (forall t :: t in before ==> after[t] == before[t].(depends := after[t].depends))
    && (forall v :: 3 <= v < n ==> Follows(before, after, legacy, v))
    && (forall t :: t in before && !InChain(legacy, n, t) ==> after[t] == before[t])
  }

  ghost predicate OneVersionPerTag(legacy: map<int, Tag>) {
    forall v, w :: v in legacy && w in legacy && legacy[v] == legacy[w] ==> v == w
  }

  lemma ChainedStep(before: Table, after: Table, legacy: map<int, Tag>, n: int)
    requires OneVersionPerTag(legacy) && n >= 3 && n in legacy && n - 1 in legacy && legacy[n] in before
    requires Chained(before, after, legacy, n)
    ensures var t := legacy[n];
            Chained(before, after[t := after[t].(depends := [legacy[n - 1]])], legacy, n + 1)
  {
    var t := legacy[n];
    var after' := after[t := after[t].(depends := [legacy[n - 1]])];
    assert !InChain(legacy, n, t);
    forall v | 3 <= v < n + 1 ensures Follows(before, after', legacy, v) {
      assert v < n ==> Follows(before, after, legacy, v);
    }
    forall u | u in before && !InChain(legacy, n + 1, u) ensures after'[u] == before[u] {
      assert !InChain(legacy, n, u);
    }
  }

  /** Chains the versions from 3 on, as long as they are consecutive; the lookup of version
      2 fails when version 3 exists without it. */
  method ChainLegacy(before: Table, legacy: map<int, Tag>) returns (ok: bool, after: Table, n: int)
    requires OneVersionPerTag(legacy) && forall v :: v in legacy ==> legacy[v] in before
    ensures ok <==> (3 in legacy ==> 2 in legacy)
    ensures ok ==> Chained(before, after, legacy, n) && n >= 3 && n !in legacy
  {
    after, n := before, 3;
    ghost var left := legacy.Keys;
    while n in legacy
      invariant n >= 3 && (n > 3 ==> 2 in legacy && 3 in legacy && n - 1 in legacy)
      invariant Chained(before, after, legacy, n)
      invariant forall v :: v in legacy && v >= n ==> v in left
      decreases left
    {
      if n - 1 !in legacy {
        return false, after, n;
      }
      var t := legacy[n];
      ChainedStep(before, after, legacy, n);
      after := after[t := after[t].(depends := [legacy[n - 1]])];
      left := left - {n};
      n := n + 1;
    }
    ok := true;
  }

  // ----- Forward dependencies and the audit

  /** `d` has declared, among the first `n` scripts of `order`, that `t` depends on it. */
  ghost predicate Forwards(before: Table, order: seq<Tag>, n: nat, d: Tag, t: Tag)
    requires n <= |order|
  {
    d in order[..n] && d in before && t in before[d].fwdDepends
  }

  /** `after` adds to `before` the reversed forward dependencies and nothing else. */
  ghost predicate Turned(before: Table, after: Table, order: seq<Tag>, n: nat)
    requires n <= |order|
  {
    && after.Keys == before.Keys
    && (forall t :: t in before ==> after[t] == before[t].(depends := after[t].depends))
    && (forall t, d :: t in before ==>
          (d in after[t].depends <==> d in before[t].depends || Forwards(before, order, n, d, t)))
  }

  /** Every tag that an upgrader names, in either direction, is registered. */
  ghost predicate NamesKnown(before: Table, t: Tag)
    requires t in before
  {
    && (forall f :: f in before[t].fwdDepends ==> f in before)
    && (forall d :: d in before[t].depends ==> d in before)
  }

  ghost predicate AddedTo(before: Table, after: Table, tag: Tag, to: seq<Tag>) {
    && after.Keys == before.Keys
    && (forall t :: t in before ==> after[t] == before[t].(depends := after[t].depends))
    && (forall t, d :: t in before ==> (d in after[t].depends <==> d in before[t].depends || (d == tag && t in to)))
  }

  /** Makes every upgrader in `targets` depend on `tag`. */
  method Forward(before: Table, tag: Tag, targets: seq<Tag>) returns (ok: bool, after: Table)
    ensures ok <==> forall f :: f in targets ==> f in before
    ensures ok ==> AddedTo(before, after, tag, targets)
  {
    after := before;
    for j := 0 to |targets|
      invariant forall f :: f in targets[..j] ==> f in before
      invariant AddedTo(before, after, tag, targets[..j])
    {
      var fd := targets[j];
      assert targets[..j + 1] == targets[..j] + [fd];
      if fd !in after {
        return false, after;
      }
      after := after[fd := after[fd].(depends := after[fd].depends + [tag])];
    }
    assert targets[..|targets|] == targets;
    ok := true;
  }

  method Audit(table: Table, depends: seq<Tag>) returns (ok: bool)
    ensures ok <==> forall d :: d in depends ==> d in table
  {
    for j := 0 to |depends|
      invariant forall d :: d in depends[..j] ==> d in table
    {
      if depends[j] !in table {
        return false;
      }
    }
    ok := true;
  }

  lemma TurnedStep(before: Table, mid: Table, after: Table, order: seq<Tag>, n: nat)
    requires n < |order| && order[n] in before && Turned(before, mid, order, n)
    requires AddedTo(mid, after, order[n], before[order[n]].fwdDepends)
    ensures Turned(before, after, order, n + 1)
  {
    assert order[..n + 1] == order[..n] + [order[n]];
    forall t, d | t in before
      ensures d in after[t].depends <==> d in before[t].depends || Forwards(before, order, n + 1, d, t)
    {
      assert d in mid[t].depends <==> d in before[t].depends || Forwards(before, order, n, d, t);
    }
  }

  /** Resolves forward dependencies and audits ordinary ones, one upgrader after the other.
      It succeeds exactly when every tag named anywhere is registered. An audit passed
      before a later script appends a dependency still stands, because a script can only
      append its own, registered tag. */
  method Resolve(before: Table, order: seq<Tag>) returns (ok: bool, after: Table)
    requires forall t :: t in before <==> t in order
    ensures ok <==> forall t :: t in before ==> NamesKnown(before, t)
    ensures ok ==> Turned(before, after, order, |order|)
  {
    after := before;
    for n := 0 to |order|
      invariant forall t :: t in order[..n] ==> NamesKnown(before, t)
      invariant Turned(before, after, order, n)
    {
      var tag := order[n];
      assert order[..n + 1] == order[..n] + [tag];
      var fine, next := Forward(after, tag, after[tag].fwdDepends);
      if !fine {
        assert !NamesKnown(before, tag);
        return false, after;
      }
      TurnedStep(before, after, next, order, n);
      after := next;
      fine := Audit(after, after[tag].depends);
      if !fine {
        assert !NamesKnown(before, tag) by {
          var d :| d in after[tag].depends && d !in after;
          assert d in before[tag].depends || Forwards(before, order, n + 1, d, tag);
        }
        return false, after;
      }
      assert NamesKnown(before, tag);
    }
    assert order[..|order|] == order;
    ok := true;
  }

  /** After a successful load every dependency, forward ones included, is registered, and
      one upgrader depends on another exactly when either of the two says so. */
  lemma ResolvedIsAudited(before: Registry, after: Registry, order: seq<Tag>)
    requires forall t :: t in before.byTag <==> t in order
    requires forall t :: t in before.byTag ==> NamesKnown(before.byTag, t)
    requires Turned(before.byTag, after.byTag, order, |order|)
    ensures Audited(after)
    ensures forall t, d :: DependsOn(after, t, d) <==>
              t in before.byTag && (DependsOn(before, t, d) || (d in before.byTag && t in before.byTag[d].fwdDepends))
  {
    assert order[..|order|] == order;
    forall t, d
      ensures DependsOn(after, t, d) <==>
                t in before.byTag && (DependsOn(before, t, d) || (d in before.byTag && t in before.byTag[d].fwdDepends))
    {
      assert t in before.byTag ==>
        (d in after.byTag[t].depends <==> d in before.byTag[t].depends || Forwards(before.byTag, order, |order|, d, t));
    }
    forall t, d | t in after.byTag && d in after.byTag[t].depends ensures d in after.byTag {
      assert DependsOn(after, t, d);
      assert NamesKnown(before.byTag, t);
    }
  }

  // ----- The class-level tables

  class Loader {
    var tagSet: set<Tag>
    var untagSet: set<Tag>
    var byTag: Table
    var order: seq<Tag>
    var legacy: map<int, Tag>

    ghost function View(): Registry
      reads this
    {
      Registry(tagSet, untagSet, byTag)
    }

    ghost predicate Valid()
      reads this
    {
      && ValidRegistry(View())
      && (forall t :: t in byTag <==> t in order)
      && (forall v :: v in legacy ==> legacy[v] in byTag)
      && OneVersionPerTag(legacy)
    }

    constructor ()
      ensures Valid() && byTag == map[] && legacy == map[]
    {
      tagSet, untagSet, byTag, order, legacy := {}, {}, map[], [], map[];
    }

    /** A tag can be declared only once. */
    method Register(s: Script)
      requires Valid() && s.upgrader.tag !in byTag
      modifies this
      ensures Valid()
      ensures byTag == old(byTag)[s.upgrader.tag := s.upgrader]
      ensures legacy == if s.isLegacy then old(legacy)[s.legacyVersion := s.upgrader.tag] else old(legacy)
    {
      var t := s.upgrader.tag;
      if s.upgrader.kind == Upgrade {
        tagSet := tagSet + {t};
      } else {
        untagSet := untagSet + {t};
      }
      if s.isLegacy {
        legacy := legacy[s.legacyVersion := t];
      }
      byTag := byTag[t := s.upgrader];
      order := order + [t];
    }

    /** Links and audits the registered scripts; `linked` is the table between the two. */
    method Link() returns (ok: bool, ghost linked: Table, ghost n: int)
      requires Valid()
      modifies this`byTag
      ensures ok <==> (3 in legacy ==> 2 in legacy) && forall t :: t in linked ==> NamesKnown(linked, t)
      ensures (3 in legacy ==> 2 in legacy) ==> n >= 3 && n !in legacy && Chained(old(byTag), linked, legacy, n)
      ensures ok ==> Turned(linked, byTag, order, |order|) && Valid() && Audited(View())
    {
      var chained, table, end := ChainLegacy(byTag, legacy);
      linked, n := table, end;
      if !chained {
        return false, linked, n;
      }
      ghost var before := Registry(tagSet, untagSet, table);
      ok, table := Resolve(table, order);
      if ok {
        byTag := table;
        ResolvedIsAudited(before, View(), order);
      }
    }
  }
}
