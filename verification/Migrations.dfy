/** The checkpoint migration scheduler.
    Every upgrader adds its tag to a checkpoint and every downgrader removes its tag. A
    migration is ready when all tags it depends on are present. The scheduler applies all
    ready migrations in rounds until none is pending, and gives up when none is ready. */
module Migrations {

  datatype Tag = Tag(name: string)

  datatype Kind = Upgrade | Downgrade

  datatype Upgrader = Upgrader(tag: Tag, kind: Kind, depends: seq<Tag>, fwdDepends: seq<Tag>)

  /** The loaded upgraders: the tags to add, the tags to remove, and both by tag. */
  datatype Registry = Registry(tagSet: set<Tag>, untagSet: set<Tag>, byTag: map<Tag, Upgrader>)

  ghost predicate ValidRegistry(g: Registry) {
    && g.tagSet !! g.untagSet
    && g.byTag.Keys == g.tagSet + g.untagSet
    && (forall t :: t in g.tagSet ==> g.byTag[t].kind == Upgrade)
    && (forall t :: t in g.untagSet ==> g.byTag[t].kind == Downgrade)
  }

  /** Every dependency names a registered tag. */
  ghost predicate Audited(g: Registry) {
    forall t, d :: t in g.byTag && d in g.byTag[t].depends ==> d in g.byTag
  }

  predicate DependsOn(g: Registry, t: Tag, d: Tag) {
    t in g.byTag && d in g.byTag[t].depends
  }

  // ----- Rounds

  datatype State = State(pending: set<Tag>, tags: set<Tag>)

  function Scheduled(g: Registry, tags: set<Tag>): set<Tag> {
    (g.tagSet - tags) + (g.untagSet * tags)
  }

  function Start(g: Registry, tags: set<Tag>): State {
    State(Scheduled(g, tags), tags)
  }

  predicate IsReady(g: Registry, t: Tag, tags: set<Tag>)
    requires t in g.byTag
  {
    forall d :: d in g.byTag[t].depends ==> d in tags
  }

  function Ready(g: Registry, st: State): set<Tag>
    requires ValidRegistry(g) && st.pending <= g.byTag.Keys
  {
    set t | t in st.pending && IsReady(g, t, st.tags)
  }

  /** The tags after the migrations in `done`. */
  function Applied(g: Registry, tags: set<Tag>, done: set<Tag>): set<Tag> {
    (tags + done * g.tagSet) - done * g.untagSet
  }

  /** One round: every ready migration is applied, in whatever order. */
  function Step(g: Registry, st: State): (st': State)
    requires ValidRegistry(g) && st.pending <= g.byTag.Keys
    ensures st'.pending <= g.byTag.Keys
  {
    var ready := Ready(g, st);
    State(st.pending - ready, Applied(g, st.tags, ready))
  }

  /** The state before round `k`, counted from zero. */
  function StateAt(g: Registry, st: State, k: nat): (st': State)
    requires ValidRegistry(g) && st.pending <= g.byTag.Keys
    ensures st'.pending <= g.byTag.Keys
  {
    if k == 0 then st else Step(g, StateAt(g, st, k - 1))
  }

  /** The migrations applied in round `k`. */
  function Round(g: Registry, st: State, k: nat): set<Tag>
    requires ValidRegistry(g) && st.pending <= g.byTag.Keys
  {
    Ready(g, StateAt(g, st, k))
  }

  /** The scheduler stops before round `k`. */
  predicate Stops(g: Registry, st: State, k: nat)
    requires ValidRegistry(g) && st.pending <= g.byTag.Keys
  {
    Round(g, st, k) == {}
  }

  /** A migration is pending exactly as long as its tag has to be added or removed. */
  ghost predicate Inv(g: Registry, st: State) {
    st.pending == Scheduled(g, st.tags)
  }

  lemma StepInv(g: Registry, st: State)
    requires ValidRegistry(g) && Inv(g, st)
    ensures Inv(g, Step(g, st))
    ensures Step(g, st).tags - g.tagSet - g.untagSet == st.tags - g.tagSet - g.untagSet
  {
  }

  lemma {:induction false} RunInv(g: Registry, tags: set<Tag>, k: nat)
    requires ValidRegistry(g)
    ensures Inv(g, StateAt(g, Start(g, tags), k))
    ensures StateAt(g, Start(g, tags), k).tags - g.tagSet - g.untagSet == tags - g.tagSet - g.untagSet
  {
    if k > 0 {
      RunInv(g, tags, k - 1);
      StepInv(g, StateAt(g, Start(g, tags), k - 1));
    }
  }

  /** A run that leaves nothing pending ends with the tags of every upgrader and of no
      downgrader, leaves unknown tags alone, and a second run has nothing to do. */
  lemma FinalTags(g: Registry, tags: set<Tag>, k: nat)
    requires ValidRegistry(g) && StateAt(g, Start(g, tags), k).pending == {}
    ensures var final := StateAt(g, Start(g, tags), k).tags;
            final == (tags + g.tagSet) - g.untagSet && Scheduled(g, final) == {}
  {
    RunInv(g, tags, k);
    var final := StateAt(g, Start(g, tags), k).tags;
    assert g.tagSet <= final by {
      forall t | t in g.tagSet ensures t in final {
        assert t in final || t in Scheduled(g, final);
      }
    }
    assert g.untagSet !! final by {
      forall t | t in g.untagSet ensures t !in final {
        assert t !in final || t in Scheduled(g, final);
      }
    }
    forall t ensures t in final <==> t in (tags + g.tagSet) - g.untagSet {
      assert t in final - g.tagSet - g.untagSet <==> t in tags - g.tagSet - g.untagSet;
    }
  }

  lemma {:induction false} PendingShrinks(g: Registry, st: State, j: nat, k: nat)
    requires ValidRegistry(g) && st.pending <= g.byTag.Keys && j <= k
    ensures StateAt(g, st, k).pending <= StateAt(g, st, j).pending
    ensures j < k ==> StateAt(g, st, k).pending !! Round(g, st, j)
  {
    if j < k {
      PendingShrinks(g, st, j, k - 1);
    }
  }

  /** No migration is applied twice. */
  lemma AppliedOnce(g: Registry, st: State, t: Tag, j: nat, k: nat)
    requires ValidRegistry(g) && st.pending <= g.byTag.Keys
    requires t in Round(g, st, j) && t in Round(g, st, k)
    ensures j == k
  {
    if j < k {
      PendingShrinks(g, st, j, k);
    } else if k < j {
      PendingShrinks(g, st, k, j);
    }
  }

  /** What is no longer pending was applied in an earlier round, and nothing else was. */
  lemma {:induction false} AppliedIffScheduled(g: Registry, st: State, t: Tag, k: nat)
    requires ValidRegistry(g) && st.pending <= g.byTag.Keys
    ensures t in st.pending && t !in StateAt(g, st, k).pending <==> exists j :: 0 <= j < k && t in Round(g, st, j)
  {
    if k > 0 {
      AppliedIffScheduled(g, st, t, k - 1);
      PendingShrinks(g, st, 0, k - 1);
      if t in Round(g, st, k - 1) {
        assert t in st.pending && t !in StateAt(g, st, k).pending;
      } else if exists j :: 0 <= j < k && t in Round(g, st, j) {
        var j :| 0 <= j < k && t in Round(g, st, j);
        assert 0 <= j < k - 1;
      }
    }
  }

  /** Every round but the last one makes progress, so the scheduler stops within as many
      rounds as there are migrations. */
  lemma {:induction false} StopsInTime(g: Registry, st: State, k: nat)
    requires ValidRegistry(g) && st.pending <= g.byTag.Keys
    ensures |StateAt(g, st, k).pending| <= |st.pending| - k || exists j :: 0 <= j < k && Stops(g, st, j)
  {
    if k > 0 {
      StopsInTime(g, st, k - 1);
      if |StateAt(g, st, k - 1).pending| <= |st.pending| - (k - 1) && !Stops(g, st, k - 1) {
        Smaller(StateAt(g, st, k - 1).pending, Round(g, st, k - 1));
      }
    }
  }

  lemma Smaller<T>(s: set<T>, r: set<T>)
    requires r <= s && r != {}
    ensures |s - r| < |s|
  {
    var x :| x in r;
    Subset(s - r, s - {x});
    assert s == (s - {x}) + {x};
  }

  lemma {:induction false} Subset<T>(s: set<T>, t: set<T>)
    requires s <= t
    ensures |s| <= |t|
  {
    if s != {} {
      var x :| x in s;
      Subset(s - {x}, t - {x});
    }
  }

  // ----- When a migration runs

  /** A migration runs in the first round whose tags hold all its dependencies. */
  lemma EarliestRound(g: Registry, st: State, t: Tag, k: nat)
    requires ValidRegistry(g) && st.pending <= g.byTag.Keys && t in Round(g, st, k)
    ensures IsReady(g, t, StateAt(g, st, k).tags)
    ensures forall j :: 0 <= j < k ==> !IsReady(g, t, StateAt(g, st, j).tags)
  {
    forall j | 0 <= j < k ensures !IsReady(g, t, StateAt(g, st, j).tags) {
      PendingShrinks(g, st, j, k);
    }
  }

  /** No migration removes a tag. */
  ghost predicate OnlyUpgrades(g: Registry, tags: set<Tag>) {
    g.untagSet !! tags
  }

  lemma {:induction false} TagsGrow(g: Registry, tags: set<Tag>, d: Tag, k: nat)
    requires ValidRegistry(g) && OnlyUpgrades(g, tags)
    ensures OnlyUpgrades(g, StateAt(g, Start(g, tags), k).tags)
    ensures d in StateAt(g, Start(g, tags), k).tags
       <==> d in tags || exists j :: 0 <= j < k && d in Round(g, Start(g, tags), j)
  {
    var st := Start(g, tags);
    if k > 0 {
      TagsGrow(g, tags, d, k - 1);
      RunInv(g, tags, k - 1);
      assert Round(g, st, k - 1) !! g.untagSet;
      assert Round(g, st, k - 1) <= g.tagSet;
      assert StateAt(g, st, k).tags == StateAt(g, st, k - 1).tags + Round(g, st, k - 1);
      if d in StateAt(g, st, k).tags && d !in StateAt(g, st, k - 1).tags {
        assert d in Round(g, st, k - 1);
      }
      if exists j :: 0 <= j < k && d in Round(g, st, j) {
        var j :| 0 <= j < k && d in Round(g, st, j);
        assert j < k - 1 || d in StateAt(g, st, k).tags;
      }
    }
  }

  /** With upgraders only, the round of a migration is one more than the last round of the
      pending tags it depends on: all of them run earlier, and unless it runs in the first
      round, one of them runs in the round just before. */
  lemma RoundFollowsDependencies(g: Registry, tags: set<Tag>, t: Tag, k: nat)
    requires ValidRegistry(g) && OnlyUpgrades(g, tags) && t in Round(g, Start(g, tags), k)
    ensures forall d :: DependsOn(g, t, d) ==> d in tags || exists j :: 0 <= j < k && d in Round(g, Start(g, tags), j)
    ensures k > 0 ==> exists d :: DependsOn(g, t, d) && d in Round(g, Start(g, tags), k - 1)
  {
    hide StateAt, Start;
    var st := Start(g, tags);
    StartsPending(g, tags);
    EarliestRound(g, st, t, k);
    forall d | DependsOn(g, t, d) ensures d in tags || exists j :: 0 <= j < k && d in Round(g, st, j) {
      TagsGrow(g, tags, d, k);
    }
    if k > 0 {
      assert !IsReady(g, t, StateAt(g, st, k - 1).tags);
      var d :| d in g.byTag[t].depends && d !in StateAt(g, st, k - 1).tags;
      JustAdded(g, tags, d, k - 1);
      assert DependsOn(g, t, d);
    }
  }

  lemma StartsPending(g: Registry, tags: set<Tag>)
    requires ValidRegistry(g)
    ensures Start(g, tags).pending <= g.byTag.Keys
  {
  }

  lemma JustAdded(g: Registry, tags: set<Tag>, d: Tag, k: nat)
    requires ValidRegistry(g) && OnlyUpgrades(g, tags)
    requires d !in StateAt(g, Start(g, tags), k).tags && d in StateAt(g, Start(g, tags), k + 1).tags
    ensures d in Round(g, Start(g, tags), k)
  {
    var st := Start(g, tags);
    TagsGrow(g, tags, d, k);
    TagsGrow(g, tags, d, k + 1);
    var j :| 0 <= j < k + 1 && d in Round(g, st, j);
    assert j == k;
  }

  /** A dependency on a tag with a downgrader: the dependent migration runs in no later round
      than the removal of that tag. */
  lemma NeverAfterDowngrade(g: Registry, tags: set<Tag>, t: Tag, d: Tag, j: nat, k: nat)
    requires ValidRegistry(g) && DependsOn(g, t, d) && d in g.untagSet
    requires t in Round(g, Start(g, tags), k)
    ensures d in tags
    ensures d in Round(g, Start(g, tags), j) ==> k <= j
  {
    var st := Start(g, tags);
    EarliestRound(g, st, t, k);
    RunInv(g, tags, k);
    assert d in StateAt(g, st, k).pending;
    PendingShrinks(g, st, 0, k);
    if d in Round(g, st, j) && j < k {
      PendingShrinks(g, st, j, k);
    }
  }

  /** So the documented order is not enforced: here the upgrader of "b" depends on "a", whose
      downgrader is pending, and both run in the first round, in either order; once "a" is
      gone, the upgrader is stuck for good. */
  lemma DowngradeOrderCounterexample()
    ensures exists g :: ValidRegistry(g) && Audited(g) && DependsOn(g, Tag("b"), Tag("a")) && Tag("a") in g.untagSet
              && Lists([Tag("a"), Tag("b")], Round(g, Start(g, {Tag("a")}), 0))
              && Lists([Tag("b"), Tag("a")], Round(g, Start(g, {Tag("a")}), 0))
              && Scheduled(g, {}) == {Tag("b")} && Stops(g, Start(g, {}), 0)
  {
    var a, b := Tag("a"), Tag("b");
    assert a != b by { assert a.name[0] != b.name[0]; }
    var g := Registry({b}, {a}, map[a := Upgrader(a, Downgrade, [], []), b := Upgrader(b, Upgrade, [a], [])]);
    assert g.byTag.Keys == {a, b};
    assert ValidRegistry(g) && Audited(g) && DependsOn(g, b, a);
    assert Round(g, Start(g, {a}), 0) == {a, b};
    assert Scheduled(g, {}) == {b};
    assert a in g.byTag[b].depends;
    assert Round(g, Start(g, {}), 0) == {};
  }

  // ----- The order within a round

  /** `s` lists the members of `r`, each once. */
  ghost predicate Lists(s: seq<Tag>, r: set<Tag>) {
    && (forall i :: 0 <= i < |s| ==> s[i] in r)
    && (forall t :: t in r ==> t in s)
    && (forall i, j :: 0 <= i < j < |s| ==> s[i] != s[j])
  }

  /** The tags after the migrations `s`, one by one. */
  function After(g: Registry, tags: set<Tag>, s: seq<Tag>): set<Tag> {
    if s == [] then tags
    else
      var before, t := After(g, tags, s[..|s| - 1]), s[|s| - 1];
      if t in g.byTag && g.byTag[t].kind == Upgrade then before + {t} else before - {t}
  }

  lemma AppliedOneMore(g: Registry, tags: set<Tag>, done: set<Tag>, tag: Tag)
    requires ValidRegistry(g) && tag in Scheduled(g, tags) && tag !in done
    ensures tag in g.tagSet ==> Applied(g, tags, done + {tag}) == Applied(g, tags, done) + {tag}
    ensures tag in g.untagSet ==> tag in Applied(g, tags, done)
                                  && Applied(g, tags, done + {tag}) == Applied(g, tags, done) - {tag}
  {
  }

  lemma AppliedNone(g: Registry, tags: set<Tag>)
    ensures Applied(g, tags, {}) == tags
  {
  }

  function Members(s: seq<Tag>): set<Tag> {
    set t | t in s
  }

  /** Part of the way through a round, the migrations listed so far are done, in whatever
      order. */
  lemma {:induction false} AfterIsApplied(g: Registry, tags: set<Tag>, s: seq<Tag>)
    requires ValidRegistry(g) && Members(s) <= Scheduled(g, tags)
    requires forall i, j :: 0 <= i < j < |s| ==> s[i] != s[j]
    ensures After(g, tags, s) == Applied(g, tags, Members(s))
  {
    hide Applied, Scheduled;
    AppliedNone(g, tags);
    if s == [] {
      assert Members(s) == {};
    } else {
      var rest, t := s[..|s| - 1], s[|s| - 1];
      assert Members(s) == Members(rest) + {t} && t !in Members(rest);
      AfterIsApplied(g, tags, rest);
      AppliedOneMore(g, tags, Members(rest), t);
      ScheduledKind(g, tags, t);
    }
  }

  lemma ScheduledKind(g: Registry, tags: set<Tag>, t: Tag)
    requires ValidRegistry(g) && t in Scheduled(g, tags)
    ensures t in g.byTag && (g.byTag[t].kind == Upgrade <==> t in g.tagSet) && (t in g.tagSet || t in g.untagSet)
  {
  }

  /** `s` is an order in which round `k` may be applied, and `t` comes at place `n`. */
  ghost predicate AppliedAt(g: Registry, tags: set<Tag>, s: seq<Tag>, k: nat, n: nat, t: Tag)
    requires ValidRegistry(g)
  {
    Lists(s, Round(g, Start(g, tags), k)) && n < |s| && s[n] == t
  }

  /** A dependency is there when the dependent migration is applied, unless its downgrader
      comes before it in the same round. */
  lemma PresentWhenApplied(g: Registry, tags: set<Tag>, s: seq<Tag>, k: nat, n: nat, t: Tag, d: Tag)
    requires ValidRegistry(g) && AppliedAt(g, tags, s, k, n, t) && DependsOn(g, t, d)
    ensures d in After(g, StateAt(g, Start(g, tags), k).tags, s[..n]) <==> !(d in g.untagSet && d in s[..n])
  {
    var st := Start(g, tags);
    var cur := StateAt(g, st, k);
    EarliestRound(g, st, t, k);
    RunInv(g, tags, k);
    AfterIsApplied(g, cur.tags, s[..n]);
    assert d in cur.tags;
  }

  /** The dependencies of `t` are there when it is applied. */
  ghost predicate Supported(g: Registry, tags: set<Tag>, s: seq<Tag>, n: nat, t: Tag) {
    n <= |s| && forall d :: DependsOn(g, t, d) ==> d in After(g, tags, s[..n])
  }

  /** The dependencies of a migration are there when it is applied, in every order of its
      round, if and only if no other migration of that round removes one of them. */
  lemma SupportedIff(g: Registry, tags: set<Tag>, k: nat, t: Tag)
    requires ValidRegistry(g) && t in Round(g, Start(g, tags), k)
    ensures (forall s, n | AppliedAt(g, tags, s, k, n, t) ::
               Supported(g, StateAt(g, Start(g, tags), k).tags, s, n, t))
       <==> (forall d :: DependsOn(g, t, d) && d != t ==> !(d in g.untagSet && d in Round(g, Start(g, tags), k)))
  {
    hide Round, StateAt, Start;
    StartsPending(g, tags);
    var round, cur := Round(g, Start(g, tags), k), StateAt(g, Start(g, tags), k).tags;
    if forall d :: DependsOn(g, t, d) && d != t ==> !(d in g.untagSet && d in round) {
      forall s, n | AppliedAt(g, tags, s, k, n, t) ensures Supported(g, cur, s, n, t) {
        forall d | DependsOn(g, t, d) ensures d in After(g, cur, s[..n]) {
          PresentWhenApplied(g, tags, s, k, n, t, d);
        }
      }
    } else {
      var d :| DependsOn(g, t, d) && d != t && d in g.untagSet && d in round;
      var s, n := RemovedFirst(round, d, t);
      assert AppliedAt(g, tags, s, k, n, t);
      PresentWhenApplied(g, tags, s, k, n, t, d);
      assert !Supported(g, cur, s, n, t);
    }
  }

  lemma RemovedFirst(r: set<Tag>, d: Tag, t: Tag) returns (s: seq<Tag>, n: nat)
    requires d in r && t in r && d != t
    ensures Lists(s, r) && n < |s| && s[n] == t && d in s[..n]
  {
    var rest := Listing(r - {d, t});
    s, n := [d, t] + rest, 1;
    forall x | x in r ensures x in s {
      assert s[0] == d && s[1] == t;
      assert x in rest || x == d || x == t;
    }
  }

  lemma {:induction false} Listing(r: set<Tag>) returns (s: seq<Tag>)
    ensures Lists(s, r)
  {
    if r == {} {
      s := [];
    } else {
      var t :| t in r;
      var rest := Listing(r - {t});
      s := rest + [t];
      forall x | x in r ensures x in s {
        assert s[|rest|] == t;
      }
    }
  }

  /** `order` lists, round by round, the migrations in an order in which they may be applied. */
  ghost predicate RunOrder(g: Registry, tags: set<Tag>, order: seq<seq<Tag>>)
    requires ValidRegistry(g)
  {
    forall k :: 0 <= k < |order| ==> Lists(order[k], Round(g, Start(g, tags), k))
  }

  /** Place `m` of round `j` comes before place `n` of round `k`. */
  predicate Earlier(j: nat, m: nat, k: nat, n: nat) {
    j < k || (j == k && m < n)
  }

  /** In every order of a run, the removal of a tag comes before a migration that depends on it
      if and only if both are in the same round and the removal is listed first. */
  lemma RemovalPrecedesIff(g: Registry, tags: set<Tag>, order: seq<seq<Tag>>, j: nat, m: nat, k: nat, n: nat)
    requires ValidRegistry(g) && RunOrder(g, tags, order)
    requires j < |order| && m < |order[j]| && k < |order| && n < |order[k]|
    requires DependsOn(g, order[k][n], order[j][m]) && order[j][m] in g.untagSet
    ensures Earlier(j, m, k, n) <==> j == k && m < n
  {
    NeverAfterDowngrade(g, tags, order[k][n], order[j][m], j, k);
  }

  // ----- When the scheduler gives up

  /** A chain of pending migrations, each depending on the next, that closes. */
  ghost predicate Cycle(g: Registry, s: set<Tag>, c: seq<Tag>) {
    Walk(g, s, c) && |c| >= 2 && c[0] == c[|c| - 1]
  }

  ghost predicate Walk(g: Registry, s: set<Tag>, c: seq<Tag>) {
    && (forall i :: 0 <= i < |c| ==> c[i] in s)
    && (forall i :: 0 <= i < |c| - 1 ==> DependsOn(g, c[i], c[i + 1]))
  }

  lemma {:induction false} CycleStaysPending(g: Registry, tags: set<Tag>, c: seq<Tag>, k: nat)
    requires ValidRegistry(g) && Cycle(g, g.tagSet - tags, c)
    ensures forall i :: 0 <= i < |c| ==> c[i] in StateAt(g, Start(g, tags), k).pending
  {
    var st := Start(g, tags);
    if k > 0 {
      CycleStaysPending(g, tags, c, k - 1);
      RunInv(g, tags, k - 1);
      var cur := StateAt(g, st, k - 1);
      forall i | 0 <= i < |c| ensures c[i] !in Round(g, st, k - 1) {
        var next := if i < |c| - 1 then i + 1 else 1;
        assert DependsOn(g, c[i], c[next]) by {
          assert DependsOn(g, c[next - 1], c[next - 1 + 1]);
        }
        assert c[next] in cur.pending;
      }
    }
  }

  ghost predicate DependsInto(g: Registry, s: set<Tag>, t: Tag) {
    exists d :: d in s && DependsOn(g, t, d)
  }

  /** Every member depends on a member. */
  ghost predicate Entangled(g: Registry, s: set<Tag>) {
    forall t {:trigger DependsInto(g, s, t)} :: t in s ==> DependsInto(g, s, t)
  }

  lemma {:induction false} WalkOn(g: Registry, s: set<Tag>, n: nat) returns (c: seq<Tag>)
    requires s != {} && Entangled(g, s)
    ensures |c| == n + 1 && Walk(g, s, c)
  {
    if n == 0 {
      var t :| t in s;
      c := [t];
    } else {
      var p := WalkOn(g, s, n - 1);
      assert DependsInto(g, s, p[n - 1]);
      var d :| d in s && DependsOn(g, p[n - 1], d);
      c := p + [d];
      forall i | 0 <= i < |c| - 1 ensures DependsOn(g, c[i], c[i + 1]) {
        assert i < n - 1 ==> DependsOn(g, p[i], p[i + 1]);
      }
    }
  }

  lemma {:induction false} Pigeonhole(c: seq<Tag>, s: set<Tag>) returns (i: nat, j: nat)
    requires |c| > |s| && forall k :: 0 <= k < |c| ==> c[k] in s
    ensures i < j < |c| && c[i] == c[j]
  {
    var last := c[|c| - 1];
    var rest := c[..|c| - 1];
    if last in rest {
      i :| 0 <= i < |rest| && rest[i] == last;
      j := |c| - 1;
    } else {
      i, j := Pigeonhole(rest, s - {last});
    }
  }

  lemma EntangledHasCycle(g: Registry, s: set<Tag>) returns (c: seq<Tag>)
    requires s != {} && Entangled(g, s)
    ensures Cycle(g, s, c)
  {
    var w := WalkOn(g, s, |s|);
    var i, j := Pigeonhole(w, s);
    c := w[i..j + 1];
    forall k | 0 <= k < |c| - 1 ensures DependsOn(g, c[k], c[k + 1]) {
      assert DependsOn(g, w[i + k], w[i + k + 1]);
    }
  }

  /** A scheduled migration depends on a tag that is absent and that no upgrader adds. */
  ghost predicate Missing(g: Registry, tags: set<Tag>) {
    exists t, d :: t in Scheduled(g, tags) && DependsOn(g, t, d) && d !in tags && d !in g.tagSet
  }

  /** A tag that `t` depends on is removed in round `j`, and `t` has not run by then. */
  ghost predicate TooLate(g: Registry, tags: set<Tag>, t: Tag, d: Tag, j: nat)
    requires ValidRegistry(g)
  {
    && t in Scheduled(g, tags) && DependsOn(g, t, d) && d in g.untagSet && d in Round(g, Start(g, tags), j)
    && forall i :: 0 <= i <= j ==> t !in Round(g, Start(g, tags), i)
  }

  /** A tag that is gone and that no upgrader adds stays away. */
  lemma {:induction false} StaysAway(g: Registry, st: State, d: Tag, j: nat, k: nat)
    requires ValidRegistry(g) && st.pending <= g.byTag.Keys && j <= k
    requires d !in StateAt(g, st, j).tags && d !in g.tagSet
    ensures d !in StateAt(g, st, k).tags
  {
    if j < k {
      StaysAway(g, st, d, j, k - 1);
    }
  }

  /** What waits for such a tag is never applied. */
  lemma WaitsForever(g: Registry, st: State, t: Tag, d: Tag, j: nat, k: nat)
    requires ValidRegistry(g) && st.pending <= g.byTag.Keys
    requires t in st.pending && DependsOn(g, t, d) && d !in StateAt(g, st, j).tags && d !in g.tagSet
    requires forall i :: 0 <= i < j ==> t !in Round(g, st, i)
    ensures t in StateAt(g, st, k).pending
  {
    hide StateAt;
    if t !in StateAt(g, st, k).pending {
      AppliedIffScheduled(g, st, t, k);
      var i :| 0 <= i < k && t in Round(g, st, i);
      StaysAway(g, st, d, j, i);
      assert false;
    }
  }

  lemma TooLateStaysPending(g: Registry, tags: set<Tag>, t: Tag, d: Tag, j: nat, k: nat)
    requires ValidRegistry(g) && TooLate(g, tags, t, d, j)
    ensures t in StateAt(g, Start(g, tags), k).pending
  {
    var st := Start(g, tags);
    assert d !in StateAt(g, st, j + 1).tags;
    WaitsForever(g, st, t, d, j + 1, k);
  }

  /** A tag that was there and is no longer was removed in some round. */
  lemma {:induction false} RemovedIn(g: Registry, tags: set<Tag>, d: Tag, k: nat) returns (j: nat)
    requires ValidRegistry(g) && d in tags && d !in StateAt(g, Start(g, tags), k).tags
    ensures j < k && d in g.untagSet && d in Round(g, Start(g, tags), j)
  {
    var st := Start(g, tags);
    if d in StateAt(g, st, k - 1).tags {
      j := k - 1;
    } else {
      j := RemovedIn(g, tags, d, k - 1);
    }
  }

  /** The run gives up with migrations pending if and only if upgraders that are to run depend on
      each other in a cycle, or a scheduled migration depends on a tag that nothing can provide,
      or on one that is removed before the migration could run. */
  lemma GivesUpIff(g: Registry, tags: set<Tag>, k: nat)
    requires ValidRegistry(g) && Stops(g, Start(g, tags), k)
    ensures StateAt(g, Start(g, tags), k).pending != {}
       <==> || (exists c :: Cycle(g, g.tagSet - tags, c))
            || Missing(g, tags)
            || (exists t, d, j :: TooLate(g, tags, t, d, j))
  {
    hide StateAt, TooLate;
    var st := Start(g, tags);
    var end := StateAt(g, st, k);
    if c :| Cycle(g, g.tagSet - tags, c) {
      CycleStaysPending(g, tags, c, k);
    }
    if Missing(g, tags) {
      var t, d :| t in Scheduled(g, tags) && DependsOn(g, t, d) && d !in tags && d !in g.tagSet;
      AtStart(g, st);
      WaitsForever(g, st, t, d, 0, k);
    }
    if t, d, j :| TooLate(g, tags, t, d, j) {
      TooLateStaysPending(g, tags, t, d, j, k);
    }
    if end.pending != {} && !Missing(g, tags) && !(exists t, d, j :: TooLate(g, tags, t, d, j)) {
      var c := StuckHasCycle(g, tags, k);
    }
  }

  lemma AtStart(g: Registry, st: State)
    requires ValidRegistry(g) && st.pending <= g.byTag.Keys
    ensures StateAt(g, st, 0) == st
  {
  }

  /** The upgraders among what is pending at the end. */
  function Blocked(g: Registry, tags: set<Tag>, k: nat): set<Tag>
    requires ValidRegistry(g)
  {
    StateAt(g, Start(g, tags), k).pending * (g.tagSet - tags)
  }

  lemma StuckHasCycle(g: Registry, tags: set<Tag>, k: nat) returns (c: seq<Tag>)
    requires ValidRegistry(g) && Stops(g, Start(g, tags), k) && StateAt(g, Start(g, tags), k).pending != {}
    requires !Missing(g, tags) && !(exists t, d, j :: TooLate(g, tags, t, d, j))
    ensures Cycle(g, g.tagSet - tags, c)
  {
    hide StateAt, TooLate, Missing;
    var p := Blocked(g, tags, k);
    var t :| t in StateAt(g, Start(g, tags), k).pending;
    StuckDependsOnBlocked(g, tags, k, t);
    forall t | t in p ensures DependsInto(g, p, t) {
      StuckDependsOnBlocked(g, tags, k, t);
    }
    c := EntangledHasCycle(g, p);
  }

  lemma StuckDependsOnBlocked(g: Registry, tags: set<Tag>, k: nat, t: Tag)
    requires ValidRegistry(g) && Stops(g, Start(g, tags), k) && t in StateAt(g, Start(g, tags), k).pending
    requires !Missing(g, tags) && !(exists t, d, j :: TooLate(g, tags, t, d, j))
    ensures DependsInto(g, Blocked(g, tags, k), t)
  {
    hide StateAt, TooLate;
    var st := Start(g, tags);
    var end := StateAt(g, st, k);
    assert t !in Round(g, st, k);
    var d :| d in g.byTag[t].depends && d !in end.tags;
    assert DependsOn(g, t, d);
    StillScheduled(g, tags, t, k);
    if d in tags {
      var j := RemovedIn(g, tags, d, k);
      IsTooLate(g, tags, t, d, j, k);
      assert false;
    }
    assert d in g.tagSet;
    RunInv(g, tags, k);
    assert d in Blocked(g, tags, k);
  }

  lemma IsTooLate(g: Registry, tags: set<Tag>, t: Tag, d: Tag, j: nat, k: nat)
    requires ValidRegistry(g) && t in Scheduled(g, tags) && DependsOn(g, t, d) && j < k
    requires d in g.untagSet && d in Round(g, Start(g, tags), j)
    requires forall i :: 0 <= i < k ==> t !in Round(g, Start(g, tags), i)
    ensures TooLate(g, tags, t, d, j)
  {
  }

  lemma StillScheduled(g: Registry, tags: set<Tag>, t: Tag, k: nat)
    requires ValidRegistry(g) && t in StateAt(g, Start(g, tags), k).pending
    ensures t in Scheduled(g, tags) && forall i :: 0 <= i < k ==> t !in Round(g, Start(g, tags), i)
  {
    PendingShrinks(g, Start(g, tags), 0, k);
    forall i | 0 <= i < k ensures t !in Round(g, Start(g, tags), i) {
      PendingShrinks(g, Start(g, tags), i, k);
    }
  }

  /** With upgraders only and every dependency known, cycles are the only reason. */
  lemma GivesUpIffCycle(g: Registry, tags: set<Tag>, k: nat)
    requires ValidRegistry(g) && Audited(g) && g.untagSet == {} && Stops(g, Start(g, tags), k)
    ensures StateAt(g, Start(g, tags), k).pending != {} <==> exists c :: Cycle(g, Scheduled(g, tags), c)
  {
    hide StateAt;
    GivesUpIff(g, tags, k);
    assert Scheduled(g, tags) == g.tagSet - tags;
  }

  // ----- The loop that applies migrations

  /** What happened: the final tags and, round by round, the migrations in the order in
      which they were applied; or the migrations that could not be applied. */
  datatype Outcome = Migrated(tags: set<Tag>, applied: seq<seq<Tag>>) | Aborted(pending: set<Tag>)

  lemma AfterSteps(g: Registry, tags: set<Tag>, s: seq<Tag>, t: Tag)
    ensures After(g, tags, []) == tags
    ensures After(g, tags, s + [t])
         == if t in g.byTag && g.byTag[t].kind == Upgrade then After(g, tags, s) + {t} else After(g, tags, s) - {t}
  {
    assert (s + [t])[..|s|] == s;
  }

  /** Applies the ready migrations one by one, in any order. */
  method ApplyRound(g: Registry, ready: set<Tag>, tags: set<Tag>) returns (tags': set<Tag>, segment: seq<Tag>)
    requires ValidRegistry(g) && ready <= Scheduled(g, tags)
    ensures tags' == Applied(g, tags, ready) && Lists(segment, ready) && tags' == After(g, tags, segment)
  {
    hide Applied, After;
    tags', segment := tags, [];
    var todo := ready;
    ghost var done: set<Tag> := {};
    AppliedNone(g, tags);
    AfterSteps(g, tags, [], Tag(""));
    while todo != {}
      invariant todo == ready - done && done <= ready
      invariant tags' == Applied(g, tags, done) && Lists(segment, done) && tags' == After(g, tags, segment)
    {
      var tag :| tag in todo;
      AppliedOneMore(g, tags, done, tag);
      AfterSteps(g, tags, segment, tag);
      if g.byTag[tag].kind == Upgrade {
        tags' := tags' + {tag};
      } else {
        assert tag in tags';
        tags' := tags' - {tag};
      }
      segment := segment + [tag];
      done := done + {tag};
      todo := todo - {tag};
    }
    assert done == ready;
  }

  /** Migrates the tags of one checkpoint. The removal of a tag never misses, and for every
      order in which a round may be applied the run is the one that the rounds describe. */
  method ProcessFile(g: Registry, tags: set<Tag>) returns (out: Outcome, ghost rounds: nat)
    requires ValidRegistry(g)
    ensures Stops(g, Start(g, tags), rounds)
    ensures out.Migrated? <==> StateAt(g, Start(g, tags), rounds).pending == {}
    ensures out.Migrated? ==>
              && out.tags == StateAt(g, Start(g, tags), rounds).tags
              && |out.applied| == rounds && RunOrder(g, tags, out.applied)
    ensures out.Aborted? ==> out.pending == StateAt(g, Start(g, tags), rounds).pending
  {
    hide Lists, Applied;
    var current, toApply := tags, Scheduled(g, tags);
    var applied: seq<seq<Tag>> := [];
    ghost var st := Start(g, tags);
    rounds := 0;
    while toApply != {}
      invariant toApply <= g.byTag.Keys && StateAt(g, st, rounds) == State(toApply, current)
      invariant |applied| == rounds
      invariant forall k :: 0 <= k < rounds ==> Lists(applied[k], Round(g, st, k))
      decreases toApply
    {
      var ready := set t | t in toApply && IsReady(g, t, current);
      assert ready == Round(g, st, rounds);
      if ready == {} {
        return Aborted(toApply), rounds;
      }
      RunInv(g, tags, rounds);
      var segment;
      current, segment := ApplyRound(g, ready, current);
      applied := applied + [segment];
      toApply := toApply - ready;
      rounds := rounds + 1;
    }
    out := Migrated(current, applied);
  }
}
