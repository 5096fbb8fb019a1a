/** Binding ports from a configuration file.
    Every connection is listed in both directions. One pass over the list binds a
    connection when both ends carry the next free index of their port, and the result is
    accepted when exactly half of the list was bound. */
module PortBinder {
  import opened Distinct

  /** A port of an object; a vector port has several indices. */
  datatype Port = Port(objectName: string, portName: string)

  datatype End = End(port: Port, index: int)

  datatype Connection = Connection(from: End, to: End)

  function Reverse(c: Connection): Connection {
    Connection(c.to, c.from)
  }

  /** The next free index of every port. */
  type Counters = map<Port, int>

  // ----- The pass

  predicate Bindable(c: Connection, next: Counters) {
    && c.from.port in next && next[c.from.port] == c.from.index
    && c.to.port in next && next[c.to.port] == c.to.index
  }

  function Bump(next: Counters, p: Port): Counters
    requires p in next
  {
    next[p := next[p] + 1]
  }

  datatype State = State(next: Counters, bound: seq<Connection>)

  function Visit(st: State, c: Connection): State {
    if Bindable(c, st.next) then State(Bump(Bump(st.next, c.from.port), c.to.port), st.bound + [c]) else st
  }

  function FromPorts(connections: seq<Connection>): (ports: set<Port>)
    ensures forall i :: 0 <= i < |connections| ==> connections[i].from.port in ports
    ensures forall p :: p in ports ==> exists i :: 0 <= i < |connections| && connections[i].from.port == p
  {
    if connections == [] then {}
    else FromPorts(connections[..|connections| - 1]) + {connections[|connections| - 1].from.port}
  }

  function Initial(connections: seq<Connection>): State {
    State(map p | p in FromPorts(connections) :: 0, [])
  }

  /** The state after the first `n` connections of `s` were visited. */
  function Fold(st: State, s: seq<Connection>, n: nat): State
    requires n <= |s|
  {
    if n == 0 then st else Visit(Fold(st, s, n - 1), s[n - 1])
  }

  /** The state after the first `n` connections of the whole list. */
  function After(order: seq<Connection>, n: nat): State
    requires n <= |order|
  {
    Fold(Initial(order), order, n)
  }

  function Bound(order: seq<Connection>): seq<Connection> {
    After(order, |order|).bound
  }

  predicate Accepted(order: seq<Connection>) {
    2 * |Bound(order)| == |order|
  }

  // ----- What is attached to a port

  /** The connections bound at port `p`, seen from there, in the order of binding. */
  function Attached(bound: seq<Connection>, p: Port): seq<Connection> {
    if bound == [] then []
    else
      var rest, c := Attached(bound[..|bound| - 1], p), bound[|bound| - 1];
      if c.from.port == p then rest + [c] else if c.to.port == p then rest + [Reverse(c)] else rest
  }

  lemma AttachedSnoc(bound: seq<Connection>, c: Connection, p: Port)
    ensures Attached(bound + [c], p)
         == if c.from.port == p then Attached(bound, p) + [c]
            else if c.to.port == p then Attached(bound, p) + [Reverse(c)]
            else Attached(bound, p)
  {
    assert (bound + [c])[..|bound|] == bound;
  }

  /** Port `p` holds indices 0, 1, 2, ... in the order of binding, without gap or repetition,
      and every one of them comes from a bound connection. */
  ghost predicate InOrder(bound: seq<Connection>, p: Port) {
    forall k :: 0 <= k < |Attached(bound, p)| ==>
      && Attached(bound, p)[k].from == End(p, k)
      && (Attached(bound, p)[k] in bound || Reverse(Attached(bound, p)[k]) in bound)
  }

  /** Connection `c` sits at its index of its port. */
  ghost predicate Sits(bound: seq<Connection>, c: Connection) {
    0 <= c.from.index < |Attached(bound, c.from.port)| && Attached(bound, c.from.port)[c.from.index] == c
  }

  ghost predicate Inv(st: State) {
    && (forall p :: p in st.next ==> InOrder(st.bound, p) && st.next[p] == |Attached(st.bound, p)|)
    && (forall k :: 0 <= k < |st.bound| ==> Sits(st.bound, st.bound[k]) && Sits(st.bound, Reverse(st.bound[k])))
    && (forall k :: 0 <= k < |st.bound| ==> st.bound[k].from.port in st.next && st.bound[k].to.port in st.next)
  }

  lemma BindInv(st: State, c: Connection)
    requires Inv(st) && c.from != c.to && Bindable(c, st.next)
    ensures Inv(Visit(st, c))
  {
    hide InOrder, Sits, Attached;
    var st' := Visit(st, c);
    forall p | p in st.next ensures InOrder(st'.bound, p) && st'.next[p] == |Attached(st'.bound, p)| {
      BindInOrder(st, c, p);
    }
    forall k | 0 <= k < |st'.bound|
      ensures Sits(st'.bound, st'.bound[k]) && Sits(st'.bound, Reverse(st'.bound[k]))
    {
      if k < |st.bound| {
        BindSits(st, c, st.bound[k]);
        BindSits(st, c, Reverse(st.bound[k]));
      } else {
        NewSits(st, c);
      }
    }
  }

  lemma BindInOrder(st: State, c: Connection, p: Port)
    requires Inv(st) && c.from != c.to && Bindable(c, st.next) && p in st.next
    ensures InOrder(st.bound + [c], p) && Visit(st, c).next[p] == |Attached(st.bound + [c], p)|
  {
    AttachedSnoc(st.bound, c, p);
    assert InOrder(st.bound, p);
  }

  /** What sits keeps its place. */
  lemma BindSits(st: State, c: Connection, x: Connection)
    requires Sits(st.bound, x)
    ensures Sits(st.bound + [c], x)
  {
    AttachedSnoc(st.bound, c, x.from.port);
  }

  lemma NewSits(st: State, c: Connection)
    requires Inv(st) && c.from != c.to && Bindable(c, st.next)
    ensures Sits(st.bound + [c], c) && Sits(st.bound + [c], Reverse(c))
  {
    AttachedSnoc(st.bound, c, c.from.port);
    AttachedSnoc(st.bound, c, c.to.port);
  }

  /** The other direction is listed too, and the connection joins two different ends. */
  ghost predicate Paired(order: seq<Connection>, c: Connection) {
    Reverse(c) in order && c.from != c.to
  }

  ghost predicate Symmetric(order: seq<Connection>) {
    forall c {:trigger Paired(order, c)} :: c in order ==> Paired(order, c)
  }

  lemma InitialInv(order: seq<Connection>)
    ensures Inv(Initial(order))
  {
  }

  /** Every state of a pass over listed connections keeps the invariant. */
  lemma {:induction false} FoldInv(order: seq<Connection>, s: seq<Connection>, n: nat)
    requires n <= |s| && Symmetric(order) && forall i :: 0 <= i < |s| ==> s[i] in order
    ensures Inv(Fold(Initial(order), s, n))
    ensures Fold(Initial(order), s, n).next.Keys == FromPorts(order)
    ensures forall k :: 0 <= k < |Fold(Initial(order), s, n).bound| ==> Fold(Initial(order), s, n).bound[k] in s
  {
    hide Inv;
    if n == 0 {
      InitialInv(order);
    } else {
      FoldInv(order, s, n - 1);
      var st, c := Fold(Initial(order), s, n - 1), s[n - 1];
      assert Paired(order, c);
      if Bindable(c, st.next) {
        BindInv(st, c);
      }
    }
  }

  // ----- Half of the list

  /** The bound connections in both directions; one that joins an end to itself has only one. */
  function BothWays(bound: seq<Connection>): seq<Connection> {
    if bound == [] then []
    else
      var c := bound[|bound| - 1];
      BothWays(bound[..|bound| - 1]) + if c.from == c.to then [c] else [c, Reverse(c)]
  }

  /** How many of them join an end to itself. */
  function Selfs(bound: seq<Connection>): nat {
    if bound == [] then 0
    else Selfs(bound[..|bound| - 1]) + if bound[|bound| - 1].from == bound[|bound| - 1].to then 1 else 0
  }

  lemma {:induction false} NoSelfs(bound: seq<Connection>)
    ensures Selfs(bound) == 0 <==> forall i :: 0 <= i < |bound| ==> bound[i].from != bound[i].to
  {
    if bound != [] {
      NoSelfs(bound[..|bound| - 1]);
    }
  }

  lemma {:induction false} BothWaysMembers(bound: seq<Connection>)
    ensures |BothWays(bound)| == 2 * |bound| - Selfs(bound)
    ensures forall c :: c in BothWays(bound) <==> c in bound || Reverse(c) in bound
  {
    if bound != [] {
      BothWaysMembers(bound[..|bound| - 1]);
      assert bound == bound[..|bound| - 1] + [bound[|bound| - 1]];
    }
  }

  predicate ShareEnd(c: Connection, d: Connection) {
    c.from == d.from || c.from == d.to || c.to == d.from || c.to == d.to
  }

  /** No end is bound twice, so no connection is either, in any direction. */
  ghost predicate BoundOnce(bound: seq<Connection>) {
    forall i, j :: 0 <= i < j < |bound| ==> !ShareEnd(bound[i], bound[j])
  }

  lemma {:induction false} BothWaysDistinct(bound: seq<Connection>)
    requires BoundOnce(bound)
    ensures NoRepeat(BothWays(bound))
  {
    if bound != [] {
      var front, c := bound[..|bound| - 1], bound[|bound| - 1];
      BothWaysDistinct(front);
      BothWaysMembers(front);
      forall i | 0 <= i < |front| ensures front[i] != c && front[i] != Reverse(c) {
        assert !ShareEnd(bound[i], bound[|front|]);
      }
      assert Reverse(Reverse(c)) == c;
      assert c !in BothWays(front) && Reverse(c) !in BothWays(front);
    }
  }

  /** The counter has gone past this end. */
  ghost predicate Past(next: Counters, e: End) {
    e.port in next && e.index < next[e.port]
  }

  /** Counters only grow, so they are past every end that is bound. */
  ghost predicate AllPast(st: State) {
    forall k :: 0 <= k < |st.bound| ==> Past(st.next, st.bound[k].from) && Past(st.next, st.bound[k].to)
  }

  lemma VisitBindsOnce(st: State, c: Connection)
    requires AllPast(st) && BoundOnce(st.bound)
    ensures AllPast(Visit(st, c)) && BoundOnce(Visit(st, c).bound)
    ensures forall k :: 0 <= k < |Visit(st, c).bound| ==> Visit(st, c).bound[k] in st.bound + [c]
  {
    if Bindable(c, st.next) {
      forall k | 0 <= k < |st.bound| ensures !ShareEnd(st.bound[k], c) {
        assert Past(st.next, st.bound[k].from) && Past(st.next, st.bound[k].to);
      }
    } else {
      assert forall k :: 0 <= k < |st.bound| ==> (st.bound + [c])[k] == st.bound[k];
    }
  }

  lemma {:induction false} FoldBindsOnce(order: seq<Connection>, s: seq<Connection>, n: nat)
    requires n <= |s|
    ensures AllPast(Fold(Initial(order), s, n)) && BoundOnce(Fold(Initial(order), s, n).bound)
    ensures forall k :: 0 <= k < |Fold(Initial(order), s, n).bound| ==> Fold(Initial(order), s, n).bound[k] in s
  {
    if n > 0 {
      hide AllPast, BoundOnce, Visit, Initial;
      FoldBindsOnce(order, s, n - 1);
      VisitBindsOnce(Fold(Initial(order), s, n - 1), s[n - 1]);
    }
  }

  ghost predicate Realised(bound: seq<Connection>, c: Connection) {
    && (c in bound <==> Reverse(c) !in bound)
    && Sits(bound, c)
  }

  /** The other direction of every connection is listed too. */
  ghost predicate ReverseClosed(order: seq<Connection>) {
    forall c {:trigger Reverse(c)} :: c in order ==> Reverse(c) in order
  }

  lemma SymmetricIsClosed(order: seq<Connection>)
    requires Symmetric(order)
    ensures ReverseClosed(order)
  {
    forall c | c in order ensures Reverse(c) in order {
      assert Paired(order, c);
    }
  }

  lemma SymmetricHasNoSelfs(order: seq<Connection>, bound: seq<Connection>)
    requires Symmetric(order) && forall k :: 0 <= k < |bound| ==> bound[k] in order
    ensures Selfs(bound) == 0 && forall k :: 0 <= k < |bound| ==> bound[k].from != bound[k].to
  {
    forall k | 0 <= k < |bound| ensures bound[k].from != bound[k].to {
      assert Paired(order, bound[k]);
    }
    NoSelfs(bound);
  }

  lemma BothDirectionsListed(order: seq<Connection>, s: seq<Connection>, n: nat)
    requires n <= |s| && ReverseClosed(order) && forall i :: 0 <= i < |s| ==> s[i] in order
    ensures var both, bound := BothWays(Fold(Initial(order), s, n).bound), Fold(Initial(order), s, n).bound;
            && (forall i :: 0 <= i < |both| ==> both[i] in order)
            && NoRepeat(both) && |both| == 2 * |bound| - Selfs(bound)
            && (Symmetric(order) ==> Selfs(bound) == 0)
  {
    hide AllPast, Symmetric;
    var bound := Fold(Initial(order), s, n).bound;
    FoldBindsOnce(order, s, n);
    BothWaysDistinct(bound);
    BothWaysMembers(bound);
    forall i | 0 <= i < |BothWays(bound)| ensures BothWays(bound)[i] in order {
      var c := BothWays(bound)[i];
      assert c in BothWays(bound) && Reverse(Reverse(c)) == c;
    }
    if Symmetric(order) {
      SymmetricHasNoSelfs(order, bound);
    }
  }

  lemma BoundFacts(order: seq<Connection>)
    requires Symmetric(order)
    ensures BoundOnce(Bound(order))
    ensures forall k :: 0 <= k < |Bound(order)| ==> Bound(order)[k].from != Bound(order)[k].to
    ensures forall k :: 0 <= k < |Bound(order)| ==>
              Sits(Bound(order), Bound(order)[k]) && Sits(Bound(order), Reverse(Bound(order)[k]))
  {
    hide Sits, InOrder, Symmetric, BoundOnce;
    FoldInv(order, order, |order|);
    FoldBindsOnce(order, order, |order|);
    SymmetricHasNoSelfs(order, Bound(order));
  }

  lemma BoundIsRealised(order: seq<Connection>, c: Connection)
    requires Symmetric(order) && c in BothWays(Bound(order))
    ensures Realised(Bound(order), c)
  {
    hide Sits, InOrder, Symmetric, Bound;
    var bound := Bound(order);
    BoundFacts(order);
    BothWaysMembers(bound);
    assert Reverse(Reverse(c)) == c;
    if c in bound {
      var i :| 0 <= i < |bound| && bound[i] == c;
      assert Sits(bound, bound[i]);
    } else {
      var i :| 0 <= i < |bound| && bound[i] == Reverse(c);
      assert Sits(bound, Reverse(bound[i]));
    }
  }

  /** At most half of the list is bound. When the count is exactly half, every connection was
      bound in exactly one of its two directions and sits at its index of its port. This
      holds for any order in which the list is visited. */
  lemma AcceptedIsComplete(order: seq<Connection>)
    requires Symmetric(order)
    ensures 2 * |Bound(order)| <= |order|
    ensures Accepted(order) ==> forall c :: c in order ==> Realised(Bound(order), c)
  {
    SymmetricIsClosed(order);
    BothDirectionsListed(order, order, |order|);
    Exhausts(BothWays(Bound(order)), order);
    if Accepted(order) {
      forall c | c in order ensures Realised(Bound(order), c) {
        BoundIsRealised(order, c);
      }
    }
  }

  /** Every connection is bound in some direction. */
  ghost predicate Complete(order: seq<Connection>) {
    forall c :: c in order ==> c in Bound(order) || Reverse(c) in Bound(order)
  }

  /** Conversely, in a list without repetition a complete binding passes the check. */
  lemma CompleteIsAccepted(order: seq<Connection>)
    requires Symmetric(order) && NoRepeat(order) && Complete(order)
    ensures Accepted(order)
  {
    SymmetricIsClosed(order);
    BothDirectionsListed(order, order, |order|);
    CompleteIffCounted(order);
  }

  /** With connections that join an end to itself: everything is bound exactly when the list has
      as many entries as the bound connections have directions. */
  lemma CompleteIffCounted(order: seq<Connection>)
    requires ReverseClosed(order) && NoRepeat(order)
    ensures Complete(order) <==> |order| == 2 * |Bound(order)| - Selfs(Bound(order))
  {
    hide Bound;
    BoundBothWays(order);
    Exhausts(BothWays(Bound(order)), order);
    BothWaysMembers(Bound(order));
    if Complete(order) {
      Exhausts(order, BothWays(Bound(order)));
    }
  }

  lemma BoundBothWays(order: seq<Connection>)
    requires ReverseClosed(order)
    ensures NoRepeat(BothWays(Bound(order)))
    ensures forall i :: 0 <= i < |BothWays(Bound(order))| ==> BothWays(Bound(order))[i] in order
    ensures forall k :: 0 <= k < |Bound(order)| ==> Bound(order)[k] in order
  {
    BothDirectionsListed(order, order, |order|);
    FoldBindsOnce(order, order, |order|);
  }

  /** So a passing count means that everything is bound if and only if no connection joins an
      end to itself. */
  lemma CountIsSoundIffNoSelf(order: seq<Connection>)
    requires ReverseClosed(order) && NoRepeat(order) && Accepted(order)
    ensures Complete(order) <==> forall c :: c in order ==> c.from != c.to
  {
    hide Bound;
    CompleteIffCounted(order);
    NoSelfs(Bound(order));
    BoundBothWays(order);
    if Complete(order) {
      forall c | c in order ensures c.from != c.to {
        assert c.from == c.to ==> Reverse(c) == c;
      }
    }
  }

  /** What the pass binds, without its counters: a connection is bound exactly when both its
      indices are the number of bindings that their ports have by then. */
  lemma BoundIffNext(order: seq<Connection>, n: nat)
    requires Symmetric(order) && n < |order|
    ensures var bound, c := After(order, n).bound, order[n];
            After(order, n + 1).bound
              == if && c.from.index == |Attached(bound, c.from.port)|
                    && c.to.index == |Attached(bound, c.to.port)|
                 then bound + [c] else bound
  {
    hide InOrder, Sits, Attached;
    var c := order[n];
    FoldInv(order, order, n);
    assert Paired(order, c);
    assert c.from.port in FromPorts(order) && c.to.port in FromPorts(order) by {
      var k :| 0 <= k < |order| && order[k] == Reverse(c);
      assert order[k].from.port == c.to.port;
    }
  }

  /** At every port the bindings are 0, 1, 2, ... in the order of binding. */
  lemma IndicesInOrder(order: seq<Connection>, p: Port)
    requires Symmetric(order) && p in FromPorts(order)
    ensures InOrder(Bound(order), p)
  {
    FoldInv(order, order, |order|);
  }

  // ----- The pass is as good as any single pass

  /** No end is listed twice as the near end. */
  ghost predicate OnePeer(order: seq<Connection>) {
    forall c, d :: c in order && d in order && c.from == d.from ==> c == d
  }

  /** `s` are the connections at the increasing positions `pick`, and visiting them alone
      binds each of them. */
  ghost predicate Legal(order: seq<Connection>, pick: seq<nat>, s: seq<Connection>) {
    && |s| == |pick|
    && (forall m :: 0 <= m < |pick| ==> pick[m] < |order| && s[m] == order[pick[m]])
    && (forall l, m :: 0 <= l < m < |pick| ==> pick[l] < pick[m])
    && (forall m :: 0 <= m < |s| ==> BindsAt(order, s, m))
  }

  ghost predicate BindsAt(order: seq<Connection>, s: seq<Connection>, m: nat)
    requires m < |s|
  {
    Bindable(s[m], Fold(Initial(order), s, m).next)
  }

  /** `c` is bound in one direction or the other. */
  ghost predicate Has(bound: seq<Connection>, c: Connection) {
    c in bound || Reverse(c) in bound
  }

  ghost predicate HasAll(bound: seq<Connection>, s: seq<Connection>) {
    forall c {:trigger Has(bound, c)} :: c in s ==> Has(bound, c)
  }

  /** A legal choice binds all it chose. */
  lemma {:induction false} ChosenAreBound(order: seq<Connection>, s: seq<Connection>, m: nat)
    requires m <= |s| && forall k :: 0 <= k < |s| ==> BindsAt(order, s, k)
    ensures Fold(Initial(order), s, m).bound == s[..m]
  {
    if m > 0 {
      ChosenAreBound(order, s, m - 1);
      assert BindsAt(order, s, m - 1);
      TakeOneMore(s, m - 1);
    }
  }

  lemma TakeOneMore(s: seq<Connection>, m: nat)
    requires m < |s|
    ensures s[..m + 1] == s[..m] + [s[m]]
  {
  }

  lemma {:induction false} BoundGrows(order: seq<Connection>, n: nat, n': nat)
    requires n <= n' <= |order|
    ensures After(order, n).bound <= After(order, n').bound
  {
    if n < n' {
      BoundGrows(order, n, n' - 1);
    }
  }

  lemma HasAllGrows(a: seq<Connection>, b: seq<Connection>, s: seq<Connection>)
    requires a <= b && HasAll(a, s)
    ensures HasAll(b, s)
  {
    forall c | c in s ensures Has(b, c) {
      assert Has(a, c);
    }
  }

  /** The counter of a port is past the index of every end that sits there. */
  lemma CounterPast(st: State, x: Connection)
    requires Inv(st) && Has(st.bound, x)
    ensures x.from.port in st.next && x.from.index < st.next[x.from.port]
  {
    assert Reverse(Reverse(x)) == x;
    if x in st.bound {
      var k :| 0 <= k < |st.bound| && st.bound[k] == x;
      assert Sits(st.bound, st.bound[k]);
    } else {
      var k :| 0 <= k < |st.bound| && st.bound[k] == Reverse(x);
      assert Sits(st.bound, Reverse(st.bound[k]));
    }
  }

  /** Everything bound in `ps` is bound in `st`, so no counter of `st` lags behind. */
  lemma CountersKeepUp(ps: State, st: State, p: Port)
    requires Inv(ps) && Inv(st) && p in ps.next && p in st.next && HasAll(st.bound, ps.bound)
    ensures 0 <= ps.next[p] <= st.next[p]
  {
    assert InOrder(ps.bound, p);
    var k := ps.next[p] - 1;
    if k >= 0 {
      var x := Attached(ps.bound, p)[k];
      assert Reverse(Reverse(x)) == x;
      assert Has(st.bound, x) || Has(st.bound, Reverse(x));
      CounterPast(st, x);
    }
  }

  /** The connection at a given end, when the counter is past it, is the one listed there. */
  lemma PastMeansBound(order: seq<Connection>, st: State, c: Connection)
    requires Symmetric(order) && OnePeer(order) && c in order && Inv(st)
    requires forall k :: 0 <= k < |st.bound| ==> st.bound[k] in order
    requires c.from.port in st.next && 0 <= c.from.index < st.next[c.from.port]
    ensures Has(st.bound, c)
  {
    var p := c.from.port;
    assert InOrder(st.bound, p);
    var x := Attached(st.bound, p)[c.from.index];
    assert x.from == c.from;
    assert x in order by {
      if x !in st.bound {
        assert Paired(order, Reverse(x));
      }
    }
    assert x == c;
  }

  /** One step of the comparison: whatever a legal choice binds at its next position, the
      greedy pass has bound by then. */
  lemma GreedyCatchesUp(order: seq<Connection>, ps: State, st: State, c: Connection)
    requires Symmetric(order) && OnePeer(order) && c in order
    requires Inv(ps) && Inv(st) && ps.next.Keys == FromPorts(order) == st.next.Keys
    requires forall k :: 0 <= k < |st.bound| ==> st.bound[k] in order
    requires HasAll(st.bound, ps.bound) && Bindable(c, ps.next)
    ensures Has(Visit(st, c).bound, c)
  {
    hide Inv, HasAll;
    assert Paired(order, c);
    CountersKeepUp(ps, st, c.from.port);
    CountersKeepUp(ps, st, c.to.port);
    if st.next[c.from.port] > c.from.index {
      PastMeansBound(order, st, c);
      HasAlsoAfter(st, c);
    } else if st.next[c.to.port] > c.to.index {
      PastMeansBound(order, st, Reverse(c));
      assert Reverse(Reverse(c)) == c;
      HasAlsoAfter(st, c);
    }
  }

  lemma HasAlsoAfter(st: State, c: Connection)
    requires Has(st.bound, c)
    ensures Has(Visit(st, c).bound, c)
  {
  }

  lemma {:induction false} GreedyFollows(order: seq<Connection>, pick: seq<nat>, s: seq<Connection>, m: nat)
    requires Symmetric(order) && OnePeer(order) && Legal(order, pick, s) && m < |pick|
    ensures HasAll(After(order, pick[m] + 1).bound, s[..m + 1])
  {
    hide Inv, Bindable, Visit, OnePeer, Has, HasAll, Symmetric, FromPorts, Initial;
    var n := pick[m];
    var ps, st := Fold(Initial(order), s, m), After(order, n);
    FoldInv(order, s, m);
    FoldInv(order, order, n);
    ChosenAreBound(order, s, m);
    if m > 0 {
      GreedyFollows(order, pick, s, m - 1);
      BoundGrows(order, pick[m - 1] + 1, n);
      HasAllGrows(After(order, pick[m - 1] + 1).bound, st.bound, s[..m]);
    } else {
      HasAllNone(st.bound, s[..m]);
    }
    assert BindsAt(order, s, m);
    GreedyCatchesUp(order, ps, st, s[m]);
    BoundGrows(order, n, n + 1);
    HasAllGrows(st.bound, After(order, n + 1).bound, s[..m]);
    HasAllSnoc(After(order, n + 1).bound, s, m);
  }

  lemma HasAllNone(bound: seq<Connection>, s: seq<Connection>)
    requires s == []
    ensures HasAll(bound, s)
  {
  }

  lemma HasAllSnoc(bound: seq<Connection>, s: seq<Connection>, m: nat)
    requires m < |s| && HasAll(bound, s[..m]) && Has(bound, s[m])
    ensures HasAll(bound, s[..m + 1])
  {
    TakeOneMore(s, m);
  }

  lemma LegalCovers(order: seq<Connection>, s: seq<Connection>)
    requires Symmetric(order) && 2 * |s| == |order|
    requires forall m :: 0 <= m < |s| ==> s[m] in order && BindsAt(order, s, m)
    ensures forall c :: c in order ==> c in BothWays(s)
    ensures BoundOnce(s) && NoRepeat(BothWays(s)) && |BothWays(s)| == 2 * |s|
    ensures forall i :: 0 <= i < |BothWays(s)| ==> BothWays(s)[i] in order
  {
    hide Symmetric, BindsAt, Initial;
    ChosenAreBound(order, s, |s|);
    assert s[..|s|] == s;
    SymmetricIsClosed(order);
    FoldBindsOnce(order, s, |s|);
    BothDirectionsListed(order, s, |s|);
    Exhausts(BothWays(s), order);
  }

  lemma GreedyHasAll(order: seq<Connection>, pick: seq<nat>, s: seq<Connection>)
    requires Symmetric(order) && OnePeer(order) && Legal(order, pick, s)
    ensures HasAll(Bound(order), s)
  {
    hide OnePeer, Symmetric, HasAll, BindsAt, Initial;
    var m := |pick|;
    if m > 0 {
      GreedyFollows(order, pick, s, m - 1);
      assert s[..m] == s;
      BoundGrows(order, pick[m - 1] + 1, |order|);
      HasAllGrows(After(order, pick[m - 1] + 1).bound, Bound(order), s);
    } else {
      HasAllNone(Bound(order), s);
    }
  }

  /** The greedy pass is complete among single passes: if any choice of positions binds half
      of the list, so does the pass. */
  lemma GreedyIsBest(order: seq<Connection>, pick: seq<nat>, s: seq<Connection>)
    requires Symmetric(order) && Legal(order, pick, s) && 2 * |pick| == |order|
    ensures Accepted(order)
  {
    hide OnePeer, Symmetric, HasAll, BindsAt, NoRepeat, Bound;
    LegalCovers(order, s);
    CoveredHasOnePeer(order, s);
    GreedyHasAll(order, pick, s);
    HasBothWays(order, s);
    AllBothWays(order, s);
    Exhausts(BothWays(s), BothWays(Bound(order)));
    BothWaysMembers(Bound(order));
    AcceptedIsComplete(order);
  }

  /** An end is bound once only, so a list that can be covered has no end with two peers. */
  lemma CoveredHasOnePeer(order: seq<Connection>, s: seq<Connection>)
    requires Symmetric(order) && BoundOnce(s) && forall c :: c in order ==> c in BothWays(s)
    ensures OnePeer(order)
  {
    BothWaysMembers(s);
    forall c, d | c in order && d in order && c.from == d.from ensures c == d {
      assert Paired(order, d);
      var i := BoundAt(s, c);
      var j := BoundAt(s, d);
      assert ShareEnd(s[i], s[j]) && ShareEnd(s[j], s[i]);
      assert i == j;
    }
  }

  lemma BoundAt(s: seq<Connection>, c: Connection) returns (i: nat)
    requires c in s || Reverse(c) in s
    ensures i < |s| && (s[i] == c || s[i] == Reverse(c))
  {
    if c in s {
      i :| 0 <= i < |s| && s[i] == c;
    } else {
      i :| 0 <= i < |s| && s[i] == Reverse(c);
    }
  }

  lemma AllBothWays(order: seq<Connection>, s: seq<Connection>)
    requires Complete(order) && forall i :: 0 <= i < |BothWays(s)| ==> BothWays(s)[i] in order
    ensures forall i :: 0 <= i < |BothWays(s)| ==> BothWays(s)[i] in BothWays(Bound(order))
  {
    hide Bound;
    BothWaysMembers(Bound(order));
  }

  lemma HasBothWays(order: seq<Connection>, s: seq<Connection>)
    requires HasAll(Bound(order), s) && forall c :: c in order ==> c in BothWays(s)
    ensures Complete(order)
  {
    BothWaysMembers(s);
    forall c | c in order ensures c in Bound(order) || Reverse(c) in Bound(order) {
      assert Reverse(Reverse(c)) == c;
      assert Has(Bound(order), c) || Has(Bound(order), Reverse(c));
    }
  }

  lemma {:induction false} FoldPrefix(st: State, s: seq<Connection>, t: seq<Connection>, m: nat)
    requires m <= |s|
    ensures Fold(st, s + t, m) == Fold(st, s, m)
  {
    if m > 0 {
      FoldPrefix(st, s, t, m - 1);
    }
  }

  lemma LegalSnoc(order: seq<Connection>, pick: seq<nat>, s: seq<Connection>, n: nat)
    requires Legal(order, pick, s) && n < |order| && (forall m :: 0 <= m < |pick| ==> pick[m] < n)
    requires Bindable(order[n], Fold(Initial(order), s, |s|).next)
    ensures Legal(order, pick + [n], s + [order[n]])
  {
    hide Bindable, Initial, Fold;
    forall m | 0 <= m <= |s| ensures BindsAt(order, s + [order[n]], m) {
      FoldPrefix(Initial(order), s, [order[n]], m);
      assert m < |s| ==> BindsAt(order, s, m);
    }
  }

  /** What the pass binds is itself a legal choice. */
  lemma {:induction false} PassIsLegal(order: seq<Connection>, n: nat) returns (pick: seq<nat>, s: seq<Connection>)
    requires n <= |order|
    ensures Legal(order, pick, s) && s == After(order, n).bound
    ensures forall m :: 0 <= m < |pick| ==> pick[m] < n
    ensures Fold(Initial(order), s, |s|) == After(order, n)
  {
    hide Legal, Bindable, Initial;
    if n == 0 {
      pick, s := [], [];
      EmptyIsLegal(order);
    } else {
      pick, s := PassIsLegal(order, n - 1);
      var c := order[n - 1];
      if Bindable(c, After(order, n - 1).next) {
        LegalSnoc(order, pick, s, n - 1);
        FoldPrefix(Initial(order), s, [c], |s|);
        pick, s := pick + [n - 1], s + [c];
      }
    }
  }

  lemma EmptyIsLegal(order: seq<Connection>)
    ensures Legal(order, [], []) && Initial(order).bound == []
  {
  }

  /** The check passes if and only if some single pass over this order can bind everything. */
  lemma AcceptedIffSinglePassExists(order: seq<Connection>)
    requires Symmetric(order)
    ensures Accepted(order) <==> exists pick, s :: Legal(order, pick, s) && 2 * |pick| == |order|
  {
    hide Symmetric, Legal;
    var pick, s := PassIsLegal(order, |order|);
    LegalLengths(order, pick, s);
    if exists pick, s :: Legal(order, pick, s) && 2 * |pick| == |order| {
      var pick', s' :| Legal(order, pick', s') && 2 * |pick'| == |order|;
      GreedyIsBest(order, pick', s');
    }
  }

  lemma LegalLengths(order: seq<Connection>, pick: seq<nat>, s: seq<Connection>)
    requires Legal(order, pick, s)
    ensures |pick| == |s|
  {
  }

  // ----- The loop

  datatype Result = Bindings(bound: seq<Connection>) | KeyError | CannotBeOrdered

  /** A lookup fails: the far end is looked up only when the near end matches. */
  predicate LookupFails(c: Connection, next: Counters) {
    c.from.port !in next || (next[c.from.port] == c.from.index && c.to.port !in next)
  }

  lemma FewerPorts(a: seq<Connection>, b: seq<Connection>)
    requires forall c :: c in a ==> c in b
    ensures FromPorts(a) <= FromPorts(b)
  {
    forall p | p in FromPorts(a) ensures p in FromPorts(b) {
      var i :| 0 <= i < |a| && a[i].from.port == p;
      assert a[i] in b;
    }
  }

  lemma SamePorts(connections: seq<Connection>, order: seq<Connection>)
    requires multiset(connections) == multiset(order)
    ensures Initial(connections) == Initial(order)
  {
    assert forall c :: c in connections <==> c in multiset(connections);
    assert forall c :: c in order <==> c in multiset(order);
    FewerPorts(connections, order);
    FewerPorts(order, connections);
    assert FromPorts(connections) == FromPorts(order);
  }

  /** Sets the counter of every listed port to zero. */
  method ZeroCounters(connections: seq<Connection>) returns (next: Counters)
    ensures next == Initial(connections).next
  {
    next := map[];
    for i := 0 to |connections|
      invariant next.Keys == FromPorts(connections[..i])
      invariant forall p :: p in next ==> next[p] == 0
    {
      assert connections[..i + 1][..i] == connections[..i];
      next := next[connections[i].from.port := 0];
    }
    assert connections[..|connections|] == connections;
  }

  lemma VisitedAt(order: seq<Connection>, n: nat, next: Counters, toMake: seq<Connection>)
    requires n < |order| && After(order, n) == State(next, toMake)
    ensures After(order, n + 1) == Visit(State(next, toMake), order[n])
  {
  }

  /** Binds the connections in the given order of visiting, which may be any rearrangement of
      the list. */
  method BindPorts(connections: seq<Connection>, order: seq<Connection>) returns (r: Result)
    requires multiset(connections) == multiset(order)
    ensures r.KeyError? <==> exists n :: 0 <= n < |order| && LookupFails(order[n], After(order, n).next)
    ensures r.Bindings? ==> Accepted(order) && r.bound == Bound(order)
    ensures r.CannotBeOrdered? ==> !Accepted(order)
  {
    hide Initial, Fold;
    var next := ZeroCounters(connections);
    SamePorts(connections, order);
    FoldNone(order);
    var toMake: seq<Connection> := [];
    for n := 0 to |order|
      invariant After(order, n) == State(next, toMake)
      invariant forall k :: 0 <= k < n ==> !LookupFails(order[k], After(order, k).next)
    {
      var c := order[n];
      if LookupFails(c, next) {
        return KeyError;
      }
      VisitedAt(order, n, next, toMake);
      if next[c.from.port] == c.from.index && next[c.to.port] == c.to.index {
        toMake := toMake + [c];
        next := Bump(next, c.from.port);
        next := Bump(next, c.to.port);
      }
    }
    if 2 * |toMake| != |order| {
      return CannotBeOrdered;
    }
    r := Bindings(toMake);
  }

  lemma FoldNone(order: seq<Connection>)
    ensures After(order, 0) == Initial(order) && Initial(order).bound == []
  {
  }

  /** With both directions listed no lookup fails. */
  lemma NoLookupFails(order: seq<Connection>, n: nat)
    requires Symmetric(order) && n < |order|
    ensures !LookupFails(order[n], After(order, n).next)
  {
    FoldInv(order, order, n);
    assert Paired(order, order[n]);
  }

  // ----- What the pass does not promise

  function Join(p: Port, i: int, q: Port, j: int): Connection {
    Connection(End(p, i), End(q, j))
  }

  /** Three connections p0-q1, q0-r1 and r0-s0, listed by near end. */
  function Tangled(p: Port, q: Port, r: Port, s: Port): seq<Connection> {
    [Join(p, 0, q, 1), Join(q, 0, r, 1), Join(q, 1, p, 0), Join(r, 0, s, 0), Join(r, 1, q, 0), Join(s, 0, r, 0)]
  }

  /** The same list with the connections in an order that can be bound. */
  function Untangled(p: Port, q: Port, r: Port, s: Port): seq<Connection> {
    [Join(r, 0, s, 0), Join(r, 1, q, 0), Join(q, 1, p, 0), Join(p, 0, q, 1), Join(q, 0, r, 1), Join(s, 0, r, 0)]
  }

  /** Near ends in ascending order of port, then index. */
  ghost predicate Ascending(order: seq<Connection>, rank: Port -> int) {
    forall i, j :: 0 <= i < j < |order| ==>
      || rank(order[i].from.port) < rank(order[j].from.port)
      || (order[i].from.port == order[j].from.port && order[i].from.index < order[j].from.index)
  }

  /** Sorting does not make one direction of every pair bindable: for any four ports in
      ascending order, this sorted, symmetric list is rejected although the same connections
      pass in another order. */
  lemma SortedListRejected(p: Port, q: Port, r: Port, s: Port, rank: Port -> int)
    requires rank(p) < rank(q) < rank(r) < rank(s)
    ensures Ascending(Tangled(p, q, r, s), rank) && Symmetric(Tangled(p, q, r, s)) && !Accepted(Tangled(p, q, r, s))
    ensures Accepted(Untangled(p, q, r, s))
    ensures forall c :: c in Untangled(p, q, r, s) <==> c in Tangled(p, q, r, s)
  {
    hide Symmetric, Bound, Tangled, Untangled, Ascending;
    TangledIsSymmetric(p, q, r, s);
    TangledAscends(p, q, r, s, rank);
    TangledRun(p, q, r, s);
    UntangledRun(p, q, r, s);
    SameConnections(p, q, r, s);
  }

  lemma TangledAscends(p: Port, q: Port, r: Port, s: Port, rank: Port -> int)
    requires rank(p) < rank(q) < rank(r) < rank(s)
    ensures Ascending(Tangled(p, q, r, s), rank)
  {
  }

  lemma SameConnections(p: Port, q: Port, r: Port, s: Port)
    ensures |Untangled(p, q, r, s)| == |Tangled(p, q, r, s)| == 6
    ensures forall c :: c in Untangled(p, q, r, s) <==> c in Tangled(p, q, r, s)
  {
    var o, u := Tangled(p, q, r, s), Untangled(p, q, r, s);
    assert u[0] == o[3] && u[1] == o[4] && u[2] == o[2] && u[3] == o[0] && u[4] == o[1] && u[5] == o[5];
  }

  lemma TangledIsSymmetric(p: Port, q: Port, r: Port, s: Port)
    requires r != s
    ensures Symmetric(Tangled(p, q, r, s))
  {
    var o := Tangled(p, q, r, s);
    assert Reverse(o[0]) == o[2] && Reverse(o[1]) == o[4] && Reverse(o[3]) == o[5];
    assert Reverse(o[2]) == o[0] && Reverse(o[4]) == o[1] && Reverse(o[5]) == o[3];
  }

  lemma PortsListed(order: seq<Connection>)
    ensures forall i :: 0 <= i < |order| ==>
              order[i].from.port in Initial(order).next && Initial(order).next[order[i].from.port] == 0
  {
  }

  lemma TangledRun(p: Port, q: Port, r: Port, s: Port)
    requires p != q && p != r && p != s && q != r && q != s && r != s
    ensures |Bound(Tangled(p, q, r, s))| == 2
  {
    var o := Tangled(p, q, r, s);
    var z := Initial(o);
    PortsListed(o);
    assert o[0].from.port == p && o[1].from.port == q && o[3].from.port == r && o[5].from.port == s;
    assert Fold(z, o, 1) == z;
    assert Fold(z, o, 2) == z;
    assert Fold(z, o, 3) == z;
    var z4 := Fold(z, o, 4);
    assert z4 == State(Bump(Bump(z.next, r), s), [o[3]]);
    var z5 := Fold(z, o, 5);
    assert z5 == State(Bump(Bump(z4.next, r), q), [o[3], o[4]]);
    assert Fold(z, o, 6) == z5;
  }

  lemma UntangledRun(p: Port, q: Port, r: Port, s: Port)
    requires p != q && p != r && p != s && q != r && q != s && r != s
    ensures |Bound(Untangled(p, q, r, s))| == 3
  {
    var o := Untangled(p, q, r, s);
    var z := Initial(o);
    PortsListed(o);
    assert o[0].from.port == r && o[2].from.port == q && o[3].from.port == p && o[5].from.port == s;
    assert Fold(z, o, 0) == z && z.bound + [o[0]] == [o[0]];
    var z1 := Fold(z, o, 1);
    assert z1 == State(Bump(Bump(z.next, r), s), [o[0]]);
    var z2 := Fold(z, o, 2);
    assert z2 == State(Bump(Bump(z1.next, r), q), [o[0], o[1]]);
    var z3 := Fold(z, o, 3);
    assert z3 == State(Bump(Bump(z2.next, q), p), [o[0], o[1], o[2]]);
    assert Fold(z, o, 4) == z3;
    assert Fold(z, o, 5) == z3;
    assert Fold(z, o, 6) == z3;
  }

  /** Four ends connected to themselves, and two ports connected crosswise. */
  function Crossed(a: Port, b: Port, c: Port, d: Port, r: Port, s: Port): seq<Connection> {
    [Join(a, 0, a, 0), Join(b, 0, b, 0), Join(c, 0, c, 0), Join(d, 0, d, 0),
     Join(r, 0, s, 1), Join(r, 1, s, 0), Join(s, 0, r, 1), Join(s, 1, r, 0)]
  }

  /** An end connected to itself is its own reverse, and two of them make up for a
      connection that was never bound: the count alone does not notice. Every port of the list
      has the indices from 0 on. */
  lemma SelfConnectionsFoolTheCount(a: Port, b: Port, c: Port, d: Port, r: Port, s: Port)
    requires NoRepeat([a, b, c, d, r, s])
    ensures var order := Crossed(a, b, c, d, r, s);
            ReverseClosed(order) && NoRepeat(order) && Accepted(order) && !Complete(order)
  {
    var o := Crossed(a, b, c, d, r, s);
    SelfsBound(a, b, c, d, r, s);
    CrossedClosed(a, b, c, d, r, s);
    var z4 := Fold(Initial(o), o, 4);
    NotBindable(o, z4, 4);
    NotBindable(o, z4, 5);
    NotBindable(o, z4, 6);
    NotBindable(o, z4, 7);
    assert Bound(o) == o[..4];
    assert o[4] in o;
  }

  lemma NotBindable(o: seq<Connection>, st: State, n: nat)
    requires n < |o| && Fold(Initial(o), o, n) == st && !Bindable(o[n], st.next)
    ensures Fold(Initial(o), o, n + 1) == st
  {
  }

  lemma CrossedClosed(a: Port, b: Port, c: Port, d: Port, r: Port, s: Port)
    requires NoRepeat([a, b, c, d, r, s])
    ensures ReverseClosed(Crossed(a, b, c, d, r, s)) && NoRepeat(Crossed(a, b, c, d, r, s))
  {
    Distinctly(a, b, c, d, r, s);
    var o := Crossed(a, b, c, d, r, s);
    assert Reverse(o[4]) == o[7] && Reverse(o[5]) == o[6];
    assert forall k :: 0 <= k < 4 ==> Reverse(o[k]) == o[k];
  }

  lemma Distinctly(a: Port, b: Port, c: Port, d: Port, r: Port, s: Port)
    requires NoRepeat([a, b, c, d, r, s])
    ensures a != b && a != c && a != d && a != r && a != s && b != c && b != d && b != r && b != s
    ensures c != d && c != r && c != s && d != r && d != s && r != s
  {
    var ports := [a, b, c, d, r, s];
    assert ports[0] == a && ports[1] == b && ports[2] == c && ports[3] == d && ports[4] == r && ports[5] == s;
  }

  /** After the first `n` connections the counter of `p` is still at zero. */
  ghost predicate AtZero(o: seq<Connection>, n: nat, p: Port)
    requires n <= |o|
  {
    var next := Fold(Initial(o), o, n).next;
    p in next && next[p] == 0
  }

  /** The four are bound, and the counters of the crossed ports are still at zero. */
  lemma SelfsBound(a: Port, b: Port, c: Port, d: Port, r: Port, s: Port)
    requires NoRepeat([a, b, c, d, r, s])
    ensures var o := Crossed(a, b, c, d, r, s);
            Fold(Initial(o), o, 4).bound == o[..4] && AtZero(o, 4, r) && AtZero(o, 4, s)
  {
    hide NoRepeat, Fold, AtZero, Initial;
    Distinctly(a, b, c, d, r, s);
    var o := Crossed(a, b, c, d, r, s);
    StartsAtZero(o, 0);
    StartsAtZero(o, 1);
    StartsAtZero(o, 2);
    StartsAtZero(o, 3);
    StartsAtZero(o, 4);
    StartsAtZero(o, 6);
    SelfStep(o, 0, a);
    SelfStep(o, 1, b);
    SelfStep(o, 2, c);
    SelfStep(o, 3, d);
  }

  lemma StartsAtZero(o: seq<Connection>, i: nat)
    requires i < |o|
    ensures Fold(Initial(o), o, 0).bound == o[..0] && AtZero(o, 0, o[i].from.port)
  {
    PortsListed(o);
  }

  lemma SelfStep(o: seq<Connection>, n: nat, p: Port)
    requires n < |o| && Fold(Initial(o), o, n).bound == o[..n] && o[n] == Join(p, 0, p, 0) && AtZero(o, n, p)
    ensures Fold(Initial(o), o, n + 1).bound == o[..n + 1]
    ensures forall q :: q != p && AtZero(o, n, q) ==> AtZero(o, n + 1, q)
  {
    assert o[..n + 1] == o[..n] + [o[n]];
  }
}
