/** Which interface a peer's endpoint is reached through (tunnel/pitfalls.go). `interface` and `ipInterface` stand for the
    two lookups of Windows, None being an error. */
module Pitfalls {
  import opened Netip
  import opened Sorting
  import opened Wrappers
  import Pow

  const UINT32: nat := 0x1_0000_0000
  type UInt32 = n: nat | n < UINT32

  datatype Route = Route(luid: nat, destination: Prefix, metric: UInt32)

  datatype IfRow = IfRow(up: bool, aliasName: string)

  datatype IPInterfaceRow = IPInterfaceRow(metric: UInt32, forwardingEnabled: bool, weakHostSend: bool)

  datatype System = System(interface: nat -> Option<IfRow>, ipInterface: nat -> Option<IPInterfaceRow>, ourLuid: nat)

  datatype EndpointRoute = EndpointRoute(
    addr: Addr, name: string, lowestMetric: UInt32, highestCIDR: nat, weakHostSend: bool, finalIsOurs: bool)

  function Start(addr: Addr): EndpointRoute { EndpointRoute(addr, "", UINT32 - 1, 0, false, false) }

  // ---------------------------------------------------------------- one route, without caching

  /** The route can carry traffic to the address now. */
  predicate Usable(sys: System, r: Route, addr: Addr) {
    && Contains(r.destination, addr)
    && sys.interface(r.luid).Some? && sys.interface(r.luid).value.up
    && sys.ipInterface(r.luid).Some?
  }

  /** The sum of two 32-bit metrics, which can wrap. */
  function MetricOf(sys: System, r: Route): UInt32
    requires sys.ipInterface(r.luid).Some?
  {
    (r.metric + sys.ipInterface(r.luid).value.metric) % UINT32
  }

  predicate Weak(sys: System, r: Route)
    requires sys.ipInterface(r.luid).Some?
  {
    sys.ipInterface(r.luid).value.forwardingEnabled || sys.ipInterface(r.luid).value.weakHostSend
  }

  predicate Accepts(sys: System, e: EndpointRoute, r: Route) {
    && Usable(sys, r, e.addr)
    && r.destination.bits >= e.highestCIDR
    && (r.destination.bits == e.highestCIDR ==> MetricOf(sys, r) <= e.lowestMetric)
  }

  function Consider(sys: System, e: EndpointRoute, r: Route): EndpointRoute {
    if !Accepts(sys, e, r) then e
    else
      var e' := e.(lowestMetric := MetricOf(sys, r), highestCIDR := r.destination.bits, finalIsOurs := r.luid == sys.ourLuid);
      if r.luid == sys.ourLuid then e'
      else e'.(name := sys.interface(r.luid).value.aliasName, weakHostSend := Weak(sys, r))
  }

  function Scan(sys: System, addr: Addr, rows: seq<Route>): EndpointRoute
    decreases |rows|
  {
    if rows == [] then Start(addr) else Consider(sys, Scan(sys, addr, rows[..|rows| - 1]), rows[|rows| - 1])
  }

  // ---------------------------------------------------------------- what the scan finds

  /** Route a is at least as good as b: a longer prefix, or the same length and no larger metric. */
  predicate AtLeast(sys: System, a: Route, b: Route)
    requires sys.ipInterface(a.luid).Some? && sys.ipInterface(b.luid).Some?
  {
    a.destination.bits > b.destination.bits
    || (a.destination.bits == b.destination.bits && MetricOf(sys, a) <= MetricOf(sys, b))
  }

  /** Row k is at least as good as every usable row up to row n, and better than the later ones of these. */
  ghost predicate Best(sys: System, addr: Addr, rows: seq<Route>, k: int, n: nat) {
    && 0 <= k < n <= |rows| && Usable(sys, rows[k], addr)
    && forall i | 0 <= i < n && Usable(sys, rows[i], addr) ::
         AtLeast(sys, rows[k], rows[i]) && (i > k ==> !AtLeast(sys, rows[i], rows[k]))
  }

  /** Row k was the best when the scan reached it. */
  ghost predicate Led(sys: System, addr: Addr, rows: seq<Route>, k: nat) { Best(sys, addr, rows, k, k + 1) }

  ghost predicate NoneUsable(sys: System, addr: Addr, rows: seq<Route>) {
    forall i | 0 <= i < |rows| :: !Usable(sys, rows[i], addr)
  }

  /** Row n is the last one of another interface that led. */
  ghost predicate LastForeign(sys: System, addr: Addr, rows: seq<Route>, n: int) {
    && -1 <= n < |rows|
    && (n >= 0 ==> Led(sys, addr, rows, n) && rows[n].luid != sys.ourLuid)
    && forall i | 0 <= i < |rows| && i > n && rows[i].luid != sys.ourLuid :: !Led(sys, addr, rows, i)
  }

  /** The record describes the best usable route of the whole table: longest prefix, then least metric, then the later
      row. Name and weakness are those of the last foreign route that was best so far. */
  lemma {:induction false} ScanIs(sys: System, addr: Addr, rows: seq<Route>) returns (best: int, foreign: int)
    ensures var e := Scan(sys, addr, rows);
            && e.addr == addr
            && (best == -1 ==> NoneUsable(sys, addr, rows) && e == Start(addr))
            && (best != -1 ==>
                  && Best(sys, addr, rows, best, |rows|)
                  && e.highestCIDR == rows[best].destination.bits && e.lowestMetric == MetricOf(sys, rows[best])
                  && e.finalIsOurs == (rows[best].luid == sys.ourLuid))
            && LastForeign(sys, addr, rows, foreign)
            && (foreign == -1 ==> e.name == "" && !e.weakHostSend)
            && (foreign != -1 ==> e.name == sys.interface(rows[foreign].luid).value.aliasName
                                  && e.weakHostSend == Weak(sys, rows[foreign]))
    decreases |rows|
  {
    hide Usable, AtLeast, Weak, Accepts, MetricOf;
    if rows == [] {
      best, foreign := -1, -1;
    } else {
      var n := |rows| - 1;
      var before := rows[..n];
      best, foreign := ScanIs(sys, addr, before);
      var e := Scan(sys, addr, before);
      AcceptsIs(sys, addr, before, best, e, rows[n]);
      forall k: nat | k < n
        ensures Led(sys, addr, rows, k) == Led(sys, addr, before, k)
      {
        LedBefore(sys, addr, rows, k);
      }
      if Accepts(sys, e, rows[n]) {
        BestMoves(sys, addr, rows, best);
        best := n;
        if rows[n].luid != sys.ourLuid { foreign := n; }
      } else {
        BestStays(sys, addr, rows, best);
      }
    }
  }

  /** The record of the best row accepts what is at least as good. */
  lemma {:induction false} AcceptsIs(sys: System, addr: Addr, rows: seq<Route>, best: int, e: EndpointRoute, r: Route)
    requires (best == -1 && e == Start(addr)) || Best(sys, addr, rows, best, |rows|)
    requires e.addr == addr
    requires best != -1 ==> e.highestCIDR == rows[best].destination.bits && e.lowestMetric == MetricOf(sys, rows[best])
    ensures Accepts(sys, e, r) <==> Usable(sys, r, addr) && (best != -1 ==> AtLeast(sys, r, rows[best]))
  {
    hide Contains;
    UsableBits(sys, r, addr);
  }

  lemma {:induction false} BestMoves(sys: System, addr: Addr, rows: seq<Route>, best: int)
    requires rows != [] && Usable(sys, rows[|rows| - 1], addr)
    requires var before := rows[..|rows| - 1];
             || (best == -1 && NoneUsable(sys, addr, before))
             || (Best(sys, addr, before, best, |before|) && AtLeast(sys, rows[|rows| - 1], rows[best]))
    ensures Best(sys, addr, rows, |rows| - 1, |rows|)
  {
    hide Contains;
    var before := rows[..|rows| - 1];
    assert forall i | 0 <= i < |before| :: before[i] == rows[i];
  }

  lemma {:induction false} BestStays(sys: System, addr: Addr, rows: seq<Route>, best: int)
    requires rows != []
    requires var before := rows[..|rows| - 1];
             || (best == -1 && NoneUsable(sys, addr, before) && !Usable(sys, rows[|rows| - 1], addr))
             || (Best(sys, addr, before, best, |before|)
                 && !(Usable(sys, rows[|rows| - 1], addr) && AtLeast(sys, rows[|rows| - 1], rows[best])))
    ensures if best == -1 then NoneUsable(sys, addr, rows) else Best(sys, addr, rows, best, |rows|)
    ensures !Led(sys, addr, rows, |rows| - 1)
  {
    hide Contains;
    var before := rows[..|rows| - 1];
    assert forall i | 0 <= i < |before| :: before[i] == rows[i];
  }

  lemma UsableBits(sys: System, r: Route, addr: Addr)
    ensures Usable(sys, r, addr) ==> 0 <= r.destination.bits
  {
  }

  lemma {:induction false} LedBefore(sys: System, addr: Addr, rows: seq<Route>, k: nat)
    requires k < |rows| - 1
    ensures Led(sys, addr, rows, k) <==> Led(sys, addr, rows[..|rows| - 1], k)
  {
    hide AtLeast;
    var before := rows[..|rows| - 1];
    assert forall i | 0 <= i <= k :: before[i] == rows[i];
  }

  // ---------------------------------------------------------------- the warning

  predicate Warned(e: EndpointRoute) { e.weakHostSend && e.finalIsOurs }

  /** An interface is reported for an endpoint exactly when the best route is ours and the last foreign route that led,
      through that interface, is weak. */
  lemma {:induction false} WarnedIff(sys: System, addr: Addr, rows: seq<Route>)
    ensures var e := Scan(sys, addr, rows);
            Warned(e) <==>
            exists best: nat, foreign: nat ::
              && best < |rows| && Best(sys, addr, rows, best, |rows|) && rows[best].luid == sys.ourLuid
              && foreign < |rows| && LastForeign(sys, addr, rows, foreign) && Weak(sys, rows[foreign])
              && e.name == sys.interface(rows[foreign].luid).value.aliasName
  {
    hide Usable, AtLeast, Scan, Weak;
    var best, foreign := ScanIs(sys, addr, rows);
    forall b: nat, f: nat | b < |rows| && Best(sys, addr, rows, b, |rows|) && f < |rows| && LastForeign(sys, addr, rows, f)
      ensures b == best && f == foreign
    {
      BestUnique(sys, addr, rows, b, best);
      ForeignUnique(sys, addr, rows, f, foreign);
    }
  }

  lemma {:induction false} BestUnique(sys: System, addr: Addr, rows: seq<Route>, a: int, b: int)
    requires 0 <= a < |rows| && Best(sys, addr, rows, a, |rows|)
    requires (b == -1 && NoneUsable(sys, addr, rows)) || Best(sys, addr, rows, b, |rows|)
    ensures a == b
  {
    hide Contains;
  }

  lemma {:induction false} ForeignUnique(sys: System, addr: Addr, rows: seq<Route>, a: int, b: int)
    requires LastForeign(sys, addr, rows, a) && LastForeign(sys, addr, rows, b)
    ensures a == b
  {
    hide Led;
  }

  // ---------------------------------------------------------------- the order of the table

  /** No usable route of the table is better. */
  ghost predicate Top(sys: System, addr: Addr, rows: seq<Route>, r: Route) {
    && r in rows && Usable(sys, r, addr)
    && forall x :: x in rows && Usable(sys, x, addr) ==> AtLeast(sys, r, x)
  }

  ghost predicate ForeignTop(sys: System, addr: Addr, rows: seq<Route>) {
    exists r :: Top(sys, addr, rows, r) && r.luid != sys.ourLuid
  }

  ghost predicate WeakForeign(sys: System, addr: Addr, rows: seq<Route>, r: Route) {
    r in rows && Usable(sys, r, addr) && r.luid != sys.ourLuid && Weak(sys, r)
  }

  /** Some best route is ours, and some weak foreign route is as good, or no foreign route is. */
  ghost predicate Sensitive(sys: System, addr: Addr, rows: seq<Route>) {
    && (exists t :: Top(sys, addr, rows, t) && t.luid == sys.ourLuid)
    && (exists w :: WeakForeign(sys, addr, rows, w)
                    && (Top(sys, addr, rows, w) || !ForeignTop(sys, addr, rows)))
  }

  lemma {:induction false} TopLeads(sys: System, addr: Addr, rows: seq<Route>, k: nat)
    requires k < |rows| && Top(sys, addr, rows, rows[k])
    ensures Led(sys, addr, rows, k)
  {
    hide Contains, AtLeast;
    forall i | 0 <= i < k + 1 && Usable(sys, rows[i], addr)
      ensures AtLeast(sys, rows[k], rows[i])
    {
      assert rows[i] in rows;
    }
  }

  /** A route that led when a top route had been read is a top route itself. */
  lemma {:induction false} LedAfterTop(sys: System, addr: Addr, rows: seq<Route>, j: nat, k: nat)
    requires j <= k < |rows| && Top(sys, addr, rows, rows[j]) && Led(sys, addr, rows, k)
    ensures Top(sys, addr, rows, rows[k])
  {
    hide Contains;
    assert AtLeast(sys, rows[k], rows[j]);
  }

  lemma {:induction false} BestIsTop(sys: System, addr: Addr, rows: seq<Route>, k: int)
    requires Best(sys, addr, rows, k, |rows|)
    ensures Top(sys, addr, rows, rows[k])
  {
    hide Usable, AtLeast;
  }

  /** A table that is not sensitive gives no warning, in whatever order it is read. */
  lemma {:induction false} NeverWarned(sys: System, addr: Addr, rows: seq<Route>)
    requires Warned(Scan(sys, addr, rows))
    ensures Sensitive(sys, addr, rows)
  {
    hide Usable, AtLeast, Weak, Scan, Top;
    var best, foreign := ScanIs(sys, addr, rows);
    BestIsTop(sys, addr, rows, best);
    LedUsable(sys, addr, rows, foreign);
    var w := rows[foreign];
    assert WeakForeign(sys, addr, rows, w);
    assert Top(sys, addr, rows, rows[best]) && rows[best].luid == sys.ourLuid;
    if ForeignTop(sys, addr, rows) { LastForeignIsTop(sys, addr, rows, foreign); }
  }

  lemma {:induction false} LastForeignIsTop(sys: System, addr: Addr, rows: seq<Route>, foreign: int)
    requires LastForeign(sys, addr, rows, foreign) && foreign != -1 && ForeignTop(sys, addr, rows)
    ensures Top(sys, addr, rows, rows[foreign])
  {
    hide Usable, AtLeast, Top, Led;
    var f :| Top(sys, addr, rows, f) && f.luid != sys.ourLuid;
    TopIn(sys, addr, rows, f);
    var j :| 0 <= j < |rows| && rows[j] == f;
    TopLeads(sys, addr, rows, j);
    LedAfterTop(sys, addr, rows, j, foreign);
  }

  lemma TopIn(sys: System, addr: Addr, rows: seq<Route>, r: Route)
    requires Top(sys, addr, rows, r)
    ensures r in rows && Usable(sys, r, addr)
  {
  }

  lemma LedUsable(sys: System, addr: Addr, rows: seq<Route>, k: nat)
    requires k < |rows| && Led(sys, addr, rows, k)
    ensures Usable(sys, rows[k], addr)
  {
  }

  /** The order is no part of sensitivity. */
  lemma {:induction false} SameTops(sys: System, addr: Addr, rows: seq<Route>, ps: seq<Route>)
    requires multiset(rows) == multiset(ps)
    ensures forall r :: Top(sys, addr, rows, r) <==> Top(sys, addr, ps, r)
    ensures Sensitive(sys, addr, rows) <==> Sensitive(sys, addr, ps)
  {
    hide Usable, AtLeast, Weak;
    SameElements(rows, ps);
    assert forall r :: Top(sys, addr, rows, r) <==> Top(sys, addr, ps, r);
    assert ForeignTop(sys, addr, rows) <==> ForeignTop(sys, addr, ps);
    assert forall r :: WeakForeign(sys, addr, rows, r) <==> WeakForeign(sys, addr, ps, r);
  }

  /** The two last rows decide: ours last, a weak foreign one as good before it. */
  lemma {:induction false} OursLast(sys: System, addr: Addr, rows: seq<Route>)
    requires var n := |rows|; n >= 2 && Top(sys, addr, rows, rows[n - 1]) && Top(sys, addr, rows, rows[n - 2])
    requires rows[|rows| - 1].luid == sys.ourLuid && WeakForeign(sys, addr, rows, rows[|rows| - 2])
    ensures Warned(Scan(sys, addr, rows))
  {
    hide Usable, AtLeast, Weak, Scan, Top;
    var n := |rows|;
    var best, foreign := ScanIs(sys, addr, rows);
    TopLeads(sys, addr, rows, n - 1);
    TopLeads(sys, addr, rows, n - 2);
    BestUnique(sys, addr, rows, n - 1, best);
    assert foreign == n - 2;
  }

  lemma {:induction false} ForeignLast(sys: System, addr: Addr, rows: seq<Route>)
    requires rows != [] && Top(sys, addr, rows, rows[|rows| - 1]) && rows[|rows| - 1].luid != sys.ourLuid
    ensures !Warned(Scan(sys, addr, rows))
  {
    hide Usable, AtLeast, Weak, Scan, Top;
    var best, _ := ScanIs(sys, addr, rows);
    TopLeads(sys, addr, rows, |rows| - 1);
    BestUnique(sys, addr, rows, |rows| - 1, best);
  }

  /** With no foreign top route, a weak foreign one is reported if it comes before every top route. */
  lemma {:induction false} WeakFirst(sys: System, addr: Addr, rows: seq<Route>)
    requires |rows| >= 2 && WeakForeign(sys, addr, rows, rows[0]) && Top(sys, addr, rows, rows[1])
    requires !ForeignTop(sys, addr, rows)
    ensures Warned(Scan(sys, addr, rows))
  {
    hide Usable, AtLeast, Weak, Scan, Top;
    var best, foreign := ScanIs(sys, addr, rows);
    TopIn(sys, addr, rows, rows[1]);
    FirstLeads(sys, addr, rows);
    BestIsTopOr(sys, addr, rows, best);
    LaterForeign(sys, addr, rows, 1);
    assert foreign == 0;
  }

  lemma {:induction false} FirstLeads(sys: System, addr: Addr, rows: seq<Route>)
    requires rows != [] && Usable(sys, rows[0], addr)
    ensures Led(sys, addr, rows, 0)
  {
    hide Contains;
  }

  lemma {:induction false} BestIsTopOr(sys: System, addr: Addr, rows: seq<Route>, k: int)
    requires (k == -1 && NoneUsable(sys, addr, rows)) || Best(sys, addr, rows, k, |rows|)
    requires exists r :: r in rows && Usable(sys, r, addr)
    ensures k != -1 && Top(sys, addr, rows, rows[k])
  {
    hide Usable, AtLeast;
    var r :| r in rows && Usable(sys, r, addr);
    var i :| 0 <= i < |rows| && rows[i] == r;
    if k != -1 { BestIsTop(sys, addr, rows, k); }
  }

  /** Once a top route has been read no other kind of route leads. */
  lemma {:induction false} LaterForeign(sys: System, addr: Addr, rows: seq<Route>, j: nat)
    requires j < |rows| && Top(sys, addr, rows, rows[j]) && !ForeignTop(sys, addr, rows)
    ensures forall k: nat | j <= k < |rows| && rows[k].luid != sys.ourLuid :: !Led(sys, addr, rows, k)
  {
    hide Top, Led;
    forall k: nat | j <= k < |rows| && rows[k].luid != sys.ourLuid
      ensures !Led(sys, addr, rows, k)
    {
      if Led(sys, addr, rows, k) { LedAfterTop(sys, addr, rows, j, k); }
    }
  }

  lemma {:induction false} OursFirst(sys: System, addr: Addr, rows: seq<Route>)
    requires rows != [] && Top(sys, addr, rows, rows[0]) && !ForeignTop(sys, addr, rows)
    requires rows[0].luid == sys.ourLuid
    ensures !Warned(Scan(sys, addr, rows))
  {
    hide Usable, AtLeast, Weak, Scan, Top, Led;
    var _, foreign := ScanIs(sys, addr, rows);
    LaterForeign(sys, addr, rows, 0);
  }

  /** A table without two of its rows. */
  lemma {:induction false} TakeTwo(rows: seq<Route>, t: Route, w: Route) returns (rest: seq<Route>)
    requires t in rows && w in rows && t != w
    ensures multiset(rest) + multiset{t} + multiset{w} == multiset(rows)
  {
    var i :| 0 <= i < |rows| && rows[i] == t;
    Without(rows, i);
    var others := rows[..i] + rows[i + 1..];
    assert w in multiset(others);
    var j :| 0 <= j < |others| && others[j] == w;
    Without(others, j);
    rest := others[..j] + others[j + 1..];
  }

  /** A sensitive table warns in one order and not in another. */
  lemma {:induction false} TwoOrders(sys: System, addr: Addr, rows: seq<Route>) returns (ps: seq<Route>, qs: seq<Route>)
    requires Sensitive(sys, addr, rows)
    ensures multiset(ps) == multiset(rows) == multiset(qs)
    ensures Warned(Scan(sys, addr, ps)) && !Warned(Scan(sys, addr, qs))
  {
    hide Usable, AtLeast, Weak, Scan, Top, Warned;
    var t :| Top(sys, addr, rows, t) && t.luid == sys.ourLuid;
    var w :| WeakForeign(sys, addr, rows, w) && (Top(sys, addr, rows, w) || !ForeignTop(sys, addr, rows));
    TopIn(sys, addr, rows, t);
    var rest := TakeTwo(rows, t, w);
    if Top(sys, addr, rows, w) {
      ps, qs := OrdersOfTops(sys, addr, rows, t, w, rest);
    } else {
      ps, qs := OrdersOfWorse(sys, addr, rows, t, w, rest);
    }
  }

  lemma {:induction false} OrdersOfTops(sys: System, addr: Addr, rows: seq<Route>, t: Route, w: Route, rest: seq<Route>)
    returns (ps: seq<Route>, qs: seq<Route>)
    requires Top(sys, addr, rows, t) && t.luid == sys.ourLuid && WeakForeign(sys, addr, rows, w) && Top(sys, addr, rows, w)
    requires multiset(rest) + multiset{t} + multiset{w} == multiset(rows)
    ensures multiset(ps) == multiset(rows) == multiset(qs)
    ensures Warned(Scan(sys, addr, ps)) && !Warned(Scan(sys, addr, qs))
  {
    hide Usable, AtLeast, Weak, Scan, Top, Warned, Sensitive, WeakForeign;
    ps, qs := rest + [w, t], rest + [t, w];
    SameTops(sys, addr, rows, ps);
    SameTops(sys, addr, rows, qs);
    SameWeak(sys, addr, rows, ps);
    IsForeign(sys, addr, rows, w);
    OursLast(sys, addr, ps);
    ForeignLast(sys, addr, qs);
  }

  lemma {:induction false} OrdersOfWorse(sys: System, addr: Addr, rows: seq<Route>, t: Route, w: Route, rest: seq<Route>)
    returns (ps: seq<Route>, qs: seq<Route>)
    requires Top(sys, addr, rows, t) && t.luid == sys.ourLuid && WeakForeign(sys, addr, rows, w) && !ForeignTop(sys, addr, rows)
    requires multiset(rest) + multiset{t} + multiset{w} == multiset(rows)
    ensures multiset(ps) == multiset(rows) == multiset(qs)
    ensures Warned(Scan(sys, addr, ps)) && !Warned(Scan(sys, addr, qs))
  {
    hide Usable, AtLeast, Weak, Scan, Top, Warned, Sensitive, WeakForeign;
    ps, qs := [w, t] + rest, [t, w] + rest;
    SameTops(sys, addr, rows, ps);
    SameTops(sys, addr, rows, qs);
    SameWeak(sys, addr, rows, ps);
    WeakFirst(sys, addr, ps);
    OursFirst(sys, addr, qs);
  }

  lemma {:induction false} SameWeak(sys: System, addr: Addr, rows: seq<Route>, ps: seq<Route>)
    requires multiset(rows) == multiset(ps)
    ensures forall r :: WeakForeign(sys, addr, rows, r) <==> WeakForeign(sys, addr, ps, r)
  {
    hide Usable, Weak;
    SameElements(rows, ps);
  }

  lemma IsForeign(sys: System, addr: Addr, rows: seq<Route>, w: Route)
    requires WeakForeign(sys, addr, rows, w)
    ensures w.luid != sys.ourLuid
  {
  }

  /** All orders of a table agree on the warning if and only if the table is not sensitive; then none warns. */
  lemma {:induction false} OrderMattersIff(sys: System, addr: Addr, rows: seq<Route>)
    ensures (forall ps, qs :: multiset(ps) == multiset(rows) && multiset(qs) == multiset(rows)
                              ==> Warned(Scan(sys, addr, ps)) == Warned(Scan(sys, addr, qs)))
            <==> !Sensitive(sys, addr, rows)
    ensures !Sensitive(sys, addr, rows) ==> !Warned(Scan(sys, addr, rows))
  {
    hide Scan, Warned, Sensitive;
    if Sensitive(sys, addr, rows) {
      var ps, qs := TwoOrders(sys, addr, rows);
    } else {
      forall ps | multiset(ps) == multiset(rows)
        ensures !Warned(Scan(sys, addr, ps))
      {
        SameTops(sys, addr, rows, ps);
        if Warned(Scan(sys, addr, ps)) { NeverWarned(sys, addr, ps); }
      }
    }
  }

  /** Sensitive tables exist: a default route of ours and a weak foreign one of larger metric. */
  lemma {:induction false} SensitiveExample()
    ensures exists sys: System, addr: Addr, rows: seq<Route> :: Sensitive(sys, addr, rows)
  {
    hide Contains;
    var sys := System(_ => Some(IfRow(true, "x")), _ => Some(IPInterfaceRow(0, true, false)), 1);
    var addr, everything := V4(0), Prefix(V4(0), 0);
    var ours, foreign := Route(1, everything, 1), Route(2, everything, 2);
    var rows := [ours, foreign];
    EverythingContains();
    assert Top(sys, addr, rows, ours);
    assert WeakForeign(sys, addr, rows, foreign);
    assert !ForeignTop(sys, addr, rows);
    assert Sensitive(sys, addr, rows);
  }

  lemma EverythingContains()
    ensures Contains(Prefix(V4(0), 0), V4(0))
  {
    hide Pow.Pow2;
  }

  // ---------------------------------------------------------------- the program

  /** What the cached lookups of one row hold: nothing, or what the lookup returns. */
  ghost predicate Cached(sys: System, r: Route, ifrow: Option<IfRow>, ifacerow: Option<IPInterfaceRow>, metric: nat) {
    && (ifrow.Some? ==> ifrow == sys.interface(r.luid))
    && (ifacerow.Some? ==> ifacerow == sys.ipInterface(r.luid) && metric == MetricOf(sys, r))
  }

  /** One row against every endpoint, each lookup made at most once unless it fails. */
  method ScanRow(sys: System, r: Route, endpoints: array<EndpointRoute>)
    modifies endpoints
    ensures forall j | 0 <= j < endpoints.Length :: endpoints[j] == Consider(sys, old(endpoints[j]), r)
  {
    hide Contains;
    var ifrow: Option<IfRow> := None;
    var ifacerow: Option<IPInterfaceRow> := None;
    var metric: nat := 0;
    for j := 0 to endpoints.Length
      invariant Cached(sys, r, ifrow, ifacerow, metric)
      invariant forall k | 0 <= k < j :: endpoints[k] == Consider(sys, old(endpoints[k]), r)
      invariant forall k | j <= k < endpoints.Length :: endpoints[k] == old(endpoints[k])
    {
      var e := endpoints[j];
      if r.destination.bits < e.highestCIDR { continue; }
      if !Contains(r.destination, e.addr) { continue; }
      if ifrow.None? {
        ifrow := sys.interface(r.luid);
        if ifrow.None? { continue; }
      }
      if !ifrow.value.up { continue; }
      if ifacerow.None? {
        ifacerow := sys.ipInterface(r.luid);
        if ifacerow.None? { continue; }
        metric := (r.metric + ifacerow.value.metric) % UINT32;
      }
      if r.destination.bits == e.highestCIDR && metric > e.lowestMetric { continue; }
      e := e.(lowestMetric := metric, highestCIDR := r.destination.bits, finalIsOurs := r.luid == sys.ourLuid);
      if !e.finalIsOurs {
        e := e.(name := ifrow.value.aliasName,
                weakHostSend := ifacerow.value.forwardingEnabled || ifacerow.value.weakHostSend);
      }
      endpoints[j] := e;
    }
  }

  /** The endpoints looked at: those whose host is an address of the family asked for. */
  function EndpointAddrs(net: Netip, hosts: seq<string>, v4: bool): seq<Addr> {
    if hosts == [] then []
    else
      var addr := net.parseAddr(hosts[|hosts| - 1]);
      EndpointAddrs(net, hosts[..|hosts| - 1], v4) + if addr.Some? && addr.value.V4? == v4 then [addr.value] else []
  }

  lemma {:induction false} EndpointAddrsAre(net: Netip, hosts: seq<string>, v4: bool, a: Addr)
    ensures a in EndpointAddrs(net, hosts, v4) <==> a.V4? == v4 && exists h :: h in hosts && net.parseAddr(h) == Some(a)
    decreases |hosts|
  {
    if hosts != [] {
      var n := |hosts| - 1;
      EndpointAddrsAre(net, hosts[..n], v4, a);
      assert hosts == hosts[..n] + [hosts[n]];
    }
  }

  /** The interfaces to warn about, for the hosts of the peers' endpoints. */
  method WeakHostSend(net: Netip, sys: System, hosts: seq<string>, v4: bool, rows: seq<Route>) returns (problematic: set<string>)
    ensures forall name :: name in problematic <==>
              exists h :: h in hosts && net.parseAddr(h).Some? && net.parseAddr(h).value.V4? == v4
                          && Warned(Scan(sys, net.parseAddr(h).value, rows)) && Scan(sys, net.parseAddr(h).value, rows).name == name
  {
    hide Consider, Warned, Scan;
    var addrs := [];
    for j := 0 to |hosts|
      invariant addrs == EndpointAddrs(net, hosts[..j], v4)
    {
      assert hosts[..j + 1][..j] == hosts[..j];
      var addr := net.parseAddr(hosts[j]);
      if addr.None? || addr.value.V4? != v4 { continue; }
      addrs := addrs + [addr.value];
    }
    assert hosts[..|hosts|] == hosts;
    problematic := ScanTable(sys, addrs, rows);
    forall name
      ensures name in problematic <==>
              exists h :: h in hosts && net.parseAddr(h).Some? && net.parseAddr(h).value.V4? == v4
                          && Warned(Scan(sys, net.parseAddr(h).value, rows)) && Scan(sys, net.parseAddr(h).value, rows).name == name
    {
      NamesOf(net, sys, hosts, v4, rows, name);
    }
  }

  /** Some address looked at is warned about under a name if and only if some host is. */
  lemma {:induction false} NamesOf(net: Netip, sys: System, hosts: seq<string>, v4: bool, rows: seq<Route>, name: string)
    ensures (exists a :: a in EndpointAddrs(net, hosts, v4) && Warned(Scan(sys, a, rows)) && Scan(sys, a, rows).name == name)
       <==> exists h :: h in hosts && net.parseAddr(h).Some? && net.parseAddr(h).value.V4? == v4
                        && Warned(Scan(sys, net.parseAddr(h).value, rows))
                        && Scan(sys, net.parseAddr(h).value, rows).name == name
  {
    hide Warned, Scan, EndpointAddrs;
    forall a
      ensures a in EndpointAddrs(net, hosts, v4) <==> a.V4? == v4 && exists h :: h in hosts && net.parseAddr(h) == Some(a)
    {
      EndpointAddrsAre(net, hosts, v4, a);
    }
  }

  /** The scan of the table, row by row, and the names collected after it. */
  method ScanTable(sys: System, addrs: seq<Addr>, rows: seq<Route>) returns (problematic: set<string>)
    ensures forall name :: name in problematic <==>
              exists a :: a in addrs && Warned(Scan(sys, a, rows)) && Scan(sys, a, rows).name == name
  {
    hide Consider, Warned;
    var endpoints := new EndpointRoute[|addrs|](j requires 0 <= j < |addrs| => Start(addrs[j]));
    assert rows[..0] == [];
    for i := 0 to |rows|
      invariant forall j | 0 <= j < |addrs| :: endpoints[j] == Scan(sys, addrs[j], rows[..i])
    {
      ScanRow(sys, rows[i], endpoints);
      assert rows[..i + 1][..i] == rows[..i];
    }
    assert rows[..|rows|] == rows;
    problematic := {};
    for j := 0 to |addrs|
      invariant forall name :: name in problematic <==>
                  exists a :: a in addrs[..j] && Warned(Scan(sys, a, rows)) && Scan(sys, a, rows).name == name
    {
      assert addrs[..j + 1] == addrs[..j] + [addrs[j]];
      if Warned(endpoints[j]) { problematic := problematic + {endpoints[j].name}; }
    }
    assert addrs[..|addrs|] == addrs;
  }
}
