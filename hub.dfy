/** The broadcast registry: the set of live socket connections and the
    fan-out of one message to all of them, dropping the ones whose send
    fails. A connection is an opaque id; the transport is a log of send
    attempts, and whether a send raises is an input of the call. */
module Hub {

  type ConnId = nat

  /** One `send_json` attempt: to whom, what, and whether it went through. */
  datatype Delivery<M> = Delivery(conn: ConnId, msg: M, ok: bool)

  /** `order` lists every member of `s` exactly once. */
  ghost predicate Enumerates(order: seq<ConnId>, s: set<ConnId>) {
    && (forall i, j :: 0 <= i < j < |order| ==> order[i] != order[j])
    && (forall c :: c in order <==> c in s)
  }

  function Conns<M>(ds: seq<Delivery<M>>): seq<ConnId> {
    seq(|ds|, i requires 0 <= i < |ds| => ds[i].conn)
  }

  /** The sends of one pass over `order`, each outcome decided by `failing`. */
  function Deliveries<M>(order: seq<ConnId>, m: M, failing: set<ConnId>): seq<Delivery<M>> {
    seq(|order|, i requires 0 <= i < |order| => Delivery(order[i], m, order[i] !in failing))
  }

  /** The transport log grew from `before` to `after` by one attempt of `m`
      to each of `targets`, once each, and nothing else; an attempt failed
      exactly when its connection is in `failing`. */
  ghost predicate FanOut<M>(before: seq<Delivery<M>>, after: seq<Delivery<M>>, targets: set<ConnId>, m: M, failing: set<ConnId>) {
    && |before| <= |after|
    && after[..|before|] == before
    && Enumerates(Conns(after[|before|..]), targets)
    && forall i :: |before| <= i < |after| ==> after[i].msg == m && after[i].ok == (after[i].conn !in failing)
  }

  /** The whole effect of one broadcast on the registry and the transport:
      a fan-out to the members registered when it started, after which
      exactly the members whose send failed are gone. */
  ghost predicate BroadcastStep<M>(
    connsBefore: set<ConnId>, logBefore: seq<Delivery<M>>,
    connsAfter: set<ConnId>, logAfter: seq<Delivery<M>>,
    m: M, failing: set<ConnId>)
  {
    FanOut(logBefore, logAfter, connsBefore, m, failing) && connsAfter == connsBefore - failing
  }

  /** `ds` holds a delivered copy of `m` for `c`. */
  ghost predicate Received<M>(ds: seq<Delivery<M>>, c: ConnId, m: M) {
    exists i :: 0 <= i < |ds| && ds[i].conn == c && ds[i].msg == m && ds[i].ok
  }

  /** `list(self._connections)`: the set copied into a list, in some order. */
  method CopyToList(s: set<ConnId>) returns (order: seq<ConnId>)
    ensures Enumerates(order, s)
  {
    order := [];
    var rest := s;
    while rest != {}
      invariant rest <= s
      invariant forall c :: c in order <==> c in s && c !in rest
      invariant forall i, j :: 0 <= i < j < |order| ==> order[i] != order[j]
      decreases rest
    {
      var c :| c in rest;
      order := order + [c];
      rest := rest - {c};
    }
  }

  /** One pass over an enumeration of the targets is a fan-out to them. */
  lemma DeliveriesFanOut<M>(before: seq<Delivery<M>>, order: seq<ConnId>, targets: set<ConnId>, m: M, failing: set<ConnId>)
    requires Enumerates(order, targets)
    ensures FanOut(before, before + Deliveries(order, m, failing), targets, m, failing)
  {
    var after := before + Deliveries(order, m, failing);
    assert after[..|before|] == before;
    assert Conns(after[|before|..]) == order;
  }

  /** After a fan-out, the connections that got the message are exactly the
      targets whose send did not fail: a failure keeps no other target from
      its copy, and a connection outside the targets gets nothing. */
  lemma FanOutReceivers<M>(before: seq<Delivery<M>>, after: seq<Delivery<M>>, targets: set<ConnId>, m: M, failing: set<ConnId>)
    requires FanOut(before, after, targets, m, failing)
    ensures forall c :: Received(after[|before|..], c, m) <==> c in targets && c !in failing
    ensures forall c, i :: c !in targets && |before| <= i < |after| ==> after[i].conn != c
    ensures |after| - |before| == |Conns(after[|before|..])|
  {
    var sent := after[|before|..];
    forall c | c in targets && c !in failing
      ensures Received(sent, c, m)
    {
      assert c in Conns(sent);
      var i :| 0 <= i < |Conns(sent)| && Conns(sent)[i] == c;
      assert sent[i] == after[|before| + i];
    }
    forall c | Received(sent, c, m)
      ensures c in targets && c !in failing
    {
      var i :| 0 <= i < |sent| && sent[i].conn == c && sent[i].msg == m && sent[i].ok;
      assert Conns(sent)[i] == c;
      assert sent[i] == after[|before| + i];
    }
    forall c, i | c !in targets && |before| <= i < |after|
      ensures after[i].conn != c
    {
      assert Conns(sent)[i - |before|] == after[i].conn;
    }
  }

  /** After a broadcast the registry is exactly the set of connections
      that received the message: every successful receiver stays, every
      connection whose send failed is gone, and nobody joins. */
  lemma RegistryIsReceivers<M>(
    connsBefore: set<ConnId>, logBefore: seq<Delivery<M>>,
    connsAfter: set<ConnId>, logAfter: seq<Delivery<M>>,
    m: M, failing: set<ConnId>)
    requires BroadcastStep(connsBefore, logBefore, connsAfter, logAfter, m, failing)
    ensures forall c :: c in connsAfter <==> Received(logAfter[|logBefore|..], c, m)
  {
    FanOutReceivers(logBefore, logAfter, connsBefore, m, failing);
  }

  /** A broadcast in which no member's send fails leaves the registry as it
      was (the source skips the removal pass when nothing is stale). */
  lemma NoFailureKeepsRegistry<M>(
    connsBefore: set<ConnId>, logBefore: seq<Delivery<M>>,
    connsAfter: set<ConnId>, logAfter: seq<Delivery<M>>,
    m: M, failing: set<ConnId>)
    requires BroadcastStep(connsBefore, logBefore, connsAfter, logAfter, m, failing)
    requires forall i :: |logBefore| <= i < |logAfter| ==> logAfter[i].ok
    ensures connsAfter == connsBefore
  {
    forall c | c in connsBefore ensures c !in failing {
      var sent := logAfter[|logBefore|..];
      assert c in Conns(sent);
      var i :| 0 <= i < |Conns(sent)| && Conns(sent)[i] == c;
      assert sent[i] == logAfter[|logBefore| + i];
    }
  }

  /** The socket side: every attempted send is recorded. */
  class Wire<M> {
    var log: seq<Delivery<M>>

    constructor ()
      ensures log == []
    {
      log := [];
    }

    /** `send_json`; it raises when `fails` holds. */
    method Send(c: ConnId, m: M, fails: bool) returns (ok: bool)
      modifies this
      ensures ok == !fails
      ensures log == old(log) + [Delivery(c, m, ok)]
    {
      ok := !fails;
      log := log + [Delivery(c, m, ok)];
    }
  }

  class ConnectionManager<M> {
    var connections: set<ConnId>
    const wire: Wire<M>

    constructor (wire: Wire<M>)
      ensures connections == {} && this.wire == wire
    {
      connections := {};
      this.wire := wire;
    }

    /** Registers `c`; nothing else joins or leaves, and registering a
        member again changes nothing. */
    method Connect(c: ConnId)
      modifies this
      ensures connections == old(connections) + {c}
    {
      connections := connections + {c};
    }

    /** Unregisters `c` if present (a `discard`: an absent `c` is no error). */
    method Disconnect(c: ConnId)
      modifies this
      ensures connections == old(connections) - {c}
    {
      connections := connections - {c};
    }

    /** Sends `m` to every member registered at the start, collects the
        members whose send raised (those in `failing`) and then discards them. */
    method Broadcast(m: M, failing: set<ConnId>)
      modifies this, wire
      ensures BroadcastStep(old(connections), old(wire.log), connections, wire.log, m, failing)
    {
      var snapshot := CopyToList(connections);
      ghost var logBefore := wire.log;
      var stale: set<ConnId> := {};
      for i := 0 to |snapshot|
        invariant wire.log == logBefore + Deliveries(snapshot[..i], m, failing)
        invariant stale == (set c | c in snapshot[..i]) * failing
        invariant connections == old(connections)
      {
        var ok := wire.Send(snapshot[i], m, snapshot[i] in failing);
        if !ok {
          stale := stale + {snapshot[i]};
        }
        assert snapshot[..i + 1] == snapshot[..i] + [snapshot[i]];
        assert Deliveries(snapshot[..i + 1], m, failing) == Deliveries(snapshot[..i], m, failing) + [Delivery(snapshot[i], m, ok)];
      }
      assert snapshot[..|snapshot|] == snapshot;
      assert (set c | c in snapshot) == old(connections);
      DeliveriesFanOut(logBefore, snapshot, old(connections), m, failing);
      ghost var logAfter := wire.log;
      assert stale == old(connections) * failing;
      if stale != {} {
        var rest := stale;
        while rest != {}
          invariant rest <= stale
          invariant connections == old(connections) - (stale - rest)
          invariant wire.log == logAfter
          decreases rest
        {
          var c :| c in rest;
          connections := connections - {c};
          rest := rest - {c};
        }
      } else {
        assert forall c :: c in old(connections) && c in failing ==> c in stale;
        assert old(connections) - failing == old(connections);
      }
    }
  }

  /** A worked example: two clients register and both get the first
      broadcast; after the first one leaves, only the second gets the next. */
  method TwoClientScenario<M>(created: M, updated: M)
  {
    var wire := new Wire<M>();
    var hub := new ConnectionManager(wire);
    hub.Connect(1);
    hub.Connect(2);
    var log0 := wire.log;
    hub.Broadcast(created, {});
    FanOutReceivers(log0, wire.log, {1, 2}, created, {});
    assert Received(wire.log[|log0|..], 1, created) && Received(wire.log[|log0|..], 2, created);
    hub.Disconnect(1);
    assert hub.connections == {2};
    var log1 := wire.log;
    hub.Broadcast(updated, {});
    FanOutReceivers(log1, wire.log, {2}, updated, {});
    assert Received(wire.log[|log1|..], 2, updated);
    assert forall i :: |log1| <= i < |wire.log| ==> wire.log[i].conn != 1;
    assert hub.connections == {2};
  }
}
