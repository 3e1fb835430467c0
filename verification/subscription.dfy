/**
 The v2 subscription registry (`subscription.Subscription`): connections
 subscribe to commands, and running a command delivers its result to every
 subscribed connection. Each subscription is indexed twice, by connection
 and by command; both indices hold the same action, which in the Go code is
 one shared pointer and here is one value stored in both places.

 Connections, request data and handlers are type parameters. Running a
 handler is the parameter `run`; sending to a connection is modelled by
 returning the envelopes that would be sent.
 */
module Subscription {
  import opened Wrappers
  import opened Text

  /** A subscribed action: the command name, its request data and its handler. */
  datatype Action<D, H> = Action(command: Bytes, data: D, handler: H)

  /** Both indices: connection -> command -> action, and command -> connection -> action. */
  datatype Subscription<C(==, !new), D, H> = Subscription(
    subscribers: map<C, map<Bytes, Action<D, H>>>,
    actions: map<Bytes, map<C, Action<D, H>>>)

  /** What a handler returns: the reply bytes and possibly an error message. */
  datatype Reply = Reply(data: Bytes, err: Option<Bytes>)

  /** The message sent to a subscriber (`TeogwData` with the fields the code sets). */
  datatype Envelope = Envelope(command: Bytes, data: Bytes, err: Bytes)

  // ---------------------------------------------------------------------------
  // Views of the two indices
  // ---------------------------------------------------------------------------

  /** The action the connection index holds for (con, command). */
  function Lookup<C(==, !new), D, H>(s: Subscription<C, D, H>, con: C, command: Bytes): Option<Action<D, H>> {
    if con in s.subscribers && command in s.subscribers[con] then Some(s.subscribers[con][command]) else None
  }

  /** The action the command index holds for (con, command). */
  function LookupByCommand<C(==, !new), D, H>(s: Subscription<C, D, H>, con: C, command: Bytes): Option<Action<D, H>> {
    if command in s.actions && con in s.actions[command] then Some(s.actions[command][con]) else None
  }

  /** The connections the command index lists for a command. */
  function Subscribers<C(==, !new), D, H>(s: Subscription<C, D, H>, command: Bytes): set<C> {
    if command in s.actions then s.actions[command].Keys else {}
  }

  /**
   The two indices agree, neither keeps an empty inner map, and every
   action is filed under its own command name.
   */
  ghost predicate Inv<C(!new), D, H>(s: Subscription<C, D, H>) {
    (forall con, command :: Lookup(s, con, command) == LookupByCommand(s, con, command)) &&
    (forall con :: con in s.subscribers ==> s.subscribers[con] != map[]) &&
    (forall command :: command in s.actions ==> s.actions[command] != map[]) &&
    (forall con, command :: Lookup(s, con, command).Some? ==> Lookup(s, con, command).value.command == command)
  }

  // ---------------------------------------------------------------------------
  // Operations
  // ---------------------------------------------------------------------------

  /** `New`: no subscriptions. */
  function New<C(==, !new), D, H>(): (s: Subscription<C, D, H>)
    ensures Inv(s)
    ensures forall con, command :: Lookup(s, con, command) == None
  {
    Subscription(map[], map[])
  }

  /**
   `SubscribeCmd`: file a fresh action for (con, command) in both indices,
   replacing an earlier one; every other subscription is kept.
   */
  function SubscribeCmd<C(==, !new), D, H>(s: Subscription<C, D, H>, con: C, command: Bytes, data: D, handler: H)
    : (r: Subscription<C, D, H>)
    ensures Lookup(r, con, command) == Some(Action(command, data, handler))
    ensures LookupByCommand(r, con, command) == Some(Action(command, data, handler))
    ensures forall c, n :: (c != con || n != command) ==>
              Lookup(r, c, n) == Lookup(s, c, n) && LookupByCommand(r, c, n) == LookupByCommand(s, c, n)
    ensures Inv(s) ==> Inv(r)
  {
    var a := Action(command, data, handler);
    var byCon := if con in s.subscribers then s.subscribers[con] else map[];
    var byCmd := if command in s.actions then s.actions[command] else map[];
    Subscription(s.subscribers[con := byCon[command := a]], s.actions[command := byCmd[con := a]])
  }

  /**
   `DelCon`: drop the connection's entry from the connection index and the
   connection from every command's entry, dropping entries left empty.
   */
  function DelCon<C(==, !new), D, H>(s: Subscription<C, D, H>, con: C): (r: Subscription<C, D, H>)
    ensures forall n :: Lookup(r, con, n) == None && LookupByCommand(r, con, n) == None
    ensures forall c, n :: c != con ==> Lookup(r, c, n) == Lookup(s, c, n) && LookupByCommand(r, c, n) == LookupByCommand(s, c, n)
    ensures Inv(s) ==> Inv(r)
  {
    var actions := map n | n in s.actions && !(con in s.actions[n] && s.actions[n].Keys == {con}) :: s.actions[n] - {con};
    var r := Subscription(s.subscribers - {con}, actions);
    assert forall n :: n in r.actions ==> r.actions[n] != map[] || s.actions[n] == map[] by {
      forall n | n in r.actions ensures r.actions[n] != map[] || s.actions[n] == map[] {
        if s.actions[n] != map[] && con in s.actions[n] {
          var k :| k in s.actions[n].Keys;
          if k == con {
            assert s.actions[n].Keys != {con};
            var k' :| k' in s.actions[n].Keys && k' != con;
            assert k' in r.actions[n];
          } else {
            assert k in r.actions[n];
          }
        }
      }
    }
    r
  }

  /**
   `DelConCmd`: drop (con, command) from both indices, dropping an inner
   map left empty; every other subscription is kept.
   */
  function DelConCmd<C(==, !new), D, H>(s: Subscription<C, D, H>, con: C, command: Bytes): (r: Subscription<C, D, H>)
    ensures Lookup(r, con, command) == None && LookupByCommand(r, con, command) == None
    ensures forall c, n :: (c != con || n != command) ==>
              Lookup(r, c, n) == Lookup(s, c, n) && LookupByCommand(r, c, n) == LookupByCommand(s, c, n)
    ensures Inv(s) ==> Inv(r)
  {
    var actions :=
      if command in s.actions && con in s.actions[command] then
        var rest := s.actions[command] - {con};
        if rest == map[] then s.actions - {command} else s.actions[command := rest]
      else s.actions;
    var subscribers :=
      if con in s.subscribers && command in s.subscribers[con] then
        var rest := s.subscribers[con] - {command};
        if rest == map[] then s.subscribers - {con} else s.subscribers[con := rest]
      else s.subscribers;
    assert forall c :: command in s.actions && c in s.actions[command] && c != con ==>
             c in s.actions[command] - {con};
    assert forall n :: con in s.subscribers && n in s.subscribers[con] && n != command ==>
             n in s.subscribers[con] - {command};
    Subscription(subscribers, actions)
  }

  /** `ExistsConCmd`: whether the connection index holds (con, command). */
  function ExistsConCmd<C(==, !new), D, H>(s: Subscription<C, D, H>, con: C, command: Bytes): (b: bool)
    ensures b <==> Lookup(s, con, command).Some?
  {
    con in s.subscribers && command in s.subscribers[con]
  }

  /** `DataConCmd`: the request data of (con, command), or nothing (Go's nil) when absent. */
  function DataConCmd<C(==, !new), D, H>(s: Subscription<C, D, H>, con: C, command: Bytes): (r: Option<D>)
    ensures r.Some? <==> ExistsConCmd(s, con, command)
    ensures r.Some? ==> r.value == s.subscribers[con][command].data
  {
    if con in s.subscribers && command in s.subscribers[con] then Some(s.subscribers[con][command].data) else None
  }

  /**
   `UpdateConCmd`: replace the request data of an existing (con, command);
   the shared action is seen through both indices. Absent, nothing changes.
   */
  function UpdateConCmd<C(==, !new), D, H>(s: Subscription<C, D, H>, con: C, command: Bytes, data: D)
    : (r: Subscription<C, D, H>)
    ensures !ExistsConCmd(s, con, command) ==> r == s
    ensures ExistsConCmd(s, con, command) ==>
              Lookup(r, con, command) == Some(Lookup(s, con, command).value.(data := data))
    ensures Inv(s) && ExistsConCmd(s, con, command) ==>
              LookupByCommand(r, con, command) == Some(Lookup(s, con, command).value.(data := data))
    ensures forall c, n :: (c != con || n != command) ==>
              Lookup(r, c, n) == Lookup(s, c, n) && LookupByCommand(r, c, n) == LookupByCommand(s, c, n)
    ensures Inv(s) ==> Inv(r)
  {
    if con in s.subscribers && command in s.subscribers[con] then
      var a := s.subscribers[con][command].(data := data);
      var actions :=
        if command in s.actions && con in s.actions[command] then s.actions[command := s.actions[command][con := a]]
        else s.actions;
      Subscription(s.subscribers[con := s.subscribers[con][command := a]], actions)
    else s
  }

  /** What is sent for an action run on behalf of `command`: the reply and the error text ("" for none). */
  function Deliver<D, H>(command: Bytes, a: Action<D, H>, run: (H, Bytes, D) -> Reply): (e: Envelope)
    ensures e.command == command
    ensures e.data == run(a.handler, a.command, a.data).data
    ensures run(a.handler, a.command, a.data).err.None? ==> e.err == []
    ensures run(a.handler, a.command, a.data).err.Some? ==> e.err == run(a.handler, a.command, a.data).err.value
  {
    var reply := run(a.handler, a.command, a.data);
    Envelope(command, reply.data, match reply.err case None => [] case Some(m) => m)
  }

  /**
   `ExecCmd`: run every action the command index holds for the command and
   send each result to its connection; nothing when there is none.
   */
  function ExecCmd<C(==, !new), D, H>(s: Subscription<C, D, H>, command: Bytes, run: (H, Bytes, D) -> Reply)
    : (r: set<(C, Envelope)>)
    ensures forall con :: LookupByCommand(s, con, command).Some? ==>
              (con, Deliver(command, LookupByCommand(s, con, command).value, run)) in r
    ensures forall p :: p in r ==>
              LookupByCommand(s, p.0, command).Some? && p.1 == Deliver(command, LookupByCommand(s, p.0, command).value, run)
  {
    if command !in s.actions || s.actions[command] == map[] then {}
    else set con | con in s.actions[command] :: (con, Deliver(command, s.actions[command][con], run))
  }

  /** `ExecConCmd`: run the connection's action for the command, if it has one, and send the result to it. */
  function ExecConCmd<C(==, !new), D, H>(s: Subscription<C, D, H>, con: C, command: Bytes, run: (H, Bytes, D) -> Reply)
    : (r: Option<Envelope>)
    ensures r.None? <==> !ExistsConCmd(s, con, command)
    ensures r.Some? ==> r.value == Deliver(command, Lookup(s, con, command).value, run)
  {
    if con in s.subscribers && command in s.subscribers[con] then
      Some(Deliver(command, s.subscribers[con][command], run))
    else None
  }

  /** `Iter`: the commands that have subscribers (the iteration order is Go's map order and not modelled). */
  function Iter<C(==, !new), D, H>(s: Subscription<C, D, H>): (r: set<Bytes>)
    ensures Inv(s) ==> forall n :: n in r <==> Subscribers(s, n) != {}
  {
    assert Inv(s) ==> forall n :: n in s.actions ==> Subscribers(s, n) != {} by {
      if Inv(s) {
        forall n | n in s.actions ensures Subscribers(s, n) != {} {
          var c :| c in s.actions[n];
          assert c in Subscribers(s, n);
        }
      }
    }
    s.actions.Keys
  }

  /** The connections an `ExecCmd` result is sent to. */
  function Recipients<C(==, !new)>(r: set<(C, Envelope)>): set<C> {
    set p | p in r :: p.0
  }

  // ---------------------------------------------------------------------------
  // Properties across operations
  // ---------------------------------------------------------------------------

  /** No index keeps an empty inner map. */
  ghost predicate Compact<C(!new), D, H>(s: Subscription<C, D, H>) {
    (forall con :: con in s.subscribers ==> s.subscribers[con] != map[]) &&
    (forall command :: command in s.actions ==> s.actions[command] != map[])
  }

  /** Two compact states that answer every lookup alike are the same state. */
  lemma SameViewsSame<C(!new), D, H>(s1: Subscription<C, D, H>, s2: Subscription<C, D, H>)
    requires Compact(s1) && Compact(s2)
    requires forall c, n :: Lookup(s1, c, n) == Lookup(s2, c, n) && LookupByCommand(s1, c, n) == LookupByCommand(s2, c, n)
    ensures s1 == s2
  {
    forall c | c in s1.subscribers ensures c in s2.subscribers {
      var n :| n in s1.subscribers[c];
      assert Lookup(s1, c, n).Some?;
    }
    forall c | c in s2.subscribers ensures c in s1.subscribers {
      var n :| n in s2.subscribers[c];
      assert Lookup(s2, c, n).Some?;
    }
    forall c | c in s1.subscribers ensures s1.subscribers[c] == s2.subscribers[c] {
      forall n ensures n in s1.subscribers[c] <==> n in s2.subscribers[c] {
        assert Lookup(s1, c, n) == Lookup(s2, c, n);
      }
      forall n | n in s1.subscribers[c] ensures s1.subscribers[c][n] == s2.subscribers[c][n] {
        assert Lookup(s1, c, n) == Lookup(s2, c, n);
      }
    }
    forall n | n in s1.actions ensures n in s2.actions {
      var c :| c in s1.actions[n];
      assert LookupByCommand(s1, c, n).Some?;
    }
    forall n | n in s2.actions ensures n in s1.actions {
      var c :| c in s2.actions[n];
      assert LookupByCommand(s2, c, n).Some?;
    }
    forall n | n in s1.actions ensures s1.actions[n] == s2.actions[n] {
      forall c ensures c in s1.actions[n] <==> c in s2.actions[n] {
        assert LookupByCommand(s1, c, n) == LookupByCommand(s2, c, n);
      }
      forall c | c in s1.actions[n] ensures s1.actions[n][c] == s2.actions[n][c] {
        assert LookupByCommand(s1, c, n) == LookupByCommand(s2, c, n);
      }
    }
  }

  /** Subscribing and then unsubscribing (con, command) leaves what unsubscribing alone leaves. */
  lemma SubscribeThenDelConCmd<C(!new), D, H>(s: Subscription<C, D, H>, con: C, command: Bytes, data: D, handler: H)
    requires Inv(s)
    ensures DelConCmd(SubscribeCmd(s, con, command, data, handler), con, command) == DelConCmd(s, con, command)
  {
    var s0 := SubscribeCmd(s, con, command, data, handler);
    assert Inv(s0);
    var s1 := DelConCmd(s0, con, command);
    var s2 := DelConCmd(s, con, command);
    assert Compact(s1) && Compact(s2);
    SameViewsSame(s1, s2);
  }

  /** A later subscription of the same (con, command) replaces the earlier one outright. */
  lemma Resubscribe<C(!new), D, H>(s: Subscription<C, D, H>, con: C, command: Bytes,
                                       d1: D, h1: H, d2: D, h2: H)
    requires Inv(s)
    ensures SubscribeCmd(SubscribeCmd(s, con, command, d1, h1), con, command, d2, h2) ==
            SubscribeCmd(s, con, command, d2, h2)
  {
    var s1 := SubscribeCmd(SubscribeCmd(s, con, command, d1, h1), con, command, d2, h2);
    var s2 := SubscribeCmd(s, con, command, d2, h2);
    SameViewsSame(s1, s2);
  }

  /** Dropping a connection twice is dropping it once. */
  lemma DelConIdempotent<C(!new), D, H>(s: Subscription<C, D, H>, con: C)
    requires Inv(s)
    ensures DelCon(DelCon(s, con), con) == DelCon(s, con)
  {
    SameViewsSame(DelCon(DelCon(s, con), con), DelCon(s, con));
  }

  /**
   Under the invariant the two indices deliver alike: `ExecCmd` sends to
   exactly the connections `ExistsConCmd` reports, and what it sends each
   is what `ExecConCmd` sends it.
   */
  lemma ExecIndicesAgree<C(!new), D, H>(s: Subscription<C, D, H>, command: Bytes, run: (H, Bytes, D) -> Reply)
    requires Inv(s)
    ensures forall con :: con in Recipients(ExecCmd(s, command, run)) <==> ExistsConCmd(s, con, command)
    ensures forall con :: ExistsConCmd(s, con, command) ==>
              (con, ExecConCmd(s, con, command, run).value) in ExecCmd(s, command, run)
  {
    var r := ExecCmd(s, command, run);
    forall con ensures con in Recipients(r) <==> ExistsConCmd(s, con, command) {
      assert Lookup(s, con, command) == LookupByCommand(s, con, command);
      if LookupByCommand(s, con, command).Some? {
        assert (con, Deliver(command, LookupByCommand(s, con, command).value, run)) in r;
      }
      if con in Recipients(r) {
        var p :| p in r && p.0 == con;
      }
    }
    forall con | ExistsConCmd(s, con, command)
      ensures (con, ExecConCmd(s, con, command, run).value) in r
    {
      assert Lookup(s, con, command) == LookupByCommand(s, con, command);
    }
  }

  /** After `DelCon` nothing is delivered to the connection, whatever command runs. */
  lemma DelConSilences<C(!new), D, H>(s: Subscription<C, D, H>, con: C, command: Bytes, run: (H, Bytes, D) -> Reply)
    ensures con !in Recipients(ExecCmd(DelCon(s, con), command, run))
    ensures ExecConCmd(DelCon(s, con), con, command, run).None?
  {
  }

  /** A subscription runs with the data it was given, and later with the data an update gave it. */
  lemma SubscribeUpdateExec<C(!new), D, H>(s: Subscription<C, D, H>, con: C, command: Bytes,
                                               data: D, handler: H, data2: D, run: (H, Bytes, D) -> Reply)
    requires Inv(s)
    ensures var s1 := SubscribeCmd(s, con, command, data, handler);
            && (con, Deliver(command, Action(command, data, handler), run)) in ExecCmd(s1, command, run)
            && (con, Deliver(command, Action(command, data2, handler), run)) in
                 ExecCmd(UpdateConCmd(s1, con, command, data2), command, run)
            && DataConCmd(UpdateConCmd(s1, con, command, data2), con, command) == Some(data2)
  {
    var s1 := SubscribeCmd(s, con, command, data, handler);
    assert ExistsConCmd(s1, con, command);
    var s2 := UpdateConCmd(s1, con, command, data2);
    assert Lookup(s2, con, command) == Some(Action(command, data2, handler));
  }

  // ---------------------------------------------------------------------------
  // Reachable states
  // ---------------------------------------------------------------------------

  /** The mutating calls of the API. */
  datatype Op<C, D, H> =
    | Subscribe(con: C, command: Bytes, data: D, handler: H)
    | Drop(con: C)
    | DropCommand(con: C, command: Bytes)
    | Update(con: C, command: Bytes, data: D)

  function Apply<C(==, !new), D, H>(s: Subscription<C, D, H>, op: Op<C, D, H>): (r: Subscription<C, D, H>)
    ensures Inv(s) ==> Inv(r)
  {
    match op
    case Subscribe(con, command, data, handler) => SubscribeCmd(s, con, command, data, handler)
    case Drop(con) => DelCon(s, con)
    case DropCommand(con, command) => DelConCmd(s, con, command)
    case Update(con, command, data) => UpdateConCmd(s, con, command, data)
  }

  function ApplyAll<C(==, !new), D, H>(s: Subscription<C, D, H>, ops: seq<Op<C, D, H>>): Subscription<C, D, H>
    decreases |ops|
  {
    if ops == [] then s else ApplyAll(Apply(s, ops[0]), ops[1..])
  }

  /** Every state reached from `New` by any sequence of calls keeps the invariant. */
  lemma {:induction false} ReachableInv<C(!new), D, H>(s: Subscription<C, D, H>, ops: seq<Op<C, D, H>>)
    requires Inv(s)
    ensures Inv(ApplyAll(s, ops))
    decreases |ops|
  {
    if ops != [] {
      ReachableInv(Apply(s, ops[0]), ops[1..]);
    }
  }

  lemma ReachableFromNew<C(!new), D, H>(ops: seq<Op<C, D, H>>)
    ensures Inv(ApplyAll(New<C, D, H>(), ops))
  {
    ReachableInv(New<C, D, H>(), ops);
  }
}
