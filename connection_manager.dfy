/** The in-process registry of open websockets
    (helpers/utils/websocket_connection_manager.py): for each conversation
    key, the connections registered under it in registration order. */
module ConnectionManager {
  import opened Common

  /** What sending on a socket does: the frame goes out, the peer turns out
      to be gone (WebSocketDisconnect), or some other exception is raised. */
  datatype SendOutcome = Delivered | PeerDisconnected | OtherError

  /** A socket as far as the registry sees it: an opaque handle, whether its
      client state is CONNECTED, and what a send on it does. */
  datatype Socket = Socket(handle: nat, connected: bool, onSend: SendOutcome)

  /** One registry entry: `{"id": websocket_id, "websocket_obj": websocket}`. */
  datatype Connection = Connection(id: string, socket: Socket)

  type Registry = map<PyValue, seq<Connection>>

  /** The invariant the registry keeps: keys are the str ids `connect` is
      given, and no key maps to an empty list. */
  ghost predicate WellFormed(m: Registry)
  {
    forall k :: k in m ==> k.PyStr? && m[k] != []
  }

  function Lookup(m: Registry, key: PyValue): seq<Connection>
  {
    if key in m then m[key] else []
  }

  /** The entries whose id differs from `websocket_id`; ids are str, so an
      id of another Python type never matches. */
  function WithoutId(cs: seq<Connection>, wsId: PyValue): (r: seq<Connection>)
    ensures |r| <= |cs|
    ensures forall c :: c in r <==> c in cs && PyStr(c.id) != wsId
  {
    if cs == [] then []
    else (if PyStr(cs[0].id) == wsId then [] else [cs[0]]) + WithoutId(cs[1..], wsId)
  }

  /** The registry after `connect` appended an entry. */
  function Added(m: Registry, key: string, c: Connection): Registry
  {
    m[PyStr(key) := Lookup(m, PyStr(key)) + [c]]
  }

  /** The registry after `disconnect(key, websocket_id)`. */
  function Removed(m: Registry, key: PyValue, wsId: PyValue): Registry
  {
    if key !in m then m
    else
      var rest := WithoutId(m[key], wsId);
      if rest == [] then m - {key} else m[key := rest]
  }

  /** connect appends at the end of its own key's list, creating it when
      absent, and keeps the invariant; nothing else changes. */
  lemma AddedShape(m: Registry, key: string, c: Connection)
    requires WellFormed(m)
    ensures WellFormed(Added(m, key, c))
    ensures Lookup(Added(m, key, c), PyStr(key)) == Lookup(m, PyStr(key)) + [c]
    ensures forall k :: k != PyStr(key) ==> Lookup(Added(m, key, c), k) == Lookup(m, k)
    ensures Added(m, key, c).Keys == m.Keys + {PyStr(key)}
  {
  }

  /** disconnect drops every entry with that id under that key and nothing
      else, deletes a key it empties, and keeps the invariant. */
  lemma RemovedShape(m: Registry, key: PyValue, wsId: PyValue)
    requires WellFormed(m)
    ensures WellFormed(Removed(m, key, wsId))
    ensures Lookup(Removed(m, key, wsId), key) == WithoutId(Lookup(m, key), wsId)
    ensures forall k :: k != key ==> Lookup(Removed(m, key, wsId), k) == Lookup(m, k)
    ensures forall c :: c in Lookup(Removed(m, key, wsId), key) ==> PyStr(c.id) != wsId
  {
  }

  lemma {:induction false} WithoutIdTwice(cs: seq<Connection>, wsId: PyValue)
    ensures WithoutId(WithoutId(cs, wsId), wsId) == WithoutId(cs, wsId)
  {
    if cs != [] {
      WithoutIdTwice(cs[1..], wsId);
      var r := WithoutId(cs, wsId);
      if PyStr(cs[0].id) != wsId {
        assert r == [cs[0]] + WithoutId(cs[1..], wsId);
        assert r != [] && r[0] == cs[0] && r[1..] == WithoutId(cs[1..], wsId);
        assert WithoutId(r, wsId) == [cs[0]] + WithoutId(r[1..], wsId);
      } else {
        assert r == [] + WithoutId(cs[1..], wsId);
        assert r == WithoutId(cs[1..], wsId);
      }
    }
  }

  /** Disconnecting twice is disconnecting once. */
  lemma RemovedIdempotent(m: Registry, key: PyValue, wsId: PyValue)
    requires WellFormed(m)
    ensures Removed(Removed(m, key, wsId), key, wsId) == Removed(m, key, wsId)
  {
    if key in m {
      WithoutIdTwice(m[key], wsId);
    }
  }

  lemma {:induction false} WithoutAbsentId(cs: seq<Connection>, wsId: PyValue)
    requires forall i :: 0 <= i < |cs| ==> PyStr(cs[i].id) != wsId
    ensures WithoutId(cs, wsId) == cs
  {
    if cs != [] {
      WithoutAbsentId(cs[1..], wsId);
      assert [cs[0]] + cs[1..] == cs;
    }
  }

  /** Disconnecting an id that is not registered under the key, or under a
      key that is not registered, changes nothing. */
  lemma DisconnectUnknownIsNoop(m: Registry, key: PyValue, wsId: PyValue)
    requires WellFormed(m)
    requires forall i :: 0 <= i < |Lookup(m, key)| ==> PyStr(Lookup(m, key)[i].id) != wsId
    ensures Removed(m, key, wsId) == m
  {
    if key in m {
      assert Lookup(m, key) == m[key];
      WithoutAbsentId(m[key], wsId);
    }
  }

  /** A call that passes the websocket object as the key can never match a
      str key, so it never removes anything. */
  lemma SwappedDisconnectIsNoop(m: Registry, socket: nat, wsId: PyValue)
    requires WellFormed(m)
    ensures Removed(m, PyWebSocket(socket), wsId) == m
  {
  }

  // ---------------------------------------------------------------------
  // broadcast
  // ---------------------------------------------------------------------

  /** broadcast drops an entry whose socket is not CONNECTED, or whose send
      raises WebSocketDisconnect. */
  predicate Dead(c: Connection)
  {
    !c.socket.connected || c.socket.onSend == PeerDisconnected
  }

  /** The ids broadcast passes to disconnect, over a prefix of the snapshot. */
  function DeadIds(s: seq<Connection>): set<string>
  {
    if s == [] then {}
    else DeadIds(s[..|s| - 1]) + (if Dead(s[|s| - 1]) then {s[|s| - 1].id} else {})
  }

  /** The sockets a frame reached, in snapshot order. */
  function Reached(s: seq<Connection>): seq<nat>
  {
    if s == [] then []
    else Reached(s[..|s| - 1]) + (if s[|s| - 1].socket.connected && s[|s| - 1].socket.onSend == Delivered
                                  then [s[|s| - 1].socket.handle] else [])
  }

  /** The entries whose id is not in a set. */
  function WithoutIds(cs: seq<Connection>, ids: set<string>): (r: seq<Connection>)
    ensures forall c :: c in r <==> c in cs && c.id !in ids
  {
    if cs == [] then []
    else (if cs[0].id in ids then [] else [cs[0]]) + WithoutIds(cs[1..], ids)
  }

  /** The key's list with a set of ids removed, deleting an emptied key. */
  function Settled(m: Registry, key: PyValue, ids: set<string>): Registry
  {
    if key !in m then m
    else
      var rest := WithoutIds(m[key], ids);
      if rest == [] then m - {key} else m[key := rest]
  }

  lemma {:induction false} WithoutIdsNone(cs: seq<Connection>)
    ensures WithoutIds(cs, {}) == cs
  {
    if cs != [] {
      WithoutIdsNone(cs[1..]);
    }
  }

  lemma {:induction false} WithoutIdsThenId(cs: seq<Connection>, ids: set<string>, x: string)
    ensures WithoutId(WithoutIds(cs, ids), PyStr(x)) == WithoutIds(cs, ids + {x})
  {
    if cs != [] {
      WithoutIdsThenId(cs[1..], ids, x);
      var r := WithoutIds(cs, ids);
      if cs[0].id !in ids {
        assert r == [cs[0]] + WithoutIds(cs[1..], ids);
        assert r != [] && r[0] == cs[0] && r[1..] == WithoutIds(cs[1..], ids);
        assert WithoutId(r, PyStr(x)) == (if cs[0].id == x then [] else [cs[0]]) + WithoutId(r[1..], PyStr(x));
      } else {
        assert r == [] + WithoutIds(cs[1..], ids);
        assert r == WithoutIds(cs[1..], ids);
      }
    }
  }

  /** One disconnect inside the loop removes one more id. */
  lemma SettledStep(m: Registry, key: PyValue, ids: set<string>, x: string)
    ensures Removed(Settled(m, key, ids), key, PyStr(x)) == Settled(m, key, ids + {x})
  {
    if key in m {
      WithoutIdsThenId(m[key], ids, x);
    }
  }

  /** What one more entry of the snapshot does to the registry and to the
      sockets reached. */
  lemma BroadcastStep(m: Registry, key: PyValue, s: seq<Connection>, i: nat)
    requires i < |s|
    ensures Dead(s[i]) ==>
      Settled(m, key, DeadIds(s[..i + 1])) == Removed(Settled(m, key, DeadIds(s[..i])), key, PyStr(s[i].id))
    ensures !Dead(s[i]) ==> Settled(m, key, DeadIds(s[..i + 1])) == Settled(m, key, DeadIds(s[..i]))
    ensures Reached(s[..i + 1]) == Reached(s[..i]) +
      (if s[i].socket.connected && s[i].socket.onSend == Delivered then [s[i].socket.handle] else [])
  {
    assert s[..i + 1][..i] == s[..i];
    if Dead(s[i]) {
      SettledStep(m, key, DeadIds(s[..i]), s[i].id);
    } else {
      assert DeadIds(s[..i + 1]) == DeadIds(s[..i]);
    }
  }

  /** A broadcast to a key whose sockets are all connected and all accept the
      frame reaches every one of them and leaves the registry as it was. */
  lemma {:induction false} HealthyBroadcast(s: seq<Connection>)
    requires forall i :: 0 <= i < |s| ==> s[i].socket.connected && s[i].socket.onSend == Delivered
    ensures DeadIds(s) == {}
    ensures |Reached(s)| == |s|
    ensures forall i :: 0 <= i < |s| ==> Reached(s)[i] == s[i].socket.handle
  {
    if s != [] {
      HealthyBroadcast(s[..|s| - 1]);
    }
  }

  /** The ids dropped are exactly those of dead entries, so an entry that
      only failed with another error stays unless it shares a dead id. */
  lemma {:induction false} DeadIdsExact(s: seq<Connection>)
    ensures forall x :: x in DeadIds(s) <==> exists i :: 0 <= i < |s| && Dead(s[i]) && s[i].id == x
  {
    if s != [] {
      var init := s[..|s| - 1];
      DeadIdsExact(init);
      forall x ensures x in DeadIds(s) <==> exists i :: 0 <= i < |s| && Dead(s[i]) && s[i].id == x {
        if x in DeadIds(init) {
          var i :| 0 <= i < |init| && Dead(init[i]) && init[i].id == x;
          assert s[i] == init[i];
        }
        if exists i :: 0 <= i < |s| && Dead(s[i]) && s[i].id == x {
          var i :| 0 <= i < |s| && Dead(s[i]) && s[i].id == x;
          if i < |s| - 1 {
            assert init[i] == s[i];
          }
        }
      }
    }
  }

  class ConnectionManager {
    var active: Registry

    ghost predicate Valid()
      reads this
    {
      WellFormed(active)
    }

    constructor ()
      ensures active == map[]
      ensures Valid()
    {
      active := map[];
    }

    /** connect: if accepting the socket fails the exception is swallowed
        and nothing is registered. */
    method Connect(socket: Socket, key: string, wsId: string, accepted: bool)
      requires Valid()
      modifies this
      ensures Valid()
      ensures !accepted ==> active == old(active)
      ensures accepted ==> active == Added(old(active), key, Connection(wsId, socket))
    {
      if !accepted {
        return;
      }
      if PyStr(key) !in active {
        active := active[PyStr(key) := []];
      }
      active := active[PyStr(key) := active[PyStr(key)] + [Connection(wsId, socket)]];
    }

    method Disconnect(key: PyValue, wsId: PyValue)
      requires Valid()
      modifies this
      ensures Valid()
      ensures active == Removed(old(active), key, wsId)
    {
      if key in active {
        var updated := WithoutId(active[key], wsId);
        if updated != [] {
          active := active[key := updated];
        } else {
          active := active - {key};
        }
      }
      RemovedShape(old(active), key, wsId);
    }

    /** broadcast over a copy of the key's list: send to each connected
        entry, disconnect each entry that is not connected or whose peer is
        gone, swallow any other error and go on. Every socket reached gets
        the same frame, so the frame itself is not a parameter here. */
    method Broadcast(key: PyValue) returns (reached: seq<nat>)
      requires Valid()
      modifies this
      ensures Valid()
      ensures reached == Reached(Lookup(old(active), key))
      ensures active == Settled(old(active), key, DeadIds(Lookup(old(active), key)))
    {
      reached := [];
      if key !in active {
        return;
      }
      var snapshot := active[key];
      WithoutIdsNone(snapshot);
      assert active == Settled(active, key, {});
      ghost var start := active;
      for i := 0 to |snapshot|
        invariant Valid()
        invariant active == Settled(start, key, DeadIds(snapshot[..i]))
        invariant reached == Reached(snapshot[..i])
      {
        var connection := snapshot[i];
        BroadcastStep(start, key, snapshot, i);
        if connection.socket.connected {
          match connection.socket.onSend
          case Delivered =>
            reached := reached + [connection.socket.handle];
          case PeerDisconnected =>
            Disconnect(key, PyStr(connection.id));
          case OtherError =>
        } else {
          Disconnect(key, PyStr(connection.id));
        }
      }
      assert snapshot[..|snapshot|] == snapshot;
    }
  }
}
