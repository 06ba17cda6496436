/** The connection registry `_sockets` (socket id to socket, in insertion
    order) and what `sendMessage` writes to the sockets it is given. A
    socket is its id, the retained read buffer `_buffer`, and the list of
    strings written to it. */
module Sockets {
  import opened Js
  import opened Framer

  datatype Sock = Sock(id: string, buffer: string, outbox: seq<string>)

  /** Keys of an object are unique. */
  predicate DistinctIds(socks: seq<Sock>)
  {
    forall i, j :: 0 <= i < j < |socks| ==> socks[i].id != socks[j].id
  }

  /** The position of the socket registered under `id`, or -1. */
  function IndexOf(socks: seq<Sock>, id: string): (i: int)
    ensures -1 <= i < |socks|
    ensures i >= 0 ==> socks[i].id == id
    ensures i < 0 <==> forall k :: 0 <= k < |socks| ==> socks[k].id != id
    decreases |socks|
  {
    if socks == [] then -1
    else if socks[0].id == id then 0
    else
      var j := IndexOf(socks[1..], id);
      assert forall k :: 1 <= k < |socks| ==> socks[k] == socks[1..][k - 1];
      if j < 0 then -1 else j + 1
  }

  /** What `this._sockets[key]` yields. `_sockets` is a plain object, so a
      key that names no socket can still find a member it inherits from
      `Object.prototype`. */
  datatype Slot = Empty | Inherited(name: string) | Socket(id: string)

  /** `this._sockets[key]`: the socket registered under the key shadows
      everything; otherwise an inherited member of that name, or nothing. */
  function Get(socks: seq<Sock>, key: string): (r: Slot)
    ensures r.Socket? <==> exists k :: 0 <= k < |socks| && socks[k].id == key
    ensures r.Socket? ==> r.id == key
    ensures r.Inherited? <==> key in ProtoKeys && forall k :: 0 <= k < |socks| ==> socks[k].id != key
    ensures r.Inherited? ==> r.name == key
  {
    if IndexOf(socks, key) >= 0 then Socket(key)
    else if key in ProtoKeys then Inherited(key)
    else Empty
  }

  /** `Object.keys(this._sockets)`, as the model keeps the keys: in the
      order they were first registered. */
  function Ids(socks: seq<Sock>): (r: seq<string>)
    ensures |r| == |socks| && forall k :: 0 <= k < |socks| ==> r[k] == socks[k].id
  {
    seq(|socks|, k requires 0 <= k < |socks| => socks[k].id)
  }

  /** The keys listed are exactly the keys under which a socket is found,
      each listed once. */
  lemma IdsAreKeys(socks: seq<Sock>)
    requires DistinctIds(socks)
    ensures forall x :: x in Ids(socks) <==> Get(socks, x).Socket?
    ensures forall i, j :: 0 <= i < j < |Ids(socks)| ==> Ids(socks)[i] != Ids(socks)[j]
  {
    forall x | Get(socks, x).Socket? ensures x in Ids(socks) {
      var k :| 0 <= k < |socks| && socks[k].id == x;
      assert Ids(socks)[k] == x;
    }
  }

  /** `getSockets()`: every registered socket, in key order. */
  function AllTargets(socks: seq<Sock>): (r: seq<Slot>)
    ensures |r| == |socks| && forall k :: 0 <= k < |socks| ==> r[k] == Socket(socks[k].id)
  {
    SocketSlots(Ids(socks))
  }

  function SocketSlots(ids: seq<string>): (r: seq<Slot>)
    ensures |r| == |ids| && forall k :: 0 <= k < |ids| ==> r[k] == Socket(ids[k])
  {
    seq(|ids|, k requires 0 <= k < |ids| => Socket(ids[k]))
  }

  /** `delete this._sockets[id]` */
  function Remove(socks: seq<Sock>, id: string): seq<Sock>
    decreases |socks|
  {
    if socks == [] then []
    else (if socks[0].id == id then [] else [socks[0]]) + Remove(socks[1..], id)
  }

  /** Deleting a key keeps exactly the other sockets. */
  lemma {:induction false} RemoveSpec(socks: seq<Sock>, id: string)
    ensures forall s :: s in Remove(socks, id) <==> s in socks && s.id != id
    decreases |socks|
  {
    if socks != [] {
      RemoveSpec(socks[1..], id);
      assert forall s :: s in socks <==> s == socks[0] || s in socks[1..];
    }
  }

  lemma {:induction false} RemoveAbsent(socks: seq<Sock>, id: string)
    requires forall k :: 0 <= k < |socks| ==> socks[k].id != id
    ensures Remove(socks, id) == socks
    decreases |socks|
  {
    if socks != [] {
      RemoveAbsent(socks[1..], id);
      assert socks == [socks[0]] + socks[1..];
    }
  }

  /** With unique ids, deleting the first key leaves the rest in order. */
  lemma RemoveFirst(socks: seq<Sock>)
    requires DistinctIds(socks) && socks != []
    ensures Remove(socks, socks[0].id) == socks[1..]
  {
    RemoveAbsent(socks[1..], socks[0].id);
  }

  lemma DistinctTail(socks: seq<Sock>)
    requires DistinctIds(socks) && socks != []
    ensures DistinctIds(socks[1..])
  {
    assert forall i :: 0 <= i < |socks| - 1 ==> socks[1..][i] == socks[i + 1];
  }

  lemma {:induction false} RemoveKeepsDistinct(socks: seq<Sock>, id: string)
    requires DistinctIds(socks)
    ensures DistinctIds(Remove(socks, id))
    ensures forall k :: 0 <= k < |Remove(socks, id)| ==> Remove(socks, id)[k].id != id
    decreases |socks|
  {
    if socks != [] {
      DistinctTail(socks);
      RemoveKeepsDistinct(socks[1..], id);
      RemoveSpec(socks[1..], id);
      var rest := Remove(socks[1..], id);
      var r := Remove(socks, id);
      if socks[0].id != id {
        assert r == [socks[0]] + rest;
        forall k | 0 <= k < |rest| ensures rest[k].id != socks[0].id {
          assert rest[k] in rest;
          assert rest[k] in socks[1..];
        }
        forall i, j | 0 <= i < j < |r| ensures r[i].id != r[j].id {
          assert r[j] == rest[j - 1];
          if i > 0 { assert r[i] == rest[i - 1]; }
        }
      } else {
        assert r == rest;
      }
    }
  }

  /** `this._sockets[s.id] = s`: a new key goes last; an existing key keeps
      its place and gets the new socket. */
  function Register(socks: seq<Sock>, s: Sock): seq<Sock>
  {
    var i := IndexOf(socks, s.id);
    if i >= 0 then socks[i := s] else socks + [s]
  }

  /** After registering, the socket is found under its id and every other
      socket is still there, unchanged and in place; keys stay unique. */
  lemma RegisterSpec(socks: seq<Sock>, s: Sock)
    requires DistinctIds(socks)
    ensures var r := Register(socks, s);
      DistinctIds(r) && IndexOf(r, s.id) >= 0 && r[IndexOf(r, s.id)] == s &&
      |r| == (if IndexOf(socks, s.id) >= 0 then |socks| else |socks| + 1) &&
      (forall k :: 0 <= k < |socks| && socks[k].id != s.id ==> r[k] == socks[k])
  {
    var r := Register(socks, s);
    var i := IndexOf(socks, s.id);
    if i >= 0 {
      assert r[i] == s;
      forall a, b | 0 <= a < b < |r| ensures r[a].id != r[b].id {
        assert r[a].id == socks[a].id && r[b].id == socks[b].id;
      }
    } else {
      assert r[|socks|] == s;
    }
  }

  // ---------------------------------------------------------------------
  // Writing

  /** The message of the `TypeError` a call of `write` on `undefined` throws. */
  const UndefinedWrite: string := "Cannot read properties of undefined (reading 'write')"

  /** The message of the `TypeError` a call of `write` on an inherited
      member of `Object.prototype` throws: none of them has a `write`. */
  const NotAFunction: string := "socket.write is not a function"

  /** The error `socket.write` throws on `undefined`. */
  function WriteTypeError(): (e: ErrorObj)
    ensures e.props.Keys == {"message"} && e.props["message"] == Str(UndefinedWrite)
  {
    NewError(UndefinedWrite)
  }

  /** A write attempt throws when the target is not a socket, or when the
      socket's `write` throws (an error supplied from outside). */
  predicate Fails(target: Slot, fault: string -> Option<ErrorObj>)
  {
    !target.Socket? || fault(target.id).Some?
  }

  /** The error a failing write throws. */
  function FailureOf(target: Slot, fault: string -> Option<ErrorObj>): (e: ErrorObj)
    requires Fails(target, fault)
    ensures target.Empty? ==> e == WriteTypeError()
    ensures target.Inherited? ==> e == NewError(NotAFunction)
    ensures target.Socket? ==> Some(e) == fault(target.id)
  {
    match target
    case Empty => WriteTypeError()
    case Inherited(_) => NewError(NotAFunction)
    case Socket(id) => fault(id).value
  }

  /** `socket.write(payload)` on the socket registered under `id`. */
  function Append(socks: seq<Sock>, id: string, payload: string): (r: seq<Sock>)
    ensures |r| == |socks|
  {
    seq(|socks|, k requires 0 <= k < |socks| =>
      if socks[k].id == id then socks[k].(outbox := socks[k].outbox + [payload]) else socks[k])
  }

  /** The sockets after the writes, and the last error caught (`sendError`). */
  datatype Delivered = Delivered(socks: seq<Sock>, err: Option<ErrorObj>)

  /** `sockets.forEach(socket => { try { socket.write(payload) } catch ... })` */
  function Deliver(socks: seq<Sock>, targets: seq<Slot>, payload: string,
                   fault: string -> Option<ErrorObj>): Delivered
    decreases |targets|
  {
    if targets == [] then Delivered(socks, None)
    else
      var d := Deliver(socks, targets[..|targets| - 1], payload, fault);
      var t := targets[|targets| - 1];
      if Fails(t, fault) then Delivered(d.socks, Some(FailureOf(t, fault)))
      else Delivered(Append(d.socks, t.id, payload), d.err)
  }

  /** One more write, as `forEach` makes it. */
  lemma DeliverSnoc(socks: seq<Sock>, ts: seq<Slot>, k: nat, payload: string,
                    fault: string -> Option<ErrorObj>)
    requires k < |ts|
    ensures var d := Deliver(socks, ts[..k], payload, fault);
      Deliver(socks, ts[..k + 1], payload, fault) ==
        if Fails(ts[k], fault) then Delivered(d.socks, Some(FailureOf(ts[k], fault)))
        else Delivered(Append(d.socks, ts[k].id, payload), d.err)
  {
    assert ts[..k + 1][..k] == ts[..k];
  }

  /** How many of the targets are successful writes to `id`. */
  function Hits(targets: seq<Slot>, id: string, fault: string -> Option<ErrorObj>): nat
    decreases |targets|
  {
    if targets == [] then 0
    else
      var t := targets[|targets| - 1];
      Hits(targets[..|targets| - 1], id, fault) + (if t == Socket(id) && !Fails(t, fault) then 1 else 0)
  }

  function Copies(payload: string, n: nat): (r: seq<string>)
    ensures |r| == n && forall k :: 0 <= k < n ==> r[k] == payload
  {
    seq(n, k => payload)
  }

  /** A write touches nothing but the outboxes: every socket keeps its id and
      buffer and gets the payload once per successful write to it, and every
      target is attempted whatever happened to the ones before. */
  lemma {:induction false} DeliverOutboxes(socks: seq<Sock>, targets: seq<Slot>, payload: string,
                                           fault: string -> Option<ErrorObj>)
    ensures var r := Deliver(socks, targets, payload, fault).socks;
      |r| == |socks| &&
      forall k :: 0 <= k < |socks| ==>
        r[k].id == socks[k].id && r[k].buffer == socks[k].buffer &&
        r[k].outbox == socks[k].outbox + Copies(payload, Hits(targets, socks[k].id, fault))
    decreases |targets|
  {
    if targets != [] {
      var init := targets[..|targets| - 1];
      DeliverOutboxes(socks, init, payload, fault);
      var d := Deliver(socks, init, payload, fault);
      var t := targets[|targets| - 1];
      forall k | 0 <= k < |socks|
        ensures Deliver(socks, targets, payload, fault).socks[k].outbox ==
                socks[k].outbox + Copies(payload, Hits(targets, socks[k].id, fault))
      {
        var before := Copies(payload, Hits(init, socks[k].id, fault));
        if !Fails(t, fault) && t.id == socks[k].id {
          assert Copies(payload, Hits(targets, socks[k].id, fault)) == before + [payload];
          assert d.socks[k].outbox + [payload] == socks[k].outbox + (before + [payload]);
        } else {
          assert Hits(targets, socks[k].id, fault) == Hits(init, socks[k].id, fault);
        }
      }
    }
  }

  /** A broadcast to `getSockets()` writes once to every registered socket
      whose write does not fail, and to nothing else. */
  lemma {:induction false} BroadcastHitsEachOnce(socks: seq<Sock>, id: string,
                                                 fault: string -> Option<ErrorObj>)
    requires DistinctIds(socks)
    ensures Hits(AllTargets(socks), id, fault) ==
      if Get(socks, id).Socket? && fault(id).None? then 1 else 0
    decreases |socks|
  {
    if socks != [] {
      var n := |socks| - 1;
      var init := socks[..n];
      assert forall k :: 0 <= k < n ==> init[k] == socks[k];
      BroadcastHitsEachOnce(init, id, fault);
      assert AllTargets(socks)[..n] == AllTargets(init);
      if socks[n].id != id {
        assert Get(socks, id).Socket? ==> Get(init, id).Socket?;
      }
    }
  }

  /** The position of the last target whose write fails, or -1 when every
      write succeeds. */
  function LastFailing(targets: seq<Slot>, fault: string -> Option<ErrorObj>): (j: int)
    ensures -1 <= j < |targets|
    ensures j >= 0 ==> Fails(targets[j], fault)
    ensures forall l :: j < l < |targets| ==> !Fails(targets[l], fault)
    decreases |targets|
  {
    if targets == [] then -1
    else if Fails(targets[|targets| - 1], fault) then |targets| - 1
    else
      var j := LastFailing(targets[..|targets| - 1], fault);
      assert forall l :: j < l < |targets| - 1 ==> targets[l] == targets[..|targets| - 1][l];
      j
  }

  /** The error handed to the callback is null exactly when every write
      succeeded, and otherwise is that of the last write that failed;
      it does not depend on the sockets. */
  lemma {:induction false} DeliverError(socks: seq<Sock>, targets: seq<Slot>, payload: string,
                                        fault: string -> Option<ErrorObj>)
    ensures var e := Deliver(socks, targets, payload, fault).err;
      var j := LastFailing(targets, fault);
      (e.None? <==> j == -1) && (e.Some? ==> e.value == FailureOf(targets[j], fault))
    decreases |targets|
  {
    if targets != [] {
      var n := |targets| - 1;
      DeliverError(socks, targets[..n], payload, fault);
      if !Fails(targets[n], fault) {
        var j := LastFailing(targets[..n], fault);
        assert j >= 0 ==> targets[..n][j] == targets[j];
      }
    }
  }

  // ---------------------------------------------------------------------
  // Frames on the wire

  /** A written string that is one frame: a NUL-free payload and `'\0'`. */
  predicate Framed(w: string)
  {
    |w| >= 1 && w[|w| - 1] == NUL && NulFree(w[..|w| - 1])
  }

  predicate AllFramed(ws: seq<string>)
  {
    forall k :: 0 <= k < |ws| ==> Framed(ws[k])
  }

  /** Every string ever written to every socket is one frame. */
  predicate OutboxesFramed(socks: seq<Sock>)
  {
    forall k :: 0 <= k < |socks| ==> AllFramed(socks[k].outbox)
  }

  /** Writing a frame keeps every outbox a list of frames, and keeps the
      ids. */
  lemma DeliverKeepsFrames(socks: seq<Sock>, targets: seq<Slot>, payload: string,
                           fault: string -> Option<ErrorObj>)
    requires OutboxesFramed(socks) && Framed(payload)
    ensures OutboxesFramed(Deliver(socks, targets, payload, fault).socks)
    ensures Ids(Deliver(socks, targets, payload, fault).socks) == Ids(socks)
  {
    DeliverOutboxes(socks, targets, payload, fault);
    var r := Deliver(socks, targets, payload, fault).socks;
    forall k | 0 <= k < |r| ensures AllFramed(r[k].outbox) {
      var c := Copies(payload, Hits(targets, socks[k].id, fault));
      forall x | 0 <= x < |r[k].outbox| ensures Framed(r[k].outbox[x]) {
        if x >= |socks[k].outbox| { assert r[k].outbox[x] == c[x - |socks[k].outbox|]; }
        else { assert r[k].outbox[x] == socks[k].outbox[x]; }
      }
    }
  }

  /** The payloads inside a list of frames. */
  function Payloads(ws: seq<string>): (ps: seq<string>)
    requires AllFramed(ws)
    ensures |ps| == |ws| && AllNulFree(ps)
    decreases |ws|
  {
    if ws == [] then []
    else
      var ps := [ws[0][..|ws[0]| - 1]] + Payloads(ws[1..]);
      assert forall k :: 1 <= k < |ps| ==> ps[k] == Payloads(ws[1..])[k - 1];
      ps
  }

  /** The bytes a list of frames puts on the wire are those of the framer's
      writer for their payloads. */
  lemma {:induction false} FlattenFrames(ws: seq<string>)
    requires AllFramed(ws)
    ensures Flatten(ws) == Frames(Payloads(ws))
    decreases |ws|
  {
    if ws != [] {
      var w := ws[0];
      assert w == w[..|w| - 1] + [NUL];
      assert AllFramed(ws[1..]) by {
        forall k | 0 <= k < |ws[1..]| ensures Framed(ws[1..][k]) { assert ws[1..][k] == ws[k + 1]; }
      }
      FlattenFrames(ws[1..]);
      var ps := Payloads(ws);
      assert ps[0] == w[..|w| - 1] && ps[1..] == Payloads(ws[1..]);
    }
  }

  /** Whatever a peer reads from a socket's outbox, in any chunking, it
      reassembles into exactly the payloads written, in order, with nothing
      left in its buffer. */
  lemma OutboxRoundTrip(ws: seq<string>, chunks: seq<string>)
    requires AllFramed(ws)
    requires Flatten(chunks) == Flatten(ws)
    ensures Feed([], chunks) == Chunked(Payloads(ws), [])
  {
    FlattenFrames(ws);
    RoundTrip(Payloads(ws), chunks);
  }
}
