/** The message entity and the interface that owns it: handler registry,
    connection registry, framing of incoming data, dispatch, sending, and
    the correlation of requests with their responses. The two classes refer
    to each other, so they share this module. */
module Bottle {
  import opened Js
  import opened Util
  import opened Framer
  import opened Sockets
  import opened Settlement
  import Router

  /** The messages of the errors `sendMessage` reports without writing. */
  const InvalidMessage: string := "Invalid message."
  const InvalidSockets: string := "Invalid sockets."

  // ---------------------------------------------------------------------
  // Message fields, as values

  /** `isValidId` and `isValidPath`: a non-empty string. */
  predicate IsValidId(v: JVal)
  {
    v.Str? && |v.s| > 0
  }

  predicate IsValidPath(v: JVal)
  {
    v.Str? && |v.s| > 0
  }

  /** The `id` setter: keep a stored id, else store a valid one, else a
      generated one. */
  function NextId(cur: Option<string>, v: JVal, gen: string): Option<string>
  {
    if cur.Some? then cur else if IsValidId(v) then Some(v.s) else Some(gen)
  }

  /** The `path` setter: keep a stored path, else store a valid one, else
      leave it unset. */
  function NextPath(cur: Option<string>, v: JVal): Option<string>
  {
    if cur.Some? then cur else if IsValidPath(v) then Some(v.s) else None
  }

  /** The `body` setter: only objects are stored. */
  function NextBody(cur: JVal, v: JVal): JVal
  {
    if IsObject(v) then v else cur
  }

  /** The first assignment to `id` always stores a non-empty string (the
      value itself when it is valid, a generated id otherwise); no later
      assignment changes it. */
  lemma IdSetOnce(cur: Option<string>, v: JVal, gen: string, later: JVal, gen2: string)
    requires gen != "" && (cur.Some? ==> cur.value != "")
    ensures NextId(cur, v, gen).Some? && NextId(cur, v, gen).value != ""
    ensures cur.None? && IsValidId(v) ==> NextId(cur, v, gen) == Some(v.s)
    ensures cur.None? && !IsValidId(v) ==> NextId(cur, v, gen) == Some(gen)
    ensures NextId(NextId(cur, v, gen), later, gen2) == NextId(cur, v, gen)
  {
  }

  /** An invalid path leaves `path` unset (so a later valid one is still
      taken); once a path is stored no assignment changes it. */
  lemma PathSetOnce(cur: Option<string>, v: JVal, later: JVal)
    ensures cur.None? && !IsValidPath(v) ==> NextPath(cur, v) == None
    ensures cur.None? && IsValidPath(v) ==> NextPath(cur, v) == Some(v.s)
    ensures NextPath(cur, v).Some? ==> NextPath(NextPath(cur, v), later) == NextPath(cur, v)
  {
  }

  /** Assigning a non-object leaves `body` unchanged; once an object is
      stored, `body` stays an object. */
  lemma BodyKeepsObjects(cur: JVal, v: JVal)
    ensures !IsObject(v) ==> NextBody(cur, v) == cur
    ensures IsObject(cur) ==> IsObject(NextBody(cur, v))
    ensures IsObject(v) ==> NextBody(cur, v) == v
  {
  }

  /** `body || {}` */
  function Or(a: JVal, b: JVal): JVal
  {
    if Truthy(a) then a else b
  }

  /** What the constructor destructures `{id, path, body}` from: the parse
      of a string, the value itself otherwise. None when parsing fails or
      the value is `null`/`undefined`, which makes destructuring throw. */
  function Source(data: JVal, parsed: Option<JVal>): (r: Option<JVal>)
    ensures r.Some? ==> !r.value.Null? && !r.value.Undefined?
  {
    var src := if data.Str? then parsed else Some(data);
    if src.Some? && !src.value.Null? && !src.value.Undefined? then src else None
  }

  /** `isValid`: `_id && _path && _body && _owner`, over the stored fields. */
  predicate PartsValid(id: Option<string>, path: Option<string>, body: JVal, owned: bool)
  {
    id.Some? && id.value != "" && path.Some? && path.value != "" && Truthy(body) && owned
  }

  /** A message built from an object with fields `fid`, `fpath`, `fbody` is
      valid exactly when the path is valid, the body is an object or falsy
      (falsy becomes `{}`) and it has an owner; a truthy non-object body is
      dropped and leaves the message invalid. */
  lemma ConstructedValidity(fid: JVal, fpath: JVal, fbody: JVal, gen: string, owned: bool)
    requires gen != ""
    ensures var body := NextBody(Undefined, Or(fbody, Obj(map[])));
      (PartsValid(NextId(None, fid, gen), NextPath(None, fpath), body, owned) <==>
         IsValidPath(fpath) && (IsObject(fbody) || !Truthy(fbody)) && owned) &&
      (!Truthy(fbody) ==> body == Obj(map[])) &&
      (Truthy(fbody) && !IsObject(fbody) ==> body == Undefined)
  {
  }

  function OptStr(o: Option<string>): JVal
  {
    if o.Some? then Str(o.value) else Undefined
  }

  /** `toJSON()`: the record `{id, path, body}`. */
  function WireProps(id: Option<string>, path: Option<string>, body: JVal): (r: map<string, JVal>)
    ensures r.Keys == {"id", "path", "body"}
  {
    map["id" := OptStr(id), "path" := OptStr(path), "body" := body]
  }

  /** The record `copy(data)` builds its message from: this message's wire
      form with the fields of `data` laid over it. A field `data` does not
      name keeps this message's value, so a copy carries the original id
      and path unless `data` replaces them. */
  lemma CopyOverrides(id: Option<string>, path: Option<string>, body: JVal, data: JVal)
    ensures var src := Obj(Assign(WireProps(id, path, body), data));
      var d := EnumProps(data);
      Field(src, "id") == (if "id" in d then d["id"] else OptStr(id)) &&
      Field(src, "path") == (if "path" in d then d["path"] else OptStr(path)) &&
      Field(src, "body") == (if "body" in d then d["body"] else body)
  {
  }

  /** `copy()` with nothing laid over rebuilds a message from its wire
      form: a stored id and path and an object body come back unchanged. */
  lemma WireRoundTrip(id: string, path: string, body: JVal, gen: string)
    requires id != "" && path != "" && IsObject(body) && gen != ""
    ensures var src := Obj(Assign(WireProps(Some(id), Some(path), body), Undefined));
      NextId(None, Field(src, "id"), gen) == Some(id) &&
      NextPath(None, Field(src, "path")) == Some(path) &&
      NextBody(Undefined, Or(Field(src, "body"), Obj(map[]))) == body
  {
    CopyOverrides(Some(id), Some(path), body, Undefined);
  }

  /** The reply `respond(b)` builds: the copy of a valid message with
      `{body: b}` keeps the id and path and takes `b || {}` as body when
      that is an object. */
  lemma ReplyFields(id: string, path: string, body: JVal, arg: JVal, gen: string)
    requires id != "" && path != "" && gen != ""
    ensures var src := Obj(Assign(WireProps(Some(id), Some(path), body), Obj(map["body" := arg])));
      NextId(None, Field(src, "id"), gen) == Some(id) &&
      NextPath(None, Field(src, "path")) == Some(path) &&
      NextBody(Undefined, Or(Field(src, "body"), Obj(map[]))) == ReplyBody(arg)
  {
    CopyOverrides(Some(id), Some(path), body, Obj(map["body" := arg]));
  }

  /** The body of the reply: `b || {}` if that is an object, else unset. */
  function ReplyBody(arg: JVal): JVal
  {
    NextBody(Undefined, Or(arg, Obj(map[])))
  }

  /** `{error: serializeError(e)}`, the reply to a handler that threw `e`. */
  function ErrorBody(e: JVal): JVal
  {
    Obj(map["error" := SerializeError(e)])
  }

  /** The sockets after a valid, unreplied message that came from socket
      `origin` responds with `b`: the reply carrying the original id and
      path is written to `[getSocket(origin)]`, unless its body is not an
      object, in which case the reply is invalid and nothing is written. */
  function Replied(socks: seq<Sock>, serialize: JVal -> string, id: string, path: string,
                   origin: string, b: JVal, fault: string -> Option<ErrorObj>): seq<Sock>
  {
    var rb := ReplyBody(if b.Undefined? then Obj(map[]) else b);
    if Truthy(rb) then
      Deliver(socks, [Get(socks, origin)], serialize(Obj(WireProps(Some(id), Some(path), rb))) + [NUL], fault).socks
    else socks
  }

  // ---------------------------------------------------------------------
  // Send destinations

  /** The ids of the sockets `getSockets().filter(s => destination.indexOf(s._id) > -1)`
      keeps, in socket order. */
  function Selected(socks: seq<Sock>, dest: seq<JVal>): seq<string>
    decreases |socks|
  {
    if socks == [] then []
    else (if Str(socks[0].id) in dest then [socks[0].id] else []) + Selected(socks[1..], dest)
  }

  /** The socket list `send(destination)` hands to `sendMessage`. */
  function Targets(dest: JVal, socks: seq<Sock>): seq<Slot>
  {
    match dest
    case Str(s) => [Get(socks, s)]
    case Arr(e) => SocketSlots(Selected(socks, e))
    case _ => AllTargets(socks)
  }

  /** The callback `send` uses: a function in the destination slot, else
      the callback argument if it is a function. */
  function CallbackOf(dest: JVal, callback: JVal): (r: Option<nat>)
    ensures dest.Fn? ==> r == Some(dest.fid)
    ensures !dest.Fn? && callback.Fn? ==> r == Some(callback.fid)
    ensures !dest.Fn? && !callback.Fn? ==> r == None
  {
    if dest.Fn? then Some(dest.fid) else if callback.Fn? then Some(callback.fid) else None
  }

  /** An array destination selects exactly the registered sockets whose id
      it contains. */
  lemma {:induction false} SelectedMembers(socks: seq<Sock>, dest: seq<JVal>)
    ensures forall x :: x in Selected(socks, dest) <==>
      Str(x) in dest && exists k :: 0 <= k < |socks| && socks[k].id == x
    decreases |socks|
  {
    if socks != [] {
      SelectedMembers(socks[1..], dest);
      assert forall k :: 1 <= k < |socks| ==> socks[k] == socks[1..][k - 1];
      forall x | Str(x) in dest && (exists k :: 0 <= k < |socks| && socks[k].id == x)
        ensures x in Selected(socks, dest)
      {
        var k :| 0 <= k < |socks| && socks[k].id == x;
        if k > 0 { assert socks[1..][k - 1].id == x; }
      }
    }
  }

  /** `xs` is `ys` with some elements dropped, the rest kept in order. */
  predicate Subsequence(xs: seq<string>, ys: seq<string>)
    decreases |ys|
  {
    xs == [] ||
    (ys != [] && ((xs[0] == ys[0] && Subsequence(xs[1..], ys[1..])) || Subsequence(xs, ys[1..])))
  }

  /** ... in socket order. */
  lemma {:induction false} SelectedInOrder(socks: seq<Sock>, dest: seq<JVal>)
    ensures Subsequence(Selected(socks, dest), Ids(socks))
    decreases |socks|
  {
    if socks != [] {
      SelectedInOrder(socks[1..], dest);
      assert Ids(socks)[1..] == Ids(socks[1..]);
      var r := Selected(socks, dest);
      if Str(socks[0].id) in dest {
        assert r[0] == Ids(socks)[0] && r[1..] == Selected(socks[1..], dest);
      } else {
        assert r == Selected(socks[1..], dest) && Ids(socks) != [];
      }
    }
  }

  /** The timeout `sendAsRequest` arms: the first finite number among the
      destination, the timeout argument and the configured timeout. */
  function RequestDelay(dest: JVal, timeout: JVal, configured: JVal): JVal
  {
    Override(Predicate(IsFinite), [dest, timeout, configured])
  }

  lemma RequestDelayFirstFinite(dest: JVal, timeout: JVal, configured: JVal)
    ensures IsFinite(dest) ==> RequestDelay(dest, timeout, configured) == dest
    ensures !IsFinite(dest) && IsFinite(timeout) ==> RequestDelay(dest, timeout, configured) == timeout
    ensures !IsFinite(dest) && !IsFinite(timeout) && IsFinite(configured) ==>
      RequestDelay(dest, timeout, configured) == configured
    ensures !IsFinite(dest) && !IsFinite(timeout) && !IsFinite(configured) ==>
      RequestDelay(dest, timeout, configured) == Undefined
  {
    var vs := [dest, timeout, configured];
    var t := Predicate(IsFinite);
    if !IsFinite(dest) {
      assert vs[1..] == [timeout, configured] && [timeout, configured][1..] == [configured];
      assert [configured][1..] == [];
      assert !Passes(t, vs[0]);
      assert RequestDelay(dest, timeout, configured) == Override(t, [timeout, configured]);
      if !IsFinite(timeout) {
        assert Override(t, [timeout, configured]) == Override(t, [configured]);
      }
    }
  }

  /** The configuration `Object.assign({timeout: 10000}, config)`. */
  function Configure(config: JVal): map<string, JVal>
  {
    Assign(map["timeout" := Num(10000)], config)
  }

  lemma DefaultTimeout(config: JVal)
    ensures "timeout" in Configure(config)
    ensures "timeout" !in EnumProps(config) ==> Configure(config)["timeout"] == Num(10000)
    ensures "timeout" in EnumProps(config) ==> Configure(config)["timeout"] == EnumProps(config)["timeout"]
  {
  }

  // ---------------------------------------------------------------------
  // The pending-request table

  /** `this._requests[message.id]`: the property key of the id (`undefined`
      when the message has none). */
  function KeyOf(id: Option<string>): string
  {
    if id.Some? then id.value else "undefined"
  }

  /** `if (this._requests[message.id])` as written: the lookup also finds the
      inherited members of `Object.prototype`, all of them truthy. */
  predicate PendingAsWritten(requests: map<string, nat>, key: string)
  {
    key in requests || key in ProtoKeys
  }

  /** The corrected test: only a request registered under the key. */
  predicate Pending(requests: map<string, nat>, key: string)
  {
    key in requests
  }

  /** An incoming message with id `constructor` and no request pending is
      taken by the lookup as written for a response, so it never reaches the
      handlers; the corrected test sends it to the router. */
  lemma InheritedIdLooksPending()
    ensures PendingAsWritten(map[], "constructor") && !Pending(map[], "constructor")
    ensures forall k :: k in ProtoKeys ==> PendingAsWritten(map[], k)
  {
  }

  /** A registered request: the key it was filed under and its timeout. */
  datatype Request = Request(key: string, delay: JVal)

  /** What `sendAsRequest` returns: a promise rejected on the spot, or the
      ticket of a pending request whose outcome the interface records. */
  datatype Req = Immediate(outcome: Outcome<Message>) | Ticket(ticket: nat)

  /** What `destroySocket` finds under a key: nothing, a member inherited
      from `Object.prototype`, or a registered socket. */
  datatype Found = NoSocket | Member(name: string) | Found(sock: Sock)

  /** A `disconnect` event and what it carries. */
  datatype Notice = Disconnect(socket: Found)

  /** A call of a function callback (or of a function destination) with the
      error it receives, `None` standing for `null`. */
  datatype Call = Call(fid: nat, error: Option<ErrorObj>)

  /** What the surroundings decide: the behaviour of callbacks and user
      RegExps, the result of `JSON.parse` on a token, and the error (if any)
      the `write` of a socket throws. */
  datatype World = World(route: Router.Env, parse: string -> Option<JVal>, fault: string -> Option<ErrorObj>)

  /** The `n`-th id `generateId` returns. */
  function GeneratedId(n: nat): (s: string)
    ensures s != ""
  {
    "uuid-" + NatToString(n)
  }

  /** The registry with the outboxes left out: ids and read buffers. */
  function Stubs(socks: seq<Sock>): (r: seq<Sock>)
    ensures |r| == |socks|
  {
    seq(|socks|, k requires 0 <= k < |socks| => socks[k].(outbox := []))
  }

  /** Writing leaves the ids and buffers alone and every outbox a list of
      frames. */
  lemma DeliverStubs(socks: seq<Sock>, targets: seq<Slot>, payload: string,
                     fault: string -> Option<ErrorObj>)
    requires DistinctIds(socks) && OutboxesFramed(socks) && Framed(payload)
    ensures var r := Deliver(socks, targets, payload, fault).socks;
      Stubs(r) == Stubs(socks) && DistinctIds(r) && OutboxesFramed(r)
  {
    DeliverOutboxes(socks, targets, payload, fault);
    DeliverKeepsFrames(socks, targets, payload, fault);
    var r := Deliver(socks, targets, payload, fault).socks;
    assert forall k :: 0 <= k < |r| ==> r[k].id == Ids(r)[k] == Ids(socks)[k] == socks[k].id;
  }

  lemma RepliedStubs(socks: seq<Sock>, serialize: JVal -> string, id: string, path: string,
                     origin: string, b: JVal, fault: string -> Option<ErrorObj>)
    requires DistinctIds(socks) && OutboxesFramed(socks)
    requires forall v :: NulFree(serialize(v))
    ensures var r := Replied(socks, serialize, id, path, origin, b, fault);
      Stubs(r) == Stubs(socks) && DistinctIds(r) && OutboxesFramed(r)
  {
    var rb := ReplyBody(if b.Undefined? then Obj(map[]) else b);
    var p := serialize(Obj(WireProps(Some(id), Some(path), rb))) + [NUL];
    assert p[..|p| - 1] == serialize(Obj(WireProps(Some(id), Some(path), rb)));
    DeliverStubs(socks, [Get(socks, origin)], p, fault);
  }

  /** The write `respond` makes, as `send` to the origin describes it. */
  lemma ReplyWrite(socks: seq<Sock>, serialize: JVal -> string, id: string, path: string,
                   origin: string, b: JVal, fault: string -> Option<ErrorObj>)
    ensures var rb := ReplyBody(if b.Undefined? then Obj(map[]) else b);
      Replied(socks, serialize, id, path, origin, b, fault) ==
        if Truthy(rb) then
          Deliver(socks, Targets(Str(origin), socks), serialize(Obj(WireProps(Some(id), Some(path), rb))) + [NUL], fault).socks
        else socks
  {
  }

  // ---------------------------------------------------------------------
  // The message

  class Message {
    var id: Option<string>
    var path: Option<string>
    var body: JVal
    var owner: Interface?
    var origin: Option<string>
    var replied: bool

    function Owners(): set<Interface>
      reads this`owner
    {
      if owner != null then {owner} else {}
    }

    /** The fields as the constructor leaves them for `data` (parsed as
        `parsed` when it is a string); the id is only said to be set, and to
        be the given one when that is valid. */
    predicate BuiltFrom(data: JVal, parsed: Option<JVal>, o: Interface?, from: Option<string>)
      reads this`id, this`path, this`body, this`owner, this`origin
    {
      match Source(data, parsed)
      case None =>
        id.None? && path.None? && body.Undefined? && owner == null && origin.None?
      case Some(s) =>
        id.Some? && id.value != "" && (IsValidId(Field(s, "id")) ==> id == Some(Field(s, "id").s)) &&
        path == NextPath(None, Field(s, "path")) &&
        body == NextBody(Undefined, Or(Field(s, "body"), Obj(map[]))) &&
        owner == o && origin == from
    }

    /** `new JSONBottleMessage(data, owner, origin)`. A failure to parse or
        to destructure is caught and leaves every field unset. */
    constructor(data: JVal, parsed: Option<JVal>, owner: Interface?, origin: Option<string>, gen: string)
      requires gen != ""
      ensures BuiltFrom(data, parsed, owner, origin)
      ensures Source(data, parsed).Some? ==> id == NextId(None, Field(Source(data, parsed).value, "id"), gen)
      ensures !replied
    {
      id := None;
      path := None;
      body := Undefined;
      this.owner := null;
      this.origin := None;
      replied := false;
      new;
      var src := Source(data, parsed);
      if src.Some? {
        SetId(Field(src.value, "id"), gen);
        SetPath(Field(src.value, "path"));
        SetBody(Or(Field(src.value, "body"), Obj(map[])));
        this.owner := owner;
        this.origin := origin;
        replied := false;
      }
    }

    method SetId(v: JVal, gen: string)
      modifies this`id
      ensures id == NextId(old(id), v, gen)
    {
      if id.None? {
        id := if IsValidId(v) then Some(v.s) else Some(gen);
      }
    }

    method SetPath(v: JVal)
      modifies this`path
      ensures path == NextPath(old(path), v)
    {
      if path.None? {
        path := if IsValidPath(v) then Some(v.s) else None;
      }
    }

    method SetBody(v: JVal)
      modifies this`body
      ensures body == NextBody(old(body), v)
    {
      if IsObject(v) {
        body := v;
      }
    }

    predicate IsValid()
      reads this`id, this`path, this`body, this`owner, this`origin
    {
      PartsValid(id, path, body, owner != null)
    }

    predicate IsLocal()
      reads this`id, this`path, this`body, this`owner, this`origin
    {
      origin.None?
    }

    predicate IsReplied()
      reads this`id, this`path, this`body, this`owner, this`origin, this`replied
    {
      replied
    }

    /** The wire form: exactly the keys `id`, `path` and `body`. */
    function ToJSON(): (r: JVal)
      reads this`id, this`path, this`body, this`owner, this`origin
      ensures r.Obj? && r.props.Keys == {"id", "path", "body"}
      ensures r.props["id"] == OptStr(id) && r.props["path"] == OptStr(path) && r.props["body"] == body
    {
      Obj(WireProps(id, path, body))
    }

    /** `copy(data)`: a new local message with the same owner, built from
        this message's wire form overridden by `data`. */
    method Copy(data: JVal, gen: string) returns (c: Message)
      requires gen != ""
      ensures fresh(c)
      ensures c.BuiltFrom(Obj(Assign(WireProps(id, path, body), data)), None, owner, None)
      ensures c.id == NextId(None, Field(Obj(Assign(WireProps(id, path, body), data)), "id"), gen)
      ensures !c.replied && c.IsLocal()
      ensures IsValid() && IsObject(body) && data.Undefined? ==> c.IsValid() && c.ToJSON() == ToJSON()
    {
      if IsValid() && IsObject(body) {
        WireRoundTrip(id.value, path.value, body, gen);
      }
      c := new Message(Obj(Assign(WireProps(id, path, body), data)), None, owner, None, gen);
    }

    /** `send(destination, callback)`: an invalid message sends nothing and
        calls nothing; otherwise the owner's `sendMessage` gets the
        destination's sockets, `sent` is the error (or null) it reports, and
        the function in the destination slot, else a function callback, is
        called with it. */
    method Send(destination: JVal, callback: JVal, w: World) returns (sent: Option<Option<ErrorObj>>, call: Option<Call>)
      requires owner != null ==> owner.Valid()
      modifies Owners()`sockets
      ensures owner != null ==> owner.Valid()
      ensures !IsValid() ==> sent.None? && (owner != null ==> owner.sockets == old(owner.sockets))
      ensures IsValid() ==>
        var d := Deliver(old(owner.sockets), Targets(destination, old(owner.sockets)),
                         owner.serialize(ToJSON()) + [NUL], w.fault);
        sent == Some(if Targets(destination, old(owner.sockets)) == [] then Some(NewError(InvalidSockets)) else d.err) &&
        owner.sockets == d.socks
      ensures IsValid() && destination.Fn? ==> Targets(destination, old(owner.sockets)) == AllTargets(old(owner.sockets))
      ensures call == (if sent.Some? && CallbackOf(destination, callback).Some?
                       then Some(Call(CallbackOf(destination, callback).value, sent.value)) else None)
    {
      if !IsValid() {
        sent, call := None, None;
      } else {
        var cb := CallbackOf(destination, callback);
        var targets := Targets(destination, owner.sockets);
        var err := owner.SendMessage(this, Some(targets), w);
        sent := Some(err);
        call := if cb.Some? then Some(Call(cb.value, err)) else None;
      }
    }

    /** `sendAsRequest(destination, timeout)`: an invalid message is
        rejected on the spot and nothing changes; otherwise a request is
        filed under the id with the first finite timeout among the
        destination, the timeout argument and the configured one, and the
        message is written to `getSocket(destination)`, or else to the first
        socket; a failed write settles the request at once. */
    method SendAsRequest(destination: JVal, timeout: JVal, w: World) returns (r: Req)
      requires owner != null ==> owner.Valid()
      modifies Owners()`sockets, Owners()`requests, Owners()`tickets, Owners()`timers, Owners()`outcomes,
               Owners()`nextTicket
      ensures owner != null ==> owner.Valid()
      ensures !IsValid() ==> r == Immediate(Rejected(NewError(CannotRequest), None))
      ensures !IsValid() && owner != null ==>
        owner.sockets == old(owner.sockets) && owner.requests == old(owner.requests) &&
        owner.tickets == old(owner.tickets) && owner.timers == old(owner.timers) &&
        owner.outcomes == old(owner.outcomes) && owner.nextTicket == old(owner.nextTicket)
      ensures IsValid() ==>
        r.Ticket? && r.ticket == old(owner.nextTicket) &&
        owner.tickets == old(owner.tickets)[r.ticket := Request(id.value, RequestDelay(destination, timeout, owner.GetConfig("timeout")))]
      ensures IsValid() ==>
        var d := Deliver(old(owner.sockets), [FirstTarget(old(owner.GetSocket(destination)), old(owner.sockets))],
                         owner.serialize(ToJSON()) + [NUL], w.fault);
        owner.sockets == d.socks &&
        (d.err.None? ==> owner.requests == old(owner.requests)[id.value := r.ticket] &&
                         owner.timers == old(owner.timers) + {r.ticket} && owner.outcomes == old(owner.outcomes)) &&
        (d.err.Some? ==> owner.requests == old(owner.requests) - {id.value} && owner.timers == old(owner.timers) &&
                         owner.outcomes == old(owner.outcomes)[r.ticket := Rejected(d.err.value, None)])
    {
      if !IsValid() {
        return Immediate(Rejected(NewError(CannotRequest), None));
      }
      var delay := RequestDelay(destination, timeout, owner.GetConfig("timeout"));
      var target := FirstTarget(owner.GetSocket(destination), owner.sockets);
      var t := owner.SendMessageRequest(this, target, delay, w);
      r := Ticket(t);
    }

    /** Whether `respond` would reply: not yet replied, valid, and not
        local. */
    predicate CanRespond()
      reads this`id, this`path, this`body, this`owner, this`origin, this`replied
    {
      !IsReplied() && IsValid() && !IsLocal()
    }

    /** `respond(body = {})`: only an unreplied, valid, non-local message
        sends the reply `copy({body})` to `[origin]` and is then marked
        replied, whether or not a write failed. Otherwise nothing changes. */
    method Respond(b: JVal, w: World)
      requires owner != null ==> owner.Valid()
      modifies this`replied, Owners()`sockets
      ensures owner != null ==> owner.Valid()
      ensures replied == (old(replied) || old(CanRespond()))
      ensures owner != null && old(CanRespond()) ==>
        owner.sockets == Replied(old(owner.sockets), owner.serialize, id.value, path.value, origin.value, b, w.fault)
      ensures owner != null && !old(CanRespond()) ==> owner.sockets == old(owner.sockets)
      ensures owner != null ==> Stubs(owner.sockets) == Stubs(old(owner.sockets))
    {
      if replied || !IsValid() || IsLocal() {
        return;
      }
      SendReply(b, w);
      replied := true;
    }

    /** `this.copy({body}).send(this._origin._id)`, the write `respond`
        makes. */
    method SendReply(b: JVal, w: World)
      requires owner != null && owner.Valid() && IsValid() && origin.Some?
      modifies owner`sockets
      ensures owner.Valid()
      ensures owner.sockets == Replied(old(owner.sockets), owner.serialize, id.value, path.value, origin.value, b, w.fault)
      ensures Stubs(owner.sockets) == Stubs(old(owner.sockets))
    {
      RepliedStubs(owner.sockets, owner.serialize, id.value, path.value, origin.value, b, w.fault);
      ReplyWrite(owner.sockets, owner.serialize, id.value, path.value, origin.value, b, w.fault);
      var reply := MakeReply(b, GeneratedId(owner.minted));
      var _, _ := reply.Send(Str(origin.value), Undefined, w);
    }

    /** `this.copy({body})`: the reply keeps the id, path and owner, and
        carries the reply body. */
    method MakeReply(b: JVal, gen: string) returns (reply: Message)
      requires IsValid() && gen != ""
      ensures fresh(reply) && reply.owner == owner
      ensures reply.IsValid() <==> Truthy(ReplyBody(if b.Undefined? then Obj(map[]) else b))
      ensures reply.ToJSON() == Obj(WireProps(id, path, ReplyBody(if b.Undefined? then Obj(map[]) else b)))
    {
      var arg := if b.Undefined? then Obj(map[]) else b;
      ReplyFields(id.value, path.value, body, arg, gen);
      reply := Copy(Obj(map["body" := arg]), gen);
    }
  }

  /** `getSocket(destination) || getSockets()[0]` */
  function FirstTarget(found: Slot, socks: seq<Sock>): (r: Slot)
    ensures !found.Empty? ==> r == found
    ensures found.Empty? && socks != [] ==> r == Socket(socks[0].id)
    ensures found.Empty? && socks == [] ==> r == Empty
  {
    if !found.Empty? then found else if socks != [] then Socket(socks[0].id) else Empty
  }

  // ---------------------------------------------------------------------
  // The interface

  class Interface {
    var config: map<string, JVal>
    /** `JSON.stringify` as the interface uses it. */
    const serialize: JVal -> string
    var sockets: seq<Sock>
    var handlers: seq<Router.Handler>
    var requests: map<string, nat>
    var tickets: map<nat, Request>
    var timers: set<nat>
    var outcomes: map<nat, Outcome<Message>>
    var nextTicket: nat
    var minted: nat
    var events: seq<Notice>

    /** Every request filed under a key names a pending ticket registered
        under that key; a ticket is pending (its timer armed) exactly when
        it has no outcome yet. */
    predicate RequestsValid()
      reads this`requests, this`tickets, this`timers, this`outcomes, this`nextTicket
    {
      (forall k :: k in requests ==>
         requests[k] in tickets && tickets[requests[k]].key == k && requests[k] in timers) &&
      timers <= tickets.Keys &&
      (forall t :: t in tickets ==> (t in timers <==> t !in outcomes)) &&
      (forall t :: t in tickets ==> t < nextTicket) &&
      (forall t :: t in outcomes ==> t < nextTicket)
    }

    /** The registry has one socket per id, each outbox is a list of
        frames, and the serializer never writes a NUL. */
    ghost predicate SocketsValid()
      reads this`sockets
    {
      (forall v :: NulFree(serialize(v))) && DistinctIds(sockets) && OutboxesFramed(sockets)
    }

    ghost predicate Valid()
      reads this`sockets, this`requests, this`tickets, this`timers, this`outcomes, this`nextTicket
    {
      SocketsValid() && RequestsValid()
    }

    /** `new JSONBottleInterface(config)`, with the serializer it writes
        through. A serializer never produces a raw NUL: RFC 8259 escapes
        every control character inside strings (section 7). */
    constructor(config: JVal, serialize: JVal -> string)
      requires forall v :: NulFree(serialize(v))
      ensures Valid()
      ensures this.config == Configure(config) && this.serialize == serialize
      ensures sockets == [] && handlers == [] && requests == map[] && tickets == map[] &&
              timers == {} && outcomes == map[] && events == []
    {
      this.config := Configure(config);
      this.serialize := serialize;
      sockets := [];
      handlers := [];
      requests := map[];
      tickets := map[];
      timers := {};
      outcomes := map[];
      nextTicket := 0;
      minted := 0;
      events := [];
    }

    function GetConfig(key: string): JVal
      reads this
    {
      if key in config then config[key] else Undefined
    }

    /** `getSocket(id)`: the registry looked up under the property key the
        argument converts to. */
    function GetSocket(key: JVal): (r: Slot)
      reads this
      ensures r == (if PropertyKey(key).Some? then Get(sockets, PropertyKey(key).value) else Empty)
      ensures r.Socket? ==> exists k :: 0 <= k < |sockets| && sockets[k].id == r.id
    {
      match PropertyKey(key)
      case Some(k) => Get(sockets, k)
      case None => Empty
    }

    /** `setupSocket(socket)`: a fresh socket with an empty buffer is filed
        under its id. */
    method SetupSocket(id: string)
      requires Valid()
      modifies this`sockets
      ensures Valid()
      ensures sockets == Register(old(sockets), Sock(id, "", []))
    {
      RegisterSpec(sockets, Sock(id, "", []));
      var s0 := sockets;
      sockets := Register(sockets, Sock(id, "", []));
      forall k | 0 <= k < |sockets| ensures AllFramed(sockets[k].outbox) {
        if sockets[k].id != id {
          assert k < |s0| && sockets[k] == s0[k];
        }
      }
    }

    /** `destroySocket(id)`: the key is deleted and a `disconnect` event
        carries what the lookup found there, which is also returned: the
        socket, else the inherited member of that name, else nothing.
        Deleting a key that is not an own property changes nothing. */
    method DestroySocket(id: string) returns (s: Found)
      requires Valid()
      modifies this`sockets, this`events
      ensures Valid()
      ensures s == (if IndexOf(old(sockets), id) >= 0 then Found(old(sockets)[IndexOf(old(sockets), id)])
                    else if id in ProtoKeys then Member(id) else NoSocket)
      ensures s.Found? <==> Get(old(sockets), id).Socket?
      ensures !s.Found? ==> sockets == old(sockets)
      ensures sockets == Remove(old(sockets), id)
      ensures events == old(events) + [Disconnect(s)]
    {
      var i := IndexOf(sockets, id);
      s := if i >= 0 then Found(sockets[i]) else if id in ProtoKeys then Member(id) else NoSocket;
      var s0 := sockets;
      if i < 0 { RemoveAbsent(s0, id); }
      RemoveSpec(s0, id);
      RemoveKeepsDistinct(s0, id);
      sockets := Remove(sockets, id);
      forall k | 0 <= k < |sockets| ensures AllFramed(sockets[k].outbox) {
        assert sockets[k] in s0;
      }
      events := events + [Disconnect(s)];
    }

    /** `destroyAllSockets()`: every key, in order, is destroyed. */
    method DestroyAllSockets()
      requires Valid()
      modifies this`sockets, this`events
      ensures Valid()
      ensures sockets == []
      ensures events == old(events) + Disconnects(old(sockets))
    {
      var keys := Ids(sockets);
      ghost var s0 := sockets;
      ghost var e0 := events;
      var k := 0;
      while k < |keys|
        invariant 0 <= k <= |keys| && Valid()
        invariant sockets == s0[k..]
        invariant events == e0 + Disconnects(s0[..k])
      {
        assert sockets[0] == s0[k] && sockets[0].id == keys[k];
        RemoveFirst(sockets);
        var s := DestroySocket(keys[k]);
        assert s == Found(s0[k]);
        assert s0[..k + 1] == s0[..k] + [s0[k]];
        DisconnectsSnoc(s0[..k], s0[k]);
        k := k + 1;
      }
    }

    /** A `data` event on socket `sid`: the buffer plus the chunk is split on
        `'\0'`, the last fragment becomes the new buffer, and every complete
        token, in order, is handled as incoming data from that socket. */
    method HandleData(sid: string, chunk: string, w: World) returns (ms: seq<Message>)
      requires Valid() && IndexOf(sockets, sid) >= 0
      modifies this`handlers, this`sockets, this`minted, this`requests, this`timers, this`outcomes
      ensures Valid()
      ensures var i := IndexOf(old(sockets), sid);
        var c := HandleChunk(old(sockets)[i].buffer, chunk);
        Stubs(sockets) == Stubs(old(sockets))[i := Sock(sid, c.buffer, [])] &&
        |ms| == |c.tokens| &&
        forall k :: 0 <= k < |ms| ==>
          ms[k].BuiltFrom(Str(c.tokens[k]), w.parse(c.tokens[k]), this, Some(sid))
    {
      var tokens := Rebuffer(sid, chunk);
      ghost var stubs := Stubs(sockets);
      ms := [];
      var k := 0;
      while k < |tokens|
        invariant 0 <= k <= |tokens| && Valid()
        invariant Stubs(sockets) == stubs
        invariant |ms| == k
        invariant forall j :: 0 <= j < k ==> ms[j].BuiltFrom(Str(tokens[j]), w.parse(tokens[j]), this, Some(sid))
      {
        var m := HandleToken(tokens[k], sid, w);
        ms := ms + [m];
        k := k + 1;
      }
    }

    /** One pass of the loop of `handleData`: `handleIncomingData(token,
        socket)`, seen from the loop, which only needs the message built and
        the registry kept. */
    method HandleToken(token: string, sid: string, w: World) returns (m: Message)
      requires Valid()
      modifies this`handlers, this`sockets, this`minted, this`requests, this`timers, this`outcomes
      ensures fresh(m)
      ensures m.BuiltFrom(Str(token), w.parse(token), this, Some(sid))
      ensures Valid()
      ensures Stubs(sockets) == Stubs(old(sockets))
    {
      ghost var invoked;
      m, invoked := HandleIncomingData(Str(token), Some(sid), w);
    }

    /** `(socket._buffer + raw).split('\0')` and `socket._buffer = tokens.pop()`. */
    method Rebuffer(sid: string, chunk: string) returns (tokens: seq<string>)
      requires Valid() && IndexOf(sockets, sid) >= 0
      modifies this`sockets
      ensures Valid()
      ensures var i := IndexOf(old(sockets), sid);
        var c := HandleChunk(old(sockets)[i].buffer, chunk);
        tokens == c.tokens && Stubs(sockets) == Stubs(old(sockets))[i := Sock(sid, c.buffer, [])]
    {
      var i := IndexOf(sockets, sid);
      var c := HandleChunk(sockets[i].buffer, chunk);
      ghost var s0 := sockets;
      sockets := sockets[i := sockets[i].(buffer := c.buffer)];
      assert Stubs(sockets) == Stubs(s0)[i := Sock(sid, c.buffer, [])];
      assert forall k :: 0 <= k < |sockets| ==> sockets[k].outbox == s0[k].outbox && sockets[k].id == s0[k].id;
      tokens := c.tokens;
    }

    /** `handleIncomingData(data, socket)`: build the message; if a request
        is pending under its id, hand it to that request, else to the
        router. A new id is drawn only when the message needs one. */
    method HandleIncomingData(data: JVal, origin: Option<string>, w: World) returns (m: Message, ghost invoked: seq<nat>)
      requires Valid()
      modifies this`handlers, this`sockets, this`minted, this`requests, this`timers, this`outcomes
      ensures fresh(m)
      ensures m.BuiltFrom(data, if data.Str? then w.parse(data.s) else None, this, origin)
      ensures Valid()
      ensures Stubs(sockets) == Stubs(old(sockets))
      ensures Pending(old(requests), KeyOf(m.id)) ==>
        var t := old(requests)[KeyOf(m.id)];
        handlers == old(handlers) && sockets == old(sockets) && invoked == [] && !m.replied &&
        requests == old(requests) - {KeyOf(m.id)} && timers == old(timers) - {t} &&
        outcomes == old(outcomes)[t := Settle(None, Some(m), m.body)]
      ensures !Pending(old(requests), KeyOf(m.id)) ==>
        requests == old(requests) && timers == old(timers) && outcomes == old(outcomes)
      ensures !Pending(old(requests), KeyOf(m.id)) && !m.IsValid() ==>
        handlers == old(handlers) && sockets == old(sockets) && invoked == [] && !m.replied
      ensures !Pending(old(requests), KeyOf(m.id)) && m.IsValid() ==>
        var walk := Router.WalkFrom(old(handlers), 0, m.path.value, w.route);
        handlers == walk.kept && invoked == walk.invoked &&
        m.replied == (walk.thrown.Some? && m.origin.Some?) &&
        sockets == (if walk.thrown.Some? && m.origin.Some?
                    then Replied(old(sockets), serialize, m.id.value, m.path.value, m.origin.value,
                                 ErrorBody(walk.thrown.value), w.fault)
                    else old(sockets))
    {
      m := CreateMessage(data, if data.Str? then w.parse(data.s) else None, origin);
      invoked := Dispatch(m, w);
    }

    /** `new JSONBottleMessage(data, this, socket)`, drawing a new id only
        when the message needs one. */
    method CreateMessage(data: JVal, parsed: Option<JVal>, origin: Option<string>) returns (m: Message)
      modifies this`minted
      ensures fresh(m) && !m.replied
      ensures m.BuiltFrom(data, parsed, this, origin)
      ensures var src := Source(data, parsed);
        if src.Some? && !IsValidId(Field(src.value, "id"))
        then m.id == Some(GeneratedId(old(minted))) && minted == old(minted) + 1
        else minted == old(minted)
    {
      m := new Message(data, parsed, this, origin, GeneratedId(minted));
      var src := Source(data, parsed);
      if src.Some? && !IsValidId(Field(src.value, "id")) {
        minted := minted + 1;
      }
    }

    /** The choice `handleIncomingData` makes for a new message: the pending
        request filed under its id, or the router. */
    method Dispatch(m: Message, w: World) returns (ghost invoked: seq<nat>)
      requires Valid() && !m.replied && (m.IsValid() ==> m.owner == this)
      modifies this`handlers, this`sockets, this`requests, this`timers, this`outcomes, m`replied
      ensures m.id == old(m.id) && m.path == old(m.path) && m.body == old(m.body) &&
              m.owner == old(m.owner) && m.origin == old(m.origin)
      ensures Valid()
      ensures Stubs(sockets) == Stubs(old(sockets))
      ensures Pending(old(requests), KeyOf(m.id)) ==>
        var t := old(requests)[KeyOf(m.id)];
        handlers == old(handlers) && sockets == old(sockets) && invoked == [] && !m.replied &&
        requests == old(requests) - {KeyOf(m.id)} && timers == old(timers) - {t} &&
        outcomes == old(outcomes)[t := Settle(None, Some(m), m.body)]
      ensures !Pending(old(requests), KeyOf(m.id)) ==>
        requests == old(requests) && timers == old(timers) && outcomes == old(outcomes)
      ensures !Pending(old(requests), KeyOf(m.id)) && !m.IsValid() ==>
        handlers == old(handlers) && sockets == old(sockets) && invoked == [] && !m.replied
      ensures !Pending(old(requests), KeyOf(m.id)) && m.IsValid() ==>
        var walk := Router.WalkFrom(old(handlers), 0, m.path.value, w.route);
        handlers == walk.kept && invoked == walk.invoked &&
        m.replied == (walk.thrown.Some? && m.origin.Some?) &&
        sockets == (if walk.thrown.Some? && m.origin.Some?
                    then Replied(old(sockets), serialize, m.id.value, m.path.value, m.origin.value,
                                 ErrorBody(walk.thrown.value), w.fault)
                    else old(sockets))
    {
      var key := KeyOf(m.id);
      if Pending(requests, key) {
        var t := requests[key];
        assert tickets[t].key == key && t in timers && t !in outcomes;
        SettleRequest(t, None, Some(m));
        invoked := [];
      } else {
        assert m.IsValid() ==> m.owner == this && (m.CanRespond() <==> m.origin.Some?);
        invoked := HandleIncomingMessage(m, w);
      }
    }

    /** `handleIncomingMessage(message)`: a valid message walks the handler
        list from the start. The shared `index` and the nested `next()`
        amount to one loop: an entry that does not accept the path is
        skipped; an accepting `once` entry is spliced out before its
        callback runs; a callback that calls `next` lets the walk go on; one
        that returns stops it; one that throws stops it and gets the message
        answered with the serialized error. Nothing happens between that
        answer and the end of the walk, so the model answers once the loop
        is left. */
    method HandleIncomingMessage(m: Message, w: World) returns (ghost invoked: seq<nat>)
      requires Valid() && (m.IsValid() ==> m.owner == this)
      modifies this`handlers, this`sockets, m`replied
      ensures Valid()
      ensures Stubs(sockets) == Stubs(old(sockets))
      ensures !m.IsValid() ==> handlers == old(handlers) && sockets == old(sockets) &&
                               m.replied == old(m.replied) && invoked == []
      ensures m.IsValid() ==>
        var walk := Router.WalkFrom(old(handlers), 0, m.path.value, w.route);
        handlers == walk.kept && invoked == walk.invoked &&
        (walk.thrown.None? ==> sockets == old(sockets) && m.replied == old(m.replied)) &&
        (walk.thrown.Some? ==>
           m.replied == (old(m.replied) || m.origin.Some?) &&
           sockets == (if !old(m.replied) && m.origin.Some?
                       then Replied(old(sockets), serialize, m.id.value, m.path.value, m.origin.value,
                                    ErrorBody(walk.thrown.value), w.fault)
                       else old(sockets)))
    {
      if !m.IsValid() {
        return [];
      }
      var path := m.path.value;
      var thrown: Option<JVal>;
      thrown, invoked := Walk(path, w.route);
      if thrown.Some? {
        assert m.CanRespond() == (!m.replied && m.origin.Some?);
        m.Respond(ErrorBody(thrown.value), w);
      }
    }

    /** The loop of `next()` over `_handlers` for a message at `path`: what
        it leaves in the list, which entries (by original position) it ran,
        and what the last one threw, if anything. */
    method Walk(path: string, env: Router.Env) returns (thrown: Option<JVal>, ghost invoked: seq<nat>)
      modifies this`handlers
      ensures Router.WalkFrom(old(handlers), 0, path, env) == Router.Walk(invoked, handlers, thrown)
    {
      ghost var hs0 := handlers;
      ghost var j := 0;
      invoked := [];
      thrown := None;
      var index := 0;
      var stop := false;
      assert handlers[..0] == [] && handlers[0..] == hs0;
      while index < |handlers| && !stop
        invariant 0 <= index <= |handlers|
        invariant !stop ==> Progress(hs0, j, handlers, index, invoked, path, env) && thrown.None?
        invariant stop ==> Router.WalkFrom(hs0, 0, path, env) == Router.Walk(invoked, handlers, thrown)
        decreases |handlers| - index
      {
        var h := handlers[index];
        ProgressHead(hs0, j, handlers, index, invoked, path, env);
        if !Router.Accepts(h.tester, path, env.userTest) {
          StepSkip(hs0, j, handlers, index, invoked, path, env);
          index := index + 1;
        } else {
          ghost var hs, i, inv := handlers, index, invoked;
          if h.once {
            handlers := handlers[..index] + handlers[index + 1..];
          } else {
            index := index + 1;
          }
          assert handlers == Taken(hs, i) && index == After(hs, i);
          invoked := invoked + [j];
          match env.act(h.callback)
          case CallsNext =>
            StepNext(hs0, j, hs, i, inv, path, env);
          case Stops =>
            StepStop(hs0, j, hs, i, inv, path, env);
            stop := true;
          case Throws(e) =>
            StepStop(hs0, j, hs, i, inv, path, env);
            thrown := Some(e);
            stop := true;
        }
        j := j + 1;
      }
      if !stop {
        ProgressEnd(hs0, j, handlers, index, invoked, path, env);
      }
    }

    /** `sendMessage(message, sockets, callback)`: the error the callback
        receives (null when every write succeeded). An invalid message or an
        empty or non-array socket list writes nothing. */
    method SendMessage(m: Message, targets: Option<seq<Slot>>, w: World) returns (err: Option<ErrorObj>)
      requires Valid()
      modifies this`sockets
      ensures Valid()
      ensures Stubs(sockets) == Stubs(old(sockets))
      ensures !m.IsValid() ==> err == Some(NewError(InvalidMessage)) && sockets == old(sockets)
      ensures m.IsValid() && (targets.None? || targets.value == []) ==>
        err == Some(NewError(InvalidSockets)) && sockets == old(sockets)
      ensures m.IsValid() && targets.Some? && targets.value != [] ==>
        Delivered(sockets, err) == Deliver(old(sockets), targets.value, serialize(m.ToJSON()) + [NUL], w.fault)
    {
      if !m.IsValid() {
        return Some(NewError(InvalidMessage));
      }
      if targets.None? || |targets.value| == 0 {
        return Some(NewError(InvalidSockets));
      }
      var ts := targets.value;
      var payload := serialize(m.ToJSON()) + [NUL];
      assert payload[..|payload| - 1] == serialize(m.ToJSON());
      DeliverStubs(sockets, ts, payload, w.fault);
      err := WriteAll(ts, payload, w.fault);
    }

    /** `sockets.forEach(...)` in `sendMessage`: write the payload to each
        target in turn, keeping the last error caught. */
    method WriteAll(ts: seq<Slot>, payload: string, fault: string -> Option<ErrorObj>)
      returns (err: Option<ErrorObj>)
      modifies this`sockets
      ensures Delivered(sockets, err) == Deliver(old(sockets), ts, payload, fault)
    {
      ghost var s0 := sockets;
      err := None;
      var k := 0;
      while k < |ts|
        invariant 0 <= k <= |ts|
        invariant Delivered(sockets, err) == Deliver(s0, ts[..k], payload, fault)
      {
        var t := ts[k];
        DeliverSnoc(s0, ts, k, payload, fault);
        if t.Empty? {
          err := Some(WriteTypeError());
        } else if t.Inherited? {
          err := Some(NewError(NotAFunction));
        } else if fault(t.id).Some? {
          err := fault(t.id);
        } else {
          sockets := Append(sockets, t.id, payload);
        }
        k := k + 1;
      }
      assert ts[..k] == ts;
    }

    /** `sendMessageRequest(message, socket, timeout)`: file a new request
        under the message's id (replacing any request filed there), arm its
        timer, and send; a send error settles it at once. */
    method SendMessageRequest(m: Message, target: Slot, delay: JVal, w: World) returns (t: nat)
      requires Valid()
      modifies this`sockets, this`requests, this`tickets, this`timers, this`outcomes, this`nextTicket
      ensures Valid()
      ensures t == old(nextTicket) && t !in old(tickets) && tickets == old(tickets)[t := Request(KeyOf(m.id), delay)]
      ensures var d := Deliver(old(sockets), [target], serialize(m.ToJSON()) + [NUL], w.fault);
        var err := if m.IsValid() then d.err else Some(NewError(InvalidMessage));
        sockets == (if m.IsValid() then d.socks else old(sockets)) &&
        (err.None? ==> requests == old(requests)[KeyOf(m.id) := t] && timers == old(timers) + {t} &&
                       outcomes == old(outcomes)) &&
        (err.Some? ==> requests == old(requests) - {KeyOf(m.id)} && timers == old(timers) &&
                       outcomes == old(outcomes)[t := Rejected(err.value, None)])
    {
      ghost var d := Deliver(sockets, [target], serialize(m.ToJSON()) + [NUL], w.fault);
      ghost var r0, ti0, o0 := requests, timers, outcomes;
      t := FileRequest(KeyOf(m.id), delay);
      var err := SendMessage(m, Some([target]), w);
      if err.Some? {
        RejectPending(t, err.value);
        MapRemoveSet(r0, KeyOf(m.id), t);
      }
    }

    /** `this._requests[message.id] = request` and `request._timeout = setTimeout(...)`:
        a new pending ticket is filed under `key`, replacing what was there. */
    method FileRequest(key: string, delay: JVal) returns (t: nat)
      requires Valid()
      modifies this`requests, this`tickets, this`timers, this`nextTicket
      ensures Valid()
      ensures t == old(nextTicket) && t !in old(tickets) && t !in old(timers) && t !in outcomes
      ensures tickets == old(tickets)[t := Request(key, delay)]
      ensures requests == old(requests)[key := t] && timers == old(timers) + {t}
    {
      t := nextTicket;
      nextTicket := nextTicket + 1;
      tickets := tickets[t := Request(key, delay)];
      requests := requests[key := t];
      timers := timers + {t};
    }

    /** The request closure: delete the entry filed under the request's key,
        disarm its timer, and settle its promise; a promise that already
        settled keeps its first outcome. */
    method SettleRequest(t: nat, err: Option<ErrorObj>, response: Option<Message>)
      requires Valid() && t in tickets && (err.Some? || response.Some?)
      modifies this`requests, this`timers, this`outcomes
      ensures Valid()
      ensures requests == old(requests) - {tickets[t].key}
      ensures timers == old(timers) - {t}
      ensures outcomes == if t in old(outcomes) then old(outcomes)
        else old(outcomes)[t := Settle(err, response, if response.Some? then response.value.body else Undefined)]
    {
      requests := requests - {tickets[t].key};
      timers := timers - {t};
      if t !in outcomes {
        outcomes := outcomes[t := Settle(err, response, if response.Some? then response.value.body else Undefined)];
      }
    }

    /** The timer of a pending request fires. */
    method FireTimeout(t: nat)
      requires Valid() && t in timers
      modifies this`requests, this`timers, this`outcomes
      ensures Valid()
      ensures requests == old(requests) - {tickets[t].key}
      ensures timers == old(timers) - {t}
      ensures outcomes == old(outcomes)[t := Rejected(NewError(TimedOut), None)]
    {
      RejectPending(t, NewError(TimedOut));
    }

    /** A request whose timer is still armed is rejected with `e` and no
        response. */
    method RejectPending(t: nat, e: ErrorObj)
      requires Valid() && t in timers
      modifies this`requests, this`timers, this`outcomes
      ensures Valid()
      ensures t !in old(outcomes) && t !in requests.Values
      ensures requests == old(requests) - {tickets[t].key}
      ensures timers == old(timers) - {t}
      ensures outcomes == old(outcomes)[t := Rejected(e, None)]
    {
      SettleRequest(t, Some(e), None);
      assert forall k :: k in requests ==> tickets[requests[k]].key == k;
    }

    /** `clearPendingRequests(error)`: every filed request is rejected with
        the given error, or `Clearing pending requests.`, and the table is
        left empty. */
    method ClearPendingRequests(error: Option<ErrorObj>)
      requires Valid()
      modifies this`requests, this`timers, this`outcomes
      ensures Valid()
      ensures requests == map[]
      ensures var e := if error.Some? then error.value else NewError(Cleared);
        forall k :: k in old(requests) ==>
          old(requests)[k] in outcomes && outcomes[old(requests)[k]] == Rejected(e, None)
      ensures forall t :: t in old(outcomes) ==> t in outcomes && outcomes[t] == old(outcomes)[t]
      ensures forall t :: t in outcomes ==> t in old(outcomes) || t in old(requests).Values
      ensures timers == old(timers) - old(requests).Values
    {
      var e := if error.Some? then error.value else NewError(Cleared);
      ghost var r0, o0, ti0 := requests, outcomes, timers;
      ghost var done: set<nat> := {};
      while requests != map[]
        invariant Valid()
        invariant ClearedSoFar(r0, o0, ti0, e, done, requests, outcomes, timers)
        decreases |requests|
      {
        var k :| k in requests;
        var t := requests[k];
        ghost var r1, o1, ti1 := requests, outcomes, timers;
        RejectOne(k, e);
        ClearStep(r0, o0, ti0, e, done, r1, o1, ti1, k, requests, outcomes, timers);
        done := done + {t};
      }
      ClearEnd(r0, o0, ti0, e, done, outcomes, timers);
    }

    /** One pending request rejected by `clearPendingRequests`. */
    method RejectOne(k: string, e: ErrorObj)
      requires Valid() && k in requests
      modifies this`requests, this`timers, this`outcomes
      ensures Valid()
      ensures var t := old(requests)[k];
        t !in old(outcomes) && requests == old(requests) - {k} && timers == old(timers) - {t} &&
        outcomes == old(outcomes)[t := Rejected(e, None)] && t !in requests.Values
    {
      var t := requests[k];
      assert tickets[t].key == k && t in timers;
      RejectPending(t, e);
    }

    /** `use(...args)` and `useOnce(...args)`: one entry per function
        argument, in order, all sharing the tester built from `args[0]`. */
    method Use(args: seq<JVal>)
      modifies this`handlers
      ensures handlers == old(handlers) + Router.NewEntries(args, false)
    {
      AddHandlers(args, false);
    }

    method UseOnce(args: seq<JVal>)
      modifies this`handlers
      ensures handlers == old(handlers) + Router.NewEntries(args, true)
    {
      AddHandlers(args, true);
    }

    method AddHandlers(args: seq<JVal>, once: bool)
      modifies this`handlers
      ensures handlers == old(handlers) + Router.NewEntries(args, once)
    {
      var tester := Router.PathTester(if args == [] then Undefined else args[0]);
      var k := 0;
      while k < |args|
        invariant 0 <= k <= |args|
        invariant handlers == old(handlers) + Router.Entries(args[..k], tester, once)
      {
        Router.EntriesSnoc(args[..k], args[k], tester, once);
        assert args[..k + 1] == args[..k] + [args[k]];
        if args[k].Fn? {
          handlers := handlers + [Router.Handler(once, tester, args[k].fid)];
        }
        k := k + 1;
      }
      assert args[..k] == args;
    }
  }

  lemma MapRemoveSet<K, V>(m: map<K, V>, k: K, v: V)
    ensures m[k := v] - {k} == m - {k}
  {
  }

  /** Where `clearPendingRequests` stands after rejecting the tickets in
      `done`: the requests left are those of the table it started from that
      are not done, every done ticket came from that table and is rejected
      with `e`, and every other outcome is as it was. */
  ghost predicate ClearedSoFar(r0: map<string, nat>, o0: map<nat, Outcome<Message>>, ti0: set<nat>,
                               e: ErrorObj, done: set<nat>, requests: map<string, nat>,
                               outcomes: map<nat, Outcome<Message>>, timers: set<nat>)
  {
    (forall k :: k in requests ==> k in r0 && requests[k] == r0[k]) &&
    (forall k :: k in r0 && k !in requests ==> r0[k] in done) &&
    (forall t :: t in done ==> t in r0.Values && t in outcomes && outcomes[t] == Rejected(e, None)) &&
    (forall t :: t in o0 ==> t in outcomes && outcomes[t] == o0[t]) &&
    (forall t :: t in outcomes ==> t in o0 || t in done) &&
    timers == ti0 - done &&
    (forall t :: t in done ==> t !in requests.Values)
  }

  lemma ClearStep(r0: map<string, nat>, o0: map<nat, Outcome<Message>>, ti0: set<nat>, e: ErrorObj,
                  done: set<nat>, r1: map<string, nat>, o1: map<nat, Outcome<Message>>, ti1: set<nat>,
                  k: string, r2: map<string, nat>, o2: map<nat, Outcome<Message>>, ti2: set<nat>)
    requires ClearedSoFar(r0, o0, ti0, e, done, r1, o1, ti1)
    requires k in r1
    requires r1[k] !in o1 && r2 == r1 - {k} && ti2 == ti1 - {r1[k]} &&
             o2 == o1[r1[k] := Rejected(e, None)] && r1[k] !in r2.Values
    ensures ClearedSoFar(r0, o0, ti0, e, done + {r1[k]}, r2, o2, ti2)
  {
    var t := r1[k];
    assert t in r0.Values by { assert r0[k] == t; }
    assert r2.Values <= r1.Values by {
      forall t' | t' in r2.Values ensures t' in r1.Values {
        var k' :| k' in r2 && r2[k'] == t';
        assert r1[k'] == t';
      }
    }
  }

  lemma ClearEnd(r0: map<string, nat>, o0: map<nat, Outcome<Message>>, ti0: set<nat>, e: ErrorObj,
                 done: set<nat>, outcomes: map<nat, Outcome<Message>>, timers: set<nat>)
    requires ClearedSoFar(r0, o0, ti0, e, done, map[], outcomes, timers)
    ensures forall k :: k in r0 ==> r0[k] in outcomes && outcomes[r0[k]] == Rejected(e, None)
    ensures forall t :: t in o0 ==> t in outcomes && outcomes[t] == o0[t]
    ensures forall t :: t in outcomes ==> t in o0 || t in r0.Values
    ensures timers == ti0 - r0.Values
  {
    assert done == r0.Values;
  }

  /** The `disconnect` events for a list of sockets. */
  function Disconnects(socks: seq<Sock>): (r: seq<Notice>)
    ensures |r| == |socks| && forall k :: 0 <= k < |socks| ==> r[k] == Disconnect(Found(socks[k]))
  {
    seq(|socks|, k requires 0 <= k < |socks| => Disconnect(Found(socks[k])))
  }

  lemma DisconnectsSnoc(socks: seq<Sock>, s: Sock)
    ensures Disconnects(socks + [s]) == Disconnects(socks) + [Disconnect(Found(s))]
  {
  }

  /** A walk under way: the walk over `hs0` from the start is what has run
      so far, the entries kept so far, and then the walk from entry `j`,
      which is where the live list `hs` continues at `index`. */
  ghost predicate Progress(hs0: seq<Router.Handler>, j: nat, hs: seq<Router.Handler>, index: nat,
                           invoked: seq<nat>, path: string, env: Router.Env)
  {
    j <= |hs0| && index <= |hs| && hs[index..] == hs0[j..] &&
    Router.WalkFrom(hs0, 0, path, env) == Combine(invoked, hs[..index], Router.WalkFrom(hs0, j, path, env))
  }

  lemma ProgressHead(hs0: seq<Router.Handler>, j: nat, hs: seq<Router.Handler>, index: nat,
                     invoked: seq<nat>, path: string, env: Router.Env)
    requires Progress(hs0, j, hs, index, invoked, path, env) && index < |hs|
    ensures j < |hs0| && hs[index] == hs0[j]
  {
    assert hs[index..][0] == hs[index];
  }

  /** An entry that does not accept the path stays and is passed over. */
  lemma StepSkip(hs0: seq<Router.Handler>, j: nat, hs: seq<Router.Handler>, index: nat,
                 invoked: seq<nat>, path: string, env: Router.Env)
    requires Progress(hs0, j, hs, index, invoked, path, env) && index < |hs|
    requires !Router.Accepts(hs[index].tester, path, env.userTest)
    ensures Progress(hs0, j + 1, hs, index + 1, invoked, path, env)
  {
    ProgressHead(hs0, j, hs, index, invoked, path, env);
    assert hs[index + 1..] == hs[index..][1..] && hs0[j + 1..] == hs0[j..][1..];
    assert hs[..index + 1] == hs[..index] + [hs[index]];
  }

  /** The live list after an accepting entry is taken: a `once` entry is
      spliced out, others stay. */
  function Taken(hs: seq<Router.Handler>, index: nat): seq<Router.Handler>
    requires index < |hs|
  {
    if hs[index].once then hs[..index] + hs[index + 1..] else hs
  }

  function After(hs: seq<Router.Handler>, index: nat): nat
    requires index < |hs|
  {
    if hs[index].once then index else index + 1
  }

  /** An accepting entry whose callback calls `next`: the walk goes on. */
  lemma StepNext(hs0: seq<Router.Handler>, j: nat, hs: seq<Router.Handler>, i: nat,
                 invoked: seq<nat>, path: string, env: Router.Env)
    requires Progress(hs0, j, hs, i, invoked, path, env) && i < |hs|
    requires Router.Accepts(hs[i].tester, path, env.userTest) && env.act(hs[i].callback).CallsNext?
    ensures Progress(hs0, j + 1, Taken(hs, i), After(hs, i), invoked + [j], path, env)
  {
    ProgressHead(hs0, j, hs, i, invoked, path, env);
    var h := hs[i];
    var r := Router.WalkFrom(hs0, j + 1, path, env);
    var head := if h.once then [] else [h];
    assert hs[i + 1..] == hs[i..][1..] && hs0[j + 1..] == hs0[j..][1..];
    var t, k := Taken(hs, i), After(hs, i);
    assert t[..k] == hs[..i] + head;
    assert t[k..] == hs[i + 1..];
    CombineStep(invoked, hs[..i], head, j, r);
  }

  /** An accepting entry whose callback returns or throws ends the walk:
      the live list is then the list the walk leaves. */
  lemma StepStop(hs0: seq<Router.Handler>, j: nat, hs: seq<Router.Handler>, i: nat,
                 invoked: seq<nat>, path: string, env: Router.Env)
    requires Progress(hs0, j, hs, i, invoked, path, env) && i < |hs|
    requires Router.Accepts(hs[i].tester, path, env.userTest) && !env.act(hs[i].callback).CallsNext?
    ensures var f := Router.WalkFrom(hs0, 0, path, env);
      var a := env.act(hs[i].callback);
      f.kept == Taken(hs, i) && f.invoked == invoked + [j] &&
      f.thrown == (if a.Throws? then Some(a.error) else None)
  {
    ProgressHead(hs0, j, hs, i, invoked, path, env);
    var h := hs[i];
    var head := if h.once then [] else [h];
    assert hs[i + 1..] == hs[i..][1..] && hs0[j + 1..] == hs0[j..][1..];
    var a := env.act(hs[i].callback);
    CombineStop(invoked, hs[..i], head, j, hs0[j + 1..], if a.Throws? then Some(a.error) else None);
    assert Taken(hs, i) == (hs[..i] + head) + hs[i + 1..];
  }

  /** The live list ran out: the walk is complete. */
  lemma ProgressEnd(hs0: seq<Router.Handler>, j: nat, hs: seq<Router.Handler>, index: nat,
                    invoked: seq<nat>, path: string, env: Router.Env)
    requires Progress(hs0, j, hs, index, invoked, path, env) && index == |hs|
    ensures Router.WalkFrom(hs0, 0, path, env) == Router.Walk(invoked, hs, None)
  {
    assert hs0[j..] == [] && j == |hs0|;
    assert hs[..index] == hs;
  }

  /** A walk already under way: what ran and what was kept so far, then
      the rest of the walk. */
  function Combine(invoked: seq<nat>, kept: seq<Router.Handler>, rest: Router.Walk): Router.Walk
  {
    Router.Walk(invoked + rest.invoked, kept + rest.kept, rest.thrown)
  }

  lemma CombineStep(invoked: seq<nat>, kept: seq<Router.Handler>, head: seq<Router.Handler>, j: nat, r: Router.Walk)
    ensures Combine(invoked, kept, Router.Walk([j] + r.invoked, head + r.kept, r.thrown)) ==
            Combine(invoked + [j], kept + head, r)
    ensures Combine(invoked, kept, Router.Walk(r.invoked, head + r.kept, r.thrown)) ==
            Combine(invoked, kept + head, r)
  {
  }

  lemma CombineStop(invoked: seq<nat>, kept: seq<Router.Handler>, head: seq<Router.Handler>, j: nat,
                    rest: seq<Router.Handler>, thrown: Option<JVal>)
    ensures Combine(invoked, kept, Router.Walk([j], head + rest, thrown)) ==
            Router.Walk(invoked + [j], (kept + head) + rest, thrown)
  {
  }
}
