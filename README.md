# json-bottle, modelled in Dafny

json-bottle is a small Node.js messaging library. Peers exchange JSON
messages `{id, path, body}` over stream sockets. Each message is one
frame: the serialized JSON followed by a NUL character. An interface
keeps three tables:

- a registry of connected sockets, keyed by socket id;
- an ordered list of handlers, each a path pattern and a callback;
- a table of pending requests, keyed by message id.

An incoming message whose id names a pending request settles that
request. Any other valid message walks the handler list. A handler that
throws gets the message answered with the serialized error.

This project models the core of the library:

- the message entity (`src/message.js`);
- the interface (`src/interface.js`): framing, dispatch, sending and
  request correlation;
- the helpers it relies on (`src/util.js`): the path-pattern compiler,
  `override` and `serializeError`.

Each piece is modelled in the source's own form. Stateful parts are
classes whose methods state their new state. Pure parts are functions
with lemmas.

Modules, one per file:

- `js.dfy` (`Js`): JavaScript values as the library sees them. It covers
  truthiness, the lodash type tests, property keys, own and enumerable
  properties, `Object.assign` and `Error` objects.
- `util.dfy` (`Util`): `override` and `serializeError`.
- `glob.dfy` (`Glob`): `getPathTester` for string patterns. The three
  `replace` calls are modelled exactly. A reader turns the resulting
  regular-expression source into a small datatype of atoms, and an
  anchored matcher runs it.
- `framer.dfy` (`Framer`): the NUL-delimited reader of the `data`
  handler and the writer's frames.
- `router.dfy` (`Router`): handler entries, the testers `use`/`useOnce`
  build, and the walk `handleIncomingMessage` makes, as a function.
- `settlement.dfy` (`Settlement`): how the request closure turns an error
  or a response body into a rejection or a resolution.
- `sockets.dfy` (`Sockets`): the socket registry as an
  insertion-ordered sequence, and what the `forEach` of writes in
  `sendMessage` does to it.
- `bottle.dfy` (`Bottle`): the classes `Message` and `Interface`. They
  refer to each other, so they share one module.

The surroundings are parameters, gathered in `Bottle.World`:

- what each handler callback does (calls `next`, returns, or throws) and
  what a user-supplied RegExp accepts;
- the result of `JSON.parse` for each token;
- which socket writes throw.

`JSON.stringify` is the interface's constant `serialize`. The only thing
assumed of it is that its output never holds a raw NUL. RFC 8259 makes
an encoder escape every control character inside strings (section 7), so
this holds.

Where the library's own description and the code disagree, the model
follows the code. The description says a run of two or more `*` in a
path pattern "matches anything". In the code, the `**` replace of
`src/util.js:46` turns the run into `.*`, and the single-`*` replace that
follows rewrites that `*` into `[^:]+`. The run
therefore matches one character other than a line terminator, followed
by one or more characters other than `:`. `Glob.StarRun` states this.

## Model

| member | source | states |
|---|---|---|
| Js.ShortArrayKeys | src/interface.js:83 | an empty array used as a key is the empty key, and a one-element array is the key of its element (`null` and `undefined` giving the empty string), so `[id]` finds the same socket as `id` |
| Js.ArrayKeySnoc | src/interface.js:83 | for every non-empty array, appending an element appends a comma and that element's key to the array's key; with `Js.ShortArrayKeys` this gives every array's key as its elements' keys joined with commas |
| Util.Override | src/util.js:61-65 | the result is the first value that passes the test, or `undefined` when none does |
| Util.SerializedErrorKeepsMessage | src/util.js:25-30 | a thrown `Error(m)` serializes to a record that loses no property and still carries `message: m` |
| Glob.PipelineTranslates | src/util.js:44-47 | escaping, the `**` replace and the `*` replace, read back as a regular expression, give exactly `Translate(p)`: a character stands for itself, a lone `*` for `[^:]+`, a longer run for `.` then `[^:]+` |
| Glob.CompileIsTranslate | src/util.js:40-49 | the anchored source `^...$` that `getPathTester` builds always parses, and denotes `Translate(p)` |
| Glob.LiteralPattern | src/util.js:42-49 | a pattern without `*` matches a path exactly when the path equals it, metacharacters included |
| Glob.LoneStar | src/util.js:47 | `*` matches exactly the non-empty paths without `:` |
| Glob.StarRun | src/util.js:46-47 | a run of k >= 2 stars matches exactly the paths of length >= 2 whose first character is not a line terminator and whose rest holds no `:` |
| Framer.Split | src/interface.js:120 | `split('\0')` always yields at least one fragment |
| Framer.SplitParts | src/interface.js:120 | every fragment is NUL-free, and the fragments rejoined with NUL give back the input |
| Framer.FramerInvariant | src/interface.js:119-123 | after a chunk: old buffer + chunk == the tokens, each followed by NUL, then the new buffer; no token and not the new buffer holds a NUL |
| Framer.SplitFrames | src/interface.js:120 | NUL-free payloads written as frames, then a NUL-free tail, split back into exactly those payloads and that tail |
| Framer.ChunkingInsensitive | src/interface.js:119-123 | a run of `data` events emits the same tokens and leaves the same buffer as one event carrying all the bytes |
| Framer.RoundTrip | src/interface.js:119-123 | NUL-free payloads written as frames and read back in any chunking are emitted exactly, in order, and leave an empty buffer |
| Router.TesterKinds | src/util.js:40-53 | a string gives the compiled glob; a RegExp is used unchanged and decides alone; any other value gives the `null` tester, which accepts every path |
| Router.EntriesShape | src/interface.js:337-345 | `use` pushes one entry per function argument, in argument order, each with the shared tester and the given `once` |
| Router.FidsHasEveryFunction | src/interface.js:339 | every function argument gets an entry |
| Router.NewEntriesTester | src/interface.js:338 | a function as first argument gives match-all entries; a string gives the compiled glob of that string |
| Router.WalkInvokesMatching | src/interface.js:190-193 | the callbacks that run belong to entries that accept the path, in list order |
| Router.WalkContinuesOnlyOnNext | src/interface.js:188-198 | every callback that ran, except the last, called `next` |
| Router.WalkSkipsOnlyNonMatching | src/interface.js:190-206 | an accepting entry is passed over only after the chain stopped at an earlier entry whose callback did not call `next` |
| Router.WalkThrown | src/interface.js:197-202 | the walk reports a thrown error exactly when its last callback threw, and it is that callback's error |
| Router.WalkRemovesInvokedOnce | src/interface.js:192-196 | afterwards the list is the original one with exactly the invoked `once` entries removed, order kept |
| Settlement.SettleClasses | src/interface.js:253-271 | a request rejects exactly when given an error or when its response body has a truthy `error`; it resolves with the response otherwise; every rejection carries the response it was given |
| Settlement.BodyErrorKinds | src/interface.js:258-263 | a string `error` gives `Error(string)`; an object has its fields copied onto a new Error; any other truthy value gives an empty Error |
| Settlement.TimeoutRejects | src/interface.js:272-274 | a timeout rejects with `Request timed out.` and no response |
| Settlement.ThrownErrorReachesRequester | src/interface.js:197-202 | a handler's thrown `Error(m)`, once replied, rejects the request with an error holding exactly its properties, so the message is still `m` |
| Settlement.ThrownPrimitiveReachesRequester | src/util.js:31 | a thrown non-object reaches the requester as an error with message `Internal error.` |
| Sockets.IndexOf | src/interface.js:82-84 | the position of the socket under an id, or -1 exactly when no socket has that id |
| Sockets.Get | src/interface.js:82-84 | `_sockets[key]` is the socket registered under the key when there is one; otherwise the member of that name inherited from `Object.prototype` when there is one; otherwise nothing |
| Sockets.IdsAreKeys | src/interface.js:154-156 | `Object.keys(_sockets)` lists exactly the keys under which a socket is found, each once |
| Sockets.BroadcastHitsEachOnce | src/interface.js:90-92 | a write to `getSockets()` reaches every registered socket exactly once unless its write throws, and reaches nothing else |
| Sockets.RemoveSpec | src/interface.js:144 | deleting a key keeps exactly the sockets with other ids |
| Sockets.RemoveKeepsDistinct | src/interface.js:144 | after the delete the ids stay unique and the id is gone |
| Sockets.RemoveFirst | src/interface.js:154-156 | deleting the first key leaves the other sockets in order |
| Sockets.RegisterSpec | src/interface.js:124 | after `_sockets[id] = s` the socket is found under its id, every other socket stays unchanged in place, the registry grows by one exactly when the key is new, and ids stay unique |
| Sockets.FailureOf | src/interface.js:230-236 | a write to `undefined` throws a `TypeError` about reading `write` of undefined; a write to an inherited member throws `socket.write is not a function`; a write to a socket throws what that socket's `write` throws |
| Sockets.DeliverOutboxes | src/interface.js:230-238 | the writes touch only outboxes: each socket gets the payload once per successful write to it, and every target is tried whatever failed before |
| Sockets.DeliverError | src/interface.js:229-239 | the error the callback gets is null exactly when every write succeeded, and is otherwise that of the last failing write |
| Sockets.DeliverKeepsFrames | src/interface.js:232 | writing a frame keeps every outbox a list of frames, and keeps the ids |
| Sockets.FlattenFrames | src/interface.js:232 | the bytes of a list of written frames are the framer's frames of their payloads |
| Sockets.OutboxRoundTrip | src/interface.js:232 | whatever a peer reads from an outbox, in any chunking, reassembles into exactly the payloads written, in order |
| Bottle.IdSetOnce | src/message.js:74-81 | the first assignment stores the value when it is a non-empty string and a generated non-empty id otherwise; later assignments change nothing |
| Bottle.PathSetOnce | src/message.js:90-97 | an invalid path leaves `path` unset; a valid one is stored; a stored path never changes |
| Bottle.BodyKeepsObjects | src/message.js:106-111 | assigning a non-object changes nothing; an object is stored; an object body stays an object |
| Bottle.Source | src/message.js:51-54 | destructuring succeeds only on a parsed or given value other than `null`/`undefined` |
| Bottle.ConstructedValidity | src/message.js:50-65 | a built message is valid exactly when its path is valid, its body is an object or falsy, and it has an owner; a falsy body becomes `{}` and a truthy non-object body is dropped |
| Bottle.WireRoundTrip | src/message.js:212-236 | a message rebuilt from its own wire form `{id, path, body}` by `copy()` gets back the same id, path and object body |
| Bottle.CopyOverrides | src/message.js:212-216 | `copy(data)` takes each of id, path and body from `data` when `data` names it, and from this message otherwise |
| Bottle.ReplyFields | src/message.js:183 | the reply `copy({body})` keeps the original id and path and takes `body \|\| {}` as its body when that is an object |
| Bottle.ReplyWrite | src/message.js:183 | the reply's write is `send` to `[getSocket(origin)]`, and is skipped when the reply body is not an object |
| Bottle.SelectedMembers | src/message.js:140-142 | an array destination selects exactly the registered sockets whose id it contains |
| Bottle.SelectedInOrder | src/message.js:141-142 | the selected sockets come in registry order |
| Bottle.RequestDelayFirstFinite | src/message.js:162-163 | the request timeout is the first finite number among the destination, the timeout argument and the configured timeout, else `undefined` |
| Bottle.DefaultTimeout | src/interface.js:60-62 | the configured timeout is the one given, or 10000 |
| Bottle.InheritedIdLooksPending | src/interface.js:170 | the lookup as written finds a pending entry under every name `Object.prototype` provides, e.g. `constructor`, with no request filed; the corrected test does not |
| Bottle.GeneratedId | src/util.js:15-17 | a generated id is a non-empty string |
| Bottle.DeliverStubs | src/interface.js:230-238 | writing keeps ids and buffers, unique ids and framed outboxes |
| Bottle.Message.constructor | src/message.js:50-65 | fields set through the setters from the parsed or given record, `body` defaulting to `{}`, not replied; a parse or destructuring failure leaves every field unset |
| Bottle.Message.SetId | src/message.js:74-81 | `id` becomes `NextId` of the old one (set once) |
| Bottle.Message.SetPath | src/message.js:90-97 | `path` becomes `NextPath` of the old one (set once) |
| Bottle.Message.SetBody | src/message.js:106-111 | `body` becomes `NextBody` of the old one (objects only) |
| Bottle.Message.Copy | src/message.js:212-216 | a fresh local, unreplied message with the same owner, built from the wire form overridden by `data`; a valid message copied with no data is valid and has the same wire form |
| Bottle.Message.Send | src/message.js:129-147 | an invalid message writes nothing and calls nothing; otherwise the frame goes to the destination's sockets (string: `[getSocket]`, array: the selected ones, a function or anything else: all), and the function destination, else a function callback, is called with the error `sendMessage` reports |
| Bottle.FirstTarget | src/message.js:164-165 | `getSocket(destination) \|\| getSockets()[0]`: anything the lookup found (a socket or an inherited member) is used; when it found nothing, the first registered socket; with no socket, nothing |
| Bottle.Message.SendAsRequest | src/message.js:155-167 | an invalid message is rejected at once with `Cannot send invalid message as a request.` and the owner's sockets and request tables are unchanged; otherwise a ticket is filed under the id with the first finite timeout, the frame goes to `getSocket(destination)` or the first socket, and a send error rejects the ticket at once |
| Bottle.Message.Respond | src/message.js:174-189 | an unreplied, valid, non-local message writes its reply to `[origin]` and becomes replied even if the write failed; otherwise nothing changes |
| Bottle.Message.SendReply | src/message.js:183 | the registry after the reply's write is `Replied(...)` |
| Bottle.Message.MakeReply | src/message.js:183 | the reply is fresh, has the same owner and wire form `{id, path, reply body}`, and is valid exactly when the reply body is truthy |
| Bottle.Interface.constructor | src/interface.js:55-66 | the configuration with the default timeout, and empty tables |
| Bottle.Interface.GetSocket | src/interface.js:82-84 | `getSocket(id)` is the registry's lookup under the property key `id` converts to; a socket it finds is registered under that key |
| Bottle.Interface.SetupSocket | src/interface.js:99-126 | a socket with an empty buffer is registered under its id |
| Bottle.Interface.DestroySocket | src/interface.js:133-147 | the key is deleted; what `_sockets[id]` held (the socket, else an inherited member, else nothing) is returned and carried by the `disconnect` event; a key that is not registered leaves the registry unchanged |
| Bottle.Interface.DestroyAllSockets | src/interface.js:153-158 | the registry ends empty and one `disconnect` event per socket is emitted, in registry order |
| Bottle.Interface.HandleData | src/interface.js:119-123 | the socket's buffer becomes the last fragment and one message is built per complete token, in order, from that socket |
| Bottle.Interface.HandleToken | src/interface.js:122 | one token handled as incoming data from the socket |
| Bottle.Interface.Rebuffer | src/interface.js:120-121 | the tokens are the framer's, and only the socket's buffer changes |
| Bottle.Interface.HandleIncomingData | src/interface.js:168-176 | a message whose id is pending settles that request and reaches no handler; any other message goes to the router with exactly the effect of `HandleIncomingMessage` |
| Bottle.Interface.CreateMessage | src/interface.js:169 | a fresh unreplied message built from the data; a new id is drawn exactly when the record has no valid one |
| Bottle.Interface.Dispatch | src/interface.js:170-174 | pending id: the request is removed, its timer disarmed and it settles with the message; otherwise the router's walk, and nothing in the request table changes |
| Bottle.Interface.HandleIncomingMessage | src/interface.js:183-211 | an invalid message changes nothing; a valid one leaves the list the walk keeps, and when a callback threw the message is answered with `{error: serializeError(e)}` if it could still reply |
| Bottle.Interface.Walk | src/interface.js:187-208 | the splicing loop over `_handlers` computes exactly the walk `Router.WalkFrom` describes |
| Bottle.Interface.SendMessage | src/interface.js:220-242 | invalid message: `Invalid message.`, nothing written; no sockets: `Invalid sockets.`, nothing written; otherwise every target is tried and the last error is reported |
| Bottle.Interface.WriteAll | src/interface.js:230-238 | the loop of writes computes `Deliver` |
| Bottle.Interface.SendMessageRequest | src/interface.js:251-277 | a ticket filed under the id replaces what was there; a send error removes it and rejects it with that error, otherwise it waits with its timer armed |
| Bottle.Interface.FileRequest | src/interface.js:253 | a new ticket is filed under the key and its timer armed (line 272) |
| Bottle.Interface.SettleRequest | src/interface.js:253-271 | the entry under the key is deleted, the timer disarmed, and the first settlement is recorded and never replaced |
| Bottle.Interface.FireTimeout | src/interface.js:272-274 | a timeout removes the entry and rejects the ticket with `Request timed out.` |
| Bottle.Interface.RejectPending | src/interface.js:272-275 | a pending ticket is removed and rejected with the given error and no response |
| Bottle.Interface.ClearPendingRequests | src/interface.js:318-325 | every filed request is rejected with the given error or `Clearing pending requests.`, earlier outcomes are kept, and the table ends empty |
| Bottle.Interface.RejectOne | src/interface.js:321-323 | one pending request rejected and removed |
| Bottle.Interface.Use | src/interface.js:337-345 | appends `NewEntries(args, false)` |
| Bottle.Interface.UseOnce | src/interface.js:357-365 | appends `NewEntries(args, true)` |
| Bottle.Interface.AddHandlers | src/interface.js:339-343 | the push loop appends exactly `NewEntries(args, once)` |

## Left out
- `src/server.js` and `src/client.js` (listening, dialing, reconnect and retry timers) are not part of this model: they are socket and timer plumbing.
- The socket options and event wiring in `setupSocket` (`setEncoding`, `setNoDelay`, `setMaxListeners`, the `connect`/`error`/`close` listeners) and `util.isSocket`: a socket is an id, a read buffer and an outbox. The `error`/`close` listeners only call `destroySocket`, which is modelled.
- `destroySocket` catching errors from `removeAllListeners`/`destroy`: those calls are not modelled.
- `Bottle.GeneratedId`: `generateId` wraps uuid v4, which is randomness; the model draws the n-th id from a counter. It states only that ids are non-empty, not that they are unique.
- `JSON.parse` and `JSON.stringify` are parameters, not implementations. A parse failure is `None`. The serializer is assumed never to emit a raw NUL.
- Promises, `setTimeout` and `clearTimeout`: a request is a ticket, its timer an element of `timers`, and its settlement an entry in `outcomes`. The first outcome wins, as a promise does. The delay is recorded, not scheduled.
- Callbacks are an oracle that calls `next` synchronously, returns, or throws. A `next` called later (asynchronously) or more than once is not modelled.
- User-supplied RegExps are an opaque predicate. Their flags and `lastIndex` state are not modelled.
- `debug` logging, `toString`, the `origin` getter, and the `data` property the constructor sets to `{}` (nothing reads it; it is not part of the wire form).
- The `createMessage`, `send` and `request` conveniences of the interface. Each is `new JSONBottleMessage({path, body}, this)` followed by the modelled `send` or `sendAsRequest`.
- Bottle.Interface.HandleIncomingMessage: the throwing callback's reply is made after the loop has ended. In the source it is made inside the loop just before the loop ends, and nothing happens in between, so the effect is the same.
- Bottle.Interface.HandleData: states per token only the message built and that the socket registry keeps its ids and buffers. The effect of each token on handlers and requests is stated by `HandleIncomingData`, not composed over the whole chunk.
- Sockets.FailureOf: the message texts of the `TypeError`s a write to `undefined` or to an inherited member throws are the engine's. The model uses V8's wording.
- Sockets.RegisterSpec: JavaScript lists integer-like keys (`"0"`, `"42"`) first, in ascending order, and only the other keys in insertion order; the model keeps insertion order for every key. Socket ids are uuids or names such as `main`, which are not integer-like, so the order the library sees is the same.
- Bottle.Interface.SetupSocket: the same key-order simplification as `Sockets.RegisterSpec`. An id of `__proto__` would replace the prototype of `_sockets` instead of adding a key; the model registers it as an ordinary key.
- Js.NewError: V8 gives every `Error` an own, non-enumerable `stack` property, and `serializeError` (which reads `Object.getOwnPropertyNames`) would copy it. The model's errors hold only the properties the library writes, so `stack` is never carried.
- Settlement.BodyErrorKinds: the new `Error` the request closure rejects with also has V8's own `stack` property, which the model leaves out as for `Js.NewError`.
- Glob.StarRun: lengths are counted in Unicode code points. A RegExp without the `u` flag counts UTF-16 code units, so a single astral character such as an emoji is two units and matches `**` in JavaScript, while the model counts it as one.
- Bottle.Interface.ClearPendingRequests: the error argument is an `ErrorObj` or absent. A truthy primitive such as a string would make the request closure throw a `TypeError` at its `error.response = ...` assignment (class bodies are strict code), out of `clearPendingRequests`; that path is not modelled.
- Js.PropertyKey: a function or RegExp used as a key converts to its source text, which the model does not hold; `getSocket` then finds nothing.
- Js values: numbers are integers (plus `NaN` and the infinities). Functions and RegExps are identities. The built-in properties of strings, arrays and functions are not read. A number used as a key is printed with all its digits; JavaScript's `String()` switches to exponent form from 1e21 on (`"1e+21"`), which the model does not.

## Findings

| source | as written | input that shows it | evidently intended | confidence | as-written member | corrected member |
|---|---|---|---|---|---|---|
| src/interface.js:170 | `if (this._requests[message.id])` looks the id up on a plain object, so it also finds the members of `Object.prototype` | an incoming `{"id":"constructor","path":"a","body":{}}` with no request pending: the lookup finds `Object`, calls `Object(null, message)`, and the message never reaches the handlers (with id `__proto__` the call throws instead) | only a request filed under the id counts as pending, and every other message goes to the router | not executed | Bottle.InheritedIdLooksPending | Bottle.Interface.Dispatch |
