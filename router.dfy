/** The router: handler entries registered by `use`/`useOnce`, the path
    tester of an entry, and the walk `handleIncomingMessage` makes through
    the entries for one message. */
module Router {
  import opened Js
  import Glob

  /** `util.getPathTester(arg)`: the compiled glob for a string, the
      caller's own RegExp for a RegExp, `null` (match all) otherwise. */
  datatype Tester = MatchAll | Pattern(re: seq<Glob.Atom>) | UserRegExp(rid: nat)

  /** A handler entry `{once, tester, callback}`; the callback is the
      function's identity. */
  datatype Handler = Handler(once: bool, tester: Tester, callback: nat)

  /** What a callback does when it is called with `(message, next)`. */
  datatype Action = CallsNext | Stops | Throws(error: JVal)

  /** The behaviour of the callbacks and of user-supplied RegExps during one
      walk. */
  datatype Env = Env(act: nat -> Action, userTest: (nat, string) -> bool)

  function PathTester(arg: JVal): Tester
  {
    match arg
    case Str(s) => Pattern(Glob.Compile(s))
    case RegExp(rid) => UserRegExp(rid)
    case _ => MatchAll
  }

  /** A string argument gives the compiled glob; a RegExp is used as it is
      and decides alone; anything else gives the `null` tester, which
      accepts every path. */
  lemma TesterKinds(arg: JVal, path: string, userTest: (nat, string) -> bool)
    ensures arg.Str? ==> (Accepts(PathTester(arg), path, userTest) <==> Glob.Matches(Glob.Compile(arg.s), path))
    ensures arg.RegExp? ==>
      PathTester(arg) == UserRegExp(arg.rid) &&
      (Accepts(PathTester(arg), path, userTest) <==> userTest(arg.rid, path))
    ensures !arg.Str? && !arg.RegExp? ==> PathTester(arg) == MatchAll && Accepts(PathTester(arg), path, userTest)
  {
  }

  /** `!(handler.tester && !handler.tester.test(path))` */
  predicate Accepts(t: Tester, path: string, userTest: (nat, string) -> bool)
  {
    match t
    case MatchAll => true
    case Pattern(re) => Glob.Matches(re, path)
    case UserRegExp(rid) => userTest(rid, path)
  }

  /** The functions among `args`, in argument order. */
  function Fids(args: seq<JVal>): seq<nat>
  {
    if args == [] then []
    else (if args[0].Fn? then [args[0].fid] else []) + Fids(args[1..])
  }

  /** The entries `args.forEach(cb => isFunction(cb) && push(...))` pushes. */
  function Entries(args: seq<JVal>, t: Tester, once: bool): seq<Handler>
  {
    if args == [] then []
    else (if args[0].Fn? then [Handler(once, t, args[0].fid)] else []) + Entries(args[1..], t, once)
  }

  /** `use(...args)` / `useOnce(...args)`: the tester comes from `args[0]`. */
  function NewEntries(args: seq<JVal>, once: bool): seq<Handler>
  {
    Entries(args, PathTester(if args == [] then Undefined else args[0]), once)
  }

  /** One entry per function argument, in argument order, all sharing the
      tester built from the first argument and carrying the given `once`. */
  lemma {:induction false} EntriesShape(args: seq<JVal>, t: Tester, once: bool)
    ensures |Entries(args, t, once)| == |Fids(args)|
    ensures forall i :: 0 <= i < |Fids(args)| ==>
      Entries(args, t, once)[i] == Handler(once, t, Fids(args)[i])
  {
    if args != [] {
      EntriesShape(args[1..], t, once);
      var es, fs := Entries(args[1..], t, once), Fids(args[1..]);
      if args[0].Fn? {
        assert Entries(args, t, once) == [Handler(once, t, args[0].fid)] + es;
        assert Fids(args) == [args[0].fid] + fs;
        forall i | 0 <= i < |Fids(args)| ensures Entries(args, t, once)[i] == Handler(once, t, Fids(args)[i]) {
          if i > 0 {
            assert Entries(args, t, once)[i] == es[i - 1] && Fids(args)[i] == fs[i - 1];
          }
        }
      } else {
        assert Entries(args, t, once) == es && Fids(args) == fs;
      }
    }
  }

  lemma {:induction false} FidsHasEveryFunction(args: seq<JVal>, j: nat)
    requires j < |args| && args[j].Fn?
    ensures args[j].fid in Fids(args)
  {
    if j > 0 {
      FidsHasEveryFunction(args[1..], j - 1);
    }
  }

  /** Pushing the entries of one more argument. */
  lemma {:induction false} EntriesSnoc(args: seq<JVal>, x: JVal, t: Tester, once: bool)
    ensures Entries(args + [x], t, once) ==
      Entries(args, t, once) + (if x.Fn? then [Handler(once, t, x.fid)] else [])
    decreases |args|
  {
    if args == [] {
      assert [] + [x] == [x];
    } else {
      assert (args + [x])[0] == args[0] && (args + [x])[1..] == args[1..] + [x];
      EntriesSnoc(args[1..], x, t, once);
    }
  }

  /** With a function first, `use(f, ...)` gets the match-all tester; with a
      string first, the compiled glob of that string. */
  lemma NewEntriesTester(args: seq<JVal>, once: bool)
    ensures args != [] && args[0].Fn? ==>
      forall h :: h in NewEntries(args, once) ==> h.tester == MatchAll && h.once == once
    ensures args != [] && args[0].Str? ==>
      forall h :: h in NewEntries(args, once) ==> h.tester == Pattern(Glob.Compile(args[0].s))
  {
    var t := PathTester(if args == [] then Undefined else args[0]);
    EntriesShape(args, t, once);
  }

  // ---------------------------------------------------------------------
  // The walk

  /** What a walk did: the indices (into the list at the start of the walk)
      of the entries whose callbacks ran, in order; the list afterwards; and
      the error a callback threw, if one did. */
  datatype Walk = Walk(invoked: seq<nat>, kept: seq<Handler>, thrown: Option<JVal>)

  /** The walk over `hs` from position `i` for a message at `path`. */
  function WalkFrom(hs: seq<Handler>, i: nat, path: string, env: Env): Walk
    requires i <= |hs|
    decreases |hs| - i
  {
    if i == |hs| then Walk([], [], None)
    else
      var h := hs[i];
      if !Accepts(h.tester, path, env.userTest) then
        var r := WalkFrom(hs, i + 1, path, env);
        Walk(r.invoked, [h] + r.kept, r.thrown)
      else
        var head := if h.once then [] else [h];
        match env.act(h.callback)
        case CallsNext =>
          var r := WalkFrom(hs, i + 1, path, env);
          Walk([i] + r.invoked, head + r.kept, r.thrown)
        case Stops => Walk([i], head + hs[i + 1..], None)
        case Throws(e) => Walk([i], head + hs[i + 1..], Some(e))
  }

  /** The list with the entries at the positions in `drop` removed, order
      kept (from position `i` on). */
  function Keep(hs: seq<Handler>, i: nat, drop: set<nat>): seq<Handler>
    requires i <= |hs|
    decreases |hs| - i
  {
    if i == |hs| then [] else (if i in drop then [] else [hs[i]]) + Keep(hs, i + 1, drop)
  }

  /** The `once` entries among the invoked ones. */
  function OnceInvoked(hs: seq<Handler>, invoked: seq<nat>): set<nat>
  {
    set k | k in invoked && k < |hs| && hs[k].once
  }

  lemma {:induction false} KeepRest(hs: seq<Handler>, i: nat, drop: set<nat>)
    requires i <= |hs|
    requires forall k :: k in drop ==> k < i
    ensures Keep(hs, i, drop) == hs[i..]
    decreases |hs| - i
  {
    if i < |hs| {
      KeepRest(hs, i + 1, drop);
      assert hs[i..] == [hs[i]] + hs[i + 1..];
    }
  }

  lemma {:induction false} KeepIgnoresBelow(hs: seq<Handler>, i: nat, d1: set<nat>, d2: set<nat>)
    requires i <= |hs|
    requires forall k :: k >= i ==> (k in d1 <==> k in d2)
    ensures Keep(hs, i, d1) == Keep(hs, i, d2)
    decreases |hs| - i
  {
    if i < |hs| {
      KeepIgnoresBelow(hs, i + 1, d1, d2);
    }
  }

  /** Every index in `inv` is an entry from position `i` on that accepts
      the path. */
  predicate InvokedAccept(hs: seq<Handler>, i: nat, path: string, env: Env, inv: seq<nat>)
  {
    forall n :: 0 <= n < |inv| ==> i <= inv[n] < |hs| && Accepts(hs[inv[n]].tester, path, env.userTest)
  }

  predicate Increasing(inv: seq<nat>)
  {
    forall n, m :: 0 <= n < m < |inv| ==> inv[n] < inv[m]
  }

  /** Invoked entries come from position `i` on, accept the path, and appear
      in list order. */
  lemma {:induction false} WalkInvokesMatching(hs: seq<Handler>, i: nat, path: string, env: Env)
    requires i <= |hs|
    ensures InvokedAccept(hs, i, path, env, WalkFrom(hs, i, path, env).invoked)
    ensures Increasing(WalkFrom(hs, i, path, env).invoked)
    decreases |hs| - i
  {
    if i < |hs| {
      WalkInvokesMatching(hs, i + 1, path, env);
      var w, r := WalkFrom(hs, i, path, env), WalkFrom(hs, i + 1, path, env);
      assert InvokedAccept(hs, i + 1, path, env, r.invoked) && Increasing(r.invoked);
      if Accepts(hs[i].tester, path, env.userTest) && env.act(hs[i].callback).CallsNext? {
        assert w.invoked == [i] + r.invoked;
        forall n | 0 <= n < |w.invoked|
          ensures i <= w.invoked[n] < |hs| && Accepts(hs[w.invoked[n]].tester, path, env.userTest)
        {
          if n > 0 { assert w.invoked[n] == r.invoked[n - 1]; }
        }
        forall n, m | 0 <= n < m < |w.invoked| ensures w.invoked[n] < w.invoked[m] {
          assert w.invoked[m] == r.invoked[m - 1];
          if n > 0 { assert w.invoked[n] == r.invoked[n - 1]; }
        }
      }
    }
  }

  /** Each index but the last names an entry whose callback called `next`. */
  predicate ChainedByNext(hs: seq<Handler>, env: Env, inv: seq<nat>)
  {
    forall n :: 0 <= n < |inv| - 1 ==> inv[n] < |hs| && env.act(hs[inv[n]].callback) == CallsNext
  }

  /** Each invoked callback other than the last one called `next`. */
  lemma {:induction false} WalkContinuesOnlyOnNext(hs: seq<Handler>, i: nat, path: string, env: Env)
    requires i <= |hs|
    ensures ChainedByNext(hs, env, WalkFrom(hs, i, path, env).invoked)
    decreases |hs| - i
  {
    if i < |hs| {
      WalkContinuesOnlyOnNext(hs, i + 1, path, env);
      WalkInvokesMatching(hs, i + 1, path, env);
      var w, r := WalkFrom(hs, i, path, env), WalkFrom(hs, i + 1, path, env);
      assert ChainedByNext(hs, env, r.invoked);
      if Accepts(hs[i].tester, path, env.userTest) && env.act(hs[i].callback).CallsNext? {
        assert w.invoked == [i] + r.invoked;
        forall n | 0 <= n < |w.invoked| - 1
          ensures w.invoked[n] < |hs| && env.act(hs[w.invoked[n]].callback) == CallsNext
        {
          if n > 0 { assert w.invoked[n] == r.invoked[n - 1]; }
        }
      }
    }
  }

  /** An accepting entry from position `i` on that is not in `inv` comes
      after the last index of `inv`, whose callback did not call `next`. */
  predicate SkipsOnlyAfterStop(hs: seq<Handler>, i: nat, path: string, env: Env, inv: seq<nat>)
  {
    forall j :: i <= j < |hs| && Accepts(hs[j].tester, path, env.userTest) && j !in inv ==>
      inv != [] && inv[|inv| - 1] < j && env.act(hs[inv[|inv| - 1]].callback) != CallsNext
  }

  /** An accepting entry is passed over only after the chain stopped: the
      last invoked callback did not call `next`, and it stood earlier. So
      when no callback stops the chain, every accepting entry runs, and when
      nothing ran, nothing accepts. */
  lemma {:induction false} WalkSkipsOnlyNonMatching(hs: seq<Handler>, i: nat, path: string, env: Env)
    requires i <= |hs|
    ensures SkipsOnlyAfterStop(hs, i, path, env, WalkFrom(hs, i, path, env).invoked)
    decreases |hs| - i
  {
    if i < |hs| {
      var h := hs[i];
      if !Accepts(h.tester, path, env.userTest) {
        WalkSkipsOnlyNonMatching(hs, i + 1, path, env);
        SkipsPastRejecting(hs, i, path, env, WalkFrom(hs, i + 1, path, env).invoked);
      } else if env.act(h.callback).CallsNext? {
        WalkSkipsOnlyNonMatching(hs, i + 1, path, env);
        SkipsPastNext(hs, i, path, env, WalkFrom(hs, i + 1, path, env).invoked);
      } else {
        SkipsPastStop(hs, i, path, env);
      }
    }
  }

  lemma SkipsPastRejecting(hs: seq<Handler>, i: nat, path: string, env: Env, inv: seq<nat>)
    requires i < |hs| && !Accepts(hs[i].tester, path, env.userTest)
    requires SkipsOnlyAfterStop(hs, i + 1, path, env, inv)
    ensures SkipsOnlyAfterStop(hs, i, path, env, inv)
  {
  }

  lemma SkipsPastNext(hs: seq<Handler>, i: nat, path: string, env: Env, inv: seq<nat>)
    requires i < |hs| && env.act(hs[i].callback).CallsNext?
    requires SkipsOnlyAfterStop(hs, i + 1, path, env, inv)
    ensures SkipsOnlyAfterStop(hs, i, path, env, [i] + inv)
  {
    forall j | i <= j < |hs| && Accepts(hs[j].tester, path, env.userTest) && j !in [i] + inv
      ensures [i] + inv != [] && ([i] + inv)[|[i] + inv| - 1] < j &&
              env.act(hs[([i] + inv)[|[i] + inv| - 1]].callback) != CallsNext
    {
      assert j != i && j !in inv;
      assert ([i] + inv)[|[i] + inv| - 1] == inv[|inv| - 1];
    }
  }

  lemma SkipsPastStop(hs: seq<Handler>, i: nat, path: string, env: Env)
    requires i < |hs| && !env.act(hs[i].callback).CallsNext?
    ensures SkipsOnlyAfterStop(hs, i, path, env, [i])
  {
  }

  /** The thrown error is that of the last invoked callback, and there is
      one exactly when that callback threw. */
  predicate ThrownByLast(hs: seq<Handler>, env: Env, w: Walk)
  {
    (w.thrown.Some? <==>
       w.invoked != [] && w.invoked[|w.invoked| - 1] < |hs| &&
       env.act(hs[w.invoked[|w.invoked| - 1]].callback).Throws?) &&
    (w.thrown.Some? ==>
       w.invoked != [] && w.invoked[|w.invoked| - 1] < |hs| &&
       env.act(hs[w.invoked[|w.invoked| - 1]].callback) == Throws(w.thrown.value))
  }

  /** The walk reports a thrown error exactly when its last callback threw
      it. */
  lemma {:induction false} WalkThrown(hs: seq<Handler>, i: nat, path: string, env: Env)
    requires i <= |hs|
    ensures ThrownByLast(hs, env, WalkFrom(hs, i, path, env))
    decreases |hs| - i
  {
    if i < |hs| {
      WalkThrown(hs, i + 1, path, env);
      var w, r := WalkFrom(hs, i, path, env), WalkFrom(hs, i + 1, path, env);
      assert ThrownByLast(hs, env, r);
      var h := hs[i];
      if !Accepts(h.tester, path, env.userTest) {
        assert w.invoked == r.invoked && w.thrown == r.thrown;
      } else if env.act(h.callback).CallsNext? {
        assert w.invoked == [i] + r.invoked && w.thrown == r.thrown;
        if r.invoked != [] {
          assert w.invoked[|w.invoked| - 1] == r.invoked[|r.invoked| - 1];
        }
      } else {
        assert w.invoked == [i];
      }
    }
  }

  /** Once removal: afterwards the list is the original one with exactly
      the invoked `once` entries taken out, in order. */
  lemma {:induction false} WalkRemovesInvokedOnce(hs: seq<Handler>, i: nat, path: string, env: Env)
    requires i <= |hs|
    ensures WalkFrom(hs, i, path, env).kept == Keep(hs, i, OnceInvoked(hs, WalkFrom(hs, i, path, env).invoked))
    decreases |hs| - i
  {
    if i < |hs| {
      var w := WalkFrom(hs, i, path, env);
      var d := OnceInvoked(hs, w.invoked);
      var h := hs[i];
      WalkInvokesMatching(hs, i, path, env);
      if !Accepts(h.tester, path, env.userTest) {
        var r := WalkFrom(hs, i + 1, path, env);
        WalkRemovesInvokedOnce(hs, i + 1, path, env);
        WalkInvokesMatching(hs, i + 1, path, env);
        assert w.invoked == r.invoked;
        assert i !in d;
        KeepIgnoresBelow(hs, i + 1, d, OnceInvoked(hs, r.invoked));
      } else {
        match env.act(h.callback)
        case CallsNext =>
          var r := WalkFrom(hs, i + 1, path, env);
          WalkRemovesInvokedOnce(hs, i + 1, path, env);
          WalkInvokesMatching(hs, i + 1, path, env);
          assert i in w.invoked;
          assert i in d <==> h.once;
          forall k | k >= i + 1 ensures k in d <==> k in OnceInvoked(hs, r.invoked) {
            assert k in w.invoked <==> k in r.invoked;
          }
          KeepIgnoresBelow(hs, i + 1, d, OnceInvoked(hs, r.invoked));
        case Stops =>
          assert d == if h.once then {i} else {};
          KeepRest(hs, i + 1, d);
        case Throws(_) =>
          assert d == if h.once then {i} else {};
          KeepRest(hs, i + 1, d);
      }
    }
  }
}
