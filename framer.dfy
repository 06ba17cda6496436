/** NUL-delimited framing. The writer appends `'\0'` to each serialized
    message; the reader splits the retained buffer plus the new chunk on
    `'\0'`, hands on every fragment but the last and retains the last as the
    new buffer. */
module Framer {

  const NUL: char := '\0'

  predicate NulFree(s: string)
  {
    NUL !in s
  }

  predicate AllNulFree(ts: seq<string>)
  {
    forall i :: 0 <= i < |ts| ==> NulFree(ts[i])
  }

  /** The bytes the writer puts on the wire for a list of payloads: each
      payload followed by `'\0'`. */
  function Frames(ts: seq<string>): string
  {
    if ts == [] then [] else ts[0] + [NUL] + Frames(ts[1..])
  }

  /** `s.split('\0')`: always at least one fragment. */
  function Split(s: string): (r: seq<string>)
    ensures |r| >= 1
  {
    if s == [] then [[]]
    else if s[0] == NUL then [[]] + Split(s[1..])
    else
      var t := Split(s[1..]);
      [[s[0]] + t[0]] + t[1..]
  }

  /** What one `data` event produces: the complete tokens, in order, and the
      new retained buffer. */
  datatype Chunked = Chunked(tokens: seq<string>, buffer: string)

  function HandleChunk(buffer: string, chunk: string): Chunked
  {
    var parts := Split(buffer + chunk);
    Chunked(parts[..|parts| - 1], parts[|parts| - 1])
  }

  /** A sequence of `data` events, starting from a retained buffer. */
  function Feed(buffer: string, chunks: seq<string>): Chunked
    decreases |chunks|
  {
    if chunks == [] then Chunked([], buffer)
    else
      var c := HandleChunk(buffer, chunks[0]);
      var rest := Feed(c.buffer, chunks[1..]);
      Chunked(c.tokens + rest.tokens, rest.buffer)
  }

  function Flatten(chunks: seq<string>): string
  {
    if chunks == [] then [] else chunks[0] + Flatten(chunks[1..])
  }

  lemma {:induction false} FramesAppend(a: seq<string>, b: seq<string>)
    ensures Frames(a + b) == Frames(a) + Frames(b)
    decreases |a|
  {
    if a == [] {
      assert a + b == b;
    } else {
      assert (a + b)[0] == a[0] && (a + b)[1..] == a[1..] + b;
      FramesAppend(a[1..], b);
    }
  }

  /** The position of the first `'\0'` in `s`. */
  function FirstNul(s: string): (i: nat)
    requires NUL in s
    ensures i < |s| && s[i] == NUL && NulFree(s[..i])
  {
    if s[0] == NUL then 0
    else
      var j := FirstNul(s[1..]);
      assert s[..j + 1] == [s[0]] + s[1..][..j];
      j + 1
  }

  /** Splitting cuts a string into NUL-free fragments that, rejoined with
      `'\0'`, give the string back. */
  lemma {:induction false} SplitParts(s: string)
    ensures AllNulFree(Split(s))
    ensures s == Frames(Split(s)[..|Split(s)| - 1]) + Split(s)[|Split(s)| - 1]
    decreases |s|
  {
    if NulFree(s) {
      SplitNulFree(s);
      SplitPartsOne(s, Split(s));
    } else {
      var i := FirstNul(s);
      var a, rest := s[..i], s[i + 1..];
      assert s == a + ([NUL] + rest);
      SplitOne(a, rest);
      SplitParts(rest);
      SplitPartsCons(s, a, rest, Split(rest));
    }
  }

  lemma SplitPartsOne(s: string, r: seq<string>)
    requires NulFree(s) && r == [s]
    ensures AllNulFree(r) && s == Frames(r[..|r| - 1]) + r[|r| - 1]
  {
    assert r[..0] == [];
  }

  /** The step of `SplitParts`: a NUL-free fragment in front of the
      fragments of the rest. */
  lemma SplitPartsCons(s: string, a: string, rest: string, t: seq<string>)
    requires |t| >= 1 && s == a + ([NUL] + rest) && NulFree(a) && AllNulFree(t)
    requires rest == Frames(t[..|t| - 1]) + t[|t| - 1]
    ensures AllNulFree([a] + t)
    ensures s == Frames(([a] + t)[..|[a] + t| - 1]) + ([a] + t)[|[a] + t| - 1]
  {
    var r := [a] + t;
    var init, last := t[..|t| - 1], t[|t| - 1];
    assert r[..|r| - 1] == [a] + init;
    assert r[|r| - 1] == last;
    FramesCons(a, init);
    Regroup(a, Frames(init), last);
    AllNulFreeCons(a, t);
  }

  lemma FramesCons(a: string, ts: seq<string>)
    ensures Frames([a] + ts) == a + [NUL] + Frames(ts)
  {
    assert ([a] + ts)[0] == a && ([a] + ts)[1..] == ts;
  }

  lemma Regroup(a: string, f: string, last: string)
    ensures a + ([NUL] + (f + last)) == (a + [NUL] + f) + last
  {
  }

  lemma AllNulFreeCons(a: string, ts: seq<string>)
    requires NulFree(a) && AllNulFree(ts)
    ensures AllNulFree([a] + ts)
  {
    forall j | 0 <= j < |[a] + ts| ensures NulFree(([a] + ts)[j]) {
      if j > 0 { assert ([a] + ts)[j] == ts[j - 1]; }
    }
  }

  /** Frame invariant of one `data` event: old buffer + chunk is the emitted
      tokens, each followed by `'\0'`, then the new buffer; no token and not
      the new buffer holds a `'\0'`. */
  lemma FramerInvariant(buffer: string, chunk: string)
    ensures buffer + chunk == Frames(HandleChunk(buffer, chunk).tokens) + HandleChunk(buffer, chunk).buffer
    ensures AllNulFree(HandleChunk(buffer, chunk).tokens)
    ensures NulFree(HandleChunk(buffer, chunk).buffer)
  {
    var parts := Split(buffer + chunk);
    SplitParts(buffer + chunk);
    assert parts[|parts| - 1] == parts[|parts| - 1];
  }

  /** NUL-free payloads written as frames, followed by a NUL-free tail,
      split back into exactly those payloads and that tail. */
  lemma {:induction false} SplitFrames(ts: seq<string>, tail: string)
    requires AllNulFree(ts) && NulFree(tail)
    ensures Split(Frames(ts) + tail) == ts + [tail]
    decreases |ts|, |tail|
  {
    if ts == [] {
      SplitNulFree(tail);
      assert Frames(ts) + tail == tail;
    } else {
      assert ts == [ts[0]] + ts[1..];
      assert AllNulFree(ts[1..]) by {
        forall i | 0 <= i < |ts[1..]| ensures NulFree(ts[1..][i]) { assert ts[1..][i] == ts[i + 1]; }
      }
      SplitFrames(ts[1..], tail);
      FramesCons(ts[0], ts[1..]);
      Regroup(ts[0], Frames(ts[1..]), tail);
      SplitOne(ts[0], Frames(ts[1..]) + tail);
    }
  }

  lemma {:induction false} SplitNulFree(s: string)
    requires NulFree(s)
    ensures Split(s) == [s]
    decreases |s|
  {
    if s != [] {
      SplitNulFree(s[1..]);
      assert s == [s[0]] + s[1..];
    }
  }

  /** Splitting `a + '\0' + rest` with a NUL-free `a`. */
  lemma {:induction false} SplitOne(a: string, rest: string)
    requires NulFree(a)
    ensures Split(a + ([NUL] + rest)) == [a] + Split(rest)
    decreases |a|
  {
    var s := a + ([NUL] + rest);
    if a == [] {
      assert s == [NUL] + rest;
      assert s[1..] == rest;
    } else {
      assert s[0] == a[0] && s[1..] == a[1..] + ([NUL] + rest);
      SplitOne(a[1..], rest);
      assert a == [a[0]] + a[1..];
    }
  }

  /** Chunk boundaries do not matter: a sequence of `data` events emits the
      same tokens and leaves the same buffer as one event carrying all the
      bytes at once. */
  lemma {:induction false} ChunkingInsensitive(buffer: string, chunks: seq<string>)
    requires NulFree(buffer)
    ensures Feed(buffer, chunks) == HandleChunk(buffer, Flatten(chunks))
    decreases |chunks|
  {
    if chunks == [] {
      SplitNulFree(buffer);
      assert buffer + [] == buffer;
    } else {
      var c := HandleChunk(buffer, chunks[0]);
      FramerInvariant(buffer, chunks[0]);
      ChunkingInsensitive(c.buffer, chunks[1..]);
      var r := HandleChunk(c.buffer, Flatten(chunks[1..]));
      FramerInvariant(c.buffer, Flatten(chunks[1..]));
      Rejoin(buffer, chunks[0], Flatten(chunks[1..]), Frames(c.tokens), c.buffer, Frames(r.tokens), r.buffer);
      FramesAppend(c.tokens, r.tokens);
      assert buffer + Flatten(chunks) == Frames(c.tokens + r.tokens) + r.buffer;
      AllNulFreeAppend(c.tokens, r.tokens);
      SplitFrames(c.tokens + r.tokens, r.buffer);
      var parts := Split(buffer + Flatten(chunks));
      assert parts == (c.tokens + r.tokens) + [r.buffer];
      assert parts[..|parts| - 1] == c.tokens + r.tokens;
    }
  }

  lemma Rejoin(b: string, x: string, rest: string, fc: string, cb: string, fr: string, rb: string)
    requires b + x == fc + cb
    requires cb + rest == fr + rb
    ensures b + (x + rest) == (fc + fr) + rb
  {
    calc {
      b + (x + rest);
      (b + x) + rest;
      (fc + cb) + rest;
      fc + (cb + rest);
      fc + (fr + rb);
      (fc + fr) + rb;
    }
  }

  lemma AllNulFreeAppend(a: seq<string>, b: seq<string>)
    requires AllNulFree(a) && AllNulFree(b)
    ensures AllNulFree(a + b)
  {
    forall i | 0 <= i < |a + b| ensures NulFree((a + b)[i]) {
      if i < |a| { assert (a + b)[i] == a[i]; }
      else { assert (a + b)[i] == b[i - |a|]; }
    }
  }

  /** The writer/reader round trip: NUL-free payloads written as frames and
      delivered in any chunking are emitted exactly, in order, and leave an
      empty buffer. */
  lemma RoundTrip(payloads: seq<string>, chunks: seq<string>)
    requires AllNulFree(payloads)
    requires Flatten(chunks) == Frames(payloads)
    ensures Feed([], chunks) == Chunked(payloads, [])
  {
    ChunkingInsensitive([], chunks);
    SplitFrames(payloads, []);
    assert [] + Flatten(chunks) == Frames(payloads) + [];
    var parts := Split(Frames(payloads) + []);
    assert parts[..|parts| - 1] == payloads;
  }
}
