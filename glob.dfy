/** `getPathTester` for string patterns: the chain of three `replace` calls
    that builds a regular-expression source, the RegExp constructor reading
    that source (for the small fragment of the regular-expression language
    the chain can produce), and the anchored `test` that the router runs. */
module Glob {
  import opened Js

  /** The characters of `\s` in a JavaScript regular expression. */
  predicate IsSpace(c: char)
  {
    var n := c as int;
    n == 0x09 || n == 0x0A || n == 0x0B || n == 0x0C || n == 0x0D || n == 0x20 ||
    n == 0xA0 || n == 0x1680 || (0x2000 <= n <= 0x200A) || n == 0x2028 || n == 0x2029 ||
    n == 0x202F || n == 0x205F || n == 0x3000 || n == 0xFEFF
  }

  /** The class `[-[\]{}()+?.,\\^$|#\s]`: the characters that get a backslash. */
  predicate IsMeta(c: char)
  {
    c in "-[]{}()+?.,\\^$|#" || IsSpace(c)
  }

  /** The characters `.` does not match. */
  predicate IsLineTerminator(c: char)
  {
    var n := c as int;
    n == 0x0A || n == 0x0D || n == 0x2028 || n == 0x2029
  }

  // ---------------------------------------------------------------------
  // The three replace calls

  /** `.replace(/[-[\]{}()+?.,\\^$|#\s]/g, '\\$&')` */
  function EscapeMeta(s: string): string
  {
    if s == [] then []
    else (if IsMeta(s[0]) then ['\\', s[0]] else [s[0]]) + EscapeMeta(s[1..])
  }

  /** The number of `*` at the front of `s`. */
  function LeadingStars(s: string): (k: nat)
    ensures k <= |s|
    ensures forall i :: 0 <= i < k ==> s[i] == '*'
    ensures k < |s| ==> s[k] != '*'
  {
    if s != [] && s[0] == '*' then 1 + LeadingStars(s[1..]) else 0
  }

  /** `.replace(/\*{2,}/g, '.*')`: every maximal run of two or more `*`
      becomes `.*`; a lone `*` stays. */
  function CollapseStarRuns(s: string): string
    decreases |s|
  {
    if s == [] then []
    else if s[0] == '*' then
      var k := LeadingStars(s);
      (if k >= 2 then ".*" else "*") + CollapseStarRuns(s[k..])
    else [s[0]] + CollapseStarRuns(s[1..])
  }

  // `.replace(/\*/g, '[^:]+')`, which also rewrites the `*` written by
  // the previous replace.
  function ExpandStars(s: string): string
  {
    if s == [] then []
    else (if s[0] == '*' then "[^:]+" else [s[0]]) + ExpandStars(s[1..])
  }

  /** The source string handed to `new RegExp`. */
  function TesterSource(pattern: string): string
  {
    "^" + ExpandStars(CollapseStarRuns(EscapeMeta(pattern))) + "$"
  }

  // ---------------------------------------------------------------------
  // The regular expressions the source can denote

  datatype Atom =
    | Lit(c: char)   // a character, or a backslash-escaped one
    | AnyChar        // `.`
    | NonColonRun    // `[^:]+`

  /** Reads a regular-expression source built only of escaped characters,
      plain characters, `.` and `[^:]+`; None for anything outside that
      fragment. */
  function ParseAtoms(src: string): Option<seq<Atom>>
    decreases |src|
  {
    if src == [] then Some([])
    else if src[0] == '\\' then
      if |src| < 2 then None
      else match ParseAtoms(src[2..])
        case Some(r) => Some([Lit(src[1])] + r)
        case None => None
    else if src[0] == '.' then
      match ParseAtoms(src[1..])
      case Some(r) => Some([AnyChar] + r)
      case None => None
    else if |src| >= 5 && src[..5] == "[^:]+" then
      match ParseAtoms(src[5..])
      case Some(r) => Some([NonColonRun] + r)
      case None => None
    else if src[0] in "^$[]()*+?{}|" then None
    else
      match ParseAtoms(src[1..])
      case Some(r) => Some([Lit(src[0])] + r)
      case None => None
  }

  /** Reads an anchored source `^...$`. */
  function ParseAnchored(src: string): Option<seq<Atom>>
  {
    if |src| >= 2 && src[0] == '^' && src[|src| - 1] == '$' then ParseAtoms(src[1..|src| - 1])
    else None
  }

  /** Whether the anchored expression matches the whole of `s`. */
  predicate Matches(re: seq<Atom>, s: string)
    decreases |s|
  {
    if re == [] then s == []
    else match re[0]
      case Lit(c) => s != [] && s[0] == c && Matches(re[1..], s[1..])
      case AnyChar => s != [] && !IsLineTerminator(s[0]) && Matches(re[1..], s[1..])
      case NonColonRun => s != [] && s[0] != ':' && (Matches(re[1..], s[1..]) || Matches(re, s[1..]))
  }

  /** The expression `getPathTester(pattern)` builds. */
  function Compile(pattern: string): seq<Atom>
  {
    match ParseAnchored(TesterSource(pattern))
    case Some(re) => re
    case None => []
  }

  // ---------------------------------------------------------------------
  // What the chain amounts to

  function Stars(k: nat): (s: string)
    ensures |s| == k && forall i :: 0 <= i < k ==> s[i] == '*'
  {
    if k == 0 then [] else "*" + Stars(k - 1)
  }

  /** Pattern by pattern: a character becomes itself; a lone `*` becomes
      `[^:]+`; a run of two or more `*` becomes `.` followed by `[^:]+`. */
  function Translate(p: string): seq<Atom>
    decreases |p|
  {
    if p == [] then []
    else if p[0] == '*' then
      var k := LeadingStars(p);
      (if k >= 2 then [AnyChar, NonColonRun] else [NonColonRun]) + Translate(p[k..])
    else [Lit(p[0])] + Translate(p[1..])
  }

  lemma {:induction false} ExpandAppend(a: string, b: string)
    ensures ExpandStars(a + b) == ExpandStars(a) + ExpandStars(b)
    decreases |a|
  {
    if a != [] {
      assert (a + b)[1..] == a[1..] + b;
      ExpandAppend(a[1..], b);
    } else {
      assert a + b == b;
    }
  }

  lemma {:induction false} EscapeHead(s: string)
    requires s != []
    ensures EscapeMeta(s) != [] && (EscapeMeta(s)[0] == '*' <==> s[0] == '*')
  {
  }

  /** Escaping keeps a leading run of stars and the rest after it. */
  lemma {:induction false} EscapeStars(s: string, k: nat)
    requires k <= |s| && forall i :: 0 <= i < k ==> s[i] == '*'
    ensures EscapeMeta(s) == Stars(k) + EscapeMeta(s[k..])
    decreases k
  {
    if k > 0 {
      assert !IsMeta('*');
      EscapeStars(s[1..], k - 1);
      assert s[1..][k - 1..] == s[k..];
    }
  }

  lemma {:induction false} LeadingStarsOf(k: nat, t: string)
    requires t == [] || t[0] != '*'
    ensures LeadingStars(Stars(k) + t) == k
    decreases k
  {
    if k > 0 {
      assert (Stars(k) + t)[1..] == Stars(k - 1) + t;
      LeadingStarsOf(k - 1, t);
    } else {
      assert Stars(0) + t == t;
    }
  }

  lemma {:induction false} ParseLit(c: char, rest: string)
    requires c !in "\\.^$[]()*+?{}|"
    ensures ParseAtoms([c] + rest) ==
      match ParseAtoms(rest) case Some(r) => Some([Lit(c)] + r) case None => None
  {
    var src := [c] + rest;
    assert src[0] == c && src[1..] == rest;
    assert c != '[' && c != '\\' && c != '.' && c !in "^$[]()*+?{}|";
    if |src| >= 5 { assert src[..5][0] == c; }
  }

  lemma {:induction false} ParseEsc(c: char, rest: string)
    ensures ParseAtoms(['\\', c] + rest) ==
      match ParseAtoms(rest) case Some(r) => Some([Lit(c)] + r) case None => None
  {
    var src := ['\\', c] + rest;
    assert src[2..] == rest;
  }

  lemma {:induction false} ParseRun(rest: string)
    ensures ParseAtoms("[^:]+" + rest) ==
      match ParseAtoms(rest) case Some(r) => Some([NonColonRun] + r) case None => None
  {
    var src := "[^:]+" + rest;
    assert src[..5] == "[^:]+" && src[5..] == rest;
  }

  lemma {:induction false} ParseDotRun(rest: string)
    ensures ParseAtoms(".[^:]+" + rest) ==
      match ParseAtoms(rest) case Some(r) => Some([AnyChar, NonColonRun] + r) case None => None
  {
    var src := ".[^:]+" + rest;
    assert src[0] == '.' && src[1..] == "[^:]+" + rest;
    ParseRun(rest);
    match ParseAtoms(rest)
    case Some(r) => assert [AnyChar] + ([NonColonRun] + r) == [AnyChar, NonColonRun] + r;
    case None =>
  }

  /** The chain of replaces followed by the RegExp constructor denotes
      exactly `Translate(p)`: this is where the single-`*` replace turning
      the `.*` left by the `**` replace into `.[^:]+` becomes visible. */
  lemma {:induction false} PipelineTranslates(p: string)
    ensures ParseAtoms(ExpandStars(CollapseStarRuns(EscapeMeta(p)))) == Some(Translate(p))
    decreases |p|, 1
  {
    if p == [] {
    } else if p[0] == '*' {
      PipelineStarRun(p);
    } else {
      PipelineChar(p);
    }
  }

  lemma {:induction false} PipelineStarRun(p: string)
    requires p != [] && p[0] == '*'
    ensures ParseAtoms(ExpandStars(CollapseStarRuns(EscapeMeta(p)))) == Some(Translate(p))
    decreases |p|, 0
  {
    var k := LeadingStars(p);
    var rest := p[k..];
    EscapeStars(p, k);
    var t := EscapeMeta(rest);
    assert t == [] || t[0] != '*' by {
      if rest != [] { EscapeHead(rest); }
    }
    LeadingStarsOf(k, t);
    var e := Stars(k) + t;
    assert e[0] == '*';
    assert e[k..] == t;
    var head := if k >= 2 then ".*" else "*";
    assert CollapseStarRuns(e) == head + CollapseStarRuns(t);
    var ct := CollapseStarRuns(t);
    ExpandAppend(head, ct);
    PipelineTranslates(rest);
    assert Translate(p) == (if k >= 2 then [AnyChar, NonColonRun] else [NonColonRun]) + Translate(rest);
    if k >= 2 {
      assert ExpandStars(head) == ".[^:]+";
      ParseDotRun(ExpandStars(ct));
    } else {
      assert ExpandStars(head) == "[^:]+";
      ParseRun(ExpandStars(ct));
    }
  }

  lemma {:induction false} PipelineChar(p: string)
    requires p != [] && p[0] != '*'
    ensures ParseAtoms(ExpandStars(CollapseStarRuns(EscapeMeta(p)))) == Some(Translate(p))
    decreases |p|, 0
  {
    var c := p[0];
    var rest := p[1..];
    var t := EscapeMeta(rest);
    var ct := CollapseStarRuns(t);
    PipelineTranslates(rest);
    assert Translate(p) == [Lit(c)] + Translate(rest);
    if IsMeta(c) {
      var e := ['\\', c] + t;
      assert EscapeMeta(p) == e;
      assert e[0] != '*' && e[1..] == [c] + t && ([c] + t)[1..] == t;
      assert CollapseStarRuns(e) == ['\\'] + CollapseStarRuns([c] + t);
      assert CollapseStarRuns([c] + t) == [c] + ct;
      ExpandAppend(['\\'], [c] + ct);
      ExpandAppend([c], ct);
      assert ['\\'] + ([c] + ExpandStars(ct)) == ['\\', c] + ExpandStars(ct);
      ParseEsc(c, ExpandStars(ct));
    } else {
      var e := [c] + t;
      assert EscapeMeta(p) == e;
      assert e[1..] == t;
      assert CollapseStarRuns(e) == [c] + ct;
      ExpandAppend([c], ct);
      assert c !in "\\.^$[]()*+?{}|";
      ParseLit(c, ExpandStars(ct));
    }
  }

  /** `getPathTester(p)` for a string `p` compiles to `Translate(p)`. */
  lemma CompileIsTranslate(p: string)
    ensures ParseAnchored(TesterSource(p)) == Some(Translate(p))
    ensures Compile(p) == Translate(p)
  {
    var body := ExpandStars(CollapseStarRuns(EscapeMeta(p)));
    var src := TesterSource(p);
    assert src[1..|src| - 1] == body;
    PipelineTranslates(p);
  }

  // ---------------------------------------------------------------------
  // Matching

  lemma {:induction false} TranslateLiteral(p: string)
    requires '*' !in p
    ensures Translate(p) == seq(|p|, i requires 0 <= i < |p| => Lit(p[i]))
    decreases |p|
  {
    if p != [] {
      assert '*' !in p[1..] by {
        forall i | 0 <= i < |p[1..]| ensures p[1..][i] != '*' { assert p[1..][i] == p[i + 1]; }
      }
      TranslateLiteral(p[1..]);
    }
  }

  lemma {:induction false} MatchLiterals(p: string, s: string)
    ensures Matches(seq(|p|, i requires 0 <= i < |p| => Lit(p[i])), s) <==> s == p
    decreases |p|
  {
    var re := seq(|p|, i requires 0 <= i < |p| => Lit(p[i]));
    if p != [] {
      assert re[1..] == seq(|p[1..]|, i requires 0 <= i < |p[1..]| => Lit(p[1..][i]));
      if s != [] {
        MatchLiterals(p[1..], s[1..]);
        if s[0] == p[0] && s[1..] == p[1..] { assert s == [s[0]] + s[1..]; assert p == [p[0]] + p[1..]; }
      }
    }
  }

  /** A pattern without `*` matches exactly itself, metacharacters
      included: the expression is anchored at both ends. */
  lemma LiteralPattern(p: string, path: string)
    requires '*' !in p
    ensures Matches(Compile(p), path) <==> path == p
  {
    CompileIsTranslate(p);
    TranslateLiteral(p);
    MatchLiterals(p, path);
  }

  lemma {:induction false} RunMatches(s: string)
    ensures Matches([NonColonRun], s) <==> s != [] && ':' !in s
    decreases |s|
  {
    if s != [] {
      RunMatches(s[1..]);
      assert [NonColonRun][1..] == [];
      if s[0] != ':' && ':' in s[1..] { assert ':' in s; }
      if ':' !in s[1..] && s[0] != ':' {
        assert ':' !in s by {
          forall i | 0 <= i < |s| ensures s[i] != ':' { if i > 0 { assert s[i] == s[1..][i - 1]; } }
        }
      }
      if ':' !in s { assert ':' !in s[1..]; }
    }
  }

  /** A lone `*` matches one or more characters, none of them `:`. */
  lemma LoneStar(path: string)
    ensures Matches(Compile("*"), path) <==> path != [] && ':' !in path
  {
    CompileIsTranslate("*");
    assert LeadingStars("*") == 1;
    assert "*"[1..] == [];
    assert Translate("*") == [NonColonRun];
    RunMatches(path);
  }

  /** A run of two or more `*` matches one character other than a line
      terminator followed by one or more characters other than `:`, which is
      what the `**` replace and the single-`*` replace produce together
      (not "anything"). */
  lemma StarRun(k: nat, path: string)
    requires k >= 2
    ensures Matches(Compile(Stars(k)), path) <==>
      |path| >= 2 && !IsLineTerminator(path[0]) && ':' !in path[1..]
  {
    var p := Stars(k);
    CompileIsTranslate(p);
    LeadingStarsOf(k, []);
    assert p + [] == p;
    assert p[k..] == [];
    assert Translate(p) == [AnyChar, NonColonRun];
    assert [AnyChar, NonColonRun][1..] == [NonColonRun];
    if path != [] { RunMatches(path[1..]); }
  }
}
