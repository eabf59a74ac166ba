/** The dispatcher: which registered path a URI belongs to. */
module Dispatcher {
  import opened Basics
  import opened OrderedMap

  // ----- Segments -----

  /** The non-empty pieces between slashes, when the piece `x` has been begun. */
  function SegmentsFrom(s: string, x: string): seq<string> {
    if s == "" then (if x == "" then [] else [x])
    else if s[0] == '/' then (if x == "" then [] else [x]) + SegmentsFrom(s[1..], "")
    else SegmentsFrom(s[1..], x + [s[0]])
  }

  function Segments(s: string): seq<string> {
    SegmentsFrom(s, "")
  }

  predicate IsSegment(x: string) {
    x != "" && forall i :: 0 <= i < |x| ==> x[i] != '/'
  }

  predicate AreSegments(xs: seq<string>) {
    forall i :: 0 <= i < |xs| ==> IsSegment(xs[i])
  }

  predicate IsGap(g: string) {
    forall i :: 0 <= i < |g| ==> g[i] == '/'
  }

  /** Segments with a gap after each. */
  function Spaced(xs: seq<string>, gaps: seq<string>): string
    requires |gaps| == |xs|
  {
    if xs == [] then "" else xs[0] + gaps[0] + Spaced(xs[1..], gaps[1..])
  }

  /** Gaps of slashes; only the last may be empty. */
  predicate AreGaps(gaps: seq<string>) {
    forall i :: 0 <= i < |gaps| ==> IsGap(gaps[i]) && (i < |gaps| - 1 ==> gaps[i] != "")
  }

  lemma {:induction false} GapSkipped(g: string, s: string)
    requires IsGap(g)
    ensures SegmentsFrom(g + s, "") == SegmentsFrom(s, "")
  {
    if g == "" {
      assert g + s == s;
    } else {
      assert (g + s)[1..] == g[1..] + s;
      GapSkipped(g[1..], s);
    }
  }

  lemma {:induction false} SegmentTaken(y: string, s: string, x: string)
    requires forall i :: 0 <= i < |y| ==> y[i] != '/'
    ensures SegmentsFrom(y + s, x) == SegmentsFrom(s, x + y)
  {
    if y == "" {
      assert y + s == s && x + y == x;
    } else {
      assert (y + s)[1..] == y[1..] + s;
      assert x + [y[0]] + y[1..] == x + y;
      SegmentTaken(y[1..], s, x + [y[0]]);
    }
  }

  lemma SegmentEnds(g: string, s: string, x: string)
    requires IsGap(g) && x != "" && (g == "" ==> s == "")
    ensures SegmentsFrom(g + s, x) == [x] + SegmentsFrom(s, "")
  {
    if g != "" {
      assert (g + s)[1..] == g[1..] + s;
      GapSkipped(g[1..], s);
    }
  }

  lemma EmptyIsGap(s: string)
    ensures IsGap("") && "" + s == s
  {
  }

  lemma {:induction false} SegmentsOfSpaced(lead: string, xs: seq<string>, gaps: seq<string>)
    requires IsGap(lead) && AreSegments(xs) && |gaps| == |xs| && AreGaps(gaps)
    ensures Segments(lead + Spaced(xs, gaps)) == xs
    decreases |xs|
  {
    GapSkipped(lead, Spaced(xs, gaps));
    if xs == [] {
    } else {
      var rest := Spaced(xs[1..], gaps[1..]);
      assert Spaced(xs, gaps) == xs[0] + (gaps[0] + rest);
      assert IsSegment(xs[0]) && IsGap(gaps[0]);
      SegmentTaken(xs[0], gaps[0] + rest, "");
      assert "" + xs[0] == xs[0];
      SegmentEnds(gaps[0], rest, xs[0]);
      hide SegmentsFrom, IsSegment, IsGap, Spaced;
      SegmentsOfSpaced("", xs[1..], gaps[1..]);
      EmptyIsGap(rest);
    }
  }

  /** Text with the segments `xs`, gaps between them and perhaps slashes before them. */
  ghost predicate SpacedAs(s: string, xs: seq<string>, lead: string, gaps: seq<string>) {
    IsGap(lead) && |gaps| == |xs| && AreGaps(gaps) && s == lead + Spaced(xs, gaps)
  }

  lemma SlashBeforeText(s: string, xs: seq<string>, lead: string, gaps: seq<string>)
    requires SpacedAs(s, xs, lead, gaps)
    ensures SpacedAs("/" + s, xs, "/" + lead, gaps)
  {
    hide AreGaps, Spaced;
    assert "/" + (lead + Spaced(xs, gaps)) == "/" + lead + Spaced(xs, gaps);
  }

  lemma SpacedCons(x: string, g: string, xs: seq<string>, gaps: seq<string>)
    requires |xs| == |gaps|
    ensures Spaced([x] + xs, [g] + gaps) == x + g + Spaced(xs, gaps)
  {
    assert ([x] + xs)[1..] == xs && ([g] + gaps)[1..] == gaps;
  }

  lemma SegmentBeforeGap(x: string, s: string, xs: seq<string>, lead: string, gaps: seq<string>)
    requires SpacedAs(s, xs, lead, gaps) && lead != ""
    ensures SpacedAs(x + s, [x] + xs, "", [lead] + gaps)
  {
    SpacedCons(x, lead, xs, gaps);
    hide IsGap, Spaced;
    assert AreGaps([lead] + gaps);
    assert x + (lead + Spaced(xs, gaps)) == "" + (x + lead + Spaced(xs, gaps));
    EmptyIsGap("");
  }

  lemma SegmentAlone(x: string)
    ensures SpacedAs(x, [x], "", [""]) && SpacedAs("", [], "", [])
  {
    assert [x][1..] == [] && [""][1..] == [];
    assert Spaced([x], [""]) == x + "" + Spaced([], []);
    assert Spaced([], []) == "" && x + "" + "" == x && "" + x == x;
  }

  lemma SegmentsAtSlash(s: string, x: string)
    requires s != "" && s[0] == '/'
    ensures SegmentsFrom(s, x) == (if x == "" then [] else [x]) + SegmentsFrom(s[1..], "")
    ensures s == "/" + s[1..] && "" + s[1..] == s[1..]
  {
  }

  lemma AreSegmentsCons(x: string, xs: seq<string>)
    requires IsSegment(x) && AreSegments(xs)
    ensures AreSegments([x] + xs)
  {
    hide IsSegment;
  }

  lemma SegmentGrows(x: string, c: char)
    requires (x == "" || IsSegment(x)) && c != '/'
    ensures IsSegment(x + [c])
  {
  }

  /** Any text is some gaps between its segments. */
  lemma {:induction false} SegmentsSpaced(s: string, x: string) returns (lead: string, gaps: seq<string>)
    requires x == "" || IsSegment(x)
    ensures AreSegments(SegmentsFrom(s, x)) && SpacedAs(x + s, SegmentsFrom(s, x), lead, gaps)
    decreases |s|
  {
    hide IsSegment, SpacedAs;
    if s == "" {
      SegmentAlone(x);
      lead, gaps := "", if x == "" then [] else [""];
      assert x + s == x;
    } else if s[0] == '/' {
      SegmentsAtSlash(s, x);
      hide *;
      var xs := SegmentsFrom(s[1..], "");
      lead, gaps := SegmentsSpaced(s[1..], "");
      SlashBeforeText(s[1..], xs, lead, gaps);
      if x == "" {
        lead := "/" + lead;
        assert [] + xs == xs && x + s == s;
      } else {
        SegmentBeforeGap(x, s, xs, "/" + lead, gaps);
        AreSegmentsCons(x, xs);
        lead, gaps := "", ["/" + lead] + gaps;
      }
    } else {
      SegmentGrows(x, s[0]);
      lead, gaps := SegmentsSpaced(s[1..], x + [s[0]]);
      assert x + s == x + [s[0]] + s[1..];
    }
  }

  /** The segments of a text are the one way to write it as segments with slashes between them. */
  lemma SegmentsCharacterised(s: string, xs: seq<string>)
    ensures Segments(s) == xs <==> AreSegments(xs) && exists lead, gaps :: SpacedAs(s, xs, lead, gaps)
  {
    var lead, gaps := SegmentsSpaced(s, "");
    assert "" + s == s;
    if AreSegments(xs) && exists lead, gaps :: SpacedAs(s, xs, lead, gaps) {
      var lead, gaps :| SpacedAs(s, xs, lead, gaps);
      hide SegmentsFrom, IsGap, AreGaps, AreSegments, Spaced;
      SegmentsOfSpaced(lead, xs, gaps);
    }
  }

  // ----- The score -----

  function Matches(v: seq<string>, w: seq<string>, n: nat): set<nat>
    requires n <= |v| && n <= |w|
  {
    set i: nat | i < n && v[i] == w[i]
  }

  function Shorter(v: seq<string>, w: seq<string>): nat {
    if |v| <= |w| then |v| else |w|
  }

  /** How many segments are equal at equal positions. */
  function Agreement(v: seq<string>, w: seq<string>): nat {
    |Matches(v, w, Shorter(v, w))|
  }

  /** What C strings hold of the arguments is what counts. */
  function Score(a: string, b: string): nat {
    Agreement(Segments(CString(a)), Segments(CString(b)))
  }

  /** One of the two splitting loops. */
  method Split(s: string) returns (v: seq<string>)
    ensures v == Segments(s)
  {
    v := [];
    var x := "";
    var i := 0;
    while i < |s|
      invariant i <= |s|
      invariant v + SegmentsFrom(s[i..], x) == Segments(s)
    {
      assert s[i..][1..] == s[i + 1..];
      i := i + 1;
      if s[i - 1] == '/' {
        if x != "" {
          v := v + [x];
        }
        x := "";
        continue;
      }
      x := x + [s[i - 1]];
    }
    if x != "" {
      v := v + [x];
    }
  }

  lemma MatchesStep(v: seq<string>, w: seq<string>, n: nat)
    requires n < |v| && n < |w|
    ensures |Matches(v, w, n + 1)| == |Matches(v, w, n)| + if v[n] == w[n] then 1 else 0
  {
    var before, after := Matches(v, w, n), Matches(v, w, n + 1);
    assert n !in before;
    assert after == if v[n] == w[n] then before + {n} else before;
  }

  method CommonPrefixLength(a: string, b: string) returns (counter: nat)
    ensures counter == Score(a, b)
  {
    hide SegmentsFrom, CString;
    var v1 := Split(CString(a));
    var v2 := Split(CString(b));
    counter := 0;
    var i := 0;
    while i != |v2| && i != |v1|
      invariant i <= |v1| && i <= |v2|
      invariant counter == |Matches(v1, v2, i)|
      decreases |v1| - i
    {
      MatchesStep(v1, v2, i);
      if v2[i] == v1[i] {
        counter := counter + 1;
      }
      i := i + 1;
    }
  }

  /** The number of leading segments that are equal. */
  function PrefixLength(v: seq<string>, w: seq<string>): (n: nat)
    ensures n <= |v| && n <= |w| && v[..n] == w[..n]
    ensures n < |v| && n < |w| ==> v[n] != w[n]
  {
    if v == [] || w == [] || v[0] != w[0] then 0
    else
      var n := PrefixLength(v[1..], w[1..]);
      assert v[..n + 1] == [v[0]] + v[1..][..n] && w[..n + 1] == [w[0]] + w[1..][..n];
      n + 1
  }

  lemma {:induction false} MatchesAll(v: seq<string>, w: seq<string>, n: nat)
    requires n <= |v| && n <= |w|
    ensures |Matches(v, w, n)| <= n
    ensures |Matches(v, w, n)| == n <==> v[..n] == w[..n]
  {
    if n > 0 {
      MatchesAll(v, w, n - 1);
      MatchesStep(v, w, n - 1);
      assert v[..n] == v[..n - 1] + [v[n - 1]] && w[..n] == w[..n - 1] + [w[n - 1]];
      assert v[..n - 1] == v[..n][..n - 1] && w[..n - 1] == w[..n][..n - 1];
      assert v[n - 1] == v[..n][n - 1] && w[n - 1] == w[..n][n - 1];
    } else {
      assert Matches(v, w, 0) == {};
    }
  }

  lemma MatchesBeyond(v: seq<string>, w: seq<string>, n: nat)
    requires n <= Shorter(v, w)
    ensures Agreement(v, w) >= |Matches(v, w, n)|
    ensures Agreement(v, w) == |Matches(v, w, n)|
       <==> forall i :: n <= i < Shorter(v, w) ==> v[i] != w[i]
  {
    var start, all := Matches(v, w, n), Matches(v, w, Shorter(v, w));
    var beyond := set i: nat | i in all && n <= i;
    assert all == start + beyond && start !! beyond;
    assert |all| == |start| + |beyond|;
    if i :| n <= i < Shorter(v, w) && v[i] == w[i] {
      assert i in beyond;
    } else {
      assert beyond == {};
    }
  }

  /** The counter is the length of a common prefix if and only if nothing agrees beyond it. */
  lemma AgreementIsPrefixLength(v: seq<string>, w: seq<string>)
    ensures Agreement(v, w) >= PrefixLength(v, w)
    ensures Agreement(v, w) == PrefixLength(v, w)
       <==> forall i :: PrefixLength(v, w) <= i < |v| && i < |w| ==> v[i] != w[i]
  {
    hide Matches, Agreement, PrefixLength;
    MatchesAll(v, w, PrefixLength(v, w));
    MatchesBeyond(v, w, PrefixLength(v, w));
  }

  /** Segments after a difference count as well: no common prefix, yet a score of two. */
  lemma AgreementAfterDifference()
    ensures PrefixLength(["a", "c", "d"], ["b", "c", "d"]) == 0
    ensures Agreement(["a", "c", "d"], ["b", "c", "d"]) == 2
  {
    var v, w := ["a", "c", "d"], ["b", "c", "d"];
    assert "a" != "b" && v[0] == "a" && w[0] == "b";
    MatchesAll(v, w, 0);
    MatchesStep(v, w, 0);
    MatchesStep(v, w, 1);
    MatchesStep(v, w, 2);
  }

  // ----- The choice -----

  /** Higher score first, then fewer characters, then order of keys. */
  predicate Preferred(uri: string, p: string, q: string) {
    || Score(uri, p) > Score(uri, q)
    || (Score(uri, p) == Score(uri, q)
        && (|p| < |q| || (|p| == |q| && (p == q || Less(p, q)))))
  }

  predicate Best(paths: set<string>, uri: string, p: string) {
    p in paths && Score(uri, p) > 0 && forall q :: q in paths ==> Preferred(uri, p, q)
  }

  predicate NoneMatches(paths: set<string>, uri: string) {
    forall q :: q in paths ==> Score(uri, q) == 0
  }

  predicate IsChoice(paths: set<string>, uri: string, p: string) {
    if NoneMatches(paths, uri) then p == "/" else Best(paths, uri, p)
  }

  /** At most one path can be chosen. */
  lemma ChoiceUnique(paths: set<string>, uri: string, p: string, q: string)
    requires IsChoice(paths, uri, p) && IsChoice(paths, uri, q)
    ensures p == q
  {
    hide Score;
    if !NoneMatches(paths, uri) && p != q && Less(p, q) {
      LessAsymmetric(p, q);
    }
  }

  /** What the loop knows of the paths it has seen. */
  predicate Leading(seen: set<string>, uri: string, length: nat, path: string) {
    if length == 0 then NoneMatches(seen, uri)
    else length == Score(uri, path) && Best(seen, uri, path)
  }

  predicate Improves(uri: string, length: nat, path: string, next: string) {
    Score(uri, next) > 0
    && (length < Score(uri, next) || (length == Score(uri, next) && |next| < |path|))
  }

  lemma LeadingStep(seen: set<string>, uri: string, length: nat, path: string, next: string)
    requires Leading(seen, uri, length, path)
    requires forall p :: p in seen ==> Less(p, next)
    ensures if Improves(uri, length, path, next) then Leading(seen + {next}, uri, Score(uri, next), next)
            else Leading(seen + {next}, uri, length, path)
  {
    hide Score, Less;
  }

  lemma LeadingIsChoice(paths: set<string>, uri: string, length: nat, path: string)
    requires Leading(paths, uri, length, path)
    ensures IsChoice(paths, uri, if length == 0 then "/" else path)
    ensures length > 0 ==> path in paths
  {
    hide Score, Less;
  }

  /** The paths visited before `rest`. */
  ghost predicate Before(seen: set<string>, rest: set<string>) {
    forall p, q :: p in seen && q in rest ==> Less(p, q)
  }

  /** The paths seen and those that remain. */
  ghost predicate Visiting<V>(all: map<string, V>, seen: set<string>, rest: map<string, V>) {
    all.Keys == seen + rest.Keys && Before(seen, rest.Keys)
  }

  lemma FirstIsNext<V>(seen: set<string>, rest: map<string, V>, k: string)
    requires IsFirst(rest, k) && Before(seen, rest.Keys)
    ensures Before(seen + {k}, rest.Keys - {k})
    ensures forall p :: p in seen ==> Less(p, k)
  {
    hide Less;
    assert k in rest.Keys;
    forall p, q | p in seen + {k} && q in rest.Keys - {k} ensures Less(p, q) {
      assert q in rest;
    }
  }

  lemma SetMoved(a: set<string>, b: set<string>, k: string)
    requires k in b
    ensures a + b == a + {k} + (b - {k})
  {
  }

  lemma WithoutKey<V>(m: map<string, V>, k: string)
    requires k in m
    ensures (m - {k}).Keys == m.Keys - {k} && |m - {k}| < |m|
  {
    assert (m - {k}).Keys == m.Keys - {k};
    assert |(m - {k}).Keys| < |m.Keys|;
  }

  lemma NextVisited<V>(all: map<string, V>, seen: set<string>, rest: map<string, V>, k: string)
    requires Visiting(all, seen, rest) && IsFirst(rest, k)
    ensures k in rest && |rest - {k}| < |rest|
    ensures Visiting(all, seen + {k}, rest - {k})
    ensures forall p :: p in seen ==> Less(p, k)
  {
    assert k in rest;
    hide Less, IsFirst, Before;
    WithoutKey(rest, k);
    FirstIsNext(seen, rest, k);
    SetMoved(seen, rest.Keys, k);
  }

  lemma NothingSeen<V>(uri: string, path: string, all: map<string, V>)
    ensures Leading({}, uri, 0, path) && Visiting(all, {}, all)
  {
  }

  lemma AllSeen<V>(all: map<string, V>, seen: set<string>, rest: map<string, V>)
    requires Visiting(all, seen, rest) && rest == map[]
    ensures seen == all.Keys
  {
  }

  /** The handlers by path; `None` is a null pointer. */
  class RequestHandlerGenerator<H> {
    var handlers: map<string, Option<H>>

    constructor (handlers: map<string, Option<H>>)
      ensures this.handlers == handlers
    {
      this.handlers := handlers;
    }

    /** The lookup at the end adds a null handler for "/" if none is registered. */
    method DispatchHandler(uri: string) returns (handler: Option<H>, ghost path: string)
      modifies this
      ensures IsChoice(old(handlers).Keys, uri, path)
      ensures handler == if path in old(handlers) then old(handlers)[path] else None
      ensures handlers == if path in old(handlers) then old(handlers) else old(handlers)["/" := None]
    {
      hide Score, Less, Leading, Visiting, IsFirst, IsChoice;
      var longestLength: nat := 0;
      var longestPath := "";
      var rest := handlers;
      ghost var seen: set<string> := {};
      NothingSeen(uri, longestPath, handlers);
      while rest != map[]
        invariant handlers == old(handlers)
        invariant Visiting(handlers, seen, rest)
        invariant Leading(seen, uri, longestLength, longestPath)
        decreases |rest|
      {
        var path := FirstKey(rest);
        NextVisited(handlers, seen, rest, path);
        LeadingStep(seen, uri, longestLength, longestPath, path);
        seen := seen + {path};
        rest := rest - {path};
        var currentLength := CommonPrefixLength(uri, path);
        if currentLength == 0 {
          continue;
        }
        if longestLength < currentLength {
          longestLength := currentLength;
          longestPath := path;
        }
        if longestLength == currentLength && |path| < |longestPath| {
          longestPath := path;
          longestLength := currentLength;
        }
      }
      AllSeen(handlers, seen, rest);
      LeadingIsChoice(handlers.Keys, uri, longestLength, longestPath);
      if longestLength == 0 {
        path := "/";
        if "/" !in handlers {
          handlers := handlers["/" := None];
        }
        return handlers["/"], path;
      }
      path := longestPath;
      return handlers[longestPath], path;
    }
  }

  // ----- Canonical paths -----

  function Directories(xs: seq<string>): string {
    if xs == [] then "" else xs[0] + "/" + Directories(xs[1..])
  }

  /** "/" and then every segment followed by "/": registered paths always end in a slash. */
  function CanonicalPath(xs: seq<string>): string {
    "/" + Directories(xs)
  }

  predicate Plain(xs: seq<string>) {
    AreSegments(xs) && forall i :: 0 <= i < |xs| ==> NulFree(xs[i])
  }

  ghost predicate Canonical(p: string) {
    exists xs :: Plain(xs) && p == CanonicalPath(xs)
  }

  lemma {:induction false} DirectoriesSegments(xs: seq<string>)
    requires AreSegments(xs)
    ensures SegmentsFrom(Directories(xs), "") == xs
  {
    if xs == [] {
    } else {
      var rest := Directories(xs[1..]);
      assert Directories(xs) == xs[0] + ("/" + rest);
      assert IsSegment(xs[0]) && IsGap("/");
      SegmentTaken(xs[0], "/" + rest, "");
      assert "" + xs[0] == xs[0];
      SegmentEnds("/", rest, xs[0]);
      DirectoriesSegments(xs[1..]);
    }
  }

  lemma {:induction false} DirectoriesNulFree(xs: seq<string>)
    requires Plain(xs)
    ensures NulFree(Directories(xs))
  {
    if xs == [] {
    } else {
      assert NulFree(xs[0]);
      DirectoriesNulFree(xs[1..]);
    }
  }

  lemma {:induction false} DirectoriesConcat(xs: seq<string>, ys: seq<string>)
    ensures Directories(xs + ys) == Directories(xs) + Directories(ys)
  {
    if xs == [] {
      assert xs + ys == ys;
    } else {
      assert (xs + ys)[1..] == xs[1..] + ys;
      DirectoriesConcat(xs[1..], ys);
    }
  }

  /** The dispatcher sees the segments that a canonical path was built from. */
  lemma CanonicalSegments(xs: seq<string>)
    requires Plain(xs)
    ensures Segments(CString(CanonicalPath(xs))) == xs
  {
    var p := CanonicalPath(xs);
    DirectoriesNulFree(xs);
    CStringUnique(p, p);
    DirectoriesSegments(xs);
    assert IsGap("/");
    GapSkipped("/", Directories(xs));
  }

  lemma PathOfTwoAndThree(x: string, y: string, z: string)
    ensures CanonicalPath([x]) == "/" + x + "/"
    ensures CanonicalPath([x, y, z]) == "/" + x + "/" + y + "/" + z + "/"
  {
    assert [x, y, z][1..] == [y, z] && [y, z][1..] == [z] && [z][1..] == [] && [x][1..] == [];
    assert Directories([z]) == z + "/" + Directories([]);
    assert Directories([y, z]) == y + "/" + Directories([z]);
    assert Directories([x, y, z]) == x + "/" + Directories([y, z]);
    assert Directories([x]) == x + "/" + Directories([]);
  }

  lemma AgreementSymmetricBound(v: seq<string>, w: seq<string>)
    ensures Agreement(v, w) <= |w|
  {
    MatchesAll(v, w, Shorter(v, w));
  }

  lemma ChosenOfTwo(uri: string, p: string, q: string)
    requires Agreement(Segments(CString(uri)), Segments(CString(q))) == 2
    requires |Segments(CString(p))| == 1
    ensures Score(uri, q) == 2 && IsChoice({p, q}, uri, q)
  {
    hide Agreement, Segments, CString;
    AgreementSymmetricBound(Segments(CString(uri)), Segments(CString(p)));
  }

  lemma LiteralSegments()
    ensures Segments(CString("/a/c/d/")) == ["a", "c", "d"]
    ensures Segments(CString("/b/c/d/")) == ["b", "c", "d"]
    ensures Segments(CString("/a/")) == ["a"]
  {
    PathOfTwoAndThree("a", "c", "d");
    PathOfTwoAndThree("b", "c", "d");
    var uri, other, under := ["a", "c", "d"], ["b", "c", "d"], ["a"];
    assert CanonicalPath(uri) == "/a/c/d/" && CanonicalPath(other) == "/b/c/d/" && CanonicalPath(under) == "/a/";
    assert Plain(uri) && Plain(other) && Plain(under);
    hide *;
    CanonicalSegments(uri);
    CanonicalSegments(other);
    CanonicalSegments(under);
  }

  /**
   On the strings the dispatcher is given: a path that does not begin like the URI scores
   two, and is chosen before the only registered path that the URI lies under.
   */
  lemma DispatchAfterDifference()
    ensures Score("/a/c/d/", "/b/c/d/") == 2
    ensures IsChoice({"/a/", "/b/c/d/"}, "/a/c/d/", "/b/c/d/")
  {
    hide *;
    LiteralSegments();
    AgreementAfterDifference();
    ChosenOfTwo("/a/c/d/", "/a/", "/b/c/d/");
  }

  lemma AgreementBound(v: seq<string>, w: seq<string>)
    ensures Agreement(v, w) <= |v|
    ensures Agreement(v, w) == |v| <==> v <= w
  {
    hide Matches;
    MatchesAll(v, w, Shorter(v, w));
    assert v[..|v|] == v && w[..|w|] == w;
  }

  lemma CanonicalPreferred(uri: string, xs: seq<string>, ys: seq<string>)
    requires Plain(xs) && Plain(ys) && Segments(CString(uri)) == xs
    ensures Score(uri, CanonicalPath(xs)) == |xs|
    ensures Preferred(uri, CanonicalPath(xs), CanonicalPath(ys))
  {
    CanonicalSegments(xs);
    CanonicalSegments(ys);
    hide Agreement, Segments, CString, Plain;
    AgreementBound(xs, xs);
    AgreementBound(xs, ys);
    if xs <= ys {
      var rest := ys[|xs|..];
      assert ys == xs + rest;
      DirectoriesConcat(xs, rest);
      if rest == [] {
        assert ys == xs;
      }
    }
  }

  lemma EmptyUriMatchesNothing(paths: set<string>, uri: string)
    requires Segments(CString(uri)) == []
    ensures NoneMatches(paths, uri)
  {
    forall q ensures Score(uri, q) == 0 {
      hide Agreement, Segments, CString;
      AgreementBound([], Segments(CString(q)));
    }
  }

  lemma ChosenOnly(paths: set<string>, uri: string, p: string)
    requires IsChoice(paths, uri, p)
    ensures forall q :: IsChoice(paths, uri, q) <==> q == p
  {
    forall q | IsChoice(paths, uri, q) ensures q == p {
      ChoiceUnique(paths, uri, q, p);
    }
  }

  /**
    * Among canonical paths, a URI with the segments of a registered path is dispatched to
    * that path and to no other.
    */
  lemma CanonicalDispatch(paths: set<string>, uri: string, xs: seq<string>)
    requires forall q :: q in paths ==> Canonical(q)
    requires Plain(xs) && CanonicalPath(xs) in paths && Segments(CString(uri)) == xs
    ensures forall q :: IsChoice(paths, uri, q) <==> q == CanonicalPath(xs)
  {
    var p := CanonicalPath(xs);
    if xs == [] {
      EmptyUriMatchesNothing(paths, uri);
      assert p == "/";
    } else {
      forall q | q in paths ensures Preferred(uri, p, q) {
        assert Canonical(q);
        var ys :| Plain(ys) && q == CanonicalPath(ys);
        CanonicalPreferred(uri, xs, ys);
      }
      hide Score, Preferred, CanonicalPath, Plain, Segments;
      CanonicalPreferred(uri, xs, xs);
      assert Best(paths, uri, p);
    }
    hide *;
    ChosenOnly(paths, uri, p);
  }

  // ----- Whether the URI lies under the path that is chosen -----

  /** The segments of the path are the first ones of the URI. */
  predicate LiesUnder(uri: string, p: string) {
    Segments(CString(p)) <= Segments(CString(uri))
  }

  lemma AgreementOfPrefix(v: seq<string>, w: seq<string>)
    ensures Agreement(v, w) == |w| <==> w <= v
  {
    hide Matches;
    MatchesAll(v, w, Shorter(v, w));
    assert v[..|v|] == v && w[..|w|] == w;
  }

  /** The counter tells: it is the number of the path's segments. */
  lemma UnderByScore(uri: string, p: string)
    ensures LiesUnder(uri, p) <==> Score(uri, p) == |Segments(CString(p))|
  {
    hide Segments, CString, Agreement;
    AgreementOfPrefix(Segments(CString(uri)), Segments(CString(p)));
  }

  lemma RootIsEmpty()
    ensures Segments(CString("/")) == []
  {
    assert "/"[1..] == "" && CString("/") == "/";
  }

  lemma RootAbove(uri: string)
    ensures LiesUnder(uri, "/")
  {
    RootIsEmpty();
  }

  lemma PreferredAntisymmetric(uri: string, p: string, q: string)
    requires Preferred(uri, p, q) && Preferred(uri, q, p)
    ensures p == q
  {
    hide Score;
    if p != q && Less(p, q) {
      LessAsymmetric(p, q);
    }
  }

  /**
   The URI lies under the chosen path if and only if nothing matches it, or some registered
   path it lies under is preferred to every path it does not lie under.
   */
  lemma ChosenLiesUnder(paths: set<string>, uri: string, p: string)
    requires IsChoice(paths, uri, p)
    ensures LiesUnder(uri, p)
       <==> || NoneMatches(paths, uri)
            || exists u :: u in paths && LiesUnder(uri, u)
                           && forall q :: q in paths && !LiesUnder(uri, q) ==> Preferred(uri, u, q)
  {
    RootAbove(uri);
    hide Score, LiesUnder, Preferred;
    if u :| u in paths && LiesUnder(uri, u)
            && forall q :: q in paths && !LiesUnder(uri, q) ==> Preferred(uri, u, q)
    {
      if !NoneMatches(paths, uri) && !LiesUnder(uri, p) {
        PreferredAntisymmetric(uri, p, u);
      }
    }
  }

  // ----- The registrations that dispatch every URI to a path above it -----

  lemma PreferredTotal(uri: string, p: string, q: string)
    ensures Preferred(uri, p, q) || Preferred(uri, q, p)
  {
    LessTotal(p, q);
    hide Score;
  }

  lemma PreferredTransitive(uri: string, p: string, q: string, r: string)
    requires Preferred(uri, p, q) && Preferred(uri, q, r)
    ensures Preferred(uri, p, r)
  {
    hide Score;
    if Less(p, q) && Less(q, r) {
      LessTransitive(p, q, r);
    }
  }

  lemma HigherPreferred(uri: string, p: string, q: string)
    requires Score(uri, p) > Score(uri, q)
    ensures Preferred(uri, p, q)
  {
  }

  lemma {:induction false} BestExists(paths: set<string>, uri: string) returns (p: string)
    requires !NoneMatches(paths, uri)
    ensures Best(paths, uri, p)
    decreases |paths|
  {
    hide Score, Preferred;
    var k :| k in paths && Score(uri, k) > 0;
    PreferredTotal(uri, k, k);
    var rest := paths - {k};
    assert |rest| < |paths|;
    if NoneMatches(rest, uri) {
      p := k;
      forall q | q in paths ensures Preferred(uri, k, q) {
        if q != k {
          HigherPreferred(uri, k, q);
        }
      }
    } else {
      var b := BestExists(rest, uri);
      PreferredTotal(uri, b, k);
      p := if Preferred(uri, b, k) then b else k;
      forall q | q in paths ensures Preferred(uri, p, q) {
        if q != k && p == k {
          PreferredTransitive(uri, k, b, q);
        }
      }
    }
  }

  /** A path of one segment at most scores only on the URIs under it. */
  lemma ShortPathAbove(uri: string, p: string)
    requires |Segments(CString(p))| <= 1 && Score(uri, p) > 0
    ensures LiesUnder(uri, p)
  {
    hide LiesUnder, Segments, CString, Agreement;
    AgreementSymmetricBound(Segments(CString(uri)), Segments(CString(p)));
    UnderByScore(uri, p);
  }

  lemma {:induction false} LongerThanAll(paths: set<string>) returns (n: nat)
    ensures n > 0 && forall p :: p in paths ==> |p| < n
    decreases |paths|
  {
    if paths == {} {
      n := 1;
    } else {
      var k :| k in paths;
      assert |paths - {k}| < |paths|;
      n := LongerThanAll(paths - {k});
      n := if |k| < n then n else |k| + 1;
    }
  }

  lemma {:induction false} FreshSegment(n: nat) returns (x: string)
    requires n > 0
    ensures |x| == n && IsSegment(x) && NulFree(x)
  {
    if n == 1 {
      x := "a";
    } else {
      x := FreshSegment(n - 1);
      x := x + "a";
    }
  }

  lemma {:induction false} SegmentsFromShort(s: string, x: string)
    ensures forall i :: 0 <= i < |SegmentsFrom(s, x)| ==> |SegmentsFrom(s, x)[i]| <= |x| + |s|
    decreases |s|
  {
    if s == "" {
    } else if s[0] == '/' {
      SegmentsFromShort(s[1..], "");
    } else {
      SegmentsFromShort(s[1..], x + [s[0]]);
    }
  }

  lemma {:induction false} SegmentsFromNulFree(s: string, x: string)
    requires NulFree(s) && NulFree(x)
    ensures forall i :: 0 <= i < |SegmentsFrom(s, x)| ==> NulFree(SegmentsFrom(s, x)[i])
    decreases |s|
  {
    if s == "" {
    } else if s[0] == '/' {
      SegmentsFromNulFree(s[1..], "");
    } else {
      SegmentsFromNulFree(s[1..], x + [s[0]]);
    }
  }

  lemma SegmentsPlain(s: string)
    ensures Plain(Segments(CString(s)))
    ensures forall i :: 0 <= i < |Segments(CString(s))| ==> |Segments(CString(s))[i]| <= |s|
  {
    var t := CString(s);
    SegmentsFromNulFree(t, "");
    SegmentsFromShort(t, "");
    var lead, gaps := SegmentsSpaced(t, "");
  }

  lemma AgreementAt(v: seq<string>, w: seq<string>, i: nat)
    requires i < |v| && i < |w| && v[i] == w[i]
    ensures Agreement(v, w) > 0
  {
    assert i in Matches(v, w, Shorter(v, w));
  }

  lemma NotPrefix(v: seq<string>, w: seq<string>)
    requires v != [] && w != [] && v[0] != w[0]
    ensures !(v <= w)
  {
  }

  /** A path of two segments is chosen, or another it does not lie under, for some URI. */
  lemma LongPathMisleads(paths: set<string>, q: string) returns (uri: string, p: string)
    requires q in paths && |Segments(CString(q))| >= 2
    ensures IsChoice(paths, uri, p) && !LiesUnder(uri, p)
  {
    var xs := Segments(CString(q));
    SegmentsPlain(q);
    var n := LongerThanAll(paths);
    var x := FreshSegment(n);
    var ys := [x, xs[1]];
    assert Plain(ys);
    uri := CanonicalPath(ys);
    CanonicalSegments(ys);
    AgreementAt(ys, xs, 1);
    assert Score(uri, q) > 0;
    hide Agreement, Segments, CString, Preferred, CanonicalPath, Plain;
    p := BestExists(paths, uri);
    SegmentsPlain(p);
    var ps := Segments(CString(p));
    AgreementSymmetricBound(ys, ps);
    assert ps != [] && |ps[0]| < |x|;
    NotPrefix(ps, ys);
  }

  /** Every URI is dispatched to a path above it if and only if no path has two segments. */
  lemma AlwaysAbove(paths: set<string>)
    ensures (forall uri, p :: IsChoice(paths, uri, p) ==> LiesUnder(uri, p))
       <==> forall q :: q in paths ==> |Segments(CString(q))| <= 1
  {
    if q :| q in paths && |Segments(CString(q))| >= 2 {
      var uri, p := LongPathMisleads(paths, q);
      assert IsChoice(paths, uri, p);
    } else {
      forall uri, p | IsChoice(paths, uri, p) ensures LiesUnder(uri, p) {
        RootAbove(uri);
        hide LiesUnder, Segments, CString, Score, Preferred;
        if !NoneMatches(paths, uri) {
          ShortPathAbove(uri, p);
        }
      }
    }
  }

  lemma PathOfTwo(x: string, y: string)
    ensures CanonicalPath([x, y]) == "/" + x + "/" + y + "/"
  {
    assert [x, y][1..] == [y] && [y][1..] == [];
    assert Directories([y]) == y + "/" + Directories([]);
    assert Directories([x, y]) == x + "/" + Directories([y]);
  }

  lemma AgreementOfTwo(x: string, y: string, z: string)
    requires y != z
    ensures Agreement([x, y], [x, z]) == 1 == PrefixLength([x, y], [x, z])
    ensures !([x, z] <= [x, y])
  {
    var v, w := [x, y], [x, z];
    MatchesAll(v, w, 0);
    MatchesStep(v, w, 0);
    MatchesStep(v, w, 1);
    assert v[1..] == [y] && w[1..] == [z];
    assert v[1] != w[1];
  }

  lemma ChosenOverRoot(uri: string, q: string)
    requires Agreement(Segments(CString(uri)), Segments(CString(q))) == 1
    ensures Score(uri, q) == 1 && IsChoice({"/", q}, uri, q)
  {
    RootIsEmpty();
    hide Agreement, Segments, CString;
    AgreementSymmetricBound(Segments(CString(uri)), []);
  }

  /** A path that agrees with the URI up to a difference is chosen before the root. */
  lemma DispatchAfterPrefix()
    ensures Score("/a/c/", "/a/b/") == 1 == PrefixLength(["a", "c"], ["a", "b"])
    ensures IsChoice({"/", "/a/b/"}, "/a/c/", "/a/b/") && !LiesUnder("/a/c/", "/a/b/")
  {
    var uri, other := ["a", "c"], ["a", "b"];
    PathOfTwo("a", "c");
    PathOfTwo("a", "b");
    assert CanonicalPath(uri) == "/a/c/" && CanonicalPath(other) == "/a/b/";
    assert Plain(uri) && Plain(other) && "c" != "b";
    hide CanonicalPath, Plain, Agreement, Segments, CString, PrefixLength, Score, IsChoice;
    CanonicalSegments(uri);
    CanonicalSegments(other);
    AgreementOfTwo("a", "c", "b");
    ChosenOverRoot("/a/c/", "/a/b/");
  }

  lemma FirstSegmentTells()
    ensures ["a"] <= ["a", "c", "d"] && !(["b", "c", "d"] <= ["a", "c", "d"])
  {
    assert ["b", "c", "d"][0] == "b" && ["a", "c", "d"][0] == "a" && "a" != "b";
  }

  /** A path that agrees with the URI only after a difference is chosen before one above it. */
  lemma DispatchBeside()
    ensures IsChoice({"/a/", "/b/c/d/"}, "/a/c/d/", "/b/c/d/")
    ensures LiesUnder("/a/c/d/", "/a/") && !LiesUnder("/a/c/d/", "/b/c/d/")
  {
    DispatchAfterDifference();
    hide Segments, CString, IsChoice;
    LiteralSegments();
    FirstSegmentTells();
  }

  // ----- The order of the choice -----

  /** A lower score, a longer path, or a later one of the same length in the order of bytes. */
  ghost predicate Beaten(uri: string, q: string, p: string) {
    || Score(uri, q) < Score(uri, p)
    || (Score(uri, q) == Score(uri, p) && |q| > |p|)
    || (Score(uri, q) == Score(uri, p) && |q| == |p| && Precedes(p, q))
  }

  /**
   The choice, spelled out: "/" when no path scores, and else the path that scores and beats
   every other one.
   */
  lemma ChoiceIsRanked(paths: set<string>, uri: string, p: string)
    ensures IsChoice(paths, uri, p)
       <==> if forall q :: q in paths ==> Score(uri, q) == 0 then p == "/"
            else p in paths && Score(uri, p) > 0 && forall q :: q in paths && q != p ==> Beaten(uri, q, p)
  {
    hide Score, Less, Precedes;
    forall q ensures Preferred(uri, p, q) <==> q == p || Beaten(uri, q, p) {
      LessIsLexicographic(p, q);
    }
  }

  lemma PathOfOne(x: string)
    ensures CanonicalPath([x]) == "/" + x + "/"
  {
    assert [x][1..] == [];
    assert Directories([x]) == x + "/" + Directories([]);
  }

  lemma AgreementOfOne(x: string, y: string)
    ensures Agreement([x], [x, y]) == 1
  {
    MatchesAll([x], [x, y], 0);
    MatchesStep([x], [x, y], 0);
  }

  lemma LiteralOrder()
    ensures Precedes("/a/x/", "/a/y/")
  {
    assert "/a/x/"[..3] == "/a/" && "/a/y/"[..3] == "/a/";
    assert SmallerAt("/a/x/", "/a/y/", 3);
  }

  lemma TieSegments()
    ensures Segments(CString("/a/")) == ["a"]
    ensures Segments(CString("/a/x/")) == ["a", "x"] && Segments(CString("/a/y/")) == ["a", "y"]
  {
    PathOfOne("a");
    PathOfTwo("a", "x");
    PathOfTwo("a", "y");
    assert CanonicalPath(["a"]) == "/a/" && CanonicalPath(["a", "x"]) == "/a/x/";
    assert CanonicalPath(["a", "y"]) == "/a/y/";
    assert Plain(["a"]) && Plain(["a", "x"]) && Plain(["a", "y"]);
    hide *;
    CanonicalSegments(["a"]);
    CanonicalSegments(["a", "x"]);
    CanonicalSegments(["a", "y"]);
  }

  /** Of two paths that tie, the one that is first in the order of bytes. */
  lemma TieIsBroken(uri: string, p: string, q: string)
    requires Score(uri, p) == Score(uri, q) > 0 && |p| == |q| && Precedes(p, q)
    ensures IsChoice({p, q}, uri, p)
  {
    hide Score, Precedes, IsChoice;
    ChoiceIsRanked({p, q}, uri, p);
  }

  lemma DispatchTie()
    ensures IsChoice({"/a/x/", "/a/y/"}, "/a/", "/a/x/")
  {
    assert |"/a/x/"| == |"/a/y/"|;
    TieSegments();
    hide Agreement, Segments, CString, Precedes, IsChoice;
    AgreementOfOne("a", "x");
    AgreementOfOne("a", "y");
    LiteralOrder();
    assert Score("/a/", "/a/x/") == 1 && Score("/a/", "/a/y/") == 1;
    TieIsBroken("/a/", "/a/x/", "/a/y/");
  }
}
