/** The dispatcher and the proxy together: which URIs a proxy can rewrite. */
module Routing {
  import opened Basics
  import opened HttpParser
  import opened HttpData
  import opened HttpPrinters
  import opened Dispatcher

  lemma {:induction false} SpacedLength(xs: seq<string>, gaps: seq<string>)
    requires |gaps| == |xs| && AreGaps(gaps)
    ensures |Directories(xs)| <= |Spaced(xs, gaps)| + 1
    decreases |xs|
  {
    if xs == [] {
    } else {
      SpacedLength(xs[1..], gaps[1..]);
      if |xs| == 1 {
        assert Directories(xs[1..]) == "";
      }
    }
  }

  lemma SpacedStarts(xs: seq<string>, gaps: seq<string>)
    requires |gaps| == |xs| && AreSegments(xs) && xs != []
    ensures Spaced(xs, gaps) != "" && Spaced(xs, gaps)[0] != '/'
  {
    assert IsSegment(xs[0]) && Spaced(xs, gaps)[0] == xs[0][0];
  }

  lemma LeadingGap(s: string, xs: seq<string>, lead: string, gaps: seq<string>)
    requires s != "" && s[0] == '/' && AreSegments(xs) && SpacedAs(s, xs, lead, gaps) && xs != []
    ensures lead != ""
  {
    SpacedStarts(xs, gaps);
    hide Spaced, AreSegments;
  }

  lemma NoDirectories()
    ensures Directories([]) == ""
  {
  }

  /** The segments of a URI that begins with a slash, and a slash for each, are in it. */
  lemma UriLength(uri: string)
    requires uri != "" && uri[0] == '/'
    ensures |Directories(Segments(CString(uri)))| <= |uri|
  {
    var s := CString(uri);
    var xs := Segments(s);
    var lead, gaps := SegmentsSpaced(s, "");
    assert "" + s == s && s != "" && s[0] == '/';
    hide CString, SegmentsFrom, Directories;
    if xs == [] {
      NoDirectories();
    } else {
      LeadingGap(s, xs, lead, gaps);
      SpacedLength(xs, gaps);
    }
  }

  /** A URI that lies under a canonical path reaches to the last character of the path. */
  lemma UnderReaches(uri: string, path: string)
    requires Canonical(path) && LiesUnder(uri, path) && uri != "" && uri[0] == '/'
    ensures |path| - 1 <= |uri| && path != ""
  {
    var ys :| Plain(ys) && path == CanonicalPath(ys);
    CanonicalSegments(ys);
    UriLength(uri);
    var xs := Segments(CString(uri));
    hide Segments, CString, Directories, Plain;
    assert xs == ys + xs[|ys|..];
    DirectoriesConcat(ys, xs[|ys|..]);
  }

  /** A proxy registered under a path that the URI lies under never throws on it. */
  lemma ProxyRewrites(path: string, r: Message)
    requires Canonical(path) && LiesUnder(r.uri, path) && r.uri != "" && r.uri[0] == '/'
    ensures ProxyText(path, r, false).Success?
  {
    UnderReaches(r.uri, path);
    hide Canonical, LiesUnder;
  }

  lemma RootIsCanonical()
    ensures Canonical("/")
  {
    assert Plain([]) && CanonicalPath([]) == "/";
  }

  /**
   When every registered path is canonical and has one segment at most, no URI that begins
   with a slash makes the proxy it is dispatched to throw.
   */
  lemma DispatchedProxyRewrites(paths: set<string>, path: string, r: Message)
    requires forall q :: q in paths ==> Canonical(q) && |Segments(CString(q))| <= 1
    requires IsChoice(paths, r.uri, path) && r.uri != "" && r.uri[0] == '/'
    ensures ProxyText(path, r, false).Success?
  {
    AlwaysAbove(paths);
    RootIsCanonical();
    hide LiesUnder, Canonical, ProxyText, Segments, CString, Score, Preferred;
    ProxyRewrites(path, r);
  }

  lemma SegmentsOfOne()
    ensures Segments(CString("/a")) == ["a"]
  {
    assert CString("/a") == "/a" by {
      CStringUnique("/a", "/a");
    }
    assert "/a"[1..] == "a" && "a"[1..] == "" && "" + ['a'] == "a";
    assert SegmentsFrom("a", "") == SegmentsFrom("", "a");
  }

  /** A URI that is dispatched to a proxy it does not lie under, and that the proxy throws on. */
  lemma DispatchedProxyThrows(r: Message)
    requires r.uri == "/a"
    ensures IsChoice({"/a/b/"}, r.uri, "/a/b/") && !LiesUnder(r.uri, "/a/b/")
    ensures ProxyText("/a/b/", r, false) == Failure(OutOfRange)
  {
    PathOfTwo("a", "b");
    assert CanonicalPath(["a", "b"]) == "/a/b/" && Plain(["a", "b"]);
    CanonicalSegments(["a", "b"]);
    SegmentsOfOne();
    AgreementAt(["a"], ["a", "b"], 0);
    hide Segments, CString, Agreement, CanonicalPath;
  }
}
