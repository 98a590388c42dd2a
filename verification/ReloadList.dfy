/**
 * `CacheSetting::ReloadSome`: which URLs a reload list refuses to answer from the cache
 * (`should_use_cache` in cli/file_fetcher.rs and `resolve_urls` in cli/args/flags.rs).
 *
 * A URL is its serialized text. The code walks it as a Unix `PathBuf`, so `Parent` follows
 * Rust's `Path::parent` on relative paths: trailing separators and `.` components are ignored.
 */
module ReloadList {
  import opened Wrappers

  /** The text before the first occurrence of `c`, as removing a fragment or query leaves it. */
  function CutAt(s: string, c: char): (r: string)
    ensures r <= s && c !in r
    ensures r == s || s[|r|] == c
  {
    if s == "" || s[0] == c then "" else [s[0]] + CutAt(s[1..], c)
  }

  predicate EndsWithSlash(s: string) {
    s != "" && s[|s| - 1] == '/'
  }

  /** Removes trailing separators and trailing `.` components. */
  function TrimRight(s: string): (r: string)
    ensures r <= s && !EndsWithSlash(r)
  {
    if EndsWithSlash(s) then TrimRight(s[..|s| - 1])
    else if |s| >= 2 && s[|s| - 2..] == "/." then TrimRight(s[..|s| - 1])
    else s
  }

  /** The text up to and including the last separator. */
  function DropLastComponent(s: string): (r: string)
    ensures r <= s
    ensures r == "" || EndsWithSlash(r)
    ensures forall i :: |r| <= i < |s| ==> s[i] != '/'
  {
    if s == "" || EndsWithSlash(s) then s else DropLastComponent(s[..|s| - 1])
  }

  function Parent(s: string): (r: Option<string>)
    ensures r.Some? ==> r.value <= s && |r.value| < |s|
  {
    var t := TrimRight(s);
    if t == "" then None else
      assert DropLastComponent(t) != t;
      Some(TrimRight(DropLastComponent(t)))
  }

  /** Some path on the way from `path` up to the empty path is listed. */
  predicate AncestorListed(list: seq<string>, path: string)
    decreases |path|
  {
    path in list ||
    match Parent(path)
    case None => false
    case Some(up) => AncestorListed(list, up)
  }

  predicate Refuses(list: seq<string>, url: string) {
    var noFragment := CutAt(url, '#');
    noFragment in list || AncestorListed(list, CutAt(noFragment, '?'))
  }

  /** `should_use_cache` under `ReloadSome`: pops the path until it is listed or empty. */
  method ShouldUseCache(list: seq<string>, url: string) returns (use: bool)
    ensures use == !Refuses(list, url)
  {
    var noFragment := CutAt(url, '#');
    if noFragment in list {
      return false;
    }
    var path := CutAt(noFragment, '?');
    while true
      invariant Refuses(list, url) == AncestorListed(list, path)
      decreases |path|
    {
      if path in list {
        return false;
      }
      match Parent(path) {
        case None => return true;
        case Some(up) => path := up;
      }
    }
  }

  // ---- What the walk means, without the walk ----

  /** `p` is `u` cut at a segment boundary (the empty text counts as a boundary). */
  predicate SegmentPrefix(p: string, u: string) {
    p == "" || (p <= u && !EndsWithSlash(p) && (|p| == |u| || u[|p|] == '/'))
  }

  predicate DotAt(u: string, i: nat)
    requires i < |u|
  {
    u[i] == '.' && (i == 0 || u[i - 1] == '/') && (i + 1 == |u| || u[i + 1] == '/')
  }

  /** No path component is a single dot; URL parsing removes them. */
  predicate NoDotSegment(u: string) {
    forall i: nat :: i < |u| ==> !DotAt(u, i)
  }

  lemma CutAtBoundary(s: string, r: string)
    requires NoDotSegment(s) && r <= s
    requires |r| == |s| || s[|r|] == '/' || EndsWithSlash(r)
    ensures NoDotSegment(r)
  {
    forall i: nat | i < |r| ensures !DotAt(r, i) {
      assert !DotAt(s, i);
    }
  }

  lemma {:induction false} TrimOnlySlashes(s: string)
    requires NoDotSegment(s)
    ensures forall i :: |TrimRight(s)| <= i < |s| ==> s[i] == '/'
    ensures NoDotSegment(TrimRight(s))
  {
    if EndsWithSlash(s) {
      var t := s[..|s| - 1];
      CutAtBoundary(s, t);
      TrimOnlySlashes(t);
      forall i | |TrimRight(s)| <= i < |s| ensures s[i] == '/' {
        assert i < |t| ==> t[i] == s[i];
      }
    } else {
      assert s != "" ==> !DotAt(s, |s| - 1);
      assert |s| >= 2 ==> s[|s| - 2..] == [s[|s| - 2], s[|s| - 1]];
    }
  }

  lemma {:induction false} SegmentPrefixStep(u: string, p: string)
    requires u != "" && !EndsWithSlash(u) && NoDotSegment(u)
    ensures TrimRight(u) == u
    ensures var up := TrimRight(DropLastComponent(u));
            NoDotSegment(up) && |up| < |u| && (SegmentPrefix(p, u) <==> p == u || SegmentPrefix(p, up))
  {
    TrimOnlySlashes(u);
    var d := DropLastComponent(u);
    assert NoDotSegment(d) by {
      if d != "" {
        CutAtBoundary(u, d);
      }
    }
    TrimOnlySlashes(d);
    var up := TrimRight(d);
    if SegmentPrefix(p, u) && p != u && p != "" {
      assert u[|p|] == '/' && |p| < |d|;
      assert d[|p| - 1] == p[|p| - 1] != '/';
      assert SegmentPrefix(p, up);
    }
    if SegmentPrefix(p, up) && p != "" {
      assert p <= u;
      if |p| == |up| {
        assert |up| < |d| && d[|up|] == '/';
      }
      assert SegmentPrefix(p, u);
    }
  }

  /** Climbing from a URL without a trailing separator meets exactly its whole-segment prefixes. */
  lemma {:induction false} AncestorsAreSegmentPrefixes(list: seq<string>, u: string)
    requires !EndsWithSlash(u) && NoDotSegment(u)
    ensures AncestorListed(list, u) <==> exists p :: p in list && SegmentPrefix(p, u)
    decreases |u|
  {
    if u != "" {
      var up := TrimRight(DropLastComponent(u));
      SegmentPrefixStep(u, "");
      assert Parent(u) == Some(up);
      AncestorsAreSegmentPrefixes(list, up);
      forall p ensures SegmentPrefix(p, u) <==> p == u || SegmentPrefix(p, up) {
        SegmentPrefixStep(u, p);
      }
    } else {
      assert Parent(u) == None;
      assert forall p :: SegmentPrefix(p, "") <==> p == "";
      if "" in list {
        assert SegmentPrefix("", u);
      }
    }
  }

  /**
   * The whole rule, for every list and URL: refused exactly when the list holds the URL without
   * its fragment, the URL without its query, or a whole-segment prefix of the URL shorn of
   * trailing separators, other than that shorn URL itself.
   */
  lemma RefusesExactly(list: seq<string>, url: string)
    requires NoDotSegment(CutAt(CutAt(url, '#'), '?'))
    ensures var full := CutAt(url, '#'); var u := CutAt(full, '?'); var t := TrimRight(u);
            Refuses(list, url) <==>
              full in list || u in list || exists p :: p in list && p != t && SegmentPrefix(p, t)
  {
    var u := CutAt(CutAt(url, '#'), '?');
    var t := TrimRight(u);
    TrimOnlySlashes(u);
    if t != "" {
      var up := TrimRight(DropLastComponent(t));
      SegmentPrefixStep(t, "");
      assert Parent(u) == Some(up);
      AncestorsAreSegmentPrefixes(list, up);
      forall p ensures SegmentPrefix(p, t) <==> p == t || SegmentPrefix(p, up) {
        SegmentPrefixStep(t, p);
      }
      assert !SegmentPrefix(t, up);
    } else {
      assert Parent(u) == None;
    }
  }

  /** For a URL with no empty last segment the rule is simply "a whole-segment prefix is listed". */
  lemma RefusesSegmentPrefixes(list: seq<string>, url: string)
    requires var u := CutAt(CutAt(url, '#'), '?'); NoDotSegment(u) && !EndsWithSlash(u)
    ensures Refuses(list, url) <==>
              CutAt(url, '#') in list ||
              exists p :: p in list && SegmentPrefix(p, CutAt(CutAt(url, '#'), '?'))
  {
    AncestorsAreSegmentPrefixes(list, CutAt(CutAt(url, '#'), '?'));
  }

  // ---- Entries as `resolve_urls` leaves them ----

  function NormalizeEntry(parsed: string): (r: string) {
    var full := CutAt(parsed, '#');
    if |full| > 1 && EndsWithSlash(full) then full[..|full| - 1] else full
  }

  /** `resolve_urls`: strips fragments and one trailing separator; a bad URL aborts. */
  method ResolveUrls(parse: string -> Option<string>, urls: seq<string>) returns (out: Option<seq<string>>)
    ensures out.None? <==> exists i :: 0 <= i < |urls| && parse(urls[i]).None?
    ensures out.Some? ==>
              (&& |out.value| == |urls|
               && forall i :: 0 <= i < |urls| ==>
                    parse(urls[i]).Some? && out.value[i] == NormalizeEntry(parse(urls[i]).value))
  {
    var acc: seq<string> := [];
    for k := 0 to |urls|
      invariant |acc| == k
      invariant forall i :: 0 <= i < k ==>
        parse(urls[i]).Some? && acc[i] == NormalizeEntry(parse(urls[i]).value)
    {
      match parse(urls[k]) {
        case None => return None;
        case Some(url) => acc := acc + [NormalizeEntry(url)];
      }
    }
    out := Some(acc);
  }

  /** `u` has text below the directory `e`, beyond separators. */
  predicate Below(e: string, u: string) {
    e <= u && |e| < |u| && u[|e|] == '/' && exists k :: |e| < k < |u| && u[k] != '/'
  }

  lemma BelowIsProperSegmentPrefix(e: string, u: string)
    requires e != "" && !EndsWithSlash(e) && NoDotSegment(u)
    ensures var t := TrimRight(u); Below(e, u) <==> e != t && SegmentPrefix(e, t)
  {
    var t := TrimRight(u);
    TrimOnlySlashes(u);
    if Below(e, u) {
      var k :| |e| < k < |u| && u[k] != '/';
      assert k < |t|;
      assert SegmentPrefix(e, t);
    }
    if e != t && SegmentPrefix(e, t) {
      assert u[|t| - 1] != '/';
      assert |e| < |t| - 1;
      assert Below(e, u);
    }
  }

  /**
   * What one reload entry covers: itself and, unless it ends in a separator, everything below it;
   * no sibling that merely shares its text, and not the directory URL `entry/` itself.
   */
  lemma EntryCovers(e: string, url: string)
    requires e != ""
    requires NoDotSegment(CutAt(CutAt(url, '#'), '?'))
    ensures var u := CutAt(CutAt(url, '#'), '?');
            Refuses([e], url) <==> CutAt(url, '#') == e || u == e || (!EndsWithSlash(e) && Below(e, u))
  {
    var u := CutAt(CutAt(url, '#'), '?');
    var t := TrimRight(u);
    RefusesExactly([e], url);
    if !EndsWithSlash(e) {
      BelowIsProperSegmentPrefix(e, u);
    }
    assert (exists p :: p in [e] && p != t && SegmentPrefix(p, t)) <==> e != t && SegmentPrefix(e, t) by {
      assert e in [e];
    }
  }

  lemma CutAbsent(s: string)
    requires '#' !in s && '?' !in s
    ensures CutAt(s, '#') == s && CutAt(s, '?') == s
  {
  }

  /**
   * The gap: for every entry made from a directory URL `e/` (say `http://h/std/`), that directory
   * URL itself is still answered from the cache, while everything below it is reloaded.
   */
  lemma DirectoryUrlEscapesItsOwnEntry(e: string, rest: string)
    requires e != "" && !EndsWithSlash(e) && '#' !in e && '?' !in e
    requires rest != "" && rest[0] != '/' && '#' !in rest && '?' !in rest
    requires NoDotSegment(e + "/" + rest)
    ensures NormalizeEntry(e + "/") == e
    ensures !Refuses([e], e + "/")
    ensures Refuses([e], e + "/" + rest)
  {
    var dir, file := e + "/", e + "/" + rest;
    CutAbsent(dir);
    CutAbsent(file);
    CutAtBoundary(file, dir);
    EntryCovers(e, dir);
    EntryCovers(e, file);
    assert file[|e| + 1] == rest[0];
  }

  /**
   * The other gap: only one trailing separator is stripped, so an entry made from `e//` still ends
   * in one, and reloads neither `e//` nor anything below it.
   */
  lemma TwoSlashesReloadNothingBelow(e: string, rest: string)
    requires e != "" && !EndsWithSlash(e) && '#' !in e && '?' !in e
    requires rest != "" && '#' !in rest && '?' !in rest && NoDotSegment(e + "/" + rest)
    ensures NormalizeEntry(e + "//") == e + "/"
    ensures Refuses([e + "/"], e + "/")
    ensures !Refuses([e + "/"], e + "/" + rest)
  {
    var dir, file := e + "/", e + "/" + rest;
    CutAbsent(e + "//");
    CutAbsent(dir);
    CutAbsent(file);
    assert (e + "//")[..|e| + 1] == dir;
    EntryCovers(dir, file);
  }
}
