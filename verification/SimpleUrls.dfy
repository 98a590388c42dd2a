/**
 * A small URL library for http(s) texts, after section 5.2 of RFC 3986: scheme, authority, and a
 * path with dot segments removed. It shows that the laws asked of a URL library can be met, and
 * serves for concrete redirects. Queries, percent encoding and host parsing are left out.
 */
module SimpleUrls {
  import opened Wrappers
  import opened FileFetcher
  import opened Location

  /** The text before the first slash. */
  function Authority(s: string): (r: string)
    ensures r <= s
  {
    if s == "" || s[0] == '/' then "" else [s[0]] + Authority(s[1..])
  }

  /** The pieces between slashes. */
  function Segments(path: string): (r: seq<string>)
    ensures r != []
  {
    if path == "" then [""]
    else if path[0] == '/' then [""] + Segments(path[1..])
    else
      var rest := Segments(path[1..]);
      [[path[0]] + rest[0]] + rest[1..]
  }

  /** Section 5.2.4 of RFC 3986, over segments; a final dot segment leaves a trailing slash. */
  function RemoveDots(kept: seq<string>, rest: seq<string>): seq<string>
    decreases |rest|
  {
    if rest == [] then kept
    else if rest[0] == "." then
      if |rest| == 1 then kept + [""] else RemoveDots(kept, rest[1..])
    else if rest[0] == ".." then
      var up := if kept == [] then [] else kept[..|kept| - 1];
      if |rest| == 1 then up + [""] else RemoveDots(up, rest[1..])
    else RemoveDots(kept + [rest[0]], rest[1..])
  }

  function Rooted(segments: seq<string>): string {
    if segments == [] then "" else "/" + segments[0] + Rooted(segments[1..])
  }

  /** A rooted path without dot segments. */
  function Clean(path: string): (r: string)
    ensures StartsWith(r, "/")
  {
    var segments := RemoveDots([], Segments(if StartsWith(path, "/") then path[1..] else path));
    if segments == [] then "/" else Rooted(segments)
  }

  function Scheme(url: Url): string {
    if StartsWith(url.text, "http://") then "http" else if StartsWith(url.text, "https://") then "https" else ""
  }

  /** The length of the scheme and the two slashes. */
  function Start(url: Url): (n: nat)
    ensures n <= |url.text|
  {
    if Scheme(url) == "" then 0 else |Scheme(url)| + 3
  }

  /** The first `n` characters and the authority after them. */
  function UpToPath(text: string, n: nat): (r: string)
    requires n <= |text|
    ensures r <= text && text[..n] <= r
  {
    assert text == text[..n] + text[n..];
    text[..n] + Authority(text[n..])
  }

  /** Scheme and authority. */
  function Root(url: Url): (r: string)
    ensures r <= url.text && url.text[..Start(url)] <= r
  {
    UpToPath(url.text, Start(url))
  }

  function Path(url: Url): (r: string)
    ensures StartsWith(r, "/")
  {
    var rest := url.text[|Root(url)|..];
    if StartsWith(rest, "/") then rest else "/"
  }

  function ParseText(text: string): Parse {
    var url := Url(text);
    if Scheme(url) == "" then Relative else Parsed(Url(Root(url) + Clean(Path(url))))
  }

  function Joined(base: Url, loc: string): Option<Url> {
    if StartsWith(loc, "//") then ParsedUrl(ParseText(Scheme(base) + ":" + loc))
    else if StartsWith(loc, "/") then Some(Url(Root(base) + Clean(loc)))
    else Some(Url(Root(base) + Clean(Directory(Path(base)) + "/" + loc)))
  }

  const SIMPLE := UrlLib(ParseText, Joined, Scheme, Path)

  /** A text that begins like a URL has its scheme. */
  lemma RootKeepsScheme(url: Url, rest: string)
    requires Scheme(url) != ""
    ensures Scheme(Url(Root(url) + rest)) == Scheme(url)
  {
    var scheme := Scheme(url) + "://";
    assert scheme <= url.text && scheme <= Root(url) <= Root(url) + rest;
    assert scheme[4] == (if Scheme(url) == "http" then ':' else 's');
  }

  lemma ParsedIsWeb(text: string)
    requires ParseText(text).Parsed?
    ensures Web(SIMPLE, ParseText(text).url)
  {
    RootKeepsScheme(Url(text), Clean(Path(Url(text))));
  }

  lemma JoinedIsWeb(base: Url, loc: string)
    requires Web(SIMPLE, base) && StartsWith(loc, "/") && Joined(base, loc).Some?
    ensures Web(SIMPLE, Joined(base, loc).value)
  {
    if StartsWith(loc, "//") {
      ParsedIsWeb(Scheme(base) + ":" + loc);
    } else {
      RootKeepsScheme(base, Clean(loc));
    }
  }

  lemma OneSlash(path: string, loc: string)
    requires StartsWith(path, "/") && !StartsWith(path, "//") && Dotted(loc)
    ensures StartsWith(Directory(path) + "/" + loc, "/") && !StartsWith(Directory(path) + "/" + loc, "//")
  {
    DirectoryKeepsStart(path);
    var dir := Directory(path) + "/";
    assert loc[0] == '.' && (dir + loc)[0] == dir[0];
    assert (dir + loc)[1] == if |dir| > 1 then dir[1] else loc[0];
  }

  lemma DottedIsBeside(base: Url, loc: string)
    requires Web(SIMPLE, base) && !Doubled(SIMPLE, base) && Dotted(loc)
    ensures Joined(base, loc) == Joined(base, Beside(SIMPLE, base, loc))
  {
    OneSlash(Path(base), loc);
    assert loc[0] == '.';
  }

  /** The laws asked of a URL library can be met. */
  lemma SimpleIsLawful()
    ensures Lawful(SIMPLE)
  {
    forall loc | HasImportPrefix(loc) ensures ParseText(loc) == Relative {
      assert loc[0] == '/' || loc[0] == '.';
    }
    forall loc | Absolute(loc) && ParseText(loc).Parsed? ensures Web(SIMPLE, ParseText(loc).url) {
      ParsedIsWeb(loc);
    }
    forall base, loc | Web(SIMPLE, base) && StartsWith(loc, "/") && Joined(base, loc).Some?
      ensures Web(SIMPLE, Joined(base, loc).value)
    {
      JoinedIsWeb(base, loc);
    }
    forall base, loc | Web(SIMPLE, base) && !Doubled(SIMPLE, base) && Dotted(loc)
      ensures Joined(base, loc) == Joined(base, Beside(SIMPLE, base, loc))
    {
      DottedIsBeside(base, loc);
    }
  }

  // ---- Two redirects that are not read back ----

  lemma {:induction false} AuthorityOf(host: string, path: string)
    requires '/' !in host && StartsWith(path, "/")
    ensures Authority(host + path) == host
  {
    if host != "" {
      AuthorityOf(host[1..], path);
      assert (host + path)[1..] == host[1..] + path;
      assert [host[0]] + host[1..] == host;
    } else {
      assert host + path == path;
    }
  }

  function At(host: string, path: string): Url {
    Url("http://" + host + path)
  }

  lemma PartsOf(host: string, path: string)
    requires '/' !in host && StartsWith(path, "/")
    ensures var url := At(host, path);
            Scheme(url) == "http" && Root(url) == "http://" + host && Path(url) == path
  {
    var url := At(host, path);
    assert url.text[7..] == host + path;
    AuthorityOf(host, path);
    assert url.text[..7] == "http://" <= url.text;
    assert url.text[|"http://" + host|..] == path;
  }

  predicate Segment(s: string) {
    s != "" && s != "." && s != ".." && '/' !in s
  }

  lemma {:induction false} SegmentsOf(first: string, rest: string)
    requires '/' !in first
    ensures Segments(first) == [first]
    ensures Segments(first + "/" + rest) == [first] + Segments(rest)
  {
    if first == "" {
      assert first + "/" + rest == ['/'] + rest;
    } else {
      SegmentsOf(first[1..], rest);
      assert (first + "/" + rest)[1..] == first[1..] + "/" + rest;
      assert [first[0]] + first[1..] == first;
    }
  }

  lemma {:induction false} DirectoryOf(dir: string, name: string)
    requires '/' !in name
    ensures Directory(dir + "/" + name) == dir
  {
    var path := dir + "/" + name;
    assert path[|dir|] == '/';
    if name == "" {
      assert path[..|path| - 1] == dir;
    } else {
      DirectoryOf(dir, name[..|name| - 1]);
      assert path[..|path| - 1] == dir + "/" + name[..|name| - 1];
    }
  }

  lemma {:induction false} CleanIs(path: string, segments: seq<string>)
    requires segments != [] && RemoveDots([], Segments(path)) == segments
    ensures Clean("/" + path) == Rooted(segments)
  {
    assert ("/" + path)[1..] == path;
  }

  lemma RemovedLast(kept: seq<string>, x: string)
    requires x != "." && x != ".."
    ensures RemoveDots(kept, [x]) == kept + [x]
  {
    assert [x][1..] == [];
  }

  lemma RemovedDot(kept: seq<string>, rest: seq<string>)
    requires rest != []
    ensures RemoveDots(kept, ["."] + rest) == RemoveDots(kept, rest)
  {
    assert (["."] + rest)[1..] == rest;
  }

  lemma CleanOne(x: string)
    requires Segment(x)
    ensures Clean("/" + x) == "/" + x && Clean("/./" + x) == "/" + x
  {
    SegmentsOf(x, "");
    SegmentsOf(".", x);
    RemovedDot([], [x]);
    RemovedLast([], x);
    CleanIs(x, [x]);
    CleanIs("." + "/" + x, [x]);
    assert "/" + ("." + "/" + x) == "/./" + x;
    assert Rooted([x]) == "/" + x;
  }

  lemma RemovedNone(kept: seq<string>, x: string, rest: seq<string>)
    requires x != "." && x != ".."
    ensures RemoveDots(kept, [x] + rest) == RemoveDots(kept + [x], rest)
  {
    assert ([x] + rest)[1..] == rest;
  }

  lemma RootedThree(a: string, b: string, c: string)
    ensures Rooted([a, b, c]) == "/" + a + "/" + b + "/" + c
  {
    assert [a, b, c][1..] == [b, c] && [b, c][1..] == [c];
    assert Rooted([c]) == "/" + c;
    assert Rooted([b, c]) == "/" + b + "/" + c;
  }

  // ---- Dotted locations on paths with two leading slashes, exactly ----

  predicate SlashFree(segments: seq<string>) {
    forall i :: 0 <= i < |segments| ==> '/' !in segments[i]
  }

  lemma {:induction false} SegmentsAreSlashFree(path: string)
    ensures SlashFree(Segments(path))
  {
    if path != "" {
      SegmentsAreSlashFree(path[1..]);
    }
  }

  lemma {:induction false} RemoveDotsKeeps(kept: seq<string>, rest: seq<string>)
    requires SlashFree(kept) && SlashFree(rest)
    ensures SlashFree(RemoveDots(kept, rest)) && (rest != [] ==> RemoveDots(kept, rest) != [])
    decreases |rest|
  {
    if |rest| > 0 {
      var up := if kept == [] then [] else kept[..|kept| - 1];
      if rest[0] == "." {
        RemoveDotsKeeps(kept, rest[1..]);
      } else if rest[0] == ".." {
        RemoveDotsKeeps(up, rest[1..]);
      } else {
        RemoveDotsKeeps(kept + [rest[0]], rest[1..]);
        if |rest| == 1 {
          assert rest[1..] == [];
        }
      }
    }
  }

  lemma {:induction false} RootedStep(first: string, rest: seq<string>)
    requires rest != []
    ensures Rooted(rest) != "" && Rooted([first] + rest) != ""
    ensures Rooted([first] + rest)[1..] == first + "/" + Rooted(rest)[1..]
  {
    assert ([first] + rest)[1..] == rest;
    var whole, part := Rooted([first] + rest), Rooted(rest);
    assert whole == "/" + first + part;
    assert part == "/" + part[1..] by {
      assert part == "/" + (rest[0] + Rooted(rest[1..]));
    }
    assert whole[1..] == first + part;
  }

  /** Rooted paths of segments can be taken apart again. */
  lemma {:induction false} SegmentsOfRooted(segments: seq<string>)
    requires segments != [] && SlashFree(segments)
    ensures Rooted(segments) != "" && Segments(Rooted(segments)[1..]) == segments
  {
    if |segments| == 1 {
      assert segments[1..] == [];
      SegmentsOf(segments[0], "");
      assert Rooted(segments)[1..] == segments[0];
    } else {
      var rest := segments[1..];
      SegmentsOfRooted(rest);
      RootedStep(segments[0], rest);
      SegmentsOf(segments[0], Rooted(rest)[1..]);
      assert segments == [segments[0]] + rest;
    }
  }

  /** How many segments below its own `rest` climbs out of, when `own` of its own are left. */
  function Climbs(own: nat, rest: seq<string>): nat
    decreases |rest|
  {
    if rest == [] then 0
    else if rest[0] == "." then Climbs(own, rest[1..])
    else if rest[0] == ".." then
      if own == 0 then 1 + Climbs(0, rest[1..]) else Climbs(own - 1, rest[1..])
    else Climbs(own + 1, rest[1..])
  }

  function DropLast<T>(s: seq<T>, n: nat): seq<T> {
    s[..if n <= |s| then |s| - n else 0]
  }

  lemma ClimbsLast(below: seq<string>, own: seq<string>, rest: seq<string>)
    requires rest != [] && rest[0] == "."
    ensures |rest| == 1 ==>
              RemoveDots(below + own, rest) == DropLast(below, Climbs(|own|, rest)) + RemoveDots(own, rest)
  {
    if |rest| == 1 {
      assert rest[1..] == [];
      assert below + own + [""] == below + (own + [""]);
    }
  }

  /** What is below is cut by as much as `rest` climbs, and otherwise left alone. */
  lemma {:induction false} RemoveDotsBelow(below: seq<string>, own: seq<string>, rest: seq<string>)
    ensures RemoveDots(below + own, rest) == DropLast(below, Climbs(|own|, rest)) + RemoveDots(own, rest)
    decreases |rest|
  {
    if rest != [] {
      if rest[0] == "." {
        ClimbsLast(below, own, rest);
        RemoveDotsBelow(below, own, rest[1..]);
      } else if rest[0] == ".." {
        PopBelow(below, own, rest);
      } else {
        assert below + own + [rest[0]] == below + (own + [rest[0]]);
        RemoveDotsBelow(below, own + [rest[0]], rest[1..]);
      }
    }
  }

  lemma PopBelow(below: seq<string>, own: seq<string>, rest: seq<string>)
    requires rest != [] && rest[0] == ".."
    ensures RemoveDots(below + own, rest) == DropLast(below, Climbs(|own|, rest)) + RemoveDots(own, rest)
    decreases |rest|, 0
  {
    var less := if own == [] then DropLast(below, 1) else below;
    var up := DropLast(own, 1);
    assert DropLast(below + own, 1) == less + up;
    if |rest| == 1 {
      assert rest[1..] == [];
      assert less + up + [""] == less + (up + [""]);
    } else {
      RemoveDotsBelow(less, up, rest[1..]);
      if own == [] {
        assert DropLast(less, Climbs(0, rest[1..])) == DropLast(below, 1 + Climbs(0, rest[1..]));
      }
    }
  }

  /** A path prefixed with two segments cleans to the same exactly when it climbs out of both. */
  lemma SamePathExactly(a: string, rest: seq<string>)
    requires '/' !in a && rest != [] && SlashFree(rest)
    ensures Rooted(RemoveDots(["", a], rest)) == Rooted(RemoveDots([], rest)) <==> Climbs(0, rest) >= 2
  {
    var below, short, long := ["", a], RemoveDots([], rest), RemoveDots(["", a], rest);
    RemoveDotsBelow(below, [], rest);
    assert below + [] == below;
    assert long == DropLast(below, Climbs(0, rest)) + short;
    RemoveDotsKeeps([], rest);
    RemoveDotsKeeps(below, rest);
    SegmentsOfRooted(short);
    SegmentsOfRooted(long);
    if Climbs(0, rest) >= 2 {
      assert DropLast(below, Climbs(0, rest)) == [];
      assert long == short;
    } else {
      assert |long| > |short|;
    }
  }

  lemma {:induction false} AuthoritySplits(s: string)
    requires '/' in s
    ensures '/' !in Authority(s) && |Authority(s)| < |s|
    ensures s == Authority(s) + "/" + s[|Authority(s)| + 1..]
  {
    if s[0] != '/' {
      AuthoritySplits(s[1..]);
    }
  }

  lemma ParsedAt(a: string, q: string)
    requires '/' !in a
    ensures ParseText(At(a, "/" + q).text) == Parsed(At(a, Rooted(RemoveDots([], Segments(q)))))
  {
    PartsOf(a, "/" + q);
    SegmentsAreSlashFree(q);
    RemoveDotsKeeps([], Segments(q));
    CleanIs(q, RemoveDots([], Segments(q)));
  }

  /** What the network path makes of a text that begins with two slashes. */
  lemma NetworkReads(base: Url, a: string, q: string)
    requires Scheme(base) == "http" && '/' !in a
    ensures Joined(base, "//" + a + "/" + q) == Some(At(a, Rooted(RemoveDots([], Segments(q)))))
  {
    assert "http" + ":" + ("//" + a + "/" + q) == At(a, "/" + q).text;
    ParsedAt(a, q);
  }

  lemma SegmentsDoubled(a: string, q: string)
    requires '/' !in a
    ensures Segments("/" + a + "/" + q) == [""] + ([a] + Segments(q))
  {
    SegmentsOf("", a + "/" + q);
    SegmentsOf(a, q);
    assert "/" + a + "/" + q == "" + "/" + (a + "/" + q);
  }

  lemma TwoKept(a: string, rest: seq<string>)
    requires Segment(a)
    ensures RemoveDots([], [""] + ([a] + rest)) == RemoveDots(["", a], rest)
  {
    var none: seq<string> := [];
    RemovedNone(none, "", [a] + rest);
    RemovedNone([""], a, rest);
    assert none + [""] == [""] && [""] + [a] == ["", a];
  }

  lemma RemovedDoubled(a: string, q: string)
    requires Segment(a)
    ensures RemoveDots([], Segments("/" + a + "/" + q)) == RemoveDots(["", a], Segments(q)) != []
  {
    SegmentsDoubled(a, q);
    TwoKept(a, Segments(q));
    SegmentsAreSlashFree(q);
    RemoveDotsKeeps(["", a], Segments(q));
  }

  lemma {:induction false} CleanDoubled(a: string, q: string)
    requires Segment(a)
    ensures Clean("//" + a + "/" + q) == Rooted(RemoveDots(["", a], Segments(q)))
  {
    RemovedDoubled(a, q);
    CleanIs("/" + a + "/" + q, RemoveDots(["", a], Segments(q)));
    assert "/" + ("/" + a + "/" + q) == "//" + a + "/" + q;
  }

  /** The cached path stays on the host. */
  lemma CacheReads(h: string, base: Url, loc: string)
    requires Root(base) == "http://" + h && Dotted(loc)
    ensures Joined(base, loc) == Some(At(h, Clean(Beside(SIMPLE, base, loc))))
  {
    assert loc[0] == '.';
  }

  lemma AtDiffers(h: string, p: string, a: string, r: string)
    requires '/' !in h && '/' !in a && StartsWith(p, "/") && StartsWith(r, "/")
    ensures At(h, p) == At(a, r) <==> h == a && p == r
  {
    PartsOf(h, p);
    PartsOf(a, r);
    assert ("http://" + a)[7..] == a && ("http://" + h)[7..] == h;
  }

  lemma RootedStarts(kept: seq<string>, rest: seq<string>)
    requires SlashFree(kept) && SlashFree(rest) && rest != []
    ensures StartsWith(Rooted(RemoveDots(kept, rest)), "/")
  {
    RemoveDotsKeeps(kept, rest);
  }

  lemma ReadsBackExactly(h: string, base: Url, loc: string, a: string, q: string)
    requires Segment(h) && '/' !in a && Dotted(loc)
    requires Doubled(SIMPLE, base) && Scheme(base) == "http" && Root(base) == "http://" + h
    requires Beside(SIMPLE, base, loc) == "//" + a + "/" + q
    ensures ReadsBack(SIMPLE, base, loc) <==> a == h && Climbs(0, Segments(q)) >= 2
  {
    var there := Rooted(RemoveDots([], Segments(q)));
    NetworkReads(base, a, q);
    CacheReads(h, base, loc);
    SegmentsAreSlashFree(q);
    RootedStarts([], Segments(q));
    AtDiffers(h, Clean("//" + a + "/" + q), a, there);
    if a == h {
      CleanDoubled(a, q);
      SamePathExactly(a, Segments(q));
    }
    assert ReadsBack(SIMPLE, base, loc) <==> Joined(base, loc) == Joined(base, "//" + a + "/" + q);
  }

  /** The text that the source builds, without its two slashes. */
  function AfterSlashes(base: Url, loc: string): string {
    var beside := Beside(SIMPLE, base, loc);
    if |beside| < 2 then beside else beside[2..]
  }

  lemma BesideIsDoubled(path: string, loc: string)
    requires StartsWith(path, "//") && Dotted(loc)
    ensures var beside := Directory(path) + "/" + loc;
            && StartsWith(beside, "//") && '/' in beside[2..]
  {
    DirectoryKeepsStart(path);
    var dir := Directory(path) + "/";
    assert dir + loc == Directory(path) + "/" + loc;
    assert '/' in loc by {
      assert loc[1] == '/' || loc[2] == '/';
    }
    assert (dir + loc)[2..] == dir[2..] + loc;
  }

  lemma AfterSlashesSplits(beside: string, tail: string)
    requires StartsWith(beside, "//") && tail == beside[2..] && '/' in tail
    ensures '/' !in Authority(tail) && |Authority(tail)| < |tail|
    ensures beside == "//" + Authority(tail) + "/" + tail[|Authority(tail)| + 1..]
  {
    AuthoritySplits(tail);
    var a, q := Authority(tail), tail[|Authority(tail)| + 1..];
    assert beside == "//" + (a + "/" + q) == "//" + a + "/" + q;
  }

  /**
   * Exactly when a dotted location on a path with two leading slashes reads back. The network takes
   * the first segment `a` of the text that the source builds for the host. It reads back when that
   * is the host of the base, and the rest of the text climbs out of both leading segments.
   */
  lemma DoubledSlashExactly(h: string, path: string, loc: string)
    requires Segment(h) && StartsWith(path, "//") && Dotted(loc)
    ensures var base := At(h, path);
            var tail := AfterSlashes(base, loc);
            var a := Authority(tail);
            && |a| < |tail|
            && (ReadsBack(SIMPLE, base, loc) <==> a == h && Climbs(0, Segments(tail[|a| + 1..])) >= 2)
  {
    var base := At(h, path);
    PartsOf(h, path);
    BesideIsDoubled(path, loc);
    var tail := AfterSlashes(base, loc);
    AfterSlashesSplits(Beside(SIMPLE, base, loc), tail);
    ReadsBackExactly(h, base, loc, Authority(tail), tail[|Authority(tail)| + 1..]);
  }

  lemma BesideDoubled(h: string, a: string, b: string, loc: string)
    requires '/' !in h && Segment(b)
    ensures var base := At(h, "//" + a + "/" + b);
            && Scheme(base) == "http" && Root(base) == "http://" + h && Path(base) == "//" + a + "/" + b
            && Doubled(SIMPLE, base) && Beside(SIMPLE, base, loc) == "//" + a + "/" + loc
  {
    PartsOf(h, "//" + a + "/" + b);
    DirectoryOf("//" + a, b);
  }

  lemma DotAndOne(kept: seq<string>, x: string)
    requires Segment(x)
    ensures RemoveDots(kept, ["."] + [x]) == kept + [x]
    ensures kept == [] ==> kept + [x] == [x]
  {
    RemovedDot(kept, [x]);
    RemovedLast(kept, x);
  }

  lemma SegmentsDot(x: string)
    requires '/' !in x
    ensures Segments("./" + x) == ["."] + [x]
  {
    SegmentsOf(".", x);
    SegmentsOf(x, "");
    assert "." + "/" + x == "./" + x;
  }

  lemma {:induction false} DottedAlone(x: string)
    requires Segment(x)
    ensures Rooted(RemoveDots([], Segments("./" + x))) == "/" + x
  {
    SegmentsDot(x);
    DotAndOne([], x);
    assert Rooted([x]) == "/" + x;
  }

  lemma {:induction false} DottedBelow(a: string, x: string)
    requires Segment(x)
    ensures Rooted(RemoveDots(["", a], Segments("./" + x))) == "//" + a + "/" + x
  {
    SegmentsDot(x);
    DotAndOne(["", a], x);
    RootedThree("", a, x);
    assert "/" + "" + "/" + a + "/" + x == "//" + a + "/" + x;
  }

  /**
   * Such a location is misread in particular when the first segment is not the host, as `./x` is at
   * `http://h//a/b`: the network goes to the host `a`, the cached path stays on `h`.
   */
  lemma DoubledSlashIsMisread(h: string, a: string, b: string, x: string)
    requires Segment(h) && Segment(a) && Segment(b) && Segment(x) && h != a
    ensures var base := At(h, "//" + a + "/" + b);
            && !ReadsBack(SIMPLE, base, "./" + x)
            && ResolveLocation(SIMPLE, base, "./" + x) == Some(At(a, "/" + x))
            && ResolveImport(SIMPLE, base, "./" + x) == Some(At(h, "//" + a + "/" + x))
  {
    var base, loc := At(h, "//" + a + "/" + b), "./" + x;
    BesideDoubled(h, a, b, loc);
    ReadsBackExactly(h, base, loc, a, loc);
    NetworkReads(base, a, loc);
    CacheReads(h, base, loc);
    CleanDoubled(a, loc);
    DottedAlone(x);
    DottedBelow(a, x);
    assert loc[0] == '.';
  }

  lemma ClimbsTwo(x: string)
    requires Segment(x)
    ensures Climbs(0, [".."] + ([".."] + [x])) == 2
  {
    var one, two := [".."] + [x], [".."] + ([".."] + [x]);
    assert [x][1..] == [] && one[1..] == [x] && two[1..] == one;
    assert Climbs(0, [x]) == 0;
    assert Climbs(0, one) == 1;
  }

  lemma SegmentsUpTwo(x: string)
    requires '/' !in x
    ensures Segments("../../" + x) == [".."] + ([".."] + [x])
  {
    var up := ".." + "/" + x;
    SegmentsOf(x, "");
    SegmentsOf("..", x);
    SegmentsOf("..", up);
    assert ".." + "/" + up == "../../" + x;
  }

  /** It reads back by coincidence where the rest climbs far enough, as `../../x` does at `http://h//h/b`. */
  lemma DoubledSlashCoincides(h: string, b: string, x: string)
    requires Segment(h) && Segment(b) && Segment(x)
    ensures ReadsBack(SIMPLE, At(h, "//" + h + "/" + b), "../../" + x)
  {
    var loc := "../../" + x;
    BesideDoubled(h, h, b, loc);
    SegmentsUpTwo(x);
    ClimbsTwo(x);
    assert loc[..3] == "../";
    ReadsBackExactly(h, At(h, "//" + h + "/" + b), loc, h, loc);
  }

  lemma BesideSibling(url: Url, a: string, x: string)
    requires Path(url) == "/" + a && Segment(a)
    ensures Beside(SIMPLE, url, x) == "/" + x
  {
    DirectoryOf("", a);
    assert "" + "/" + a == "/" + a;
  }

  lemma JoinedSibling(url: Url, h: string, x: string)
    requires Root(url) == "http://" + h && Segment(x)
    ensures Joined(url, "/" + x) == Some(At(h, "/" + x))
  {
    assert ("/" + x)[1] == x[0] != '/';
    CleanOne(x);
  }

  lemma SiblingOf(h: string, a: string, x: string)
    requires '/' !in h && Segment(a) && Segment(x) && a != x && Bare(x)
    ensures var url := At(h, "/" + a);
            && ParseText(x) == Relative && At(h, "/" + x) != url
            && ResolveLocation(SIMPLE, url, x) == Some(At(h, "/" + x))
  {
    PartsOf(h, "/" + a);
    PartsOf(h, "/" + x);
    assert ("/" + x)[1..] == x && ("/" + a)[1..] == a;
    BesideSibling(At(h, "/" + a), a, x);
    JoinedSibling(At(h, "/" + a), h, x);
  }

  /** A redirect from `http://h/a` to a sibling `x` without `./` downloads, and cannot be replayed. */
  lemma BareRedirectIsLost(h: string, a: string, x: string) returns (env: Env)
    requires '/' !in h && Segment(a) && Segment(x) && a != x
    requires Bare(x)
    ensures var url := At(h, "/" + a);
            var run := FetchRemote(env, map[], url, None, Use, 10, 0);
            && run.result.Success?
            && FetchCached(env, run.cache, url, None, 10) == Failure(BadLocation)
  {
    SiblingOf(h, a, x);
    env := BareRedirectFails(SIMPLE, At(h, "/" + a), x, At(h, "/" + x));
  }

  // ---- The same at concrete URLs ----

  lemma DoubledSlashExample() returns (base: Url, loc: string)
    ensures base == Url("http://h//a/b") && loc == "./x"
    ensures ResolveLocation(SIMPLE, base, loc) == Some(Url("http://a/x"))
    ensures ResolveImport(SIMPLE, base, loc) == Some(Url("http://h//a/x"))
  {
    var h, a, b, x := "h", "a", "b", "x";
    base, loc := At(h, "//" + a + "/" + b), "./" + x;
    assert base == Url("http://h//a/b") && loc == "./x";
    assert At(a, "/" + x) == Url("http://a/x") && At(h, "//" + a + "/" + x) == Url("http://h//a/x");
    assert h[0] != a[0];
    DoubledSlashIsMisread(h, a, b, x);
  }

  lemma BareRedirectExample() returns (url: Url, env: Env)
    ensures url == Url("http://h/a.js")
    ensures var run := FetchRemote(env, map[], url, None, Use, 10, 0);
            run.result.Success? && FetchCached(env, run.cache, url, None, 10) == Failure(BadLocation)
  {
    var h, a, x := "h", "a.js", "b.js";
    url := At(h, "/" + a);
    assert url == Url("http://h/a.js");
    assert a[0] != x[0];
    env := BareRedirectIsLost(h, a, x);
  }
}
