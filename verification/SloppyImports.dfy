/**
 * Sloppy import probing (`SloppyImportsResolver` and `SloppyImportsStatCache` in cli/resolver.rs).
 *
 * Paths are Unix path strings, and file URLs stand for their paths. Media types come from a
 * library; `MediaTypes` models the one in use and shows that it meets what is asked here.
 */
module SloppyImports {
  import opened Media
  import opened Wrappers

  datatype Mode = Execution | Types
  datatype FsEntry = File | Dir
  type Fs = string -> Option<FsEntry>

  /** `OtherUrl` has another scheme, or is a file URL that names no path. */
  datatype Specifier = FileUrl(path: string) | OtherUrl(text: string)

  datatype Reason = JsToTs | NoExtension | Directory

  datatype Resolution = Unresolved(specifier: Specifier) | Resolved(reason: Reason, specifier: Specifier)

  /** The media type library: `from_specifier` on a path, and `as_ts_extension`. */
  datatype MediaLib = MediaLib(of: string -> MediaType, ext: MediaType -> string)

  predicate JsLike(t: MediaType) {
    t.JavaScript? || t.Mjs? || t.Cjs?
  }

  /** The types that appear in the probe tables. */
  predicate Probed(t: MediaType) {
    !(t.Json? || t.Wasm? || t.TsBuildInfo? || t.SourceMap? || t.Unknown?)
  }

  /** A path made by appending an extension is taken for JavaScript only if that was the type meant. */
  ghost predicate Lawful(lib: MediaLib) {
    forall base, t :: Probed(t) && JsLike(lib.of(base + lib.ext(t))) ==> lib.of(base + lib.ext(t)) == t
  }

  // ---- The probe tables ----

  /** Declarations that stand in for an existing JavaScript file, most specific first. */
  function Shadows(t: MediaType): seq<MediaType> {
    match t
    case JavaScript => [Dts]
    case Mjs => [Dmts, Dts]
    case Cjs => [Dcts, Dts]
    case _ => []
  }

  /** What to probe for a missing file of type `t`. */
  function MissingTable(t: MediaType, mode: Mode): seq<MediaType> {
    match t
    case JavaScript => if mode.Types? then [TypeScript, Tsx, Dts] else [TypeScript, Tsx]
    case Jsx => [Tsx]
    case Mjs => if mode.Types? then [Mts, Dmts, Dts] else [Mts]
    case Cjs => if mode.Types? then [Cts, Dcts, Dts] else [Cts]
    case Unknown =>
      if mode.Types?
      then [TypeScript, Tsx, Mts, Dts, Dmts, Dcts, JavaScript, Jsx, Mjs]
      else [TypeScript, JavaScript, Tsx, Jsx, Mts, Mjs]
    case _ => []
  }

  function IndexTable(mode: Mode): seq<MediaType> {
    if mode.Types?
    then [TypeScript, Mts, Dts, Dmts, JavaScript, Mjs, Tsx, Jsx]
    else [TypeScript, Mts, Tsx, JavaScript, Mjs, Jsx]
  }

  datatype Probe = Probe(path: string, reason: Reason)

  function PathWithoutExt(lib: MediaLib, path: string, t: MediaType): Option<string> {
    if t.Unknown? then Some(path)
    else
      var e := lib.ext(t);
      if |path| >= |e| && path[|path| - |e|..] == e then Some(path[..|path| - |e|]) else None
  }

  function ToProbes(lib: MediaLib, base: string, table: seq<MediaType>, reason: Reason): (probes: seq<Probe>)
    ensures |probes| == |table|
    ensures forall k :: 0 <= k < |table| ==> probes[k] == Probe(base + lib.ext(table[k]), reason)
  {
    seq(|table|, k requires 0 <= k < |table| => Probe(base + lib.ext(table[k]), reason))
  }

  function Join(path: string, name: string): string {
    if path != "" && path[|path| - 1] == '/' then path + name else path + "/" + name
  }

  function ProbesWithoutExt(lib: MediaLib, path: string, t: MediaType, table: seq<MediaType>, reason: Reason): seq<Probe> {
    match PathWithoutExt(lib, path, t)
    case None => []
    case Some(base) => ToProbes(lib, base, table, reason)
  }

  /** The paths to try, in order, given what the path itself is. */
  function Probes(lib: MediaLib, path: string, entry: Option<FsEntry>, mode: Mode): seq<Probe> {
    var t := lib.of(path);
    if entry == Some(File) then
      if mode.Types? && Shadows(t) != []
      then ProbesWithoutExt(lib, path, t, Shadows(t) + [t], JsToTs)
      else []
    else if MissingTable(t, mode) == [] then []
    else
      var reason := if t.Unknown? then NoExtension else JsToTs;
      ProbesWithoutExt(lib, path, t, MissingTable(t, mode), reason) +
      (if entry == Some(Dir) then ToProbes(lib, Join(path, "index"), IndexTable(mode), Directory) else [])
  }

  /** The first probe that is a file. */
  function FirstFile(fs: Fs, probes: seq<Probe>, specifier: Specifier): Resolution {
    if probes == [] then Unresolved(specifier)
    else if fs(probes[0].path) == Some(File) then Resolved(probes[0].reason, FileUrl(probes[0].path))
    else FirstFile(fs, probes[1..], specifier)
  }

  /** `resolve_with_stat_sync`. */
  function Resolve(lib: MediaLib, fs: Fs, specifier: Specifier, mode: Mode): Resolution {
    match specifier
    case OtherUrl(_) => Unresolved(specifier)
    case FileUrl(path) => FirstFile(fs, Probes(lib, path, fs(path), mode), specifier)
  }

  // ---- The stat cache ----

  class StatCache {
    const lib: MediaLib
    const fs: Fs
    var cache: map<string, Option<FsEntry>>

    /** Everything remembered is what the file system says. */
    predicate Valid()
      reads this
    {
      forall p :: p in cache ==> cache[p] == fs(p)
    }

    constructor (lib: MediaLib, fs: Fs)
      ensures Valid() && this.lib == lib && this.fs == fs && cache == map[]
    {
      this.lib := lib;
      this.fs := fs;
      cache := map[];
    }

    method StatSync(path: string) returns (entry: Option<FsEntry>)
      requires Valid()
      modifies this
      ensures Valid() && entry == fs(path)
      ensures cache == old(cache)[path := fs(path)]
    {
      if path in cache {
        entry := cache[path];
        assert cache == cache[path := entry];
      } else {
        entry := fs(path);
        cache := cache[path := entry];
      }
    }

    /** `SloppyImportsResolver::resolve`: cached stats answer as the file system would. */
    method ResolveCached(specifier: Specifier, mode: Mode) returns (r: Resolution)
      requires Valid()
      modifies this
      ensures Valid() && r == Resolve(lib, fs, specifier, mode)
      ensures forall p :: p in old(cache) ==> p in cache
    {
      match specifier
      case OtherUrl(_) => return Unresolved(specifier);
      case FileUrl(path) =>
        var entry := StatSync(path);
        var probes := Probes(lib, path, entry, mode);
        var k := 0;
        while k < |probes|
          invariant 0 <= k <= |probes| && Valid()
          invariant Resolve(lib, fs, specifier, mode) == FirstFile(fs, probes[k..], specifier)
          invariant forall p :: p in old(cache) ==> p in cache
        {
          var found := StatSync(probes[k].path);
          if found == Some(File) {
            return Resolved(probes[k].reason, FileUrl(probes[k].path));
          }
          assert probes[k..][1..] == probes[k + 1..];
          k := k + 1;
        }
        r := Unresolved(specifier);
    }
  }

  // ---- What is resolved ----

  /** The winning probe: a file, with no file before it; or none of the probes is a file. */
  lemma {:induction false} FirstFileIsFirst(fs: Fs, probes: seq<Probe>, specifier: Specifier) returns (k: nat)
    ensures k <= |probes| && forall j :: 0 <= j < k ==> fs(probes[j].path) != Some(File)
    ensures k == |probes| ==> FirstFile(fs, probes, specifier) == Unresolved(specifier)
    ensures k < |probes| ==>
              fs(probes[k].path) == Some(File) &&
              FirstFile(fs, probes, specifier) == Resolved(probes[k].reason, FileUrl(probes[k].path))
  {
    if probes == [] || fs(probes[0].path) == Some(File) {
      k := 0;
    } else {
      k := FirstFileIsFirst(fs, probes[1..], specifier);
      k := k + 1;
      assert forall j :: 0 < j < k ==> probes[j] == probes[1..][j - 1];
    }
  }

  /** Position `k` of a table is shadowed only by declarations listed before it. */
  predicate ShadowsBefore(table: seq<MediaType>, k: nat)
    requires k < |table|
  {
    forall d :: d in Shadows(table[k]) ==> d in table[..k]
  }

  /** A table that lists every declaration before the JavaScript it shadows. */
  predicate ShadowOrdered(table: seq<MediaType>) {
    forall k: nat :: k < |table| ==> ShadowsBefore(table, k)
  }

  lemma IndexTableIsOrdered()
    ensures ShadowOrdered(IndexTable(Types))
  {
    var table := IndexTable(Types);
    forall k: nat | k < |table| ensures ShadowsBefore(table, k) {
      assert k > 3 ==> table[..k][2] == Dts && table[..k][3] == Dmts;
    }
  }

  lemma MissingTableIsOrdered(t: MediaType)
    ensures ShadowOrdered(MissingTable(t, Types))
  {
    var table := MissingTable(t, Types);
    forall k: nat | k < |table| ensures ShadowsBefore(table, k) {
      assert t.Unknown? && k > 4 ==> table[..k][3] == Dts && table[..k][4] == Dmts;
    }
  }

  lemma ShadowTableIsOrdered(t: MediaType)
    ensures ShadowOrdered(Shadows(t) + [t])
  {
  }

  lemma StripAppended(lib: MediaLib, base: string, t: MediaType)
    requires Probed(t)
    ensures PathWithoutExt(lib, base + lib.ext(t), t) == Some(base)
  {
  }

  /** No declaration shadows the file `path`. */
  predicate Unshadowed(lib: MediaLib, fs: Fs, path: string) {
    var t := lib.of(path);
    var base := PathWithoutExt(lib, path, t);
    JsLike(t) && base.Some? ==> forall d :: d in Shadows(t) ==> fs(base.value + lib.ext(d)) != Some(File)
  }

  /** The first file of an ordered table has no shadow. */
  lemma OrderedTableUnshadowed(lib: MediaLib, fs: Fs, base: string, table: seq<MediaType>, k: nat)
    requires Lawful(lib) && ShadowOrdered(table) && k < |table| && Probed(table[k])
    requires forall j :: 0 <= j < k ==> fs(base + lib.ext(table[j])) != Some(File)
    ensures Unshadowed(lib, fs, base + lib.ext(table[k]))
  {
    var p := base + lib.ext(table[k]);
    if JsLike(lib.of(p)) {
      StripAppended(lib, base, table[k]);
      forall d | d in Shadows(table[k]) ensures fs(base + lib.ext(d)) != Some(File) {
        assert ShadowsBefore(table, k);
        var j :| 0 <= j < k && table[j] == d;
      }
    }
  }

  lemma {:induction false} UnshadowedFileStays(lib: MediaLib, fs: Fs, path: string)
    requires fs(path) == Some(File) && Unshadowed(lib, fs, path)
    ensures Resolve(lib, fs, FileUrl(path), Types).specifier == FileUrl(path)
  {
    var t := lib.of(path);
    var probes := Probes(lib, path, fs(path), Types);
    var base := PathWithoutExt(lib, path, t);
    var k := FirstFileIsFirst(fs, probes, FileUrl(path));
    if Shadows(t) != [] && base.Some? {
      var table := Shadows(t) + [t];
      assert probes == ToProbes(lib, base.value, table, JsToTs);
      assert base.value + lib.ext(t) == path;
      forall j | 0 <= j < |Shadows(t)| ensures fs(probes[j].path) != Some(File) {
        assert table[j] == Shadows(t)[j];
      }
      assert probes[|Shadows(t)|].path == path;
    }
  }

  lemma TablesAreProbed(t: MediaType, mode: Mode)
    ensures forall k :: 0 <= k < |MissingTable(t, mode)| ==> Probed(MissingTable(t, mode)[k])
    ensures forall k :: 0 <= k < |IndexTable(mode)| ==> Probed(IndexTable(mode)[k])
    ensures forall k :: 0 <= k < |Shadows(t)| ==> Probed(Shadows(t)[k])
  {
  }

  /** `r` names an existing file that no declaration shadows. */
  predicate Final(lib: MediaLib, fs: Fs, r: Resolution) {
    r.Resolved? ==>
      r.specifier.FileUrl? && fs(r.specifier.path) == Some(File) && Unshadowed(lib, fs, r.specifier.path)
  }

  /** An ordered table finds an unshadowed file. */
  lemma TableIsFinal(lib: MediaLib, fs: Fs, base: string, table: seq<MediaType>, reason: Reason, specifier: Specifier)
    requires Lawful(lib) && ShadowOrdered(table) && forall k :: 0 <= k < |table| ==> Probed(table[k])
    ensures Final(lib, fs, FirstFile(fs, ToProbes(lib, base, table, reason), specifier))
  {
    var probes := ToProbes(lib, base, table, reason);
    var k := FirstFileIsFirst(fs, probes, specifier);
    if k < |probes| {
      forall j | 0 <= j < k ensures fs(base + lib.ext(table[j])) != Some(File) {
        assert fs(probes[j].path) != Some(File);
      }
      OrderedTableUnshadowed(lib, fs, base, table, k);
    }
  }

  lemma {:induction false} FirstFileConcat(fs: Fs, a: seq<Probe>, b: seq<Probe>, specifier: Specifier)
    ensures var first := FirstFile(fs, a, specifier);
            FirstFile(fs, a + b, specifier) ==
              if first.Resolved? then first else FirstFile(fs, b, specifier)
  {
    if a == [] {
      assert a + b == b;
    } else {
      FirstFileConcat(fs, a[1..], b, specifier);
      assert (a + b)[1..] == a[1..] + b;
    }
  }

  lemma PrefixIsFinal(lib: MediaLib, fs: Fs, path: string, t: MediaType, table: seq<MediaType>, reason: Reason,
                      specifier: Specifier)
    requires Lawful(lib) && ShadowOrdered(table)
    requires lib.of(path) == t && forall k :: 0 <= k < |table| ==> Probed(table[k])
    ensures Final(lib, fs, FirstFile(fs, ProbesWithoutExt(lib, path, t, table, reason), specifier))
  {
    var base := PathWithoutExt(lib, path, t);
    if base.Some? {
      TableIsFinal(lib, fs, base.value, table, reason, specifier);
    }
  }

  /** In types mode whatever is resolved to is unshadowed, whichever table found it. */
  lemma ResolvedIsFinal(lib: MediaLib, fs: Fs, path: string)
    requires Lawful(lib)
    ensures Final(lib, fs, Resolve(lib, fs, FileUrl(path), Types))
  {
    var t, entry, specifier := lib.of(path), fs(path), FileUrl(path);
    TablesAreProbed(t, Types);
    if entry == Some(File) {
      if Shadows(t) != [] {
        ShadowTableIsOrdered(t);
        PrefixIsFinal(lib, fs, path, t, Shadows(t) + [t], JsToTs, specifier);
      }
    } else {
      MissingTableIsOrdered(t);
      IndexTableIsOrdered();
      var reason := if t.Unknown? then NoExtension else JsToTs;
      PrefixIsFinal(lib, fs, path, t, MissingTable(t, Types), reason, specifier);
      TableIsFinal(lib, fs, Join(path, "index"), IndexTable(Types), Directory, specifier);
      var index := if entry == Some(Dir) then ToProbes(lib, Join(path, "index"), IndexTable(Types), Directory) else [];
      FirstFileConcat(fs, ProbesWithoutExt(lib, path, t, MissingTable(t, Types), reason), index, specifier);
    }
  }

  lemma ResolvedIsFile(lib: MediaLib, fs: Fs, path: string, mode: Mode)
    ensures var r := Resolve(lib, fs, FileUrl(path), mode);
            if r.Resolved? then r.specifier.FileUrl? && fs(r.specifier.path) == Some(File)
            else r.specifier == FileUrl(path)
  {
    var k := FirstFileIsFirst(fs, Probes(lib, path, fs(path), mode), FileUrl(path));
  }

  /** Resolution is idempotent in both modes, for every file system and specifier. */
  lemma ResolveIsIdempotent(lib: MediaLib, fs: Fs, specifier: Specifier, mode: Mode)
    requires Lawful(lib)
    ensures var once := Resolve(lib, fs, specifier, mode).specifier;
            Resolve(lib, fs, once, mode).specifier == once
  {
    var r := Resolve(lib, fs, specifier, mode);
    if specifier.FileUrl? {
      ResolvedIsFile(lib, fs, specifier.path, mode);
      if r.Resolved? && mode.Types? {
        ResolvedIsFinal(lib, fs, specifier.path);
        UnshadowedFileStays(lib, fs, r.specifier.path);
      } else if r.Resolved? {
        assert Probes(lib, r.specifier.path, Some(File), mode) == [];
      }
    }
  }

  // ---- Why the tables have to be ordered ----

  function FirstPresent(table: seq<MediaType>, present: set<MediaType>): Option<MediaType> {
    if table == [] then None
    else if table[0] in present then Some(table[0])
    else FirstPresent(table[1..], present)
  }

  /** The pick of a table is one that types mode would not replace again. */
  predicate PickIsFinal(table: seq<MediaType>, present: set<MediaType>) {
    var pick := FirstPresent(table, present);
    pick.Some? ==> forall d :: d in Shadows(pick.value) ==> d !in present
  }

  lemma {:induction false} FirstPresentAt(table: seq<MediaType>, present: set<MediaType>) returns (k: nat)
    ensures k <= |table| && forall j :: 0 <= j < k ==> table[j] !in present
    ensures FirstPresent(table, present) == if k < |table| then Some(table[k]) else None
    ensures k < |table| ==> table[k] in present
  {
    if table == [] || table[0] in present {
      k := 0;
    } else {
      k := FirstPresentAt(table[1..], present);
      k := k + 1;
      assert forall j :: 0 < j < k ==> table[j] == table[1..][j - 1];
    }
  }

  /**
   * A table without repetitions gives final picks in every file system if and only if it lists
   * each declaration before the JavaScript type it shadows.
   */
  lemma OrderIsNecessary(table: seq<MediaType>)
    requires forall i, j :: 0 <= i < j < |table| ==> table[i] != table[j]
    ensures ShadowOrdered(table) <==> forall present: set<MediaType> :: PickIsFinal(table, present)
  {
    if ShadowOrdered(table) {
      forall present: set<MediaType> ensures PickIsFinal(table, present) {
        var k := FirstPresentAt(table, present);
        if k < |table| {
          assert ShadowsBefore(table, k);
        }
      }
    } else {
      var k: nat :| k < |table| && !ShadowsBefore(table, k);
      var d :| d in Shadows(table[k]) && d !in table[..k];
      var present := {table[k], d};
      var i := FirstPresentAt(table, present);
      assert forall j :: 0 <= j < k ==> table[j] in table[..k];
      assert i == k;
      assert !PickIsFinal(table, present);
    }
  }
}
