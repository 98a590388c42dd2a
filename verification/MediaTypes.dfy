/**
 * Media types by file extension, as the `deno_media_type` library assigns them
 * (`MediaType::from_specifier` and `as_ts_extension`).
 */
module MediaTypes {
  import opened Media
  import opened SloppyImports

  /** `as_ts_extension`. */
  function Ext(t: MediaType): string {
    match t
    case JavaScript => ".js"
    case Jsx => ".jsx"
    case Mjs => ".mjs"
    case Cjs => ".cjs"
    case TypeScript => ".ts"
    case Mts => ".mts"
    case Cts => ".cts"
    case Tsx => ".tsx"
    case Dts => ".d.ts"
    case Dmts => ".d.mts"
    case Dcts => ".d.cts"
    case Json => ".json"
    case TsBuildInfo => ".tsbuildinfo"
    case Wasm | SourceMap | Unknown => ".js"
  }

  function TrimSlashes(path: string): string {
    if |path| > 1 && path[|path| - 1] == '/' then TrimSlashes(path[..|path| - 1]) else path
  }

  /** The index of the last dot of the file name, or -1. */
  function LastDot(path: string): (i: int)
    ensures -1 <= i < |path|
  {
    if path == "" || path[|path| - 1] == '/' then -1
    else if path[|path| - 1] == '.' then |path| - 1
    else LastDot(path[..|path| - 1])
  }

  /** The extension without its dot; a leading dot of the file name does not start one. */
  function Extension(path: string): string {
    var p := TrimSlashes(path);
    var dot := LastDot(p);
    if dot <= 0 || p[dot - 1] == '/' then "" else p[dot + 1..]
  }

  function LowerChar(c: char): char {
    if 'A' <= c <= 'Z' then (c as int + 32) as char else c
  }

  function Lower(s: string): (r: string)
    ensures |r| == |s| && forall i :: 0 <= i < |s| ==> r[i] == LowerChar(s[i])
  {
    seq(|s|, i requires 0 <= i < |s| => LowerChar(s[i]))
  }

  predicate IsDeclaration(path: string) {
    var p := TrimSlashes(path);
    var dot := LastDot(p);
    dot >= 2 && Lower(p[dot - 2..dot]) == ".d"
  }

  /** `MediaType::from_specifier` on a file URL. */
  function FromSpecifier(path: string): MediaType {
    var e := Lower(Extension(path));
    if e == "js" then JavaScript
    else if e == "jsx" then Jsx
    else if e == "mjs" then Mjs
    else if e == "cjs" then Cjs
    else if e == "ts" then if IsDeclaration(path) then Dts else TypeScript
    else if e == "mts" then if IsDeclaration(path) then Dmts else Mts
    else if e == "cts" then if IsDeclaration(path) then Dcts else Cts
    else if e == "tsx" then Tsx
    else if e == "json" then Json
    else if e == "wasm" then Wasm
    else if e == "tsbuildinfo" then TsBuildInfo
    else if e == "map" then SourceMap
    else Unknown
  }

  lemma {:induction false} LastDotAppend(base: string, e: string)
    requires forall i :: 0 <= i < |e| ==> e[i] != '.' && e[i] != '/'
    ensures LastDot(base + "." + e) == |base|
  {
    var s := base + "." + e;
    if e == "" {
      assert s[|s| - 1] == '.';
    } else {
      assert s[..|s| - 1] == base + "." + e[..|e| - 1];
      LastDotAppend(base, e[..|e| - 1]);
    }
  }

  /** The extension after the last dot of a media type. */
  function Tail(t: MediaType): string {
    match t
    case Dts => "ts"
    case Dmts => "mts"
    case Dcts => "cts"
    case _ => Ext(t)[1..]
  }

  lemma ExtensionAppend(stem: string, e: string)
    requires e != "" && forall i :: 0 <= i < |e| ==> e[i] != '.' && e[i] != '/'
    ensures Extension(stem + "." + e) == "" || Extension(stem + "." + e) == e
  {
    var p := stem + "." + e;
    LastDotAppend(stem, e);
    assert p[|p| - 1] == e[|e| - 1];
    assert TrimSlashes(p) == p;
    assert p[|stem| + 1..] == e;
  }

  lemma ExtensionOfProbe(base: string, t: MediaType)
    ensures Extension(base + Ext(t)) == "" || Extension(base + Ext(t)) == Tail(t)
  {
    var stem := if t.Dts? || t.Dmts? || t.Dcts? then base + ".d" else base;
    assert base + Ext(t) == stem + "." + Tail(t);
    ExtensionAppend(stem, Tail(t));
  }

  lemma LowerTail(t: MediaType)
    requires Probed(t)
    ensures Lower(Tail(t)) == Tail(t) && Lower("") == ""
  {
  }

  lemma MediaOfProbe(base: string, t: MediaType)
    requires Probed(t) && JsLike(FromSpecifier(base + Ext(t)))
    ensures FromSpecifier(base + Ext(t)) == t
  {
    ExtensionOfProbe(base, t);
    LowerTail(t);
  }

  const STANDARD := MediaLib(FromSpecifier, Ext)

  /** The standard media types meet what the resolver needs of them. */
  lemma StandardIsLawful()
    ensures Lawful(STANDARD)
  {
    forall base, t | Probed(t) && JsLike(STANDARD.of(base + STANDARD.ext(t)))
      ensures STANDARD.of(base + STANDARD.ext(t)) == t
    {
      MediaOfProbe(base, t);
    }
  }

  /** So sloppy resolution with the standard media types is idempotent, in both modes. */
  lemma StandardResolveIsIdempotent(fs: Fs, specifier: Specifier, mode: Mode)
    ensures var once := Resolve(STANDARD, fs, specifier, mode).specifier;
            Resolve(STANDARD, fs, once, mode).specifier == once
  {
    StandardIsLawful();
    ResolveIsIdempotent(STANDARD, fs, specifier, mode);
  }
}
