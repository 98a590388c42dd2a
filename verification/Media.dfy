/** The media types of modules, as the `deno_media_type` library names them. */
module Media {

  datatype MediaType =
    | JavaScript | Jsx | Mjs | Cjs
    | TypeScript | Mts | Cts | Tsx
    | Dts | Dmts | Dcts
    | Json | Wasm | TsBuildInfo | SourceMap
    | Unknown
}
