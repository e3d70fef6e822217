/**
  next.config.ts: the base path the site is served under, whether the build
  is a static export, and the configuration object the two produce. The
  process environment is a parameter.
 */
module NextConfig {
  import opened Wrappers
  import Text

  /** The environment variables the configuration reads. */
  datatype Env = Env(nodeEnv: Option<string>, basePath: Option<string>)

  /** The webpack hook of the base configuration, which rebuilds
      `resolve.alias` as a copy of itself (or `{}`). */
  datatype WebpackHook = AliasCopy

  /** The configuration fields the file sets; `None` is an absent field. */
  datatype Config = Config(
    webpack: Option<WebpackHook>,
    output: Option<string>,
    trailingSlash: Option<bool>,
    imagesUnoptimized: Option<bool>,
    basePath: Option<string>,
    assetPrefix: Option<string>)

  const Production: string := "production"
  const ExportOutput: string := "export"

  /** `process.env.NEXT_PUBLIC_BASE_PATH?.trim() ?? ""`. */
  function RawBasePath(env: Env): string {
    if env.basePath.Some? then Text.Strip(env.basePath.value, Text.IsJsSpace) else []
  }

  /** `s.replace(/^\/|\/$/g, "")`: one leading and one trailing slash go,
      each only once, and a single `/` is both. */
  function StripSlashes(s: string): (r: string)
    ensures |s| - 2 <= |r| <= |s|
    ensures r <= (if |s| > 0 && s[0] == '/' then s[1..] else s)
  {
    var t := if |s| > 0 && s[0] == '/' then s[1..] else s;
    if |t| > 0 && t[|t| - 1] == '/' then t[..|t| - 1] else t
  }

  /** The base path: `/` followed by the stripped value, or nothing when
      stripping leaves nothing. */
  function NormalizedBasePath(env: Env): (r: Option<string>)
    ensures r.Some? ==> |r.value| >= 2 && r.value[0] == '/'
    ensures r.Some? ==> r.value[1..] == StripSlashes(RawBasePath(env))
  {
    var sanitized := StripSlashes(RawBasePath(env));
    if sanitized == [] then None else Some("/" + sanitized)
  }

  /** `shouldExport`: a production build with a base path. */
  predicate ShouldExport(env: Env) {
    env.nodeEnv == Some(Production) && NormalizedBasePath(env).Some?
  }

  const BaseConfig: Config := Config(Some(AliasCopy), None, None, None, None, None)

  /** The overrides of a static export under `basePath`. */
  function ExportOverrides(basePath: string): Config {
    Config(None, Some(ExportOutput), Some(true), Some(true), Some(basePath), Some(basePath))
  }

  /** A field of `{...base, ...over}`: the override when it has the field. */
  function Pick<T>(base: Option<T>, over: Option<T>): (r: Option<T>)
    ensures over.Some? ==> r == over
    ensures over.None? ==> r == base
  {
    if over.Some? then over else base
  }

  /** The object spread `{...base, ...over}`. */
  function Merge(base: Config, over: Config): Config {
    Config(
      Pick(base.webpack, over.webpack),
      Pick(base.output, over.output),
      Pick(base.trailingSlash, over.trailingSlash),
      Pick(base.imagesUnoptimized, over.imagesUnoptimized),
      Pick(base.basePath, over.basePath),
      Pick(base.assetPrefix, over.assetPrefix))
  }

  /** The exported configuration. */
  function FinalConfig(env: Env): (c: Config)
    ensures c.webpack == Some(AliasCopy)
    ensures ShouldExport(env) ==>
              && c.output == Some(ExportOutput)
              && c.trailingSlash == Some(true)
              && c.imagesUnoptimized == Some(true)
              && c.basePath == NormalizedBasePath(env)
              && c.assetPrefix == NormalizedBasePath(env)
    ensures !ShouldExport(env) ==> c == BaseConfig
  {
    if ShouldExport(env) then Merge(BaseConfig, ExportOverrides(NormalizedBasePath(env).value))
    else Merge(BaseConfig, Config(None, None, None, None, None, None))
  }

  /** Stripping gives nothing back exactly for ``, `/` and `//`. */
  lemma StripSlashesEmpty(s: string)
    ensures StripSlashes(s) == [] <==> s == [] || s == "/" || s == "//"
  {
    if |s| == 1 && s[0] == '/' {
      assert s == "/";
    } else if |s| == 2 && s[0] == '/' && s[1] == '/' {
      assert s == "//";
    }
  }

  /** There is no base path exactly when the trimmed variable is empty, `/`
      or `//`. */
  lemma NoBasePath(env: Env)
    ensures NormalizedBasePath(env).None? <==>
              var raw := RawBasePath(env);
              raw == [] || raw == "/" || raw == "//"
  {
    StripSlashesEmpty(RawBasePath(env));
  }

  /** A path written between slashes loses exactly those two slashes. */
  lemma StripSlashesWrapped(s: string)
    ensures StripSlashes("/" + s + "/") == s
  {
    var w := "/" + s + "/";
    assert w[1..] == s + "/";
    assert (s + "/")[..|s|] == s;
  }

  /** A path without a leading or trailing slash is left alone. */
  lemma StripSlashesPlain(s: string)
    requires |s| > 0 ==> s[0] != '/' && s[|s| - 1] != '/'
    ensures StripSlashes(s) == s
  {
  }

  /** `p`, `/p`, `p/` and `/p/` all strip to `p`. */
  lemma StripSlashesSpellings(p: string, lead: bool, trail: bool)
    requires |p| > 0 && p[0] != '/' && p[|p| - 1] != '/'
    ensures StripSlashes((if lead then "/" else "") + p + (if trail then "/" else "")) == p
  {
    var raw := (if lead then "/" else "") + p + (if trail then "/" else "");
    if lead && trail {
      StripSlashesWrapped(p);
    } else if lead {
      assert raw == "/" + p;
      assert raw[1..] == p;
    } else if trail {
      assert raw == p + "/";
      assert raw[..|raw| - 1] == p;
    } else {
      assert raw == p;
    }
  }

  /** `NEXT_PUBLIC_BASE_PATH` written as `p`, `/p`, `p/` or `/p/` (and with
      whitespace around it) gives the base path `/p`. */
  lemma BasePathSpellings(p: string, lead: bool, trail: bool, env: Env)
    requires |p| > 0 && p[0] != '/' && p[|p| - 1] != '/'
    requires env.basePath.Some?
    requires Text.Strip(env.basePath.value, Text.IsJsSpace) ==
               (if lead then "/" else "") + p + (if trail then "/" else "")
    ensures NormalizedBasePath(env) == Some("/" + p)
  {
    StripSlashesSpellings(p, lead, trail);
  }

  /** Only the first of several leading slashes goes: `//docs` keeps one. */
  lemma DoubleLeadingSlashKept(p: string, env: Env)
    requires |p| > 0 && p[|p| - 1] != '/'
    requires env.basePath.Some? && Text.Strip(env.basePath.value, Text.IsJsSpace) == "//" + p
    ensures NormalizedBasePath(env) == Some("//" + p)
  {
    var raw := RawBasePath(env);
    assert raw[1..] == "/" + p;
    assert "/" + ("/" + p) == "//" + p;
  }

  /** A static export happens exactly for a production build with a base
      path, and then serves assets from that base path too. */
  lemma ExportIffProductionWithBasePath(env: Env)
    ensures FinalConfig(env).output == Some(ExportOutput) <==>
              env.nodeEnv == Some(Production) && NormalizedBasePath(env).Some?
    ensures FinalConfig(env).output.Some? ==> FinalConfig(env).assetPrefix == FinalConfig(env).basePath
  {
  }

  /** Spreading an empty object changes nothing, and the spread with the
      overrides takes every field the overrides set. */
  lemma MergeOverlay(base: Config, over: Config)
    ensures Merge(base, Config(None, None, None, None, None, None)) == base
    ensures over.output.Some? ==> Merge(base, over).output == over.output
    ensures over.basePath.Some? ==> Merge(base, over).basePath == over.basePath
    ensures over.webpack.None? ==> Merge(base, over).webpack == base.webpack
  {
  }
}
