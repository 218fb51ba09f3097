/** The library locator: where tidy's headers are, and which `cargo:` link directives
    the build script announces on the way (tidy-sys/build.rs lines 32-75). */
module Locator {
  import opened Outcomes
  import opened Paths

  /** The strategy the `pkg-config` feature selects, with the outcome of the external
      tool it runs. */
  datatype Strategy =
      /** The include paths that `pkg-config` reports for tidy at least 5.2.0, or None
          when the probe fails. */
    | PkgConfig(probe: Option<seq<string>>)
      /** The install directory of the cmake build of the bundled tidy-html5 sources,
          or None when that build fails. */
    | Bundled(install: Option<string>)

  /** The search directories, in order, and the directives printed for cargo. */
  datatype Located = Located(dirs: seq<string>, directives: seq<string>)

  const DynamicLink: string := "cargo:rustc-link-lib=tidy"

  /** The native search path of the cmake install's libraries: a search directive,
      not a directive that links anything. */
  function SearchDirective(install: string): (d: string)
    ensures "cargo:rustc-link-search=native=" <= d && d[31..] == install + "/lib"
    ensures !("cargo:rustc-link-lib=" <= d)
  {
    var d := "cargo:rustc-link-search=native=" + install + "/lib";
    assert d[17] == 's' && "cargo:rustc-link-lib="[17] == 'l';
    d
  }

  /** The static library cmake builds: named differently for Windows targets. */
  function StaticLibName(targetOs: string): (name: string)
    ensures name == "tidy_static" <==> targetOs == "windows"
    ensures name != "tidy_static" ==> name == "tidy"
  {
    if targetOs == "windows" then "tidy_static" else "tidy"
  }

  /** The static link directive: `tidy_static` for a Windows target, `tidy` for any
      other. */
  function StaticDirective(targetOs: string): (d: string)
    ensures d == "cargo:rustc-link-lib=static=tidy_static" <==> targetOs == "windows"
    ensures targetOs != "windows" ==> d == "cargo:rustc-link-lib=static=tidy"
  {
    "cargo:rustc-link-lib=static=" + StaticLibName(targetOs)
  }

  /** The `pkg_config()` function and the `else` branch of `main` that builds the
      bundled sources. */
  function Locate(strategy: Strategy, targetOs: string, style: PathStyle): (r: Result<Located>)
    ensures r.Ok? ==> |r.value.dirs| > 0
    ensures strategy.PkgConfig? ==>
              (r.Ok? <==> strategy.probe.Some? && strategy.probe.value != []) &&
              (strategy.probe.None? ==> r == Err(ProbeFailed)) &&
              (strategy.probe == Some([]) ==> r == Err(NoIncludeDirs)) &&
              (r.Ok? ==> r.value.dirs == strategy.probe.value &&
                         r.value.directives == [DynamicLink])
    ensures strategy.Bundled? ==>
              (r.Ok? <==> strategy.install.Some?) &&
              (strategy.install.None? ==> r == Err(NativeBuildFailed)) &&
              (r.Ok? ==> r.value.dirs == [JoinPath(style, strategy.install.value, "include")] &&
                         r.value.directives == [SearchDirective(strategy.install.value),
                                                StaticDirective(targetOs)])
  {
    match strategy
    case PkgConfig(probe) =>
      if probe.None? then Err(ProbeFailed)
      else if |probe.value| == 0 then Err(NoIncludeDirs)
      else Ok(Located(probe.value, [DynamicLink]))
    case Bundled(install) =>
      if install.None? then Err(NativeBuildFailed)
      else
        var dst := install.value;
        Ok(Located([JoinPath(style, dst, "include")], [SearchDirective(dst), StaticDirective(targetOs)]))
  }

  /** The `cargo:rustc-link-lib=` directives among `ds`, in order. */
  function LinkLibDirectives(ds: seq<string>): seq<string>
  {
    if ds == [] then []
    else (if "cargo:rustc-link-lib=" <= ds[0] then [ds[0]] else []) + LinkLibDirectives(ds[1..])
  }

  /** The search-path directive of the bundled build is no link directive. */
  lemma BundledLinkLibs(install: string, targetOs: string)
    ensures LinkLibDirectives([SearchDirective(install), StaticDirective(targetOs)]) ==
            [StaticDirective(targetOs)]
  {
    var ds := [SearchDirective(install), StaticDirective(targetOs)];
    assert ds[1..] == [StaticDirective(targetOs)];
    assert LinkLibDirectives(ds[1..][1..]) == [];
  }

  /** Exactly one library is linked: dynamically when pkg-config found it, statically
      (as `tidy_static` exactly on Windows targets) when it was built from source. */
  lemma LinkedLibrary(strategy: Strategy, targetOs: string, style: PathStyle)
    requires Locate(strategy, targetOs, style).Ok?
    ensures LinkLibDirectives(Locate(strategy, targetOs, style).value.directives) ==
            if strategy.PkgConfig? then ["cargo:rustc-link-lib=tidy"]
            else ["cargo:rustc-link-lib=static=" + (if targetOs == "windows" then "tidy_static" else "tidy")]
  {
    if strategy.Bundled? {
      BundledLinkLibs(strategy.install.value, targetOs);
    } else {
      assert LinkLibDirectives([DynamicLink][1..]) == [];
    }
  }
}
