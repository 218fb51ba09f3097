/** `main` of tidy-sys/build.rs: locate tidy, resolve its two headers, write the
    wrapper, run bindgen, write the bindings and patch them (lines 52-150). */
module Pipeline {
  import opened Outcomes
  import opened Paths
  import opened Locator
  import opened Resolver
  import opened Wrapper
  import opened Patcher

  const RerunDirective: string := "cargo:rerun-if-changed=build.rs"

  /** What one run of the build script leaves behind: the reason it aborted (None when
      it finished), the `cargo:` directives build.rs itself printed (the crates it calls
      print lines of their own, which are not modelled), and the text it wrote to
      `$OUT_DIR/wrapper.h` and to `src/bindings.rs` (None: not written by this run). */
  datatype Run = Run(failure: Option<BuildError>, directives: seq<string>,
                     wrapperFile: Option<string>, bindingsFile: Option<string>)

  /** The run of `main`. `matches(dir, header)` stands for the items of the glob
      `dir/**/header`; `generate(wrapper, dir)` for bindgen run on the wrapper with
      `-I dir`, None when it fails. */
  function Build(strategy: Strategy, targetOs: string, style: PathStyle,
                 matches: (string, string) -> seq<Entry>,
                 generate: (string, string) -> Option<string>): (run: Run)
    ensures run.bindingsFile.Some? ==> run.wrapperFile.Some?
    ensures Locate(strategy, targetOs, style).Err? ==>
              run == Run(Some(Locate(strategy, targetOs, style).error), [], None, None)
    ensures run.failure.None? ==> run.bindingsFile.Some? && |run.directives| > 0 &&
                                  run.directives[|run.directives| - 1] == RerunDirective
  {
    match Locate(strategy, targetOs, style)
    case Err(e) => Run(Some(e), [], None, None)
    case Ok(loc) =>
      match ResolveAll(HeaderFiles, loc.dirs, matches, style)
      case Err(e) => Run(Some(e), loc.directives, None, None)
      case Ok(includes) =>
        if !(includes[0].Some? && includes[1].Some?) then
          Run(Some(HeadersNotFound), loc.directives, None, None)
        else
          var wrapper := WrapperText(includes[0].value, includes[1].value);
          match generate(wrapper, loc.dirs[0])
          case None => Run(Some(GenerationFailed), loc.directives, Some(wrapper), None)
          case Some(raw) =>
            match Patch(raw)
            case Err(e) => Run(Some(e), loc.directives, Some(wrapper), Some(raw))
            case Ok(patched) =>
              Run(None, loc.directives + [RerunDirective], Some(wrapper), Some(patched))
  }

  /** `main` step by step, with the header search run by the imperative resolver. */
  method RunBuild(strategy: Strategy, targetOs: string, style: PathStyle,
                  matches: (string, string) -> seq<Entry>,
                  generate: (string, string) -> Option<string>)
    returns (run: Run)
    ensures run == Build(strategy, targetOs, style, matches, generate)
  {
    var located := Locate(strategy, targetOs, style);
    if located.Err? {
      return Run(Some(located.error), [], None, None);
    }
    var loc := located.value;
    var resolved := ResolveIncludes(HeaderFiles, loc.dirs, matches, style);
    if resolved.Err? {
      return Run(Some(resolved.error), loc.directives, None, None);
    }
    var includes := resolved.value;
    if !(includes[0].Some? && includes[1].Some?) {
      return Run(Some(HeadersNotFound), loc.directives, None, None);
    }
    var wrapper := WrapperText(includes[0].value, includes[1].value);
    var generated := generate(wrapper, loc.dirs[0]);
    if generated.None? {
      return Run(Some(GenerationFailed), loc.directives, Some(wrapper), None);
    }
    var patched := Patch(generated.value);
    if patched.Err? {
      return Run(Some(patched.error), loc.directives, Some(wrapper), Some(generated.value));
    }
    return Run(None, loc.directives + [RerunDirective], Some(wrapper), Some(patched.value));
  }

  /** A finished run found both headers, each in the first directory where its glob
      matched, wrote the wrapper of those two includes, handed it to bindgen with the
      first search directory, and wrote bindgen's text with the struct patched. */
  lemma SuccessfulBuild(strategy: Strategy, targetOs: string, style: PathStyle,
                        matches: (string, string) -> seq<Entry>,
                        generate: (string, string) -> Option<string>)
    requires Build(strategy, targetOs, style, matches, generate).failure.None?
    ensures Locate(strategy, targetOs, style).Ok?
    ensures var loc := Locate(strategy, targetOs, style).value;
            var tidy := FirstInclude(loc.dirs, "tidy.h", matches, style);
            var buffio := FirstInclude(loc.dirs, "buffio.h", matches, style);
            var run := Build(strategy, targetOs, style, matches, generate);
            tidy.Ok? && tidy.value.Some? && buffio.Ok? && buffio.value.Some? &&
            var wrapper := WrapperText(tidy.value.value, buffio.value.value);
            run.wrapperFile == Some(wrapper) &&
            generate(wrapper, loc.dirs[0]).Some? &&
            Patch(generate(wrapper, loc.dirs[0]).value).Ok? &&
            run.bindingsFile == Some(Patch(generate(wrapper, loc.dirs[0]).value).value) &&
            run.directives == loc.directives + [RerunDirective]
  {
    var loc := Locate(strategy, targetOs, style).value;
    ResolveAllPerHeader(HeaderFiles, loc.dirs, matches, style);
  }

  /** A header that no search directory holds aborts the run before the wrapper is
      written or bindgen is consulted: the run is the same whatever bindgen would do. */
  lemma MissingHeaderAborts(strategy: Strategy, targetOs: string, style: PathStyle,
                            matches: (string, string) -> seq<Entry>,
                            generate: (string, string) -> Option<string>,
                            other: (string, string) -> Option<string>, header: string)
    requires Locate(strategy, targetOs, style).Ok?
    requires header in HeaderFiles
    requires forall dir :: dir in Locate(strategy, targetOs, style).value.dirs ==>
               matches(dir, header) == []
    ensures var run := Build(strategy, targetOs, style, matches, generate);
            run.failure.Some? && run.wrapperFile.None? && run.bindingsFile.None? &&
            run == Build(strategy, targetOs, style, matches, other)
    ensures (forall h :: h in HeaderFiles ==>
               FirstInclude(Locate(strategy, targetOs, style).value.dirs, h, matches, style).Ok?) ==>
            Build(strategy, targetOs, style, matches, generate).failure == Some(HeadersNotFound)
  {
    var dirs := Locate(strategy, targetOs, style).value.dirs;
    FirstIncludeIsFirstHit(dirs, header, matches, style);
    assert FirstInclude(dirs, header, matches, style) == Ok(None);
    ResolveAllPerHeader(HeaderFiles, dirs, matches, style);
    var k := if header == HeaderFiles[0] then 0 else 1;
    assert HeaderFiles[k] == header;
  }

  /** The `includes` array after the search, when both headers were found. */
  lemma BothHeadersResolved(dirs: seq<string>, matches: (string, string) -> seq<Entry>,
                            style: PathStyle, tidyInclude: string, buffioInclude: string)
    requires FirstInclude(dirs, "tidy.h", matches, style) == Ok(Some(tidyInclude))
    requires FirstInclude(dirs, "buffio.h", matches, style) == Ok(Some(buffioInclude))
    ensures ResolveAll(HeaderFiles, dirs, matches, style) ==
            Ok([Some(tidyInclude), Some(buffioInclude)])
  {
    ResolveAllPerHeader(HeaderFiles, dirs, matches, style);
    assert HeaderFiles[0] == "tidy.h" && HeaderFiles[1] == "buffio.h";
    var includes := ResolveAll(HeaderFiles, dirs, matches, style).value;
    assert |includes| == 2;
    assert includes == [Some(tidyInclude), Some(buffioInclude)];
  }

  /** bindgen failing on the wrapper of the two includes (the `expect` after
      `generate()`) aborts the run with `wrapper.h` written and `src/bindings.rs` not
      written, after the link directives only. */
  lemma GenerationFailureKeepsWrapper(strategy: Strategy, targetOs: string, style: PathStyle,
                                      matches: (string, string) -> seq<Entry>,
                                      generate: (string, string) -> Option<string>,
                                      tidyInclude: string, buffioInclude: string)
    requires Locate(strategy, targetOs, style).Ok?
    requires FirstInclude(Locate(strategy, targetOs, style).value.dirs, "tidy.h", matches, style)
             == Ok(Some(tidyInclude))
    requires FirstInclude(Locate(strategy, targetOs, style).value.dirs, "buffio.h", matches, style)
             == Ok(Some(buffioInclude))
    requires generate(WrapperText(tidyInclude, buffioInclude),
                      Locate(strategy, targetOs, style).value.dirs[0]) == None
    ensures Build(strategy, targetOs, style, matches, generate) ==
            Run(Some(GenerationFailed), Locate(strategy, targetOs, style).value.directives,
                Some(WrapperText(tidyInclude, buffioInclude)), None)
  {
    BothHeadersResolved(Locate(strategy, targetOs, style).value.dirs, matches, style,
                        tidyInclude, buffioInclude);
  }

  /** Once bindgen has produced `raw` from the wrapper of the two includes, the run
      aborts with `raw` left unpatched in `src/bindings.rs` when `raw` holds no
      `_TidyOption` struct, and otherwise finishes with exactly the leftmost-first
      match replaced. */
  lemma GeneratedBindingsPatched(strategy: Strategy, targetOs: string, style: PathStyle,
                                 matches: (string, string) -> seq<Entry>,
                                 generate: (string, string) -> Option<string>,
                                 tidyInclude: string, buffioInclude: string, raw: string)
    requires Locate(strategy, targetOs, style).Ok?
    requires FirstInclude(Locate(strategy, targetOs, style).value.dirs, "tidy.h", matches, style)
             == Ok(Some(tidyInclude))
    requires FirstInclude(Locate(strategy, targetOs, style).value.dirs, "buffio.h", matches, style)
             == Ok(Some(buffioInclude))
    requires generate(WrapperText(tidyInclude, buffioInclude),
                      Locate(strategy, targetOs, style).value.dirs[0]) == Some(raw)
    ensures Build(strategy, targetOs, style, matches, generate).wrapperFile ==
            Some(WrapperText(tidyInclude, buffioInclude))
    ensures (forall s: nat, e: nat :: !IsMatch(raw, s, e)) ==>
            Build(strategy, targetOs, style, matches, generate).failure == Some(PatternNotFound) &&
            Build(strategy, targetOs, style, matches, generate).bindingsFile == Some(raw)
    ensures forall s: nat, e: nat :: IsLeftmostFirst(raw, s, e) ==>
            Build(strategy, targetOs, style, matches, generate).failure.None? &&
            Build(strategy, targetOs, style, matches, generate).bindingsFile ==
            Some(raw[..s] + Replacement + raw[e..]) &&
            Build(strategy, targetOs, style, matches, generate).directives ==
            Locate(strategy, targetOs, style).value.directives + [RerunDirective]
  {
    BothHeadersResolved(Locate(strategy, targetOs, style).value.dirs, matches, style,
                        tidyInclude, buffioInclude);
    forall s: nat, e: nat | IsLeftmostFirst(raw, s, e)
      ensures Patch(raw) == Ok(raw[..s] + Replacement + raw[e..])
    {
      var s': nat, e': nat :| IsLeftmostFirst(raw, s', e') &&
                             Patch(raw).value == raw[..s'] + Replacement + raw[e'..];
      LeftmostFirstUnique(raw, s, e, s', e');
    }
  }

  /** A header at the top level of the only search directory resolves to its name. */
  lemma TopLevelHeader(matches: (string, string) -> seq<Entry>, dir: string, header: string)
    requires |header| + 1 < |dir|
    requires matches(dir, header) == [Path(dir + "/" + header)]
    ensures FirstInclude([dir], header, matches, Unix) == Ok(Some(header))
  {
    assert dir + "/" + header == dir + ['/'] + header;
    assert |['/'] + header| < |dir|;
    HeaderBelowDirectory(dir, '/', header, Unix);
  }

  /** A pkg-config install whose one include directory `/opt/lib/include` holds both
      headers at its top level: the wrapper is `#include <tidy.h>` then
      `#include <buffio.h>`, tidy is linked dynamically, and bindgen's text is written
      with its `_TidyOption` struct replaced. */
  lemma TopLevelInstall(matches: (string, string) -> seq<Entry>,
                        generate: (string, string) -> Option<string>,
                        targetOs: string, raw: string, s: nat, e: nat)
    requires matches("/opt/lib/include", "tidy.h") == [Path("/opt/lib/include/tidy.h")]
    requires matches("/opt/lib/include", "buffio.h") == [Path("/opt/lib/include/buffio.h")]
    requires generate("#include <tidy.h>\n#include <buffio.h>\n", "/opt/lib/include") == Some(raw)
    requires IsLeftmostFirst(raw, s, e)
    ensures Build(PkgConfig(Some(["/opt/lib/include"])), targetOs, Unix, matches, generate) ==
            Run(None, ["cargo:rustc-link-lib=tidy", "cargo:rerun-if-changed=build.rs"],
                Some("#include <tidy.h>\n#include <buffio.h>\n"),
                Some(raw[..s] + Replacement + raw[e..]))
  {
    var dir := "/opt/lib/include";
    var strategy := PkgConfig(Some([dir]));
    assert dir + "/" + "tidy.h" == "/opt/lib/include/tidy.h";
    assert dir + "/" + "buffio.h" == "/opt/lib/include/buffio.h";
    TopLevelHeader(matches, dir, "tidy.h");
    TopLevelHeader(matches, dir, "buffio.h");
    assert Locate(strategy, targetOs, Unix) == Ok(Located([dir], [DynamicLink]));
    TopLevelWrapper();
    GeneratedBindingsPatched(strategy, targetOs, Unix, matches, generate, "tidy.h", "buffio.h", raw);
    assert [DynamicLink] + [RerunDirective] ==
           ["cargo:rustc-link-lib=tidy", "cargo:rerun-if-changed=build.rs"];
  }
}
