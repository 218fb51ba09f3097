# tidy-sys build script, modelled in Dafny

`tidy-sys/build.rs` is the Cargo build script of the `tidy-sys` crate. It
gives Rust access to the HTML Tidy C library (tidy-html5). On each build it:

1. locates the library, either through pkg-config or by building the bundled
   `tidy-html5` sources with CMake, and prints the matching `cargo:` link
   directives;
2. for `tidy.h` and then for `buffio.h`, searches the include directories in
   order with the glob `dir/**/header`, stops at the first directory where
   the glob matches, and turns its first hit into an include name relative
   to that directory (`strip_to_include`);
3. aborts unless both headers were found;
4. writes a two-line `wrapper.h` of `#include <...>` lines;
5. runs bindgen on it, writes `src/bindings.rs`, and replaces the first
   `pub struct _TidyOption { ... }` block in it with a fixed three-field
   layout;
6. prints `cargo:rerun-if-changed=build.rs`.

The model is split into one module per stage:

- `Outcomes`: `Option`, `Result` and `BuildError`. Every `panic!`,
  `unwrap` and `assert!` of the script that the model keeps becomes one
  `BuildError` value. The ones it drops are listed under "Left out".
- `Strings`: Rust's `str::trim_start_matches`, with its repeated stripping,
  and a character search.
- `Paths`: the `std::path` separator test and `PathBuf::push`, for a Unix
  or a Windows host.
- `Locator`: the pkg-config and bundled strategies and the link directives
  each one prints.
- `Resolver`: `strip_to_include`, the per-header search over include
  directories, and the loop that fills the `includes` array.
- `Wrapper`: the text of `wrapper.h`, with a parser that reads it back.
- `Patcher`: the leftmost-first, non-greedy match of
  `(?s)pub struct _TidyOption \{.+?\}` and its replacement.
- `Pipeline`: `main` end to end. It returns the directives printed, the
  files left behind, and the error that stopped the run, if any.

Glob, bindgen and the pkg-config probe are outside the script, so the model
takes them as parameters:

- `matches(dir, header)` stands for the paths the glob `dir/**/header`
  yields, in order;
- `generate(wrapper, dir)` stands for bindgen's output when it is run on the
  wrapper text with `-I dir`, where `dir` is the first include directory
  (`includes_path[0]`). It is `None` when bindgen fails;
- the probe and the CMake install directory are fields of `Strategy`.

Three behaviours of the code are easy to misread. The model follows the
code in each case:

- `trim_start_matches` removes the directory as often as it repeats at the
  start of the path, not just once (see
  `Resolver.RepeatedDirectoryOverTrimmed`).
- Only one leading separator is dropped after that, so a doubled separator
  keeps its second half and the include starts with a separator (see
  `Resolver.SecondSeparatorKept`).
- `src/bindings.rs` already holds bindgen's unpatched output when the
  `assert!` at line 135 fails, so a run that aborts there leaves that file
  unpatched (see `Pipeline.GeneratedBindingsPatched`).

## Model

| member | source | states |
|---|---|---|
| Strings.TrimStartMatches | tidy-sys/build.rs:21 | for a non-empty prefix, the result no longer starts with that prefix |
| Strings.TrimStartMatchesDecomposes | tidy-sys/build.rs:21 | the input is some number of copies of the prefix followed by the trimmed result |
| Strings.TrimStartMatchesUnique | tidy-sys/build.rs:21 | any split into copies of the prefix plus a rest that does not start with the prefix gives exactly that rest |
| Strings.TrimStartMatchesIff | tidy-sys/build.rs:21 | trimming yields r if and only if the input is k copies of the prefix followed by r, and r does not start with the prefix (or the prefix is empty) |
| Paths.MainSeparator | tidy-sys/build.rs:70-72 | the separator `PathBuf::push` inserts is one the platform recognises |
| Paths.JoinPath | tidy-sys/build.rs:70-72 | pushing a component keeps the base as a prefix and the component as a suffix. Nothing is inserted exactly when the base is empty or already ends in a separator; otherwise exactly one character is inserted, and it is the platform's main separator |
| Locator.SearchDirective | tidy-sys/build.rs:64 | the bundled build's first directive is a native link-search directive for `<install>/lib`, and it links nothing |
| Locator.StaticDirective | tidy-sys/build.rs:65-69 | the static link directive names `tidy_static` exactly when the target OS is `windows`, and `tidy` otherwise |
| Locator.StaticLibName | tidy-sys/build.rs:65-69 | the static library is `tidy_static` exactly when the target OS is `windows`, and `tidy` otherwise |
| Locator.Locate | tidy-sys/build.rs:33-75 | pkg-config succeeds if and only if the probe succeeds with at least one include path; it then returns those paths, and build.rs itself prints only `cargo:rustc-link-lib=tidy`. A failed probe is `ProbeFailed` and an empty path list is `NoIncludeDirs`. The bundled build succeeds if and only if CMake installs, and fails with `NativeBuildFailed` otherwise. On success build.rs prints the link-search directive for `<install>/lib` and then the static link directive, and it searches only `<install>/include` |
| Locator.LinkedLibrary | tidy-sys/build.rs:43-69 | the link-lib directives that build.rs itself prints after a successful location name exactly one library: dynamic `tidy` under pkg-config, and when bundled, static `tidy_static` on windows or static `tidy` elsewhere |
| Resolver.IncludeOf | tidy-sys/build.rs:16-29 | an undecodable glob entry fails with `UnreadableEntry`, and any other failure is the `EmptyRemainder` panic |
| Resolver.IncludeOfIff | tidy-sys/build.rs:20-24 | a path yields include `inc` if and only if it is k copies of the directory, then at most one separator, then `inc`; the part after the copies does not start with the directory, and an unstripped `inc` does not start with a separator |
| Resolver.EmptyRemainderIff | tidy-sys/build.rs:21-22 | `strip_to_include` panics on a readable path exactly when the path is nothing but copies of the directory |
| Resolver.HeaderBelowDirectory | tidy-sys/build.rs:20-24 | a header found as `dir` + separator + `sub`, where `sub` does not start with `dir`, resolves to `sub` |
| Resolver.SecondSeparatorKept | tidy-sys/build.rs:21-24 | after the directory copies, two separators in a row lose only the first, so the include starts with a separator |
| Resolver.RepeatedDirectoryOverTrimmed | tidy-sys/build.rs:21 | `/x/x/tidy.h` under directory `/x` resolves to `tidy.h`: every copy of the directory is removed, not only the first |
| Resolver.StripToInclude | tidy-sys/build.rs:16-30 | no glob match gives `None`; otherwise the result is the include of the first match only, errors included |
| Resolver.FirstInclude | tidy-sys/build.rs:81-91 | the search for one header fails only with an error of `strip_to_include`: an unreadable entry or an empty remainder |
| Resolver.FirstIncludeIsFirstHit | tidy-sys/build.rs:81-91 | the search for one header gives `None` if and only if no directory has a match; otherwise the result comes from the first directory with a match, and earlier directories play no part |
| Resolver.ResolveAll | tidy-sys/build.rs:78-92 | a successful resolution has one slot per header |
| Resolver.ResolveAllPerHeader | tidy-sys/build.rs:78-92 | resolution succeeds if and only if every header's own search succeeds, and slot k holds header k's result |
| Resolver.ResolveAllFirstPanic | tidy-sys/build.rs:80-92 | a failed resolution reports the error of the first header whose search panics |
| Resolver.SearchHeader | tidy-sys/build.rs:81-91 | the inner loop writes `includes[i]` and nothing else; its panic or its stored value is that of the first directory with a match |
| Resolver.ResolveIncludes | tidy-sys/build.rs:77-92 | filling the `includes` array in place over the header list gives the same outcome as the per-header specification |
| Wrapper.WrapperText | tidy-sys/build.rs:104-108 | the text opens with `#include <` and the tidy.h include, ends with the buffio.h include and `>` and a newline, and has the length of exactly two such lines |
| Wrapper.WrapperRoundTrip | tidy-sys/build.rs:104-108 | the wrapper text reads back as exactly the two includes, in order, when neither contains `>` |
| Patcher.FindHeader | tidy-sys/build.rs:128 | finds the first occurrence of `pub struct _TidyOption {` at or after a position, or reports that there is none |
| Patcher.FindMatch | tidy-sys/build.rs:128 | whatever span it finds is a match of the pattern: the header, at least one character, then `}` |
| Patcher.FindMatchIsLeftmostFirst | tidy-sys/build.rs:128 | the match found is the leftmost-first match of the non-greedy pattern, and none is found only when the text has no match at all |
| Patcher.Patch | tidy-sys/build.rs:135-142 | the text fails with `PatternNotFound` if and only if it has no match; otherwise exactly the leftmost-first match is replaced by the fixed struct and the text around it is kept |
| Patcher.MatchStartsAtFirstHeader | tidy-sys/build.rs:128 | every leftmost-first match starts at the first occurrence of the struct header |
| Patcher.MatchEndsAtFirstBrace | tidy-sys/build.rs:128 | a leftmost-first match ends at the first `}` that leaves at least one character after the header |
| Patcher.LeftmostFirstUnique | tidy-sys/build.rs:128 | a text has at most one leftmost-first match |
| Pipeline.Build | tidy-sys/build.rs:52-150 | a failed location aborts the run with its error, before any directive is printed or any file written; `src/bindings.rs` is never written unless `wrapper.h` was written first; a run without error has written the bindings and its last directive is the rerun directive |
| Pipeline.RunBuild | tidy-sys/build.rs:52-150 | the imperative run, filling the `includes` array in place, agrees with the functional pipeline |
| Pipeline.SuccessfulBuild | tidy-sys/build.rs:58-147 | a run without error located the library, found both headers, and wrote the wrapper for the first hit of each; bindgen produced output that contained the pattern; `src/bindings.rs` holds the patched text, and the directives build.rs prints are its link directives followed by the rerun directive |
| Pipeline.MissingHeaderAborts | tidy-sys/build.rs:94-96 | when a header is missing, the run aborts before `wrapper.h` and writes no file; the outcome does not depend on the generator, and the error is `HeadersNotFound` unless a search panicked |
| Pipeline.BothHeadersResolved | tidy-sys/build.rs:77-92 | when the search finds both headers, the `includes` array holds exactly their two include names, tidy.h's first |
| Pipeline.GenerationFailureKeepsWrapper | tidy-sys/build.rs:94-122 | when both headers resolve but bindgen fails, the run aborts with `GenerationFailed`; `wrapper.h` holds the two include lines, `src/bindings.rs` is not written, and only the link directives were printed |
| Pipeline.GeneratedBindingsPatched | tidy-sys/build.rs:94-147 | once both headers resolve and bindgen succeeds, `wrapper.h` holds their include lines. Without a match the run fails with `PatternNotFound` and leaves bindgen's raw output in `src/bindings.rs`. With a match the run succeeds, that file holds the text with its leftmost-first match replaced, and the rerun directive follows the link directives build.rs prints |
| Pipeline.TopLevelInstall | tidy-sys/build.rs:33-147 | on Unix, a pkg-config probe reporting `/opt/lib/include` with both headers directly inside gives a wrapper including `tidy.h` and `buffio.h`, the patched bindings, and build.rs itself prints `cargo:rustc-link-lib=tidy` and then the rerun directive |

## Left out

- The workings of the crates the script calls (cmake, pkg_config, bindgen,
  glob and regex) are not modelled. For the cmake build of the bundled
  sources, only its outcome is: an install directory or a failure.
- The pkg-config probe is not modelled. That covers the
  `atleast_version("5.2.0")` comparison and the search for `tidy.pc`.
  `Locate` takes the probe's outcome: `None` for an error, otherwise the
  include paths.
- The `unimplemented!()` stub for a build without the `pkg-config` feature
  is never reached. The `cfg!` test picks the same branch as the attribute,
  so the stub is not modelled.
- Glob pattern syntax, directory traversal order and the
  `glob(...).unwrap()` of an invalid pattern are not modelled. `matches`
  gives the entries in the order glob yields them.
- The `unwrap` of a non-UTF-8 directory name is not modelled. Directory
  names are strings.
- `Paths.JoinPath` does not model how `PathBuf::push` handles an absolute
  component or a Windows drive or verbatim prefix. Pushing `dst` onto the
  empty `PathBuf` (line 71) gives `dst` itself, so `Locate` starts from it.
  The only component pushed after that is the relative `include`. The glob
  pattern `dir/**/header` (line 82) is not built as a path: `matches` takes
  the directory and the header name.
- `path::is_separator` is modelled for two fixed platforms: `/` on Unix,
  and `/` or `\` on Windows.
- Both `OUT_DIR` and `CARGO_CFG_TARGET_OS` are read with `unwrap`, which
  panics when Cargo does not set them. The model takes their values as
  parameters instead. Where `wrapper.h` sits under `OUT_DIR` is not modelled.
- bindgen's configuration is not modelled: `rustified_enum("^Tidy.*")`, the
  `^tidy.*` whitelists, `layout_tests(false)` and the Cargo callbacks. The
  generator parameter stands for all of it. Only the `-I` directory is
  passed to it.
- `directives` holds only the `println!` lines of build.rs itself. The
  `cargo:` lines that the pkg_config, cmake and bindgen crates print on
  their own are not modelled. Examples are the probe's own link lines,
  cmake's `cargo:root=`, and `CargoCallbacks`' `rerun-if-changed` line
  for each header.
- The I/O errors that `?` and the two `expect` calls raise on opening,
  reading or writing a file are not modelled. A failed `write_to_file` is
  one of them.
- The `Entry:` log line that `strip_to_include` prints is not modelled.
- The regex engine in general is not modelled. `Patcher` models the one
  fixed pattern, over characters: `(?s)` lets `.` match any character,
  newlines included.
- Any `cargo:` directive printed before a later panic is kept in the
  `directives` of the failed run. The model does not say whether Cargo
  acts on such directives.
