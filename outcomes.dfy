/** Results of the build script's steps: a value, or the reason the build aborts.
    Every `unwrap`, `expect`, `assert!` and `panic!` of the build script that the
    model keeps is one constructor of BuildError. */
module Outcomes {

  datatype Option<+T> = None | Some(value: T)

  datatype BuildError =
    | ProbeFailed        // pkg-config does not know tidy, or its version is below 5.2.0
    | NoIncludeDirs      // pkg-config reported zero include directories
    | NativeBuildFailed  // the cmake build of the bundled tidy-html5 sources failed
    | UnreadableEntry    // a glob entry that is an error or not valid UTF-8
    | EmptyRemainder     // nothing is left of a matched path once the prefix is trimmed
    | HeadersNotFound    // tidy.h or buffio.h was found under no search directory
    | GenerationFailed   // bindgen could not generate the bindings
    | PatternNotFound    // the generated bindings hold no `_TidyOption` struct to patch

  datatype Result<+T> = Ok(value: T) | Err(error: BuildError)
}
