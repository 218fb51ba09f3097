/** The host's path conventions, as `std::path` sees them. */
module Paths {

  /** The host the build script runs on. */
  datatype PathStyle = Unix | Windows

  /** `std::path::is_separator`. */
  predicate IsSeparator(style: PathStyle, c: char)
  {
    match style
    case Unix => c == '/'
    case Windows => c == '/' || c == '\\'
  }

  /** `std::path::MAIN_SEPARATOR`. */
  function MainSeparator(style: PathStyle): (c: char)
    ensures IsSeparator(style, c)
  {
    match style
    case Unix => '/'
    case Windows => '\\'
  }

  /** `PathBuf::push` of a relative component onto `base`: a separator is put between
      the two unless `base` is empty or already ends with one. */
  function JoinPath(style: PathStyle, base: string, name: string): (r: string)
    ensures |base| + |name| <= |r| <= |base| + |name| + 1
    ensures base <= r && r[|r| - |name|..] == name
    ensures |r| == |base| + |name| <==> base == [] || IsSeparator(style, base[|base| - 1])
    ensures |r| > |base| + |name| ==> r[|base|] == MainSeparator(style)
  {
    if base == [] || IsSeparator(style, base[|base| - 1]) then base + name
    else base + [MainSeparator(style)] + name
  }
}
