/** The synthetic `wrapper.h` that bindgen is pointed at (tidy-sys/build.rs lines
    104-108): one `#include <..>` line per resolved header. */
module Wrapper {
  import opened Outcomes
  import opened Strings

  const Directive: string := "#include <"

  /** The text `main` formats from the includes of tidy.h and buffio.h, in that order. */
  function WrapperText(tidyInclude: string, buffioInclude: string): (text: string)
    ensures |text| == 2 * |Directive| + |tidyInclude| + |buffioInclude| + 4
    ensures text[..|Directive|] == Directive
    ensures text[|Directive|..|Directive| + |tidyInclude|] == tidyInclude
    ensures text[|text| - |buffioInclude| - 2..] == buffioInclude + ">\n"
  {
    "#include <" + tidyInclude + ">\n#include <" + buffioInclude + ">\n"
  }

  /** The wrapper of two headers found at the top level of their search directory. */
  lemma TopLevelWrapper()
    ensures WrapperText("tidy.h", "buffio.h") == "#include <tidy.h>\n#include <buffio.h>\n"
  {
  }

  /** Reads a wrapper back: a sequence of `#include <X>` lines, each ended by a newline,
      where X runs up to the first `>` of its line. */
  function ParseIncludes(text: string): (r: Option<seq<string>>)
    decreases |text|
  {
    if text == [] then Some([])
    else if !(Directive <= text) then None
    else
      match FirstIndexOf(text, |Directive|, '>')
      case None => None
      case Some(close) =>
        if close + 1 < |text| && text[close + 1] == '\n' then
          match ParseIncludes(text[close + 2..])
          case None => None
          case Some(rest) => Some([text[|Directive|..close]] + rest)
        else None
  }

  /** One include line is read back as its include, ahead of what follows it. */
  lemma ParseIncludeLine(inc: string, rest: string)
    requires '>' !in inc
    ensures ParseIncludes(Directive + inc + ">\n" + rest) ==
            match ParseIncludes(rest)
            case None => None
            case Some(incs) => Some([inc] + incs)
  {
    var text := Directive + inc + ">\n" + rest;
    var close := |Directive| + |inc|;
    assert text[close] == '>';
    forall j | |Directive| <= j < close ensures text[j] != '>' {
      assert text[j] == inc[j - |Directive|];
    }
    assert FirstIndexOf(text, |Directive|, '>') == Some(close);
    assert text[|Directive|..close] == inc;
    assert text[close + 2..] == rest;
  }

  /** The wrapper holds exactly the two includes, tidy.h's first, whenever neither
      include contains the `>` that ends an include line. */
  lemma WrapperRoundTrip(tidyInclude: string, buffioInclude: string)
    requires '>' !in tidyInclude && '>' !in buffioInclude
    ensures ParseIncludes(WrapperText(tidyInclude, buffioInclude)) ==
            Some([tidyInclude, buffioInclude])
  {
    var second := Directive + buffioInclude + ">\n";
    assert WrapperText(tidyInclude, buffioInclude) ==
           Directive + tidyInclude + ">\n" + second;
    assert second == Directive + buffioInclude + ">\n" + [];
    assert ParseIncludes([]) == Some([]);
    ParseIncludeLine(buffioInclude, []);
    assert [buffioInclude] + [] == [buffioInclude];
    assert ParseIncludes(second) == Some([buffioInclude]);
    ParseIncludeLine(tidyInclude, second);
    assert [tidyInclude] + [buffioInclude] == [tidyInclude, buffioInclude];
  }
}
