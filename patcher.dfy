/** The layout patch of the generated bindings (tidy-sys/build.rs lines 128-142): the
    first match of `(?s)pub struct _TidyOption \{.+?\}` is replaced by a fixed struct. */
module Patcher {
  import opened Outcomes
  import opened Strings

  /** The literal start of the pattern, up to and including its `{`. */
  const Header: string := "pub struct _TidyOption {"

  /** `new_val`: the portable declaration put in place of bindgen's own. It holds no
      `$`, so `Regex::replace` inserts it as it stands. */
  const Replacement: string :=
    " pub struct _TidyOption {\n" +
    "        pub TidyOptionId: ::std::os::raw::c_int,\n" +
    "        pub TidyConfigCategory: TidyConfigCategory,\n" +
    "        pub name: ctmbstr,\n" +
    "    }"

  /** A half-open range `[start, end)` of the bindings text. */
  datatype Span = Span(start: nat, end: nat)

  predicate HeaderAt(t: string, i: nat)
  {
    i + |Header| <= |t| && t[i..i + |Header|] == Header
  }

  /** `t[s..e]` is a word of the pattern: the header, at least one character of any
      kind (newlines included, by `(?s)`), then a `}`. */
  predicate IsMatch(t: string, s: nat, e: nat)
  {
    HeaderAt(t, s) && s + |Header| + 2 <= e <= |t| && t[e - 1] == '}'
  }

  /** The match a leftmost-first engine reports for a lazy `.+?`: it starts as far left
      as any match does, and of the matches there it is the shortest. */
  ghost predicate IsLeftmostFirst(t: string, s: nat, e: nat)
  {
    IsMatch(t, s, e) &&
    (forall s': nat, e': nat :: IsMatch(t, s', e') ==> s <= s') &&
    (forall e': nat :: IsMatch(t, s, e') ==> e <= e')
  }

  /** The first occurrence of the header at or after `from`. */
  function FindHeader(t: string, from: nat): (r: Option<nat>)
    ensures r.Some? ==> from <= r.value && HeaderAt(t, r.value) &&
                        forall j: nat :: from <= j < r.value ==> !HeaderAt(t, j)
    ensures r.None? ==> forall j: nat :: from <= j ==> !HeaderAt(t, j)
    decreases |t| - from
  {
    if from + |Header| > |t| then None
    else if t[from..from + |Header|] == Header then Some(from)
    else FindHeader(t, from + 1)
  }

  /** `Regex::find` for the pattern: the first header, closed by the first `}` that
      comes at least one character after its `{`. */
  function FindMatch(t: string): (r: Option<Span>)
    ensures r.Some? ==> IsMatch(t, r.value.start, r.value.end)
  {
    match FindHeader(t, 0)
    case None => None
    case Some(s) =>
      match FirstIndexOf(t, s + |Header| + 1, '}')
      case None => None
      case Some(close) => Some(Span(s, close + 1))
  }

  /** FindMatch against the pattern's leftmost-first semantics: it finds nothing exactly
      when nothing matches, and what it finds is the leftmost-first match. */
  lemma FindMatchIsLeftmostFirst(t: string)
    ensures FindMatch(t).Some? ==> IsLeftmostFirst(t, FindMatch(t).value.start, FindMatch(t).value.end)
    ensures FindMatch(t).None? <==> forall s: nat, e: nat :: !IsMatch(t, s, e)
  {
    match FindHeader(t, 0)
    case None =>
      forall s: nat, e: nat ensures !IsMatch(t, s, e) { }
    case Some(s) =>
      var from := s + |Header| + 1;
      match FirstIndexOf(t, from, '}')
      case None =>
        forall s': nat, e': nat ensures !IsMatch(t, s', e') {
          assert IsMatch(t, s', e') ==> s <= s' && from <= e' - 1 < |t|;
        }
      case Some(close) =>
        assert IsMatch(t, s, close + 1);
        forall s': nat, e': nat | IsMatch(t, s', e') ensures s <= s' { }
        forall e': nat | IsMatch(t, s, e') ensures close + 1 <= e' {
          assert from <= e' - 1 && t[e' - 1] == '}';
        }
  }

  /** The `assert!(re.is_match(..))` and `re.replace(..)` of `main`: the build aborts when
      nothing matches; otherwise the first match alone is replaced and the text before
      and after it is kept as it was. */
  function Patch(t: string): (r: Result<string>)
    ensures r.Err? <==> forall s: nat, e: nat :: !IsMatch(t, s, e)
    ensures r.Err? ==> r.error == PatternNotFound
    ensures r.Ok? ==> exists s: nat, e: nat :: IsLeftmostFirst(t, s, e) &&
                                               r.value == t[..s] + Replacement + t[e..]
  {
    FindMatchIsLeftmostFirst(t);
    match FindMatch(t)
    case None => Err(PatternNotFound)
    case Some(span) => Ok(t[..span.start] + Replacement + t[span.end..])
  }

  /** The replaced span starts at the very first occurrence of the header. */
  lemma MatchStartsAtFirstHeader(t: string, s: nat, e: nat)
    requires IsLeftmostFirst(t, s, e)
    ensures forall j: nat :: j < s ==> !HeaderAt(t, j)
  {
    forall j: nat | j < s && HeaderAt(t, j) ensures false {
      assert IsMatch(t, j, e);
    }
  }

  /** The replaced span ends at the first `}` after the header's `{` and the one
      character the pattern requires. */
  lemma MatchEndsAtFirstBrace(t: string, s: nat, e: nat)
    requires IsLeftmostFirst(t, s, e)
    ensures forall k :: s + |Header| + 1 <= k < e - 1 ==> t[k] != '}'
  {
    forall k | s + |Header| + 1 <= k < e - 1 && t[k] == '}' ensures false {
      assert IsMatch(t, s, k + 1);
    }
  }

  /** The pattern has one leftmost-first match at most. */
  lemma LeftmostFirstUnique(t: string, s1: nat, e1: nat, s2: nat, e2: nat)
    requires IsLeftmostFirst(t, s1, e1) && IsLeftmostFirst(t, s2, e2)
    ensures s1 == s2 && e1 == e2
  {
    assert s1 <= s2 && s2 <= s1;
    assert IsMatch(t, s1, e2);
  }
}
