/** The string operations of Rust's standard library that the build script relies on. */
module Strings {
  import opened Outcomes

  /** `pat` written `k` times in a row. */
  function Repeat(pat: string, k: nat): string
  {
    if k == 0 then [] else pat + Repeat(pat, k - 1)
  }

  /** `str::trim_start_matches` with a string pattern: removes the pattern from the
      front as often as it occurs there. An empty pattern removes nothing. */
  function TrimStartMatches(s: string, pat: string): (r: string)
    ensures pat != [] ==> !(pat <= r)
    decreases |s|
  {
    if pat != [] && pat <= s then TrimStartMatches(s[|pat|..], pat) else s
  }

  /** What is trimmed is a whole number of copies of the pattern: `k` of them. */
  lemma {:induction false} TrimStartMatchesDecomposes(s: string, pat: string) returns (k: nat)
    ensures s == Repeat(pat, k) + TrimStartMatches(s, pat)
    decreases |s|
  {
    if pat != [] && pat <= s {
      var k' := TrimStartMatchesDecomposes(s[|pat|..], pat);
      assert s == pat + s[|pat|..];
      k := k' + 1;
    } else {
      k := 0;
    }
  }

  /** Any split of `s` into copies of a non-empty pattern followed by a rest that does
      not start with it is the split that TrimStartMatches makes. */
  lemma {:induction false} TrimStartMatchesUnique(s: string, pat: string, k: nat, rest: string)
    requires pat != []
    requires s == Repeat(pat, k) + rest
    requires !(pat <= rest)
    ensures TrimStartMatches(s, pat) == rest
    decreases k
  {
    if k == 0 {
      assert s == rest;
    } else {
      assert s == pat + (Repeat(pat, k - 1) + rest);
      assert s[|pat|..] == Repeat(pat, k - 1) + rest;
      TrimStartMatchesUnique(s[|pat|..], pat, k - 1, rest);
    }
  }

  /** Copies of the empty string are empty. */
  lemma {:induction false} RepeatEmpty(k: nat)
    ensures Repeat([], k) == []
  {
    if k > 0 { RepeatEmpty(k - 1); }
  }

  /** TrimStartMatches characterised without recursion: `r` is what is left of `s` after
      some number of leading copies of `pat`, and `r` does not start with `pat`. */
  lemma TrimStartMatchesIff(s: string, pat: string, r: string)
    ensures TrimStartMatches(s, pat) == r <==>
            (exists k :: s == Repeat(pat, k) + r) && (pat == [] || !(pat <= r))
  {
    var n := TrimStartMatchesDecomposes(s, pat);
    if pat == [] {
      forall k: nat ensures Repeat(pat, k) == [] { RepeatEmpty(k); }
    } else if (exists k :: s == Repeat(pat, k) + r) && !(pat <= r) {
      var k :| s == Repeat(pat, k) + r;
      TrimStartMatchesUnique(s, pat, k, r);
    }
  }

  /** The first index at or after `from` that holds `c`. */
  function FirstIndexOf(s: string, from: nat, c: char): (r: Option<nat>)
    ensures r.Some? ==> from <= r.value < |s| && s[r.value] == c &&
                        forall j :: from <= j < r.value ==> s[j] != c
    ensures r.None? ==> forall j :: from <= j < |s| ==> s[j] != c
    decreases |s| - from
  {
    if from >= |s| then None
    else if s[from] == c then Some(from)
    else FirstIndexOf(s, from + 1, c)
  }
}
