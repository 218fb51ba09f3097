/** The header resolver: `strip_to_include` and the loop of `main` that fills
    `includes` (tidy-sys/build.rs lines 16-30 and 77-96). */
module Resolver {
  import opened Outcomes
  import opened Strings
  import opened Paths

  /** One item yielded by `glob`: a path, or an item whose `unwrap` panics (a glob
      error, or a path that is not valid UTF-8). */
  datatype Entry = Path(path: string) | Unreadable

  /** The headers `main` resolves, in this order. */
  const HeaderFiles: seq<string> := ["tidy.h", "buffio.h"]

  /** The include that one matched path yields under search directory `prefix`:
      every leading copy of `prefix` trimmed, then at most one leading separator. */
  function IncludeOf(entry: Entry, prefix: string, style: PathStyle): (r: Result<string>)
    ensures entry.Unreadable? ==> r == Err(UnreadableEntry)
    ensures r.Err? ==> r.error == UnreadableEntry || r.error == EmptyRemainder
  {
    match entry
    case Unreadable => Err(UnreadableEntry)
    case Path(p) =>
      var rest := TrimStartMatches(p, prefix);
      if rest == [] then Err(EmptyRemainder)
      else if IsSeparator(style, rest[0]) then Ok(rest[1..])
      else Ok(rest)
  }

  /** What stands between the trimmed copies of the prefix and the include: one
      separator, or nothing when the include does not start with a separator. */
  predicate IsLead(style: PathStyle, lead: string, inc: string)
  {
    (|lead| == 1 && IsSeparator(style, lead[0])) ||
    (lead == [] && inc != [] && !IsSeparator(style, inc[0]))
  }

  /** What IncludeOf drops from the trimmed remainder is a lead. */
  lemma LeadOf(p: string, prefix: string, style: PathStyle) returns (lead: string)
    requires IncludeOf(Path(p), prefix, style).Ok?
    ensures TrimStartMatches(p, prefix) == lead + IncludeOf(Path(p), prefix, style).value
    ensures IsLead(style, lead, IncludeOf(Path(p), prefix, style).value)
  {
    var rest := TrimStartMatches(p, prefix);
    lead := if IsSeparator(style, rest[0]) then [rest[0]] else [];
    assert rest == lead + IncludeOf(Path(p), prefix, style).value;
  }

  /** Every include splits its path into copies of the prefix, a lead and itself. */
  lemma IncludeOfSplits(p: string, prefix: string, style: PathStyle)
    requires IncludeOf(Path(p), prefix, style).Ok?
    ensures var inc := IncludeOf(Path(p), prefix, style).value;
            exists k: nat, lead: string :: p == Repeat(prefix, k) + lead + inc &&
                                           IsLead(style, lead, inc) &&
                                           (prefix == [] || !(prefix <= lead + inc))
  {
    var inc := IncludeOf(Path(p), prefix, style).value;
    var rest := TrimStartMatches(p, prefix);
    var k := TrimStartMatchesDecomposes(p, prefix);
    var lead := LeadOf(p, prefix, style);
    assert p == Repeat(prefix, k) + lead + inc;
  }

  /** The include is read off what is left once the prefix is trimmed. */
  lemma IncludeOfTrimmed(p: string, prefix: string, style: PathStyle, lead: string, inc: string)
    requires TrimStartMatches(p, prefix) == lead + inc
    requires IsLead(style, lead, inc)
    ensures IncludeOf(Path(p), prefix, style) == Ok(inc)
  {
    var rest := TrimStartMatches(p, prefix);
    if lead == [] {
      assert rest == inc;
    } else {
      assert rest[0] == lead[0] && rest[1..] == inc;
    }
  }

  /** Every such split of a path is the one IncludeOf makes. */
  lemma IncludeOfFromSplit(p: string, prefix: string, style: PathStyle,
                           k: nat, lead: string, inc: string)
    requires p == Repeat(prefix, k) + lead + inc
    requires IsLead(style, lead, inc)
    requires prefix == [] || !(prefix <= lead + inc)
    ensures IncludeOf(Path(p), prefix, style) == Ok(inc)
  {
    assert p == Repeat(prefix, k) + (lead + inc);
    TrimStartMatchesIff(p, prefix, lead + inc);
    IncludeOfTrimmed(p, prefix, style, lead, inc);
  }

  /** IncludeOf characterised without recursion: `inc` is the include of `p` exactly
      when `p` is some copies of the prefix, then a lead, then `inc`, and what follows
      the copies does not itself start with the prefix. */
  lemma IncludeOfIff(p: string, prefix: string, style: PathStyle, inc: string)
    ensures IncludeOf(Path(p), prefix, style) == Ok(inc) <==>
            exists k: nat, lead: string :: p == Repeat(prefix, k) + lead + inc &&
                                           IsLead(style, lead, inc) &&
                                           (prefix == [] || !(prefix <= lead + inc))
  {
    if IncludeOf(Path(p), prefix, style) == Ok(inc) {
      IncludeOfSplits(p, prefix, style);
    }
    if exists k: nat, lead: string :: p == Repeat(prefix, k) + lead + inc &&
                                      IsLead(style, lead, inc) &&
                                      (prefix == [] || !(prefix <= lead + inc)) {
      var k: nat, lead: string :| p == Repeat(prefix, k) + lead + inc &&
                                  IsLead(style, lead, inc) &&
                                  (prefix == [] || !(prefix <= lead + inc));
      IncludeOfFromSplit(p, prefix, style, k, lead, inc);
    }
  }

  /** `chars().next().unwrap()` panics exactly when the matched path is nothing but
      copies of the prefix. */
  lemma EmptyRemainderIff(p: string, prefix: string, style: PathStyle)
    ensures IncludeOf(Path(p), prefix, style).Err? <==> exists k: nat :: p == Repeat(prefix, k)
    ensures IncludeOf(Path(p), prefix, style).Err? ==>
              IncludeOf(Path(p), prefix, style).error == EmptyRemainder
  {
    var n := TrimStartMatchesDecomposes(p, prefix);
    var rest := TrimStartMatches(p, prefix);
    if rest == [] {
      assert p == Repeat(prefix, n);
    }
    if exists k: nat :: p == Repeat(prefix, k) {
      var k: nat :| p == Repeat(prefix, k);
      if prefix == [] {
        RepeatEmpty(k);
      } else {
        assert p == Repeat(prefix, k) + [];
        TrimStartMatchesUnique(p, prefix, k, []);
      }
    }
  }

  /** A header found at `dir`, a separator and a relative path `sub` resolves to
      `sub`, subdirectories included, as long as `sub` does not repeat `dir`. */
  lemma HeaderBelowDirectory(dir: string, c: char, sub: string, style: PathStyle)
    requires IsSeparator(style, c)
    requires dir == [] || !(dir <= [c] + sub)
    ensures IncludeOf(Path(dir + [c] + sub), dir, style) == Ok(sub)
  {
    assert dir + [c] + sub == Repeat(dir, 1) + [c] + sub;
    IncludeOfFromSplit(dir + [c] + sub, dir, style, 1, [c], sub);
  }

  /** Only one separator is removed: a second one stays at the head of the include. */
  lemma SecondSeparatorKept(p: string, dir: string, k: nat, c1: char, c2: char, sub: string,
                            style: PathStyle)
    requires IsSeparator(style, c1) && IsSeparator(style, c2)
    requires p == Repeat(dir, k) + [c1, c2] + sub
    requires dir == [] || !(dir <= [c1, c2] + sub)
    ensures IncludeOf(Path(p), dir, style) == Ok([c2] + sub)
  {
    assert [c1, c2] + sub == [c1] + ([c2] + sub);
    assert p == Repeat(dir, k) + [c1] + ([c2] + sub);
    IncludeOfFromSplit(p, dir, style, k, [c1], [c2] + sub);
  }

  /** Because the prefix is trimmed as often as it repeats, a subdirectory named like
      the search directory is lost: `/x/x/tidy.h` under `/x` yields `tidy.h`. */
  lemma RepeatedDirectoryOverTrimmed()
    ensures IncludeOf(Path("/x/x/tidy.h"), "/x", Unix) == Ok("tidy.h")
  {
    assert "/x/x/tidy.h" == Repeat("/x", 2) + "/tidy.h";
    assert "/tidy.h"[1] != "/x"[1];
    TrimStartMatchesUnique("/x/x/tidy.h", "/x", 2, "/tidy.h");
  }

  /** An include that was found, or the panic of the search. */
  function Found(r: Result<string>): (f: Result<Option<string>>)
    ensures f.Ok? <==> r.Ok?
    ensures f.Ok? ==> f.value == Some(r.value)
    ensures f.Err? ==> f.error == r.error
  {
    match r
    case Ok(inc) => Ok(Some(inc))
    case Err(e) => Err(e)
  }

  /** `strip_to_include`: nothing when the glob matched nothing, otherwise the include
      of its first entry; later entries are never looked at. */
  method StripToInclude(paths: seq<Entry>, prefix: string, style: PathStyle)
    returns (r: Result<Option<string>>)
    ensures paths == [] <==> r == Ok(None)
    ensures paths != [] ==> r == Found(IncludeOf(paths[0], prefix, style))
  {
    if paths == [] {
      return Ok(None);
    }
    match paths[0]
    case Unreadable =>
      return Err(UnreadableEntry);
    case Path(p) =>
      var rest := TrimStartMatches(p, prefix);
      if rest == [] {
        return Err(EmptyRemainder);
      }
      if IsSeparator(style, rest[0]) {
        rest := rest[1..];
      }
      return Ok(Some(rest));
  }

  /** The inner loop of `main` for one header: the first search directory whose glob
      matches anything decides the header's include. */
  function FirstInclude(dirs: seq<string>, header: string,
                        matches: (string, string) -> seq<Entry>, style: PathStyle)
    : (r: Result<Option<string>>)
    ensures r.Err? ==> r.error == UnreadableEntry || r.error == EmptyRemainder
    decreases |dirs|
  {
    if dirs == [] then Ok(None)
    else if matches(dirs[0], header) == [] then FirstInclude(dirs[1..], header, matches, style)
    else Found(IncludeOf(matches(dirs[0], header)[0], dirs[0], style))
  }

  /** `dirs[j]` is the first search directory under which `header` matches. */
  predicate IsFirstHit(dirs: seq<string>, header: string,
                       matches: (string, string) -> seq<Entry>, j: int)
  {
    0 <= j < |dirs| && matches(dirs[j], header) != [] &&
    forall i :: 0 <= i < j ==> matches(dirs[i], header) == []
  }

  /** FirstInclude against its reference: no include when no directory matches, and
      otherwise the include of the first hit's first entry. */
  lemma {:induction false} FirstIncludeIsFirstHit(dirs: seq<string>, header: string,
                                                  matches: (string, string) -> seq<Entry>,
                                                  style: PathStyle)
    ensures FirstInclude(dirs, header, matches, style) == Ok(None) <==>
            forall j :: 0 <= j < |dirs| ==> matches(dirs[j], header) == []
    ensures forall j :: IsFirstHit(dirs, header, matches, j) ==>
              FirstInclude(dirs, header, matches, style) ==
              Found(IncludeOf(matches(dirs[j], header)[0], dirs[j], style))
    decreases |dirs|
  {
    if dirs != [] {
      FirstIncludeIsFirstHit(dirs[1..], header, matches, style);
      forall j | IsFirstHit(dirs, header, matches, j) && j > 0
        ensures IsFirstHit(dirs[1..], header, matches, j - 1)
      {
        assert dirs[1..][j - 1] == dirs[j];
        forall i | 0 <= i < j - 1 ensures matches(dirs[1..][i], header) == [] {
          assert dirs[1..][i] == dirs[i + 1];
        }
      }
      if matches(dirs[0], header) == [] {
        if forall j :: 0 <= j < |dirs[1..]| ==> matches(dirs[1..][j], header) == [] {
          forall j | 0 <= j < |dirs| ensures matches(dirs[j], header) == [] {
            if j > 0 { assert dirs[j] == dirs[1..][j - 1]; }
          }
        }
      } else {
        assert !IsFirstHit(dirs, header, matches, 0) ==> false;
      }
    }
  }

  /** The whole resolution loop of `main`: each header resolved on its own, in order;
      a panic while resolving one ends the loop. */
  function ResolveAll(headers: seq<string>, dirs: seq<string>,
                      matches: (string, string) -> seq<Entry>, style: PathStyle)
    : (r: Result<seq<Option<string>>>)
    ensures r.Ok? ==> |r.value| == |headers|
    decreases |headers|
  {
    if headers == [] then Ok([])
    else
      match ResolveAll(headers[..|headers| - 1], dirs, matches, style)
      case Err(e) => Err(e)
      case Ok(front) =>
        match FirstInclude(dirs, headers[|headers| - 1], matches, style)
        case Err(e) => Err(e)
        case Ok(found) => Ok(front + [found])
  }

  /** Each header's slot holds that header's own FirstInclude, whatever the other
      headers resolved to, and the loop panics exactly when some header's search does. */
  lemma {:induction false} ResolveAllPerHeader(headers: seq<string>, dirs: seq<string>,
                                               matches: (string, string) -> seq<Entry>,
                                               style: PathStyle)
    ensures ResolveAll(headers, dirs, matches, style).Ok? <==>
            forall k :: 0 <= k < |headers| ==> FirstInclude(dirs, headers[k], matches, style).Ok?
    ensures ResolveAll(headers, dirs, matches, style).Ok? ==>
            forall k :: 0 <= k < |headers| ==>
              ResolveAll(headers, dirs, matches, style).value[k] ==
              FirstInclude(dirs, headers[k], matches, style).value
    decreases |headers|
  {
    if headers != [] {
      var n := |headers| - 1;
      var front := headers[..n];
      ResolveAllPerHeader(front, dirs, matches, style);
      assert forall k :: 0 <= k < n ==> front[k] == headers[k];
      var rf := ResolveAll(front, dirs, matches, style);
      var last := FirstInclude(dirs, headers[n], matches, style);
      if rf.Ok? && last.Ok? {
        assert ResolveAll(headers, dirs, matches, style) == Ok(rf.value + [last.value]);
      } else if rf.Ok? {
        assert ResolveAll(headers, dirs, matches, style).Err?;
      } else {
        assert ResolveAll(headers, dirs, matches, style).Err?;
        assert exists k :: 0 <= k < n && FirstInclude(dirs, front[k], matches, style).Err?;
      }
    }
  }

  /** The panic that ends the loop is the one of the first header whose search panics. */
  lemma {:induction false} ResolveAllFirstPanic(headers: seq<string>, dirs: seq<string>,
                                                matches: (string, string) -> seq<Entry>,
                                                style: PathStyle, k: nat)
    requires k < |headers|
    requires FirstInclude(dirs, headers[k], matches, style).Err?
    requires forall i :: 0 <= i < k ==> FirstInclude(dirs, headers[i], matches, style).Ok?
    ensures ResolveAll(headers, dirs, matches, style) ==
            Err(FirstInclude(dirs, headers[k], matches, style).error)
    decreases |headers|
  {
    var front := headers[..|headers| - 1];
    forall i | 0 <= i < |front| ensures front[i] == headers[i] { }
    if k == |headers| - 1 {
      ResolveAllPerHeader(front, dirs, matches, style);
    } else {
      ResolveAllFirstPanic(front, dirs, matches, style, k);
    }
  }

  /** One more header resolved: the prefix of headers grows by its include. */
  lemma ResolvePrefixStep(headers: seq<string>, dirs: seq<string>,
                          matches: (string, string) -> seq<Entry>, style: PathStyle, i: nat,
                          found: Option<string>)
    requires i < |headers|
    requires ResolveAll(headers[..i], dirs, matches, style).Ok?
    requires FirstInclude(dirs, headers[i], matches, style) == Ok(found)
    ensures ResolveAll(headers[..i + 1], dirs, matches, style) ==
            Ok(ResolveAll(headers[..i], dirs, matches, style).value + [found])
  {
    assert headers[..i + 1][..i] == headers[..i];
  }

  /** A panic while resolving header `i`, after the earlier ones resolved, is the
      outcome of the whole loop. */
  lemma ResolvePrefixPanic(headers: seq<string>, dirs: seq<string>,
                           matches: (string, string) -> seq<Entry>, style: PathStyle, i: nat)
    requires i < |headers|
    requires ResolveAll(headers[..i], dirs, matches, style).Ok?
    requires FirstInclude(dirs, headers[i], matches, style).Err?
    ensures ResolveAll(headers, dirs, matches, style) ==
            Err(FirstInclude(dirs, headers[i], matches, style).error)
  {
    ResolveAllPerHeader(headers[..i], dirs, matches, style);
    forall k | 0 <= k < i ensures FirstInclude(dirs, headers[k], matches, style).Ok? {
      assert headers[..i][k] == headers[k];
    }
    ResolveAllFirstPanic(headers, dirs, matches, style, i);
  }

  /** One directory of the inner loop: an empty glob passes on to the next directory,
      a non-empty one decides. */
  lemma FirstIncludeStep(dirs: seq<string>, header: string,
                         matches: (string, string) -> seq<Entry>, style: PathStyle, j: nat)
    requires j < |dirs|
    ensures FirstInclude(dirs[j..], header, matches, style) ==
            if matches(dirs[j], header) == [] then FirstInclude(dirs[j + 1..], header, matches, style)
            else Found(IncludeOf(matches(dirs[j], header)[0], dirs[j], style))
  {
    assert dirs[j..][0] == dirs[j];
    assert dirs[j..][1..] == dirs[j + 1..];
  }

  /** The inner loop of `main` for header `i`: directory by directory until a glob
      matches, writing that header's slot of `includes` and no other; a panic inside
      `strip_to_include` is returned. */
  method SearchHeader(includes: array<Option<string>>, i: nat, header: string,
                      dirs: seq<string>, matches: (string, string) -> seq<Entry>,
                      style: PathStyle)
    returns (panic: Option<BuildError>)
    requires i < includes.Length && includes[i] == None
    modifies includes
    ensures forall k :: 0 <= k < includes.Length && k != i ==> includes[k] == old(includes[k])
    ensures match FirstInclude(dirs, header, matches, style)
            case Err(e) => panic == Some(e)
            case Ok(found) => panic == None && includes[i] == found
  {
    var j := 0;
    while j < |dirs|
      invariant 0 <= j <= |dirs|
      invariant FirstInclude(dirs[j..], header, matches, style) ==
                FirstInclude(dirs, header, matches, style)
      invariant includes[..] == old(includes[..])
    {
      var found := StripToInclude(matches(dirs[j], header), dirs[j], style);
      FirstIncludeStep(dirs, header, matches, style, j);
      if found.Err? {
        return Some(found.error);
      }
      if found.value.Some? {
        includes[i] := found.value;
        return None;
      }
      j := j + 1;
    }
    return None;
  }

  /** The loop of `main` over `h_files` and `includes_path`, filling the array
      `includes` in place; a panic inside `strip_to_include` is returned as Err. */
  method ResolveIncludes(headers: seq<string>, dirs: seq<string>,
                         matches: (string, string) -> seq<Entry>, style: PathStyle)
    returns (r: Result<seq<Option<string>>>)
    ensures r == ResolveAll(headers, dirs, matches, style)
  {
    var includes := new Option<string>[|headers|](_ => None);
    for i := 0 to |headers|
      invariant ResolveAll(headers[..i], dirs, matches, style) == Ok(includes[..i])
      invariant forall k :: i <= k < |headers| ==> includes[k] == None
    {
      ghost var resolved := includes[..i];
      var panic := SearchHeader(includes, i, headers[i], dirs, matches, style);
      if panic.Some? {
        ResolvePrefixPanic(headers, dirs, matches, style, i);
        return Err(panic.value);
      }
      assert includes[..i] == resolved;
      ResolvePrefixStep(headers, dirs, matches, style, i, includes[i]);
      assert includes[..i + 1] == includes[..i] + [includes[i]];
    }
    assert headers[..|headers|] == headers;
    assert includes[..] == includes[..|headers|];
    return Ok(includes[..]);
  }
}
