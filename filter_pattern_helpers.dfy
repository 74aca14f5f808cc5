/** `FilterPatternHelpers`: add the sigils a `FilterOptions` value asks
    for to a raw search term, unless the term already carries some. */
module FilterPatternHelpers {
  import opened Text
  import Predicates
  import PolicyExtensions

  /** The `[Flags]` enumeration, as its 32-bit underlying value. */
  type FilterOptions = bv32

  const None: FilterOptions := 0
  const IgnoreCase: FilterOptions := 1
  const Contains: FilterOptions := 2
  const StartsWith: FilterOptions := 4
  const EndsWith: FilterOptions := 8

  /** `Enum.HasFlag`: every bit of the flag is set. */
  predicate HasFlag(options: FilterOptions, flag: FilterOptions) {
    options & flag == flag
  }

  /** The regular expression `(^([~\*]+)|(\*)$)`: a leading `~` or `*`, or a
      trailing `*` (`$` also matches before a final line feed). */
  predicate HasFilterCharacters(input: string) {
    (|input| > 0 && input[0] in {'~', '*'}) || HasSuffix(input, "*") || HasSuffix(input, "*\n")
  }

  /** The term decorated as the options ask: `~` outside, then `*p*`,
      `p*` or `*p`. */
  function WithOptions(pattern: string, options: FilterOptions): string {
    var result := TrimWhite(pattern);
    if HasFilterCharacters(pattern) then result
    else
      var wild :=
        if HasFlag(options, Contains) then "*" + result + "*"
        else
          var started := if HasFlag(options, StartsWith) then result + "*" else result;
          if HasFlag(options, EndsWith) then "*" + started else started;
      if HasFlag(options, IgnoreCase) then "~" + wild else wild
  }

  method AddFilterOptionsIfNotSpecified(pattern: string, options: FilterOptions) returns (result: string)
    ensures result == WithOptions(pattern, options)
  {
    result := TrimWhite(pattern);
    if HasFilterCharacters(pattern) {
      return;
    }
    if HasFlag(options, Contains) {
      result := "*" + result + "*";
    } else {
      if HasFlag(options, StartsWith) {
        result := result + "*";
      }
      if HasFlag(options, EndsWith) {
        result := "*" + result;
      }
    }
    if HasFlag(options, IgnoreCase) {
      result := "~" + result;
    }
  }

  /** A term that already carries sigils is only trimmed; otherwise the
      result is `~` when IgnoreCase is set, then the trimmed term with `*`
      on both sides for Contains or for StartsWith with EndsWith, after it
      for StartsWith alone, before it for EndsWith alone. */
  lemma OptionsCases(pattern: string, options: FilterOptions)
    ensures HasFilterCharacters(pattern) ==> WithOptions(pattern, options) == TrimWhite(pattern)
    ensures var p := TrimWhite(pattern);
      var contains := HasFlag(options, Contains) || (HasFlag(options, StartsWith) && HasFlag(options, EndsWith));
      var wild :=
        if contains then "*" + p + "*"
        else if HasFlag(options, StartsWith) then p + "*"
        else if HasFlag(options, EndsWith) then "*" + p
        else p;
      !HasFilterCharacters(pattern) ==>
        WithOptions(pattern, options) == if HasFlag(options, IgnoreCase) then "~" + wild else wild
  {
    var p := TrimWhite(pattern);
    assert "*" + (p + "*") == "*" + p + "*";
  }

  /** With no options the trimmed term comes back. */
  lemma NoOptionsTrims(pattern: string)
    ensures WithOptions(pattern, None) == TrimWhite(pattern)
  {
  }

  /** A leading `!` is not an option already specified: `"!x"` with
      Contains becomes `"*!x*"`. */
  lemma BangIsNotAnOption()
    ensures WithOptions("!x", Contains) == "*!x*"
  {
    assert '!' !in WhiteSpace && 'x' !in WhiteSpace;
    assert TrimStartAny("!x", WhiteSpace) == "!x";
    assert TrimEndAny("!x", WhiteSpace) == "!x";
    assert !HasSuffix("!x", "*") by { assert "!x"[1] != '*'; }
    assert !HasSuffix("!x", "*\n") by { assert "!x"[1] != '\n'; }
  }

  /** Contains|IgnoreCase wraps the trimmed term in `*` and prefixes `~`. */
  lemma ContainsIgnoreCaseText(pattern: string)
    requires !HasFilterCharacters(pattern)
    ensures WithOptions(pattern, Contains | IgnoreCase) == "~" + ("*" + TrimWhite(pattern) + "*")
  {
    assert HasFlag(Contains | IgnoreCase, Contains);
    assert HasFlag(Contains | IgnoreCase, IgnoreCase);
  }

  /** The output of Contains|IgnoreCase, read back by the newest grammar,
      is a case-insensitive Contains of the trimmed term. */
  lemma ContainsIgnoreCaseRoundTrip(pattern: string)
    requires !HasFilterCharacters(pattern)
    requires var p := TrimWhite(pattern); !HasPrefix(p, "*") && !HasSuffix(p, "*")
    ensures PolicyExtensions.ParseStringPattern(WithOptions(pattern, Contains | IgnoreCase)) ==
      PolicyExtensions.StringPattern(false, true, Predicates.Contains, TrimWhite(pattern))
  {
    ContainsIgnoreCaseText(pattern);
    ParseFoldedContains(TrimWhite(pattern));
  }

  /** The grammar reads `~*p*` as a case-insensitive Contains of p. */
  lemma ParseFoldedContains(p: string)
    requires !HasPrefix(p, "*") && !HasSuffix(p, "*")
    ensures PolicyExtensions.ParseStringPattern("~" + ("*" + p + "*")) ==
      PolicyExtensions.StringPattern(false, true, Predicates.Contains, p)
  {
    var body := "*" + p + "*";
    var out := "~" + body;
    assert !HasPrefix(out, "!") by { assert out[0] == '~'; }
    assert HasPrefix(out, "~") by { assert out[..1] == "~"; }
    assert TrimStart(out, '~') == body by {
      assert out[1..] == body;
      assert body[0] == '*';
    }
    assert HasPrefix(body, "*") by { assert body[..1] == "*"; }
    assert HasSuffix(body, "*") by { assert body[|body| - 1..] == "*"; }
    TrimStarsAround(p);
    assert PolicyExtensions.WildcardKind(body) == (Predicates.Contains, p);
  }

  /** Trimming `*` from `*p*` gives p back when p has no `*` at either end. */
  lemma TrimStarsAround(p: string)
    requires !HasPrefix(p, "*") && !HasSuffix(p, "*")
    ensures Trim("*" + p + "*", '*') == p
  {
    var s := "*" + p + "*";
    assert s[1..] == p + "*";
    var afterStart := TrimStartAny(s, {'*'});
    if p == [] {
      assert s == "**";
      assert s[1..][1..] == [];
    } else {
      assert p[0] != '*' by { assert p[..1] == [p[0]]; }
      assert afterStart == p + "*" by {
        assert (p + "*")[0] == p[0];
      }
      assert p[|p| - 1] != '*' by { assert p[|p| - 1..] == [p[|p| - 1]]; }
      assert (p + "*")[..|p|] == p;
      assert TrimEndAny(p + "*", {'*'}) == TrimEndAny(p, {'*'});
    }
  }
}
