/** SQL LIKE: the backtracking matcher, and the index pre-filters derived from
    patterns of the form `p%` and `%needle%`. */
module LikePatterns {
  import opened Values

  // ----- What a pattern means ---------------------------------------------

  /** `%` stands for any text, `_` for any one character, anything else for itself. */
  predicate Stands(c: char, part: string) {
    c == '%' || (|part| == 1 && (c == '_' || part[0] == c))
  }

  function Concat(parts: seq<string>): string {
    if parts == [] then [] else parts[0] + Concat(parts[1..])
  }

  /** `parts` cuts `text` into one piece for each character of `pattern`. */
  ghost predicate Cuts(parts: seq<string>, text: string, pattern: string) {
    && |parts| == |pattern|
    && Concat(parts) == text
    && forall i :: 0 <= i < |parts| ==> Stands(pattern[i], parts[i])
  }

  ghost predicate Matches(text: string, pattern: string) {
    exists parts :: Cuts(parts, text, pattern)
  }

  lemma MatchesEmpty(text: string)
    ensures Matches(text, []) <==> text == []
  {
    assert Cuts([], [], []);
  }

  lemma CutsTail(parts: seq<string>, text: string, pattern: string)
    requires pattern != [] && Cuts(parts, text, pattern)
    ensures |parts[0]| <= |text| && parts[0] == text[..|parts[0]|]
    ensures Cuts(parts[1..], text[|parts[0]|..], pattern[1..])
  {
    assert parts == [parts[0]] + parts[1..];
    assert text == parts[0] + Concat(parts[1..]);
    assert text[|parts[0]|..] == Concat(parts[1..]);
  }

  lemma CutsCons(part: string, parts: seq<string>, text: string, pattern: string)
    requires pattern != [] && Stands(pattern[0], part)
    requires |part| <= |text| && part == text[..|part|]
    requires Cuts(parts, text[|part|..], pattern[1..])
    ensures Cuts([part] + parts, text, pattern)
  {
    var all := [part] + parts;
    assert all[1..] == parts;
    assert text == part + text[|part|..];
    forall i | 0 <= i < |all| ensures Stands(pattern[i], all[i]) {
      assert i > 0 ==> all[i] == parts[i - 1] && pattern[i] == pattern[1..][i - 1];
    }
  }

  lemma MatchesAny(text: string, pattern: string)
    requires pattern != [] && pattern[0] == '%'
    ensures Matches(text, pattern) <==> exists i :: 0 <= i <= |text| && Matches(text[i..], pattern[1..])
  {
    if Matches(text, pattern) {
      var parts :| Cuts(parts, text, pattern);
      CutsTail(parts, text, pattern);
      assert Matches(text[|parts[0]|..], pattern[1..]);
    }
    if i :| 0 <= i <= |text| && Matches(text[i..], pattern[1..]) {
      var parts :| Cuts(parts, text[i..], pattern[1..]);
      CutsCons(text[..i], parts, text, pattern);
    }
  }

  lemma MatchesOne(text: string, pattern: string)
    requires pattern != [] && pattern[0] != '%'
    ensures Matches(text, pattern) <==>
      text != [] && (pattern[0] == '_' || pattern[0] == text[0]) && Matches(text[1..], pattern[1..])
  {
    if Matches(text, pattern) {
      var parts :| Cuts(parts, text, pattern);
      CutsTail(parts, text, pattern);
    }
    if text != [] && (pattern[0] == '_' || pattern[0] == text[0]) && Matches(text[1..], pattern[1..]) {
      var parts :| Cuts(parts, text[1..], pattern[1..]);
      CutsCons(text[..1], parts, text, pattern);
    }
  }

  // ----- The matcher --------------------------------------------------------

  /** The matcher walks both strings and backtracks only at `%`. */
  method MatchLike(text0: string, pattern0: string) returns (matched: bool)
    ensures matched <==> Matches(text0, pattern0)
    decreases |pattern0|
  {
    var text, pattern := text0, pattern0;
    while pattern != []
      invariant |pattern| <= |pattern0|
      invariant Matches(text, pattern) <==> Matches(text0, pattern0)
      decreases |pattern|
    {
      if pattern[0] == '%' {
        MatchesAny(text, pattern);
        pattern := pattern[1..];
        if pattern == [] {
          assert text[|text|..] == [];
          MatchesEmpty(text[|text|..]);
          return true;
        }
        var i := 0;
        while i <= |text|
          invariant 0 <= i <= |text| + 1
          invariant forall j :: 0 <= j < i ==> !Matches(text[j..], pattern)
        {
          var found := MatchLike(text[i..], pattern);
          if found {
            return true;
          }
          i := i + 1;
        }
        return false;
      }
      MatchesOne(text, pattern);
      if text == [] {
        return false;
      }
      if pattern[0] != '_' && pattern[0] != text[0] {
        return false;
      }
      pattern, text := pattern[1..], text[1..];
    }
    MatchesEmpty(text);
    return text == [];
  }

  // ----- Patterns an index can pre-filter ------------------------------------

  predicate WildcardFree(s: string) {
    '%' !in s && '_' !in s
  }

  function PrefixLiteral(pattern: string): Option<string> {
    if pattern == [] || pattern[|pattern| - 1] != '%' then None
    else
      var literal := pattern[..|pattern| - 1];
      if literal == [] || !WildcardFree(literal) then None else Some(literal)
  }

  function ContainsLiteral(pattern: string): Option<string> {
    if |pattern| < 3 || pattern[0] != '%' || pattern[|pattern| - 1] != '%' then None
    else
      var literal := pattern[1..|pattern| - 1];
      if literal == [] || !WildcardFree(literal) then None else Some(literal)
  }

  lemma {:induction false} LiteralThenAny(text: string, literal: string)
    requires WildcardFree(literal)
    ensures Matches(text, literal + "%") <==> literal <= text
  {
    var pattern := literal + "%";
    if literal == [] {
      assert pattern == "%";
      MatchesAny(text, pattern);
      MatchesEmpty(text[|text|..]);
      assert pattern[1..] == [];
      assert text[|text|..] == [];
    } else {
      MatchesOne(text, pattern);
      assert pattern[0] == literal[0] && literal[0] in literal;
      assert pattern[1..] == literal[1..] + "%";
      forall c | c in literal[1..] ensures c in literal {}
      if text != [] {
        LiteralThenAny(text[1..], literal[1..]);
        if text[0] == literal[0] && literal[1..] <= text[1..] {
          assert literal == [literal[0]] + literal[1..];
          assert text == [text[0]] + text[1..];
        }
      }
    }
  }

  lemma {:induction false} PrefixIsBelow(prefix: string, text: string)
    requires prefix <= text
    ensures prefix == text || StringLess(prefix, text)
  {
    if prefix != [] {
      PrefixIsBelow(prefix[1..], text[1..]);
      assert prefix == [prefix[0]] + prefix[1..] && text == [text[0]] + text[1..];
    }
  }

  /** `p%` matches exactly the texts that start with `p`, and all of them lie at
      or above `p` in value order, so a range probe from `p` loses none. */
  lemma PrefixFilter(text: string, pattern: string)
    requires PrefixLiteral(pattern).Some?
    ensures Matches(text, pattern) <==> PrefixLiteral(pattern).value <= text
    ensures Matches(text, pattern) ==> LessEq(Str(PrefixLiteral(pattern).value), Str(text))
  {
    var literal := PrefixLiteral(pattern).value;
    assert pattern == literal + "%";
    LiteralThenAny(text, literal);
    if literal <= text {
      PrefixIsBelow(literal, text);
    }
  }

  ghost predicate OccursAt(needle: string, text: string, i: int) {
    0 <= i && i + |needle| <= |text| && text[i..i + |needle|] == needle
  }

  /** `%needle%` matches exactly the texts that contain the needle. */
  lemma ContainsFilter(text: string, pattern: string)
    requires ContainsLiteral(pattern).Some?
    ensures Matches(text, pattern) <==> exists i :: OccursAt(ContainsLiteral(pattern).value, text, i)
  {
    var needle := ContainsLiteral(pattern).value;
    assert pattern[1..] == needle + "%";
    MatchesAny(text, pattern);
    forall i | 0 <= i <= |text|
      ensures Matches(text[i..], pattern[1..]) <==> OccursAt(needle, text, i)
    {
      LiteralThenAny(text[i..], needle);
    }
    if i :| OccursAt(needle, text, i) {
      assert Matches(text[i..], pattern[1..]);
    }
  }

  // ----- Trigrams -------------------------------------------------------------

  /** The grams a text is indexed under. */
  function Grams(text: string): seq<string> {
    if |text| < 3 then (if text == [] then [] else [text])
    else seq(|text| - 2, i requires 0 <= i < |text| - 2 => text[i..i + 3])
  }

  method ExtractTrigrams(text: string) returns (grams: seq<string>)
    ensures grams == Grams(text)
  {
    grams := [];
    if |text| < 3 {
      if text != [] {
        grams := grams + [text];
      }
      return;
    }
    var i := 0;
    while i + 2 < |text|
      invariant 0 <= i <= |text| - 2
      invariant |grams| == i
      invariant forall j :: 0 <= j < i ==> grams[j] == text[j..j + 3]
    {
      grams := grams + [text[i..i + 3]];
      i := i + 1;
    }
  }

  lemma Window(needle: string, text: string, i: int, j: int)
    requires OccursAt(needle, text, i) && 0 <= j <= |needle| - 3
    ensures needle[j..j + 3] == text[i + j..i + j + 3]
  {
    var a, b := needle[j..j + 3], text[i + j..i + j + 3];
    forall k | 0 <= k < 3 ensures a[k] == b[k] {
      assert a[k] == needle[j + k] && b[k] == text[i + j + k];
      assert needle[j + k] == text[i..i + |needle|][j + k];
    }
  }

  /** Every gram of the needle is a gram of every text that `%needle%` matches,
      once the needle is long enough for the planner to use the index. */
  lemma TrigramFilter(text: string, pattern: string)
    requires ContainsLiteral(pattern).Some? && |ContainsLiteral(pattern).value| >= 3
    requires Matches(text, pattern)
    ensures forall g :: g in Grams(ContainsLiteral(pattern).value) ==> g in Grams(text)
  {
    var needle := ContainsLiteral(pattern).value;
    ContainsFilter(text, pattern);
    var i :| OccursAt(needle, text, i);
    forall g | g in Grams(needle) ensures g in Grams(text) {
      var j :| 0 <= j < |Grams(needle)| && Grams(needle)[j] == g;
      Window(needle, text, i, j);
      assert Grams(text)[i + j] == g;
    }
  }

  /** Below three characters the filter would lose rows, which is why the
      planner refuses such needles. */
  lemma ShortNeedleLosesRows()
    ensures ContainsLiteral("%ab%") == Some("ab") && Matches("abc", "%ab%")
    ensures "ab" in Grams("ab") && "ab" !in Grams("abc")
  {
    assert "%ab%"[1..3] == "ab";
    assert OccursAt("ab", "abc", 0);
    ContainsFilter("abc", "%ab%");
    assert |Grams("abc")| == 1 && |Grams("abc")[0]| == 3;
  }
}
