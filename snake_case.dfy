/**
 * `snake_case` in `utils.py`: four regular-expression substitutions applied
 * in turn. Each `re.sub` is modelled as the left-to-right scan the regular
 * expression engine performs: at each position the pattern either matches,
 * and the match is replaced and skipped, or the character is copied.
 * Word characters are the ASCII ones: letters, digits and `_`.
 */
module SnakeCase {
  import opened PyStr

  predicate IsWordChar(c: char) { IsUpper(c) || IsLower(c) || IsDigit(c) || c == '_' }

  /** The length of the run of lower-case letters `s` starts with. */
  function LowerRun(s: string): (n: nat)
    ensures n <= |s| && (forall i :: 0 <= i < n ==> IsLower(s[i])) && (n == |s| || !IsLower(s[n]))
    decreases |s|
  {
    if s == [] || !IsLower(s[0]) then 0
    else
      var m := LowerRun(s[1..]);
      assert forall i :: 1 <= i < m + 1 ==> s[i] == s[1..][i - 1];
      m + 1
  }

  /** The length of the run of non-word characters `s` starts with. */
  function NonWordRun(s: string): (n: nat)
    ensures n <= |s| && (forall i :: 0 <= i < n ==> !IsWordChar(s[i])) && (n == |s| || IsWordChar(s[n]))
    decreases |s|
  {
    if s == [] || IsWordChar(s[0]) then 0
    else
      var m := NonWordRun(s[1..]);
      assert forall i :: 1 <= i < m + 1 ==> s[i] == s[1..][i - 1];
      m + 1
  }

  /** The length of the run of underscores `s` starts with. */
  function UnderscoreRun(s: string): (n: nat)
    ensures n <= |s| && (forall i :: 0 <= i < n ==> s[i] == '_') && (n == |s| || s[n] != '_')
    decreases |s|
  {
    if s == [] || s[0] != '_' then 0
    else
      var m := UnderscoreRun(s[1..]);
      assert forall i :: 1 <= i < m + 1 ==> s[i] == s[1..][i - 1];
      m + 1
  }

  /** `re.sub('(.)([A-Z][a-z]+)', r'\1_\2', s)`: an underscore before each capitalised word that follows a character. */
  function SplitWords(s: string): (r: string)
    ensures |s| <= |r| <= 2 * |s|
    decreases |s|
  {
    if |s| >= 3 && s[0] != '\n' && IsUpper(s[1]) && IsLower(s[2]) then
      var n := 2 + LowerRun(s[2..]);
      [s[0], '_'] + s[1..n] + SplitWords(s[n..])
    else if s == [] then []
    else [s[0]] + SplitWords(s[1..])
  }

  /** `re.sub('([a-z0-9])([A-Z])', r'\1_\2', s)`: an underscore between a lower-case letter or digit and an upper-case letter. */
  function SplitCase(s: string): (r: string)
    ensures |s| <= |r| <= 2 * |s|
    decreases |s|
  {
    if |s| >= 2 && (IsLower(s[0]) || IsDigit(s[0])) && IsUpper(s[1]) then [s[0], '_', s[1]] + SplitCase(s[2..])
    else if s == [] then []
    else [s[0]] + SplitCase(s[1..])
  }

  /** `re.sub(r'\W+', '_', s)`: each run of non-word characters becomes one underscore. */
  function ReplaceNonWord(s: string): (r: string)
    ensures |r| <= |s| && (r == [] <==> s == [])
    decreases |s|
  {
    if s == [] then []
    else if !IsWordChar(s[0]) then
      var n := NonWordRun(s);
      ['_'] + ReplaceNonWord(s[n..])
    else [s[0]] + ReplaceNonWord(s[1..])
  }

  /** `re.sub('_+', '_', s)`: each run of underscores becomes one. */
  function CollapseUnderscores(s: string): (r: string)
    ensures |r| <= |s| && (r == [] <==> s == [])
    decreases |s|
  {
    if s == [] then []
    else if s[0] == '_' then
      var n := UnderscoreRun(s);
      ['_'] + CollapseUnderscores(s[n..])
    else [s[0]] + CollapseUnderscores(s[1..])
  }

  /** `snake_case(s)`. */
  function Snake(s: string): (r: string)
    ensures r == [] <==> s == []
    ensures |r| <= 4 * |s|
  {
    CollapseUnderscores(Lower(ReplaceNonWord(SplitCase(SplitWords(s)))))
  }
}

/** What `snake_case` guarantees about its output. */
module SnakeCaseProperties {
  import opened PyStr
  import opened SnakeCase

  predicate NoDoubleUnderscore(s: string) { forall i :: 0 <= i < |s| - 1 ==> !(s[i] == '_' && s[i + 1] == '_') }
  predicate AllWordChars(s: string) { forall i :: 0 <= i < |s| ==> IsWordChar(s[i]) }
  predicate NoUpper(s: string) { forall i :: 0 <= i < |s| ==> !IsUpper(s[i]) }
  predicate IsLowerWordChar(c: char) { IsWordChar(c) && !IsUpper(c) }

  // Character bounds: each step writes only characters of its input, or `_`.

  /** `CollapseUnderscores` writes only characters of its input: lower-case word characters stay so. */
  lemma {:induction false} CollapseKeepsChars(s: string)
    requires forall i :: 0 <= i < |s| ==> IsLowerWordChar(s[i])
    ensures forall i :: 0 <= i < |CollapseUnderscores(s)| ==> IsLowerWordChar(CollapseUnderscores(s)[i])
    decreases |s|
  {
    if s != [] {
      var n := if s[0] == '_' then UnderscoreRun(s) else 1;
      assert forall i :: 0 <= i < |s[n..]| ==> s[n..][i] == s[n + i];
      CollapseKeepsChars(s[n..]);
      var r := CollapseUnderscores(s);
      assert r == [s[0]] + CollapseUnderscores(s[n..]);
      assert r[0] == s[0];
      assert forall i :: 1 <= i < |r| ==> r[i] == CollapseUnderscores(s[n..])[i - 1];
    }
  }

  /** `ReplaceNonWord` writes only word characters. */
  lemma {:induction false} ReplaceNonWordIsWord(s: string)
    ensures AllWordChars(ReplaceNonWord(s))
    decreases |s|
  {
    if s != [] {
      var n := if !IsWordChar(s[0]) then NonWordRun(s) else 1;
      ReplaceNonWordIsWord(s[n..]);
    }
  }

  /** The first character of a collapsed string is the first character of its input. */
  lemma CollapseHead(s: string)
    requires s != []
    ensures CollapseUnderscores(s) != [] && CollapseUnderscores(s)[0] == s[0]
  {
  }

  /** Collapsing leaves no two underscores side by side. */
  lemma {:induction false} CollapseNoDouble(s: string)
    ensures NoDoubleUnderscore(CollapseUnderscores(s))
    decreases |s|
  {
    if s != [] {
      var n := if s[0] == '_' then UnderscoreRun(s) else 1;
      var rest := s[n..];
      CollapseNoDouble(rest);
      if rest != [] {
        CollapseHead(rest);
      }
    }
  }

  /** The output of `snake_case` never holds `__`. */
  lemma SnakeNoDoubleUnderscore(s: string)
    ensures NoDoubleUnderscore(Snake(s))
  {
    CollapseNoDouble(Lower(ReplaceNonWord(SplitCase(SplitWords(s)))));
  }

  /** The output of `snake_case` is made of lower-case letters, digits and underscores. */
  lemma SnakeIsLowerWord(s: string)
    ensures AllWordChars(Snake(s)) && NoUpper(Snake(s))
  {
    var t := ReplaceNonWord(SplitCase(SplitWords(s)));
    ReplaceNonWordIsWord(SplitCase(SplitWords(s)));
    var l := Lower(t);
    assert forall i :: 0 <= i < |l| ==> IsLowerWordChar(l[i]);
    CollapseKeepsChars(l);
  }

  // Idempotence: each step leaves the output of `snake_case` as it is.

  lemma {:induction false} SplitWordsNoUpper(s: string)
    requires NoUpper(s)
    ensures SplitWords(s) == s
    decreases |s|
  {
    if s != [] {
      SplitWordsNoUpper(s[1..]);
    }
  }

  lemma {:induction false} SplitCaseNoUpper(s: string)
    requires NoUpper(s)
    ensures SplitCase(s) == s
    decreases |s|
  {
    if s != [] {
      SplitCaseNoUpper(s[1..]);
    }
  }

  lemma {:induction false} ReplaceNonWordAllWord(s: string)
    requires AllWordChars(s)
    ensures ReplaceNonWord(s) == s
    decreases |s|
  {
    if s != [] {
      ReplaceNonWordAllWord(s[1..]);
    }
  }

  lemma LowerNoUpper(s: string)
    requires NoUpper(s)
    ensures Lower(s) == s
  {
  }

  lemma {:induction false} CollapseNoDoubleFixed(s: string)
    requires NoDoubleUnderscore(s)
    ensures CollapseUnderscores(s) == s
    decreases |s|
  {
    if s != [] {
      if s[0] == '_' {
        assert |s| == 1 || s[1] != '_';
        assert UnderscoreRun(s) == 1;
      }
      CollapseNoDoubleFixed(s[1..]);
    }
  }

  /** `snake_case(snake_case(s)) == snake_case(s)`. */
  lemma SnakeIdempotent(s: string)
    ensures Snake(Snake(s)) == Snake(s)
  {
    var r := Snake(s);
    SnakeIsLowerWord(s);
    SnakeNoDoubleUnderscore(s);
    SplitWordsNoUpper(r);
    SplitCaseNoUpper(r);
    ReplaceNonWordAllWord(r);
    LowerNoUpper(r);
    CollapseNoDoubleFixed(r);
  }

  // The two splitting rules.

  /** A string made by `SplitCase` never has a lower-case letter or digit right before an upper-case letter. */
  lemma {:induction false} SplitCaseSeparates(s: string)
    ensures var r := SplitCase(s);
      forall i :: 0 <= i < |r| - 1 ==> !((IsLower(r[i]) || IsDigit(r[i])) && IsUpper(r[i + 1]))
    decreases |s|
  {
    if s != [] {
      var n := if |s| >= 2 && (IsLower(s[0]) || IsDigit(s[0])) && IsUpper(s[1]) then 2 else 1;
      var rest := SplitCase(s[n..]);
      SplitCaseSeparates(s[n..]);
      var r := SplitCase(s);
      var front := if n == 2 then [s[0], '_', s[1]] else [s[0]];
      assert r == front + rest;
      if rest != [] {
        SplitCaseHead(s[n..]);
        assert r[|front|] == s[n];
      }
      forall i | 0 <= i < |r| - 1 ensures !((IsLower(r[i]) || IsDigit(r[i])) && IsUpper(r[i + 1])) {
        if i >= |front| {
          assert r[i] == rest[i - |front|] && r[i + 1] == rest[i + 1 - |front|];
        }
      }
    }
  }

  lemma SplitCaseHead(s: string)
    requires s != []
    ensures SplitCase(s) != [] && SplitCase(s)[0] == s[0]
  {
  }

  /** `CrocoCli` becomes `croco_cli`: a capitalised word after a character gets an underscore. */
  lemma SnakeCamelExample(s: string)
    requires s == "CrocoCli"
    ensures Snake(s) == "croco_cli"
  {
    SplitWordsCamel(s);
    CamelTail(SplitWords(s));
  }

  /** The last three steps on `Croco_Cli`. */
  lemma CamelTail(s: string)
    requires s == "Croco_Cli"
    ensures CollapseUnderscores(Lower(ReplaceNonWord(SplitCase(s)))) == "croco_cli"
  {
    SplitCaseNoLowerUpper(s);
    AllWordFixed(s);
    LowerCamel(s);
    CollapseLower(Lower(s));
  }

  /** Where no capitalised word starts after the first character, `SplitWords` copies it. */
  lemma SplitWordsCopy(s: string)
    requires s != [] && !(|s| >= 3 && s[0] != '\n' && IsUpper(s[1]) && IsLower(s[2]))
    ensures SplitWords(s) == [s[0]] + SplitWords(s[1..])
  {
  }

  lemma SplitWordsCamel(s: string)
    requires s == "CrocoCli"
    ensures SplitWords(s) == "Croco_Cli"
  {
    var t := s[4..];
    assert LowerRun(t[2..]) == 2 && t[4..] == [];
    assert SplitWords(t) == "o_Cli";
    SplitWordsCopy(s);
    SplitWordsCopy(s[1..]);
    SplitWordsCopy(s[2..]);
    SplitWordsCopy(s[3..]);
    assert s[1..][1..] == s[2..] && s[2..][1..] == s[3..] && s[3..][1..] == t;
  }

  lemma LowerCamel(s: string)
    requires s == "Croco_Cli"
    ensures Lower(s) == "croco_cli"
  {
  }

  /** A string of word characters is left alone by `ReplaceNonWord`. */
  lemma AllWordFixed(s: string)
    requires s == "Croco_Cli" || s == "HTTP_Server"
    ensures ReplaceNonWord(s) == s
  {
    assert AllWordChars(s);
    ReplaceNonWordAllWord(s);
  }

  /** A string with no lower-case letter or digit before an upper-case letter is left alone by `SplitCase`. */
  lemma {:induction false} SplitCaseNoLowerUpper(s: string)
    requires forall i :: 0 <= i < |s| - 1 ==> !((IsLower(s[i]) || IsDigit(s[i])) && IsUpper(s[i + 1]))
    ensures SplitCase(s) == s
    decreases |s|
  {
    if s != [] {
      SplitCaseNoLowerUpper(s[1..]);
    }
  }

  /** `HTTPServer` becomes `http_server`: the capitalised word `Server` is split from the acronym before it. */
  lemma SnakeAcronymExample(s: string)
    requires s == "HTTPServer"
    ensures Snake(s) == "http_server"
  {
    SplitWordsAcronym(s);
    AcronymTail(SplitWords(s));
  }

  /** The last three steps on `HTTP_Server`. */
  lemma AcronymTail(s: string)
    requires s == "HTTP_Server"
    ensures CollapseUnderscores(Lower(ReplaceNonWord(SplitCase(s)))) == "http_server"
  {
    SplitCaseNoLowerUpper(s);
    AllWordFixed(s);
    LowerAcronym(s);
    CollapseLower(Lower(s));
  }

  lemma CollapseLower(s: string)
    requires s == "http_server" || s == "croco_cli"
    ensures CollapseUnderscores(s) == s
  {
    CollapseNoDoubleFixed(s);
  }

  lemma SplitWordsAcronym(s: string)
    requires s == "HTTPServer"
    ensures SplitWords(s) == "HTTP_Server"
  {
    SplitWordsTTP(s[1..]);
    SplitWordsCopy(s);
  }

  /** `TTPServer`: an upper-case letter before the match is copied. */
  lemma SplitWordsTTP(s: string)
    requires s == "TTPServer"
    ensures SplitWords(s) == "TTP_Server"
  {
    SplitWordsTP(s[1..]);
    SplitWordsCopy(s);
  }

  /** `TPServer`: likewise, one letter further. */
  lemma SplitWordsTP(s: string)
    requires s == "TPServer"
    ensures SplitWords(s) == "TP_Server"
  {
    SplitWordsServer(s[1..]);
    SplitWordsCopy(s);
  }

  /** `PServer`: the one match, `P` then the capitalised word `Server`. */
  lemma SplitWordsServer(t: string)
    requires t == "PServer"
    ensures SplitWords(t) == "P_Server"
  {
    assert LowerRun(t[2..]) == 5 && t[7..] == [];
  }

  lemma LowerAcronym(s: string)
    requires s == "HTTP_Server"
    ensures Lower(s) == "http_server"
  {
  }
}
