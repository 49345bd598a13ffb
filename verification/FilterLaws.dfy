/** The filter language in characters: what filters made of plain words, wildcards, colons, commas
    and quotes select. */
module FilterLaws {
  import opened FilterSpec

  /** A text occurs in a name when the name is something, the text, and something. */
  lemma ContainsLaw(name: string, text: string)
    ensures Contains(name, text) <==> exists before: string, after: string :: name == before + text + after
  {
    if Contains(name, text) {
      var k: nat :| OccursAt(name, text, k);
      assert name == name[..k] + text + name[k + |text|..];
    }
    if before: string, after: string :| name == before + text + after {
      assert name[|before|..|before| + |text|] == text;
      assert OccursAt(name, text, |before|);
    }
  }

  /** A non-empty stretch of characters that have no meaning of their own in a filter. */
  predicate IsWord(t: string) {
    t != [] && forall i :: 0 <= i < |t| ==>
      t[i] != ',' && t[i] != '"' && t[i] != '\'' && t[i] != ':' && t[i] != '*' && t[i] != '\0'
  }

  /** No comma, no quote. */
  predicate InOneItem(t: string) {
    forall i :: 0 <= i < |t| ==> t[i] != ',' && t[i] != '"' && t[i] != '\'' && t[i] != '\0'
  }

  lemma WordIsItem(t: string)
    requires IsWord(t)
    ensures '\0' !in t && IsItem(t) && InOneItem(t)
  {
  }

  lemma ItemIs(first: string, rest: string)
    requires IsWord(first) && InOneItem(rest)
    ensures '\0' !in first + rest && IsItem(first + rest)
  {
  }

  /** A word at the start of a pattern ends at a star, a comma, a quote, a colon or the end, and a name
      matches when the word occurs in it. */
  lemma WordLaw(name: string, word: string, rest: CString)
    requires IsWord(word)
    requires rest != [] ==> rest[0] == '*' || rest[0] == ',' || rest[0] == '"' || rest[0] == '\'' || rest[0] == ':'
    ensures '\0' !in word + rest
    ensures FirstIn(word + rest, 1, PATTERN_STOPS) == |word|
    ensures NameMatches(name, word + rest) <==> Contains(name, word)
  {
    hide Contains;
    var pattern: CString := word + rest;
    assert forall i :: 0 <= i < |word| ==> pattern[i] == word[i];
    assert rest != [] ==> pattern[|word|] == rest[0];
    FirstInIs(pattern, 1, |word|, PATTERN_STOPS);
    assert pattern[..|word|] == word;
  }

  lemma OneWord(name: string, word: string)
    requires IsWord(word)
    ensures '\0' !in word && (NameMatches(name, word) <==> Contains(name, word))
  {
    hide Contains, NameMatches;
    WordLaw(name, word, "");
    assert word + "" == word;
  }

  /** A word alone, bare or with anything behind it that separates items. */
  lemma WordSelects(word: string, behind: CString, file: string, test: string)
    requires IsWord(word)
    ensures '\0' !in word && IsItem(word)
    ensures Selects(word, behind, file, test) <==> Contains(file, word) || Contains(test, word)
  {
    hide Contains, NameMatches;
    WordIsItem(word);
    OneWord(file, word);
    OneWord(test, word);
    WordLaw(file, word, "");
    assert word + "" == word;
  }

  /** What separates items: a comma or quote, then any commas, quotes and colons. */
  predicate Separates(t: string) {
    && t != []
    && (t[0] == ',' || t[0] == '"' || t[0] == '\'')
    && forall i :: 0 <= i < |t| ==> t[i] == ',' || t[i] == '"' || t[i] == '\'' || t[i] == ':'
  }

  lemma SeparatesIs(t: string)
    requires Separates(t)
    ensures '\0' !in t && IsSeparation(t)
  {
  }

  /** Two words, however separated: a file or test is selected when either word occurs in its name. */
  lemma TwoWords(word: string, separator: string, other: string, file: CString, test: CString)
    requires IsWord(word) && Separates(separator) && IsWord(other)
    ensures '\0' !in word + separator + other && Readable(word + separator + other, 0)
    ensures Matches(word + separator + other, 0, file, test) <==>
            || Contains(file, word) || Contains(test, word)
            || Contains(file, other) || Contains(test, other)
  {
    hide Contains, Matches, Selects, IsItem, IsSeparation;
    WordIsItem(word);
    WordIsItem(other);
    SeparatesIs(separator);
    TwoItems(word, separator, other, file, test);
    WordSelects(word, separator + other, file, test);
    WordSelects(other, "", file, test);
  }

  /** A word between quotes. */
  lemma QuotedWord(quote: char, word: string, file: CString, test: CString)
    requires (quote == '"' || quote == '\'') && IsWord(word)
    ensures '\0' !in [quote] + word + [quote] && Readable([quote] + word + [quote], 0)
    ensures Matches([quote] + word + [quote], 0, file, test) <==> Contains(file, word) || Contains(test, word)
  {
    hide Contains, Matches, Selects, IsItem;
    WordIsItem(word);
    var f := Filter([quote], [Part(word, [quote])]);
    TextSplits(f.parts);
    assert f.parts[1..] == [] && Text(f.parts) == word + [quote];
    assert Behind(f.parts, 0) == [quote];
    Regroup([quote], word, [quote]);
    assert Render(f) == [quote] + word + [quote];
    FilterMeansItems(f, file, test);
    AnySelectsSplits(f.parts, file, test);
    WordSelects(word, [quote], file, test);
  }

  /** A star ends the word, whatever follows it in the item, colons included; in front it matches
      everything. */
  lemma WordAndStar(word: string, rest: string, file: CString, test: CString)
    requires (word == [] || IsWord(word)) && InOneItem(rest)
    ensures '\0' !in word + "*" + rest && Readable(word + "*" + rest, 0)
    ensures Matches(word + "*" + rest, 0, file, test) <==>
            word == [] || Contains(file, word) || Contains(test, word)
  {
    hide Contains, Matches, NameMatches;
    var it: CString := word + "*" + rest;
    assert it == word + ("*" + rest) && it + "" == it;
    OneItem(it, "", file, test);
    if word == [] {
      StarMatches(file, it);
    } else {
      WordLaw(file, word, "*" + rest);
      WordLaw(test, word, "*" + rest);
      assert it[|word|] == '*';
    }
  }

  lemma StarMatches(name: string, pattern: CString)
    requires pattern != [] && pattern[0] == '*'
    ensures NameMatches(name, pattern)
  {
  }

  lemma {:induction false} LastColonEndIs(it: string, k: nat)
    requires 0 < k <= |it| && it[k - 1] == ':'
    requires forall i :: k <= i < |it| ==> it[i] != ':'
    ensures LastColonEnd(it) == k
    decreases |it|
  {
    if k < |it| {
      LastColonEndIs(it[..|it| - 1], k);
    }
  }

  /** The pieces of a word, colons, and a word. */
  lemma Pieces(word: string, between: string, last: string)
    requires IsWord(word) && IsWord(last) && InOneItem(between)
    requires between != [] ==> between[|between| - 1] == ':'
    ensures var it := word + ":" + between + last;
            var k := |word| + 1 + |between|;
            && it == word + (":" + between + last)
            && '\0' !in it && '\0' !in ":" + between + last && IsItem(it)
            && it[|word|] == ':' && it[k - 1] == ':' && it[k..] == last
            && (forall i :: k <= i < |it| ==> it[i] != ':')
            && k < |it|
  {
    var rest := ":" + between + last;
    var it := word + ":" + between + last;
    var k := |word| + 1 + |between|;
    assert it == word + rest;
    assert InOneItem(rest) by {
      assert forall i :: 0 <= i < |rest| ==>
        rest[i] == if i == 0 then ':' else if i <= |between| then between[i - 1] else last[i - 1 - |between|];
    }
    ItemIs(word, rest);
    hide IsItem, InOneItem;
    assert it[k - 1] == (":" + between)[|between|];
    assert it[k..] == last;
    assert forall i :: k <= i < |it| ==> it[i] == last[i - k];
  }

  /** An item whose last colon is not its end has the test part behind that colon. */
  lemma SelectsBehindColon(it: CString, k: nat, file: string, test: string)
    requires IsItem(it) && HasTestPart(it)
    requires 0 < k < |it| && it[k - 1] == ':' && forall i :: k <= i < |it| ==> it[i] != ':'
    ensures Selects(it, "", file, test) <==> NameMatches(file, it) && NameMatches(test, it[k..])
  {
    hide NameMatches, LastColonEnd, IsItem, HasTestPart;
    LastColonEndIs(it, k);
    assert it[|it| - 1] != ':';
  }

  /** A word, colons, and a word: the file must match the first and the test the last one; what stands
      between two colons does not count. */
  lemma FileAndTest(word: string, between: string, last: string, file: CString, test: CString)
    requires IsWord(word) && IsWord(last) && InOneItem(between)
    requires between != [] ==> between[|between| - 1] == ':'
    ensures '\0' !in word + ":" + between + last && Readable(word + ":" + between + last, 0)
    ensures Matches(word + ":" + between + last, 0, file, test) <==> Contains(file, word) && Contains(test, last)
  {
    Pieces(word, between, last);
    ItemOfPieces(word + ":" + between + last, word, ":" + between + last, |word| + 1 + |between|, last, file, test);
  }

  lemma ItemOfPieces(it: CString, word: string, rest: CString, k: nat, last: CString, file: CString, test: CString)
    requires IsWord(word) && IsWord(last) && IsItem(it) && it == word + rest
    requires rest != [] && rest[0] == ':' && it[|word|] == ':'
    requires 0 < k < |it| && it[k - 1] == ':' && it[k..] == last
    requires forall i :: k <= i < |it| ==> it[i] != ':'
    ensures Readable(it, 0)
    ensures Matches(it, 0, file, test) <==> Contains(file, word) && Contains(test, last)
  {
    hide Contains, Matches, NameMatches, Selects, IsItem;
    WordLaw(file, word, rest);
    OneWord(test, last);
    assert HasTestPart(it) by {
      assert it[0] == word[0];
    }
    hide IsWord, HasTestPart;
    SelectsBehindColon(it, k, file, test);
    OneItem(it, "", file, test);
    assert it + "" == it;
  }
}
