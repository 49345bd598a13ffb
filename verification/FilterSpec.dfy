/** Test selection from a filter string: what the matcher of unity.c computes for any string, and
    what a well-formed filter means. */
module FilterSpec {
  import opened Options

  /** A C string: its terminating NUL is the position after the last character. */
  type CString = s: string | '\0' !in s witness ""

  /** The character at an index; nothing beyond the NUL may be read. */
  function At(s: CString, i: nat): char
    requires i <= |s|
  {
    if i < |s| then s[i] else '\0'
  }

  /** Where a pattern stops, besides the end. */
  const PATTERN_STOPS: set<char> := {'*', ',', '"', '\'', ':'}
  /** Where an item stops, besides the end. */
  const ITEM_STOPS: set<char> := {',', '"', '\''}
  /** What is skipped between items. */
  const SEPARATORS: set<char> := {':', ',', '"', '\''}

  predicate IsQuote(c: char) {
    c == '"' || c == '\''
  }

  /** The first index from `i` on of a character in the set, or the end. */
  function FirstIn(s: CString, i: nat, stops: set<char>): (j: nat)
    requires i <= |s|
    ensures i <= j <= |s|
    ensures j < |s| ==> s[j] in stops
    ensures forall k :: i <= k < j ==> s[k] !in stops
    decreases |s| - i
  {
    if i == |s| || s[i] in stops then i else FirstIn(s, i + 1, stops)
  }

  function FirstNotIn(s: CString, i: nat, skipped: set<char>): (j: nat)
    requires i <= |s|
    ensures i <= j <= |s|
    ensures j < |s| ==> s[j] !in skipped
    ensures forall k :: i <= k < j ==> s[k] in skipped
    decreases |s| - i
  {
    if i == |s| || s[i] !in skipped then i else FirstNotIn(s, i + 1, skipped)
  }

  ghost predicate OccursAt(long: string, p: string, k: nat) {
    k + |p| <= |long| && long[k..k + |p|] == p
  }

  ghost predicate Contains(long: string, p: string) {
    exists k: nat :: OccursAt(long, p, k)
  }

  // ---------------------------------------------------------------- any string

  /** What IsStringInBiggerString answers for the pattern that starts at `from`: a leading `*`
      matches everything; otherwise the pattern runs to the next stop, and the answer is 2 when it
      occurs and stops at a colon, 1 when it occurs and stops elsewhere, 0 when it does not occur. */
  ghost function InBigger(long: CString, s: CString, from: nat): int
    requires from <= |s|
  {
    if At(s, from) == '*' then 1
    else if from == |s| then 0
    else
      var end := FirstIn(s, from + 1, PATTERN_STOPS);
      if !Contains(long, s[from..end]) then 0
      else if At(s, end) == ':' then 2
      else 1
  }

  /** Behind the last colon strictly between two indices that is not the last character. */
  function AfterLastColon(s: CString, from: nat, end: nat): (r: Option<nat>)
    requires from < |s| && from < end <= |s|
    ensures r.Some? ==> r.value < |s|
    decreases end
  {
    if end == from + 1 then None
    else if s[end - 1] == ':' && end < |s| then Some(end)
    else AfterLastColon(s, from, end - 1)
  }

  /** The item that starts at `p` selects the test. */
  ghost predicate ItemMatches(s: CString, p: nat, file: CString, test: CString)
    requires p < |s|
  {
    var colon := AfterLastColon(s, p, FirstIn(s, p + 1, ITEM_STOPS));
    || InBigger(file, s, p) == 1
    || (InBigger(file, s, p) == 2 && colon.Some? && InBigger(test, s, colon.value) != 0)
    || InBigger(test, s, p) == 1
  }

  /** The matcher may stand at `p`: there is something to read behind a quote. */
  predicate Readable(s: CString, p: nat) {
    p <= |s| && (IsQuote(At(s, p)) ==> p + 1 < |s|)
  }

  /** What UnityStringArgumentMatches answers from position `p` on. */
  ghost predicate Matches(s: CString, p: nat, file: CString, test: CString)
    requires Readable(s, p)
    decreases |s| - p
  {
    p < |s| &&
    var q := if IsQuote(s[p]) then p + 1 else p;
    var next := FirstNotIn(s, FirstIn(s, q + 1, ITEM_STOPS), SEPARATORS);
    ItemMatches(s, q, file, test) || Matches(s, next, file, test)
  }

  // ---------------------------------------------------------------- well-formed filters

  /** An item of a filter: not empty, no comma or quote, not beginning with a colon. */
  predicate IsItem(it: string) {
    IsPlain(it) && it[0] != ':'
  }

  /** Not empty, no comma or quote. */
  predicate IsPlain(t: string) {
    && t != []
    && '\0' !in t
    && (forall i :: 0 <= i < |t| ==> t[i] !in ITEM_STOPS)
  }

  /** What stands behind an item: nothing, or a comma or quote and any more separators. */
  predicate IsSeparation(t: string) {
    && '\0' !in t
    && (t != [] ==> t[0] in ITEM_STOPS)
    && (forall i :: 0 <= i < |t| ==> t[i] in SEPARATORS)
  }

  /** A name is matched by a pattern: a leading `*` matches everything, otherwise the part before
      the first `*` or `:` must occur in it. */
  ghost predicate NameMatches(name: string, pattern: CString)
    requires pattern != []
  {
    pattern[0] == '*' || Contains(name, pattern[..FirstIn(pattern, 1, PATTERN_STOPS)])
  }

  /** The index behind the last colon of an item, 0 when it has none. */
  function LastColonEnd(it: string): (r: nat)
    ensures r <= |it|
    ensures r > 0 ==> it[r - 1] == ':'
    ensures forall k :: r <= k < |it| ==> it[k] != ':'
  {
    if it == [] then 0
    else if it[|it| - 1] == ':' then |it|
    else LastColonEnd(it[..|it| - 1])
  }

  predicate EndsInColon(it: string) {
    it != [] && it[|it| - 1] == ':'
  }

  /** Where the test part of an item starts, 0 when it has none: behind its last colon, but a colon
      at its end only counts when something follows the item. */
  function TestPartStart(it: string, atEnd: bool): (r: nat)
    ensures r <= |it|
    ensures r > 0 ==> it[r - 1] == ':'
    ensures r == |it| ==> it == [] || (EndsInColon(it) && !atEnd)
  {
    if atEnd && EndsInColon(it) then LastColonEnd(it[..|it| - 1]) else LastColonEnd(it)
  }

  /** The pattern of the item is followed by a colon: the item names a file and a test. */
  predicate HasTestPart(it: CString)
    requires it != []
  {
    it[0] != '*' && At(it, FirstIn(it, 1, PATTERN_STOPS)) == ':'
  }

  /** The test part of an item that has one: what stands behind the colon that counts. When that is
      a colon at the end of the item, it is whatever stands behind the item. */
  function TestPart(it: CString, behind: CString): (pattern: CString)
    requires IsItem(it) && TestPartStart(it, behind == []) > 0
    ensures pattern != []
  {
    var from := TestPartStart(it, behind == []);
    if from < |it| then it[from..] else behind
  }

  /** What an item selects, given the text behind it. `pattern` selects the tests whose file or name
      matches it, `file:test` those whose file matches the first and whose name matches the last
      part. Behind a colon at the end of an item the test part is read from the separators that
      follow; at the very end of the filter such a colon is overlooked and an earlier one counts. */
  ghost predicate Selects(it: CString, behind: CString, file: string, test: string)
    requires IsItem(it)
  {
    if HasTestPart(it) then
      && TestPartStart(it, behind == []) > 0
      && NameMatches(file, it)
      && NameMatches(test, TestPart(it, behind))
    else NameMatches(file, it) || NameMatches(test, it)
  }

  /** An item and what stands behind it. */
  datatype Part = Part(item: CString, separation: CString)

  /** The parts of a filter: something stands behind every item but the last. */
  predicate AreParts(parts: seq<Part>) {
    && (forall i :: 0 <= i < |parts| ==> IsItem(parts[i].item) && IsSeparation(parts[i].separation))
    && (forall i :: 0 <= i < |parts| - 1 ==> parts[i].separation != [])
  }

  function Text(parts: seq<Part>): string {
    if parts == [] then [] else parts[0].item + parts[0].separation + Text(parts[1..])
  }

  lemma TextIsClean(parts: seq<Part>)
    requires AreParts(parts)
    ensures '\0' !in Text(parts)
    ensures parts != [] ==> Text(parts) != [] && Text(parts)[0] !in SEPARATORS
  {
    if parts != [] {
      TextIsClean(parts[1..]);
    }
  }

  /** Everything behind an item: what separates it from the next one, and the parts that follow. */
  function Behind(parts: seq<Part>, i: nat): CString
    requires AreParts(parts) && i < |parts|
  {
    TextIsClean(parts[i + 1..]);
    parts[i].separation + Text(parts[i + 1..])
  }

  /** A filter as it is written: an opening quote or none, then the parts. Items between one pair of
      quotes, items quoted one by one and bare items are all of this form. */
  datatype Filter = Filter(opening: CString, parts: seq<Part>)

  predicate WellFormed(f: Filter) {
    && (f.opening == [] || f.opening == "'" || f.opening == "\"")
    && AreParts(f.parts)
    && (f.parts == [] ==> f.opening == [])
  }

  function Render(f: Filter): string {
    f.opening + Text(f.parts)
  }

  /** Some item of the filter selects the file and the test. */
  ghost predicate AnySelects(parts: seq<Part>, file: string, test: string)
    requires AreParts(parts)
  {
    exists i :: 0 <= i < |parts| && PartSelects(parts, i, file, test)
  }

  ghost predicate PartSelects(parts: seq<Part>, i: nat, file: string, test: string)
    requires AreParts(parts) && i < |parts|
  {
    Selects(parts[i].item, Behind(parts, i), file, test)
  }

  // ---------------------------------------------------------------- proofs

  lemma {:induction false} FirstInIs(s: CString, i: nat, j: nat, stops: set<char>)
    requires i <= j <= |s|
    requires j < |s| ==> s[j] in stops
    requires forall k :: i <= k < j ==> s[k] !in stops
    ensures FirstIn(s, i, stops) == j
    decreases j - i
  {
    if i < j {
      FirstInIs(s, i + 1, j, stops);
    }
  }

  lemma {:induction false} FirstNotInIs(s: CString, i: nat, j: nat, skipped: set<char>)
    requires i <= j <= |s|
    requires j < |s| ==> s[j] !in skipped
    requires forall k :: i <= k < j ==> s[k] in skipped
    ensures FirstNotIn(s, i, skipped) == j
    decreases j - i
  {
    if i < j {
      FirstNotInIs(s, i + 1, j, skipped);
    }
  }

  /** The string from `p` on is `it`, followed by the end or by a delimiter. */
  predicate Stands(s: CString, p: nat, it: string) {
    && p + |it| <= |s|
    && s[p..p + |it|] == it
    && (p + |it| < |s| ==> s[p + |it|] in ITEM_STOPS)
  }

  lemma StandsAt(s: CString, p: nat, it: string)
    requires Stands(s, p, it)
    ensures forall i :: 0 <= i < |it| ==> s[p + i] == it[i]
  {
    forall i | 0 <= i < |it|
      ensures s[p + i] == it[i]
    {
      assert s[p..p + |it|][i] == s[p + i];
    }
  }

  /** A pattern inside an item is read the same way in the filter as in the item alone. */
  lemma PatternInItem(long: CString, s: CString, p: nat, it: CString, from: nat)
    requires Stands(s, p, it) && IsPlain(it) && from < |it|
    ensures InBigger(long, s, p + from) == InBigger(long, it, from)
  {
    StandsAt(s, p, it);
    assert s[p + from] == it[from];
    var end := FirstIn(it, from + 1, PATTERN_STOPS);
    forall k | p + from + 1 <= k < p + end
      ensures s[k] !in PATTERN_STOPS
    {
      assert s[p + (k - p)] == it[k - p];
    }
    assert end < |it| ==> s[p + end] == it[end];
    FirstInIs(s, p + from + 1, p + end, PATTERN_STOPS);
    assert s[p + from..p + end] == it[from..end] by {
      assert s[p..p + |it|][from..end] == s[p + from..p + end];
    }
  }

  lemma ItemEnds(s: CString, p: nat, it: string)
    requires Stands(s, p, it) && IsPlain(it)
    ensures FirstIn(s, p + 1, ITEM_STOPS) == p + |it|
  {
    StandsAt(s, p, it);
    forall k | p + 1 <= k < p + |it|
      ensures s[k] !in ITEM_STOPS
    {
      assert s[p + (k - p)] == it[k - p];
    }
    FirstInIs(s, p + 1, p + |it|, ITEM_STOPS);
  }

  lemma {:induction false} ColonInItem(s: CString, p: nat, it: string, end: nat, last: nat)
    requires Stands(s, p, it) && IsItem(it)
    requires last <= end && 0 < end <= |it| && (last > 0 ==> p + last < |s|)
    requires last > 0 ==> it[last - 1] == ':'
    requires forall k :: last <= k < end ==> it[k] != ':'
    ensures AfterLastColon(s, p, p + end) == if last == 0 then None else Some(p + last)
    decreases end
  {
    StandsAt(s, p, it);
    assert s[p + (end - 1)] == it[end - 1];
    if last < end && end > 1 {
      ColonInItem(s, p, it, end - 1, last);
    }
  }

  /** The answer for a pattern, in terms of names and patterns. */
  lemma InBiggerMeaning(name: CString, it: CString)
    requires IsPlain(it)
    ensures InBigger(name, it, 0) != 0 <==> NameMatches(name, it)
    ensures InBigger(name, it, 0) == 2 <==> NameMatches(name, it) && HasTestPart(it)
  {
    hide Contains;
    assert it[0..FirstIn(it, 1, PATTERN_STOPS)] == it[..FirstIn(it, 1, PATTERN_STOPS)];
  }

  /** The part of an item from an index on stands at its end. */
  lemma SuffixStands(it: CString, from: nat)
    requires IsPlain(it) && from < |it|
    ensures '\0' !in it[from..] && IsPlain(it[from..]) && Stands(it, from, it[from..])
  {
    assert forall i :: 0 <= i < |it| - from ==> it[from..][i] == it[from + i];
    assert it[from..from + |it[from..]|] == it[from..];
  }

  /** Reading the pattern at an index of an item in the filter. */
  lemma PatternFrom(name: CString, s: CString, p: nat, it: CString, from: nat)
    requires Stands(s, p, it) && IsPlain(it) && from < |it|
    ensures '\0' !in it[from..]
    ensures InBigger(name, s, p + from) != 0 <==> NameMatches(name, it[from..])
  {
    hide InBigger, Contains, NameMatches;
    SuffixStands(it, from);
    PatternInItem(name, s, p, it, from);
    PatternInItem(name, it, from, it[from..], 0);
    InBiggerMeaning(name, it[from..]);
  }

  /** A pattern is read the same way in a string as at the start of what is left of it. */
  lemma PatternOfSuffix(name: CString, s: CString, from: nat)
    requires from < |s|
    ensures '\0' !in s[from..]
    ensures InBigger(name, s, from) != 0 <==> NameMatches(name, s[from..])
  {
    hide Contains;
    var end := FirstIn(s, from + 1, PATTERN_STOPS);
    var suffix: CString := s[from..];
    assert forall k :: 0 <= k < |suffix| ==> suffix[k] == s[from + k];
    FirstInIs(suffix, 1, end - from, PATTERN_STOPS);
    assert suffix[..end - from] == s[from..end];
  }

  /** Where the matcher looks for the test part of an item. */
  lemma TestPartInItem(s: CString, p: nat, it: CString)
    requires Stands(s, p, it) && IsItem(it)
    ensures var from := TestPartStart(it, p + |it| == |s|);
            && AfterLastColon(s, p, p + |it|) == (if from == 0 then None else Some(p + from))
            && (HasTestPart(it) && !EndsInColon(it) ==> from > 0)
  {
    var n := |it|;
    var atEnd := p + n == |s|;
    if atEnd && EndsInColon(it) {
      var from := LastColonEnd(it[..n - 1]);
      hide LastColonEnd;
      assert forall k :: 0 <= k < n - 1 ==> it[..n - 1][k] == it[k];
      StandsAt(s, p, it);
      assert n >= 2;
      ColonInItem(s, p, it, n - 1, from);
    } else {
      hide LastColonEnd;
      ColonInItem(s, p, it, n, LastColonEnd(it));
    }
  }

  /** What the matcher answers for the test part of an item, where it looks for one. */
  lemma TestPartAnswer(s: CString, p: nat, it: CString, behind: CString, test: CString)
    requires Stands(s, p, it) && IsItem(it) && s[p + |it|..] == behind
    ensures var from := TestPartStart(it, behind == []);
            from > 0 ==> (InBigger(test, s, p + from) != 0 <==> NameMatches(test, TestPart(it, behind)))
  {
    hide InBigger, NameMatches, LastColonEnd;
    var from := TestPartStart(it, behind == []);
    if from == |it| {
      PatternOfSuffix(test, s, p + from);
    } else {
      PatternFrom(test, s, p, it, from);
    }
  }

  /** For an item of a filter, the matcher's tests come to what the item selects. */
  lemma ItemSelects(s: CString, p: nat, it: CString, behind: CString, file: CString, test: CString)
    requires Stands(s, p, it) && IsItem(it) && s[p + |it|..] == behind
    ensures ItemMatches(s, p, file, test) <==> Selects(it, behind, file, test)
  {
    hide InBigger, Contains, NameMatches, FirstIn, AfterLastColon, HasTestPart, TestPartStart, TestPart, EndsInColon;
    ItemEnds(s, p, it);
    TestPartInItem(s, p, it);
    TestPartAnswer(s, p, it, behind, test);
    PatternInItem(file, s, p, it, 0);
    PatternInItem(test, s, p, it, 0);
    InBiggerMeaning(file, it);
    InBiggerMeaning(test, it);
    InBiggerRange(file, it);
    InBiggerRange(test, it);
  }

  lemma InBiggerRange(name: CString, s: CString)
    ensures 0 <= InBigger(name, s, 0) <= 2
  {
    hide Contains;
  }

  /** From the start of an item on, the matcher finds exactly whether one of the items left selects
      the test. */
  lemma {:induction false} MatchesFrom(s: CString, p: nat, parts: seq<Part>, file: CString, test: CString)
    requires AreParts(parts)
    requires p <= |s| && s[p..] == Text(parts)
    ensures Readable(s, p) && (p < |s| ==> s[p] !in SEPARATORS)
    ensures Matches(s, p, file, test) <==> AnySelects(parts, file, test)
    decreases |parts|
  {
    hide IsItem, Stands, ItemMatches, Selects, IsSeparation;
    if parts == [] {
      assert p == |s|;
    } else {
      hide Text, Matches;
      var it := parts[0].item;
      ItemStarts(s, p, parts);
      var next := NextItem(s, p, parts);
      ItemIsPlain(it);
      ItemEnds(s, p, it);
      ItemSelects(s, p, it, Behind(parts, 0), file, test);
      MatchesFrom(s, next, parts[1..], file, test);
      MatchesStep(s, p, next, file, test);
      AnySelectsSplits(parts, file, test);
    }
  }

  lemma ItemIsPlain(it: string)
    requires IsItem(it)
    ensures IsPlain(it)
  {
  }

  lemma ItemStarts(s: CString, p: nat, parts: seq<Part>)
    requires parts != [] && AreParts(parts)
    requires p <= |s| && s[p..] == Text(parts)
    ensures p < |s| && s[p] !in SEPARATORS
  {
    TextIsClean(parts);
    hide Text;
    assert s[p] == s[p..][0];
  }

  lemma MatchesStep(s: CString, p: nat, next: nat, file: CString, test: CString)
    requires p < |s| && s[p] !in SEPARATORS
    requires next == FirstNotIn(s, FirstIn(s, p + 1, ITEM_STOPS), SEPARATORS)
    ensures Readable(s, next)
    ensures Matches(s, p, file, test) <==> ItemMatches(s, p, file, test) || Matches(s, next, file, test)
  {
    hide ItemMatches;
  }

  lemma BehindRest(parts: seq<Part>, i: nat)
    requires AreParts(parts) && i + 1 < |parts|
    ensures Behind(parts[1..], i) == Behind(parts, i + 1)
  {
    hide IsItem, IsSeparation, Text;
    assert parts[1..][i + 1..] == parts[i + 2..];
  }

  lemma AnySelectsSplits(parts: seq<Part>, file: string, test: string)
    requires parts != [] && AreParts(parts)
    ensures AnySelects(parts, file, test) <==>
            PartSelects(parts, 0, file, test) || AnySelects(parts[1..], file, test)
  {
    hide Selects, IsItem, IsSeparation;
    if AnySelects(parts[1..], file, test) {
      var i :| 0 <= i < |parts[1..]| && PartSelects(parts[1..], i, file, test);
      BehindRest(parts, i);
      assert PartSelects(parts, i + 1, file, test);
    }
    if i :| 0 <= i < |parts| && PartSelects(parts, i, file, test) {
      if i > 0 {
        BehindRest(parts, i - 1);
        assert PartSelects(parts[1..], i - 1, file, test);
      }
    }
  }

  /** Splitting the rest of a string into what stands first and what follows. */
  lemma SplitRest(s: CString, p: nat, it: string, rest: string)
    requires p <= |s| && s[p..] == it + rest
    ensures p + |it| <= |s| && s[p..p + |it|] == it && s[p + |it|..] == rest
  {
    assert s[p..][..|it|] == s[p..p + |it|];
    assert s[p..][|it|..] == s[p + |it|..];
  }

  lemma TextSplits(parts: seq<Part>)
    requires parts != []
    ensures Text(parts) == parts[0].item + (parts[0].separation + Text(parts[1..]))
  {
    assert Text(parts) == parts[0].item + parts[0].separation + Text(parts[1..]);
    hide Text;
    Regroup(parts[0].item, parts[0].separation, Text(parts[1..]));
  }

  lemma Regroup(a: string, b: string, c: string)
    ensures a + b + c == a + (b + c)
  {
  }

  /** The first item stands at the start, and skipping the separators behind it leads to the next
      item, or to the end. */
  lemma NextItem(s: CString, p: nat, parts: seq<Part>) returns (next: nat)
    requires parts != [] && AreParts(parts)
    requires p <= |s| && s[p..] == Text(parts)
    ensures Stands(s, p, parts[0].item)
    ensures s[p + |parts[0].item|..] == Behind(parts, 0)
    ensures p + |parts[0].item| <= |s| && next == FirstNotIn(s, p + |parts[0].item|, SEPARATORS)
    ensures next <= |s| && s[next..] == Text(parts[1..])
  {
    hide Text, IsItem, IsSeparation, AreParts, FirstNotIn;
    var it, gap, rest := parts[0].item, parts[0].separation, Text(parts[1..]);
    var end := p + |it|;
    TextSplits(parts);
    FirstPart(parts);
    SplitRest(s, p, it, gap + rest);
    SplitRest(s, end, gap, rest);
    next := end + |gap|;
    SeparationEnds(s, end, gap, rest);
  }

  lemma FirstPart(parts: seq<Part>)
    requires parts != [] && AreParts(parts)
    ensures IsSeparation(parts[0].separation) && AreParts(parts[1..])
    ensures Text(parts[1..]) != [] ==> Text(parts[1..])[0] !in SEPARATORS && parts[0].separation != []
    ensures Behind(parts, 0) == parts[0].separation + Text(parts[1..])
  {
    hide IsItem, IsSeparation;
    TextIsClean(parts[1..]);
  }

  lemma SeparationEnds(s: CString, end: nat, gap: string, rest: string)
    requires end + |gap| <= |s| && s[end..end + |gap|] == gap && s[end + |gap|..] == rest
    requires IsSeparation(gap) && (rest != [] ==> rest[0] !in SEPARATORS && gap != [])
    ensures end < |s| ==> s[end] in ITEM_STOPS
    ensures end == |s| <==> gap == []
    ensures FirstNotIn(s, end, SEPARATORS) == end + |gap|
  {
    assert forall k :: end <= k < end + |gap| ==> s[k] == gap[k - end];
    assert rest != [] ==> s[end + |gap|] == rest[0];
    FirstNotInIs(s, end, end + |gap|, SEPARATORS);
  }

  /** The matcher is right on every well-formed filter: it answers yes exactly when some item
      selects the file or the test. */
  lemma FilterMeansItems(f: Filter, file: CString, test: CString)
    requires WellFormed(f)
    ensures '\0' !in Render(f) && Readable(Render(f), 0)
    ensures Matches(Render(f), 0, file, test) <==> AnySelects(f.parts, file, test)
  {
    hide ItemMatches, Selects, InBigger, FirstIn, FirstNotIn;
    TextIsClean(f.parts);
    var s := Render(f);
    if f.opening == [] {
      assert s == Text(f.parts);
      MatchesFrom(s, 0, f.parts, file, test);
    } else {
      assert s[1..] == Text(f.parts);
      MatchesFrom(s, 1, f.parts, file, test);
      assert IsQuote(s[0]);
    }
  }

  // ---------------------------------------------------------------- a colon at the end of an item

  /** What an item selects by itself: a colon at its end is followed by an empty test part, which
      matches nothing. */
  ghost predicate SelectsByItself(it: CString, file: string, test: string)
    requires IsItem(it)
  {
    if HasTestPart(it) then
      && !EndsInColon(it)
      && NameMatches(file, it)
      && NameMatches(test, it[LastColonEnd(it)..])
    else NameMatches(file, it) || NameMatches(test, it)
  }

  /** The matcher finds a test part for an item whose own one is empty. */
  predicate IsMisread(it: CString, behind: CString)
    requires IsItem(it)
  {
    && HasTestPart(it)
    && EndsInColon(it)
    && (behind != [] || LastColonEnd(it[..|it| - 1]) > 0)
  }

  /** What an item selects is what it selects by itself, and what it selects when it is misread. */
  lemma SelectsSplits(it: CString, behind: CString, file: string, test: string)
    requires IsItem(it)
    ensures IsMisread(it, behind) ==> TestPartStart(it, behind == []) > 0
    ensures Selects(it, behind, file, test) <==>
            || SelectsByItself(it, file, test)
            || (IsMisread(it, behind) && NameMatches(file, it) && NameMatches(test, TestPart(it, behind)))
  {
    hide NameMatches, FirstIn;
    if HasTestPart(it) && !EndsInColon(it) {
      var end := FirstIn(it, 1, PATTERN_STOPS);
      assert it[end] == ':';
    }
  }

  ghost predicate AnyByItself(parts: seq<Part>, file: string, test: string)
    requires AreParts(parts)
  {
    exists i :: 0 <= i < |parts| && PartByItself(parts, i, file, test)
  }

  ghost predicate PartByItself(parts: seq<Part>, i: nat, file: string, test: string)
    requires AreParts(parts) && i < |parts|
  {
    SelectsByItself(parts[i].item, file, test)
  }

  /** The shortest name that a pattern matches. */
  function Shortest(pattern: CString): CString
    requires pattern != []
  {
    if pattern[0] == '*' then "" else pattern[..FirstIn(pattern, 1, PATTERN_STOPS)]
  }

  lemma MatchesShortest(name: string, pattern: CString)
    requires pattern != []
    ensures NameMatches(name, pattern) <==> Contains(name, Shortest(pattern))
  {
    if pattern[0] == '*' {
      assert OccursAt(name, "", 0);
    }
  }

  lemma OccursInItself(t: string)
    ensures Contains(t, t)
  {
    assert t[0..|t|] == t;
    assert OccursAt(t, t, 0);
  }

  lemma SliceOfSlice(s: string, a: nat, b: nat, c: nat, d: nat)
    requires a <= b <= |s| && c <= d <= b - a
    ensures s[a..b][c..d] == s[a + c..a + d]
  {
    assert forall i :: 0 <= i < d - c ==> s[a..b][c..d][i] == s[a..b][c + i] == s[a + (c + i)];
  }

  lemma ContainsThrough(long: string, name: string, p: string)
    requires Contains(long, name) && Contains(name, p)
    ensures Contains(long, p)
  {
    var j: nat :| OccursAt(long, name, j);
    var k: nat :| OccursAt(name, p, k);
    SliceOfSlice(long, j, j + |name|, k, k + |p|);
    assert OccursAt(long, p, j + k);
  }

  lemma LongerMatches(long: string, name: string, pattern: CString)
    requires pattern != [] && Contains(long, name) && NameMatches(name, pattern)
    ensures NameMatches(long, pattern)
  {
    hide Contains, NameMatches, Shortest;
    MatchesShortest(name, pattern);
    ContainsThrough(long, name, Shortest(pattern));
    MatchesShortest(long, pattern);
  }

  /** Longer names are selected by whatever selects the shorter ones. */
  lemma AnyByItselfOfLonger(parts: seq<Part>, file: string, test: string, file': string, test': string)
    requires AreParts(parts) && Contains(file', file) && Contains(test', test)
    requires AnyByItself(parts, file, test)
    ensures AnyByItself(parts, file', test')
  {
    hide Contains, NameMatches, HasTestPart, LastColonEnd, IsSeparation;
    var i :| 0 <= i < |parts| && PartByItself(parts, i, file, test);
    var it := parts[i].item;
    if NameMatches(file, it) {
      LongerMatches(file', file, it);
    }
    if NameMatches(test, it) {
      LongerMatches(test', test, it);
    }
    if HasTestPart(it) {
      LongerMatches(test', test, it[LastColonEnd(it)..]);
    }
    assert PartByItself(parts, i, file', test');
  }

  /** The matcher selects the shortest names that misreading item `i` selects, and no item does so
      by itself. */
  ghost predicate MisreadingShows(parts: seq<Part>, i: nat)
    requires AreParts(parts) && i < |parts|
  {
    var (it, behind) := (parts[i].item, Behind(parts, i));
    && IsMisread(it, behind)
    && (SelectsSplits(it, behind, "", "");
        !AnyByItself(parts, Shortest(it), Shortest(TestPart(it, behind))))
  }

  ghost predicate SomeMisreadingShows(parts: seq<Part>)
    requires AreParts(parts)
  {
    exists i :: 0 <= i < |parts| && MisreadingShows(parts, i)
  }

  /** Some file and test are selected by the matcher and by no item itself, or the other way
      round. */
  ghost predicate MatcherDiffers(f: Filter)
    requires WellFormed(f)
  {
    RenderIsReadable(f);
    exists file: CString, test: CString ::
      Matches(Render(f), 0, file, test) != AnyByItself(f.parts, file, test)
  }

  lemma RenderIsReadable(f: Filter)
    requires WellFormed(f)
    ensures '\0' !in Render(f) && Readable(Render(f), 0)
  {
    hide Matches, AnySelects;
    FilterMeansItems(f, "", "");
  }

  lemma ShortestIsSelected(parts: seq<Part>, i: nat)
    requires AreParts(parts) && i < |parts| && MisreadingShows(parts, i)
    ensures var (it, behind) := (parts[i].item, Behind(parts, i));
            && TestPartStart(it, behind == []) > 0
            && AnySelects(parts, Shortest(it), Shortest(TestPart(it, behind)))
            && !AnyByItself(parts, Shortest(it), Shortest(TestPart(it, behind)))
  {
    hide Selects, NameMatches, Contains, Shortest, Behind, AnyByItself, TestPart, IsSeparation, HasTestPart;
    var it, behind := parts[i].item, Behind(parts, i);
    SelectsSplits(it, behind, "", "");
    var file, test := Shortest(it), Shortest(TestPart(it, behind));
    OccursInItself(file);
    OccursInItself(test);
    MatchesShortest(file, it);
    MatchesShortest(test, TestPart(it, behind));
    SelectsSplits(it, behind, file, test);
    assert PartSelects(parts, i, file, test);
  }

  /** Names on which the matcher and the items differ lead to a misread item. */
  lemma DifferenceIsMisreading(parts: seq<Part>, file: string, test: string)
    requires AreParts(parts) && AnySelects(parts, file, test) && !AnyByItself(parts, file, test)
    ensures SomeMisreadingShows(parts)
  {
    hide Selects, NameMatches, Contains, Shortest, Behind, TestPart, IsSeparation, HasTestPart, SelectsByItself;
    var i :| 0 <= i < |parts| && PartSelects(parts, i, file, test);
    var it, behind := parts[i].item, Behind(parts, i);
    SelectsSplits(it, behind, file, test);
    assert !PartByItself(parts, i, file, test);
    MatchesShortest(file, it);
    MatchesShortest(test, TestPart(it, behind));
    if AnyByItself(parts, Shortest(it), Shortest(TestPart(it, behind))) {
      AnyByItselfOfLonger(parts, Shortest(it), Shortest(TestPart(it, behind)), file, test);
      assert false;
    }
    assert MisreadingShows(parts, i);
  }

  /** What an item selects by itself, the matcher selects. */
  lemma ByItselfIsSelected(parts: seq<Part>, file: string, test: string)
    requires AreParts(parts) && AnyByItself(parts, file, test)
    ensures AnySelects(parts, file, test)
  {
    hide Selects, NameMatches, Contains, Behind, TestPart, IsSeparation, HasTestPart;
    var i :| 0 <= i < |parts| && PartByItself(parts, i, file, test);
    SelectsSplits(parts[i].item, Behind(parts, i), file, test);
    assert PartSelects(parts, i, file, test);
  }

  /** A filter for which the matcher does anything but what its items select by themselves: exactly
      when some item that has a test part ends in a colon, has an earlier colon or something behind
      it, and the shortest names that it then selects are selected by no item itself. */
  lemma MatcherDiffersIff(f: Filter)
    requires WellFormed(f)
    ensures MatcherDiffers(f) <==> SomeMisreadingShows(f.parts)
  {
    hide Matches, AnySelects, AnyByItself, Shortest, TestPart, Behind, Render, IsMisread;
    RenderIsReadable(f);
    if MatcherDiffers(f) {
      var file: CString, test: CString :|
        Matches(Render(f), 0, file, test) != AnyByItself(f.parts, file, test);
      FilterMeansItems(f, file, test);
      if AnyByItself(f.parts, file, test) {
        ByItselfIsSelected(f.parts, file, test);
        assert false;
      }
      DifferenceIsMisreading(f.parts, file, test);
    }
    if SomeMisreadingShows(f.parts) {
      var i :| 0 <= i < |f.parts| && MisreadingShows(f.parts, i);
      ShortestIsSelected(f.parts, i);
      var it, behind := f.parts[i].item, Behind(f.parts, i);
      FilterMeansItems(f, Shortest(it), Shortest(TestPart(it, behind)));
    }
  }

  /** What may stand behind an item. */
  predicate MayFollow(behind: CString) {
    behind != [] ==> behind[0] in ITEM_STOPS
  }

  ghost predicate PlaceMatters(it: CString)
    requires IsItem(it)
  {
    exists behind: CString, behind': CString, file: CString, test: CString ::
      && MayFollow(behind) && MayFollow(behind')
      && Selects(it, behind, file, test) && !Selects(it, behind', file, test)
  }

  /** What an item selects depends on what stands behind it exactly when it has a test part and ends
      in a colon. */
  lemma PlaceMattersIff(it: CString)
    requires IsItem(it)
    ensures PlaceMatters(it) <==> HasTestPart(it) && EndsInColon(it)
  {
    if HasTestPart(it) && EndsInColon(it) {
      hide NameMatches, Selects, Contains, Shortest, FirstIn, LastColonEnd;
      var file := Shortest(it);
      OccursInItself(file);
      MatchesShortest(file, it);
      CommaBehind(it, file);
    } else if PlaceMatters(it) {
      hide NameMatches, Selects, FirstIn;
      var behind: CString, behind': CString, file: CString, test: CString :|
        MayFollow(behind) && MayFollow(behind') && Selects(it, behind, file, test) && !Selects(it, behind', file, test);
      SelectsSplits(it, behind, file, test);
      SelectsSplits(it, behind', file, test);
      assert false;
    }
  }

  /** Behind a colon at the end of an item the comma or quote that follows becomes the test part. */
  lemma CommaBehind(it: CString, file: CString)
    requires IsItem(it) && HasTestPart(it) && EndsInColon(it) && NameMatches(file, it)
    ensures Selects(it, ",", file, ",") && !Selects(it, "'", file, ",")
  {
    hide HasTestPart, Contains, LastColonEnd;
    assert TestPart(it, ",") == "," && TestPart(it, "'") == "'";
    assert ","[..FirstIn(",", 1, PATTERN_STOPS)] == "," && "'"[..FirstIn("'", 1, PATTERN_STOPS)] == "'";
    OccursInItself(",");
    NotInComma();
  }

  lemma NotInComma()
    ensures !Contains(",", "'")
  {
    forall k: nat
      ensures !OccursAt(",", "'", k)
    {
      if k == 0 {
        assert ","[0..1][0] == ',' && "'"[0] == '\'';
      }
    }
  }

  // ---------------------------------------------------------------- examples

  /** A filter of one bare item and what stands behind it. */
  lemma OneItem(it: CString, separation: CString, file: CString, test: CString)
    requires IsItem(it) && IsSeparation(separation)
    ensures Readable(it + separation, 0)
    ensures Matches(it + separation, 0, file, test) <==> Selects(it, separation, file, test)
  {
    hide Matches, Selects, IsItem;
    var f := Filter("", [Part(it, separation)]);
    TextSplits(f.parts);
    assert f.parts[1..] == [] && Render(f) == it + separation && Behind(f.parts, 0) == separation;
    FilterMeansItems(f, file, test);
    assert f.parts[0] == Part(it, separation);
    AnySelectsSplits(f.parts, file, test);
  }

  /** A filter of two bare items and what separates them. */
  lemma TwoItems(it: CString, separation: CString, other: CString, file: CString, test: CString)
    requires IsItem(it) && IsSeparation(separation) && separation != [] && IsItem(other)
    ensures '\0' !in separation + other && Readable(it + separation + other, 0)
    ensures Matches(it + separation + other, 0, file, test) <==>
            Selects(it, separation + other, file, test) || Selects(other, "", file, test)
  {
    hide Matches, Selects, IsItem, IsSeparation;
    var last := Part(other, "");
    var f := Filter("", [Part(it, separation), last]);
    assert IsSeparation("") by {
      NoSeparation();
    }
    TextSplits(f.parts);
    TextSplits([last]);
    assert f.parts[1..] == [last] && f.parts[1..][1..] == [];
    Regroup(it, separation, other);
    assert Text([last]) == other && Render(f) == it + separation + other;
    assert Behind(f.parts, 0) == separation + other && Behind([last], 0) == "";
    FilterMeansItems(f, file, test);
    AnySelectsSplits(f.parts, file, test);
    AnySelectsSplits([last], file, test);
  }

  lemma NoSeparation()
    ensures IsSeparation("")
  {
  }

  lemma TwoColons()
    ensures IsItem("a:t:") && HasTestPart("a:t:")
    ensures TestPartStart("a:t:", true) == 2 && TestPartStart("a:t:", false) == 4
    ensures NameMatches("a", "a:t:") && NameMatches("t", "t:")
    ensures !NameMatches("t", ",zz")
  {
    FirstInIs("a:t:", 1, 1, PATTERN_STOPS);
    FirstInIs("t:", 1, 1, PATTERN_STOPS);
    FirstInIs(",zz", 1, 3, PATTERN_STOPS);
    assert "a:t:"[..3] == "a:t" && "a:t"[..2] == "a:";
    OccursInItself("a");
    OccursInItself("t");
    assert "a:t:"[..1] == "a" && "t:"[..1] == "t" && ",zz"[..3] == ",zz";
  }

  lemma OtherItemMisses()
    ensures IsItem("zz") && !Selects("zz", "", "a", "t")
  {
    FirstInIs("zz", 1, 2, PATTERN_STOPS);
    assert "zz"[..2] == "zz";
  }

  /** The same item `a:t:` selects the test t of the file a when it ends the filter, and does not
      when another item follows. */
  lemma TrailingColonDependsOnPlace()
    ensures Matches("a:t:", 0, "a", "t")
    ensures !Matches("a:t:,zz", 0, "a", "t")
  {
    TwoColons();
    assert "a:t:"[2..] == "t:";
    assert Selects("a:t:", "", "a", "t") && !Selects("a:t:", ",zz", "a", "t");
    OtherItemMisses();
    hide Matches, Selects, IsItem;
    OneItem("a:t:", "", "a", "t");
    TwoItems("a:t:", ",", "zz", "a", "t");
    assert "a:t:" + "" == "a:t:" && "a:t:" + "," + "zz" == "a:t:,zz" && "," + "zz" == ",zz";
  }

  lemma OneColon()
    ensures IsItem("a:") && HasTestPart("a:") && NameMatches("a", "a:")
    ensures TestPartStart("a:", true) == 0 && TestPartStart("a:", false) == 2
  {
    FirstInIs("a:", 1, 1, PATTERN_STOPS);
    assert "a:"[..1] == "a";
    OccursInItself("a");
  }

  lemma CommaInName()
    ensures NameMatches("t(1, 2)", ",")
  {
    assert "t(1, 2)"[3..4] == ",";
    assert OccursAt("t(1, 2)", ",", 3);
    assert ","[..FirstIn(",", 1, PATTERN_STOPS)] == ",";
  }

  /** For a test with arguments in its name, a comma behind the item `a:` makes it select the test. */
  lemma CommaBecomesTestPart()
    ensures !Matches("a:", 0, "a", "t(1, 2)")
    ensures Matches("a:,", 0, "a", "t(1, 2)")
  {
    OneColon();
    CommaInName();
    assert Selects("a:", ",", "a", "t(1, 2)") && !Selects("a:", "", "a", "t(1, 2)");
    hide Matches, Selects, IsItem;
    OneItem("a:", "", "a", "t(1, 2)");
    OneItem("a:", ",", "a", "t(1, 2)");
    assert "a:" + "" == "a:" && "a:" + "," == "a:,";
  }

  // ---------------------------------------------------------------- every string is a filter

  /** Behind an opening quote or none, the string is empty or starts with an item. */
  predicate StartsWithItem(s: CString) {
    var q := if s != [] && IsQuote(s[0]) then 1 else 0;
    s == [] || (q < |s| && s[q] !in SEPARATORS)
  }

  function Parse(s: CString, p: nat): seq<Part>
    requires p <= |s| && (p < |s| ==> s[p] !in SEPARATORS)
    decreases |s| - p
  {
    if p == |s| then []
    else
      var end := FirstIn(s, p + 1, ITEM_STOPS);
      var next := FirstNotIn(s, end, SEPARATORS);
      [Part(s[p..end], s[end..next])] + Parse(s, next)
  }

  lemma {:induction false} ParseIsRight(s: CString, p: nat)
    requires p <= |s| && (p < |s| ==> s[p] !in SEPARATORS)
    ensures AreParts(Parse(s, p)) && Text(Parse(s, p)) == s[p..]
    decreases |s| - p
  {
    if p < |s| {
      var end := FirstIn(s, p + 1, ITEM_STOPS);
      var next := FirstNotIn(s, end, SEPARATORS);
      var parts := Parse(s, p);
      ParseIsRight(s, next);
      PartIsRight(s, p, end, next);
      OnePartMore(Part(s[p..end], s[end..next]), Parse(s, next));
      assert parts == [Part(s[p..end], s[end..next])] + Parse(s, next);
      hide FirstIn, FirstNotIn, Text, Parse, AreParts;
      ThreeSlices(s, p, end, next);
    }
  }

  lemma OnePartMore(part: Part, parts: seq<Part>)
    requires AreParts(parts) && IsItem(part.item) && IsSeparation(part.separation)
    requires parts != [] ==> part.separation != []
    ensures AreParts([part] + parts)
    ensures Text([part] + parts) == part.item + part.separation + Text(parts)
  {
    hide IsItem, IsSeparation;
    assert ([part] + parts)[1..] == parts;
  }

  lemma ThreeSlices(s: string, p: nat, end: nat, next: nat)
    requires p <= end <= next <= |s|
    ensures s[p..end] + s[end..next] + s[next..] == s[p..]
  {
  }

  lemma PartIsRight(s: CString, p: nat, end: nat, next: nat)
    requires p < |s| && s[p] !in SEPARATORS
    requires end == FirstIn(s, p + 1, ITEM_STOPS) && next == FirstNotIn(s, end, SEPARATORS)
    ensures IsItem(s[p..end]) && IsSeparation(s[end..next])
    ensures next < |s| ==> s[end..next] != []
  {
    hide FirstIn, FirstNotIn;
    assert forall i :: 0 <= i < end - p ==> s[p..end][i] == s[p + i];
    assert forall i :: 0 <= i < next - end ==> s[end..next][i] == s[end + i];
  }

  /** The well-formed filters are all strings that start with an item behind an opening quote or
      none. */
  lemma FiltersAreStrings(s: CString)
    ensures (exists f :: WellFormed(f) && Render(f) == s) <==> StartsWithItem(s)
  {
    if StartsWithItem(s) {
      var q := if s != [] && IsQuote(s[0]) then 1 else 0;
      var f := Filter(s[..q], Parse(s, q));
      ParseIsRight(s, q);
      assert s == s[..q] + s[q..];
      assert q == 1 ==> s[..q] == [s[0]];
      assert WellFormed(f) && Render(f) == s;
    }
    if f :| WellFormed(f) && Render(f) == s {
      TextIsClean(f.parts);
      assert f.parts != [] ==> s[|f.opening|] == Text(f.parts)[0];
    }
  }
}
