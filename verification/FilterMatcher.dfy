/** IsStringInBiggerString and UnityStringArgumentMatches in their own form: loops over indices.
    Every character is read through At, so no run reads beyond a NUL. */
module FilterMatcher {
  import opened FilterSpec
  import opened Options

  /** The first `n` characters of the pattern at `from` stand in `long` at `start`. */
  ghost predicate EqualSoFar(long: CString, start: nat, s: CString, from: nat, n: nat) {
    && start + n <= |long|
    && from + n <= |s|
    && long[start..start + n] == s[from..from + n]
  }

  lemma NothingYet(long: CString, start: nat, s: CString, from: nat)
    requires start <= |long| && from <= |s|
    ensures EqualSoFar(long, start, s, from, 0)
  {
  }

  lemma OneMoreEqual(long: CString, start: nat, s: CString, from: nat, n: nat)
    requires EqualSoFar(long, start, s, from, n)
    requires start + n < |long| && from + n < |s| && long[start + n] == s[from + n]
    ensures EqualSoFar(long, start, s, from, n + 1)
  {
    assert long[start..start + n + 1] == long[start..start + n] + [long[start + n]];
    assert s[from..from + n + 1] == s[from..from + n] + [s[from + n]];
  }

  lemma WholePatternOccurs(long: CString, start: nat, s: CString, from: nat, end: nat)
    requires from <= end && EqualSoFar(long, start, s, from, end - from)
    ensures Contains(long, s[from..end])
  {
    assert OccursAt(long, s[from..end], start);
  }

  lemma Mismatch(long: CString, start: nat, s: CString, from: nat, end: nat, n: nat)
    requires from + n < end <= |s| && start + n <= |long|
    requires start + n < |long| ==> long[start + n] != s[from + n]
    ensures !OccursAt(long, s[from..end], start)
  {
  }

  lemma NoRoom(long: string, p: string)
    requires p != []
    ensures forall k: nat :: OccursAt(long, p, k) ==> k < |long|
  {
  }

  method IsStringInBiggerString(longString: CString, s: CString, shortString: nat) returns (r: int)
    requires shortString <= |s|
    ensures r == InBigger(longString, s, shortString)
  {
    hide FirstIn, EqualSoFar, OccursAt;
    var lptr := 0;
    var sptr := shortString;
    if At(s, sptr) == '*' {
      return 1;
    }
    ghost var end := if shortString < |s| then FirstIn(s, shortString + 1, PATTERN_STOPS) else shortString;
    while At(longString, lptr) != '\0'
      invariant lptr <= |longString| && sptr == shortString
      invariant shortString < |s| ==>
                  forall k :: 0 <= k < lptr ==> !OccursAt(longString, s[shortString..end], k)
      decreases |longString| - lptr
    {
      ghost var start := lptr;
      assert EqualSoFar(longString, start, s, shortString, 0) by {
        NothingYet(longString, start, s, shortString);
      }
      var lnext := lptr + 1;
      while At(longString, lptr) != '\0' && At(s, sptr) != '\0' && At(longString, lptr) == At(s, sptr)
        invariant start <= lptr <= |longString| && shortString <= sptr <= |s|
        invariant sptr - shortString == lptr - start
        invariant EqualSoFar(longString, start, s, shortString, sptr - shortString)
        invariant shortString < |s| ==> sptr < end
        decreases |longString| - lptr
      {
        OneMoreEqual(longString, start, s, shortString, sptr - shortString);
        lptr := lptr + 1;
        sptr := sptr + 1;
        if sptr == end {
          WholePatternOccurs(longString, start, s, shortString, end);
        }
        if At(s, sptr) == '*' {
          return 1;
        }
        if At(s, sptr) == ',' {
          return 1;
        }
        if At(s, sptr) == '"' {
          return 1;
        }
        if At(s, sptr) == '\'' {
          return 1;
        }
        if At(s, sptr) == ':' {
          return 2;
        }
        if At(s, sptr) == '\0' {
          return 1;
        }
      }
      if shortString < |s| {
        Mismatch(longString, start, s, shortString, end, sptr - shortString);
      }
      lptr := lnext;
      sptr := shortString;
    }
    if shortString < |s| {
      NoRoom(longString, s[shortString..end]);
    }
    return 0;
  }

  lemma MatchesUnfolds(s: CString, p: nat, file: CString, test: CString)
    requires p < |s| && Readable(s, p)
    ensures var q := if IsQuote(s[p]) then p + 1 else p;
            var next := FirstNotIn(s, FirstIn(s, q + 1, ITEM_STOPS), SEPARATORS);
            && q < |s|
            && Readable(s, next)
            && (Matches(s, p, file, test) <==> ItemMatches(s, q, file, test) || Matches(s, next, file, test))
  {
    hide ItemMatches;
  }

  lemma NothingLeft(s: CString, file: CString, test: CString)
    ensures Readable(s, |s|) && !Matches(s, |s|, file, test)
  {
  }

  /** How a call of the matcher ends. */
  datatype Outcome = Answer(matches: bool) | PastNul

  /** An opening quote with the NUL right behind it. */
  predicate OpensOnNul(s: CString) {
    At(s, 0) != '\0' && IsQuote(At(s, 0)) && At(s, 1) == '\0'
  }

  /** The do-while loop steps before it looks, so behind a quote that is followed by the NUL it reads
      past it. That happens exactly for a string that is one quote; for every other string the
      matcher terminates, reads nothing past the NUL, and answers as specified. */
  method UnityStringArgumentMatches(s: CString, testFile: CString, currentTestName: CString) returns (o: Outcome)
    ensures o.PastNul? <==> OpensOnNul(s)
    ensures o.Answer? ==> Readable(s, 0) && o.matches == Matches(s, 0, testFile, currentTestName)
  {
    hide InBigger, FirstIn, FirstNotIn, AfterLastColon, Matches;
    var ptr1 := 0;
    while At(s, ptr1) != '\0'
      invariant ptr1 <= |s| && (!OpensOnNul(s) ==> Readable(s, ptr1) && Readable(s, 0))
      invariant OpensOnNul(s) ==> ptr1 == 0
      invariant !OpensOnNul(s) ==>
                  Matches(s, 0, testFile, currentTestName) == Matches(s, ptr1, testFile, currentTestName)
      decreases |s| - ptr1
    {
      ghost var start := ptr1;
      if At(s, ptr1) == '"' || At(s, ptr1) == '\'' {
        ptr1 := ptr1 + 1;
      }
      if ptr1 == |s| {
        return PastNul;
      }
      var ptr2, ptrf := FindPartial(s, ptr1);
      ptr2 := SkipSeparators(s, ptr2);
      MatchesUnfolds(s, start, testFile, currentTestName);
      var retval := IsStringInBiggerString(testFile, s, ptr1);
      if retval == 1 {
        return Answer(true);
      }
      if retval == 2 && ptrf.Some? {
        var inName := IsStringInBiggerString(currentTestName, s, ptrf.value);
        if inName != 0 {
          return Answer(true);
        }
      }
      var wholeName := IsStringInBiggerString(currentTestName, s, ptr1);
      if wholeName == 1 {
        return Answer(true);
      }
      ptr1 := ptr2;
    }
    NothingLeft(s, testFile, currentTestName);
    return Answer(false);
  }

  /** Filters that make the matcher read past the NUL: a double and a single quote. */
  method LoneQuotes(testFile: CString, currentTestName: CString) returns (o: Outcome, o': Outcome)
    ensures o == o' == PastNul
  {
    o := UnityStringArgumentMatches("\"", testFile, currentTestName);
    o' := UnityStringArgumentMatches("'", testFile, currentTestName);
  }

  /** The do-while loop, whose body looks for a colon behind each step; a colon does not end the
      loop, so looking before the next step is the same. Gives the end of the item, and where its
      test part starts. */
  method FindPartial(s: CString, ptr1: nat) returns (ptr2: nat, ptrf: Option<nat>)
    requires ptr1 < |s|
    ensures ptr2 == FirstIn(s, ptr1 + 1, ITEM_STOPS)
    ensures ptrf == AfterLastColon(s, ptr1, ptr2)
  {
    hide FirstIn;
    ptr2, ptrf := ptr1 + 1, None;
    while At(s, ptr2) != '\0' && At(s, ptr2) != '\'' && At(s, ptr2) != '"' && At(s, ptr2) != ','
      invariant ptr1 < ptr2 <= |s|
      invariant forall k :: ptr1 + 1 <= k < ptr2 ==> s[k] !in ITEM_STOPS
      invariant ptrf == AfterLastColon(s, ptr1, ptr2)
      decreases |s| - ptr2
    {
      if At(s, ptr2) == ':' && At(s, ptr2 + 1) != '\0' {
        ptrf := Some(ptr2 + 1);
      }
      ptr2 := ptr2 + 1;
    }
    FirstInIs(s, ptr1 + 1, ptr2, ITEM_STOPS);
  }

  method SkipSeparators(s: CString, from: nat) returns (ptr2: nat)
    requires from <= |s|
    ensures ptr2 == FirstNotIn(s, from, SEPARATORS)
  {
    hide FirstNotIn;
    ptr2 := from;
    while At(s, ptr2) != '\0' && (At(s, ptr2) == ':' || At(s, ptr2) == '\'' || At(s, ptr2) == '"' || At(s, ptr2) == ',')
      invariant from <= ptr2 <= |s|
      invariant forall k :: from <= k < ptr2 ==> s[k] in SEPARATORS
      decreases |s| - ptr2
    {
      ptr2 := ptr2 + 1;
    }
    FirstNotInIs(s, from, ptr2, SEPARATORS);
  }
}
