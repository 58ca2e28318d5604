/** Years of experience read from a resume (`extractYearsOfExperience`).
    Seven regular expressions scan the text; every match is classified as a
    direct mention of years, a date range or a start year, the plausible
    candidates are collected, and the largest one is the answer (0 when
    there is none). The regular expressions themselves are not modelled:
    each match arrives as the facts the classification looks at. */
module Experience {
  import opened Strings

  /** The second capture group of a match: a number, or `present`/`current`
      in any letter case. */
  datatype End = Year(year: nat) | Present

  /** One match of one pattern: whether the matched text, lower-cased,
      contains `years`; the value of the first capture group; and the second
      capture group when the pattern has one and it took part. */
  datatype Match = Match(mentionsYears: bool, first: nat, second: Option<End>)

  /** The longest career the extraction believes. */
  const MaxYears := 50

  /** The year a range ends: `present` and `current` stand for this year. */
  function EndYear(e: End, currentYear: int): (y: int)
    ensures e.Present? ==> y == currentYear
    ensures e.Year? ==> y == e.year
  {
    if e.Present? then currentYear else e.year
  }

  /** The candidate value a single match yields, if it passes the filters:
      the years mentioned, the length of a range, or the years since a start
      year, each between 0 and `MaxYears` and never from a zero year. */
  function Classify(m: Match, currentYear: int): (r: Option<nat>)
    ensures r.Some? ==> r.value <= MaxYears
    ensures m.mentionsYears ==> (r.Some? <==> 0 < m.first <= MaxYears)
    ensures m.mentionsYears && r.Some? ==> r.value == m.first
    ensures !m.mentionsYears && m.second.Some? ==>
      var endYear := EndYear(m.second.value, currentYear);
      (r.Some? <==> m.first != 0 && endYear != 0 && m.first <= endYear <= m.first + MaxYears) &&
      (r.Some? ==> m.first + r.value == endYear)
    ensures !m.mentionsYears && m.second.None? ==>
      (r.Some? <==> m.first != 0 && m.first <= currentYear <= m.first + MaxYears) &&
      (r.Some? ==> m.first + r.value == currentYear)
    ensures r.Some? && !m.mentionsYears ==> m.first != 0
  {
    if m.mentionsYears then
      // Direct years mention
      if 0 < m.first <= MaxYears then Some(m.first) else None
    else if m.second.Some? then
      // Date range
      var startYear := m.first;
      var endYear := EndYear(m.second.value, currentYear);
      if startYear != 0 && endYear != 0 && endYear >= startYear && endYear - startYear <= MaxYears
      then Some(endYear - startYear) else None
    else
      // Since / from
      var startYear := m.first;
      if startYear != 0 && startYear <= currentYear && currentYear - startYear <= MaxYears
      then Some(currentYear - startYear) else None
  }

  /** The candidate values the matches of one pattern push, in order. */
  function Accepted(ms: seq<Match>, currentYear: int): (r: seq<nat>)
    ensures |r| <= |ms|
  {
    if ms == [] then []
    else Accepted(ms[..|ms| - 1], currentYear) + Pushed(ms[|ms| - 1], currentYear)
  }

  function Pushed(m: Match, currentYear: int): seq<nat> {
    match Classify(m, currentYear)
    case None => []
    case Some(v) => [v]
  }

  /** The candidate values of all patterns, pattern after pattern. */
  function AcceptedAll(matches: seq<seq<Match>>, currentYear: int): (r: seq<nat>)
    ensures |r| <= MatchCount(matches)
  {
    if matches == [] then []
    else AcceptedAll(matches[..|matches| - 1], currentYear) + Accepted(matches[|matches| - 1], currentYear)
  }

  /** The number of matches of all patterns together. */
  function MatchCount(matches: seq<seq<Match>>): nat {
    if matches == [] then 0 else MatchCount(matches[..|matches| - 1]) + |matches[|matches| - 1]|
  }

  /** `experiences.length > 0 ? Math.max(...experiences) : 0` */
  function MaxOrZero(xs: seq<nat>): (r: nat)
    ensures xs == [] ==> r == 0
    ensures xs != [] ==> r in xs
    ensures forall k :: 0 <= k < |xs| ==> xs[k] <= r
  {
    if xs == [] then 0
    else
      var m := MaxOrZero(xs[..|xs| - 1]);
      assert forall k :: 0 <= k < |xs| - 1 ==> xs[k] == xs[..|xs| - 1][k];
      if xs[|xs| - 1] > m then xs[|xs| - 1] else m
  }

  /** The answer of `extractYearsOfExperience(text)` for the given matches. */
  function Extracted(text: string, matches: seq<seq<Match>>, currentYear: int): (r: nat)
    ensures text == [] ==> r == 0
    ensures r != 0 ==> r in AcceptedAll(matches, currentYear)
  {
    if text == [] then 0 else MaxOrZero(AcceptedAll(matches, currentYear))
  }

  /** `extractYearsOfExperience(text)`: `matches[p]` lists, in order, what
      `patterns[p].exec(text)` returns until it returns `null`, and
      `currentYear` is `new Date().getFullYear()`. */
  method ExtractYears(text: string, matches: seq<seq<Match>>, currentYear: int) returns (years: nat)
    ensures text == [] ==> years == 0
    ensures text != [] ==> years == MaxOrZero(AcceptedAll(matches, currentYear))
    ensures years == Extracted(text, matches, currentYear)
  {
    if text == [] {
      return 0;
    }
    var experiences: seq<nat> := [];
    var p := 0;
    while p < |matches|
      invariant 0 <= p <= |matches|
      invariant experiences == AcceptedAll(matches[..p], currentYear)
    {
      experiences := ScanPattern(experiences, matches[p], currentYear);
      AcceptedAllPrefix(matches, p, currentYear);
      p := p + 1;
    }
    AcceptedAllWhole(matches, currentYear);
    years := MaxOrZero(experiences);
  }

  lemma AcceptedPrefix(ms: seq<Match>, k: nat, currentYear: int)
    requires k < |ms|
    ensures Accepted(ms[..k + 1], currentYear) == Accepted(ms[..k], currentYear) + Pushed(ms[k], currentYear)
  {
    assert ms[..k + 1][..k] == ms[..k];
  }

  lemma AcceptedAllPrefix(matches: seq<seq<Match>>, p: nat, currentYear: int)
    requires p < |matches|
    ensures AcceptedAll(matches[..p + 1], currentYear) == AcceptedAll(matches[..p], currentYear) + Accepted(matches[p], currentYear)
  {
    assert matches[..p + 1][..p] == matches[..p];
  }

  lemma AcceptedAllWhole(matches: seq<seq<Match>>, currentYear: int)
    ensures AcceptedAll(matches[..|matches|], currentYear) == AcceptedAll(matches, currentYear)
  {
    assert matches[..|matches|] == matches;
  }

  /** The inner loop `while ((match = pattern.exec(text)) !== null)` for one
      pattern, whose successive matches are `pattern`. */
  method ScanPattern(experiences: seq<nat>, pattern: seq<Match>, currentYear: int) returns (r: seq<nat>)
    ensures r == experiences + Accepted(pattern, currentYear)
  {
    r := experiences;
    var k := 0;
    while k < |pattern|
      invariant 0 <= k <= |pattern|
      invariant r == experiences + Accepted(pattern[..k], currentYear)
    {
      r := PushCandidate(r, pattern[k], currentYear);
      AcceptedPrefix(pattern, k, currentYear);
      k := k + 1;
    }
    assert pattern[..k] == pattern;
  }

  /** The body of the `while (pattern.exec(text))` loop: classify one match
      and push its value when it passes the filters. */
  method PushCandidate(experiences: seq<nat>, m: Match, currentYear: int) returns (r: seq<nat>)
    ensures r == experiences + Pushed(m, currentYear)
  {
    r := experiences;
    if m.mentionsYears {
      // Direct years mention
      var years := m.first;
      if 0 < years <= MaxYears {
        r := r + [years];
      }
    } else if m.second.Some? {
      // Date range
      var startYear := m.first;
      var endYear := if m.second.value.Present? then currentYear else m.second.value.year;
      if startYear != 0 && endYear != 0 && endYear >= startYear {
        var yearsDiff := endYear - startYear;
        if yearsDiff >= 0 && yearsDiff <= MaxYears {
          r := r + [yearsDiff];
        }
      }
    } else {
      // Since / from
      var startYear := m.first;
      if startYear != 0 && startYear <= currentYear {
        var yearsDiff := currentYear - startYear;
        if yearsDiff >= 0 && yearsDiff <= MaxYears {
          r := r + [yearsDiff];
        }
      }
    }
  }

  // ---------------------------------------------------------------------------
  // Properties of the extraction

  /** A value is a candidate exactly when some match of some pattern yields it. */
  lemma {:induction false} AcceptedMember(ms: seq<Match>, currentYear: int, v: nat)
    ensures v in Accepted(ms, currentYear) <==> exists m :: m in ms && Classify(m, currentYear) == Some(v)
  {
    if ms != [] {
      var init, last := ms[..|ms| - 1], ms[|ms| - 1];
      AcceptedMember(init, currentYear, v);
      assert ms == init + [last];
      if v in Accepted(ms, currentYear) {
        if v !in Accepted(init, currentYear) {
          assert Classify(last, currentYear) == Some(v);
        }
      } else {
        forall m | m in ms ensures Classify(m, currentYear) != Some(v) {
          if m != last {
            assert m in init;
          }
        }
      }
    }
  }

  /** Some pattern's matches yield the value `v`. */
  predicate InSome(matches: seq<seq<Match>>, currentYear: int, v: nat) {
    exists p :: 0 <= p < |matches| && v in Accepted(matches[p], currentYear)
  }

  lemma InSomeSnoc(init: seq<seq<Match>>, last: seq<Match>, currentYear: int, v: nat)
    ensures InSome(init + [last], currentYear, v) <==> InSome(init, currentYear, v) || v in Accepted(last, currentYear)
  {
    var all := init + [last];
    if InSome(init, currentYear, v) {
      var p :| 0 <= p < |init| && v in Accepted(init[p], currentYear);
      assert all[p] == init[p];
    }
    if v in Accepted(last, currentYear) {
      assert all[|init|] == last;
    }
    if InSome(all, currentYear, v) {
      var p :| 0 <= p < |all| && v in Accepted(all[p], currentYear);
      if p < |init| {
        assert all[p] == init[p];
      }
    }
  }

  /** Every candidate, from every pattern, is a value some match yields. */
  lemma {:induction false} AcceptedAllMember(matches: seq<seq<Match>>, currentYear: int, v: nat)
    ensures v in AcceptedAll(matches, currentYear) <==> InSome(matches, currentYear, v)
  {
    if matches != [] {
      var init, last := matches[..|matches| - 1], matches[|matches| - 1];
      AcceptedAllMember(init, currentYear, v);
      InSomeSnoc(init, last, currentYear, v);
      assert matches == init + [last];
    }
  }

  /** Every candidate lies in 0..50. */
  lemma {:induction false} AcceptedBounded(ms: seq<Match>, currentYear: int)
    ensures forall k :: 0 <= k < |Accepted(ms, currentYear)| ==> Accepted(ms, currentYear)[k] <= MaxYears
  {
    if ms != [] {
      AcceptedBounded(ms[..|ms| - 1], currentYear);
    }
  }

  lemma {:induction false} AcceptedAllBounded(matches: seq<seq<Match>>, currentYear: int)
    ensures forall k :: 0 <= k < |AcceptedAll(matches, currentYear)| ==> AcceptedAll(matches, currentYear)[k] <= MaxYears
  {
    if matches != [] {
      AcceptedAllBounded(matches[..|matches| - 1], currentYear);
      AcceptedBounded(matches[|matches| - 1], currentYear);
    }
  }

  /** The extracted number of years always lies in 0..50. */
  lemma ExtractedBounded(text: string, matches: seq<seq<Match>>, currentYear: int)
    ensures Extracted(text, matches, currentYear) <= MaxYears
  {
    AcceptedAllBounded(matches, currentYear);
  }

  /** The answer is 0 when no match yields a candidate, and otherwise the
      largest value any match yields. */
  lemma ExtractedIsMax(text: string, matches: seq<seq<Match>>, currentYear: int)
    requires text != []
    ensures (forall p, m :: 0 <= p < |matches| && m in matches[p] ==> Classify(m, currentYear).None?)
              ==> Extracted(text, matches, currentYear) == 0
    ensures forall p, m :: 0 <= p < |matches| && m in matches[p] && Classify(m, currentYear).Some?
              ==> Classify(m, currentYear).value <= Extracted(text, matches, currentYear)
    ensures Extracted(text, matches, currentYear) != 0 ==>
              exists p, m :: 0 <= p < |matches| && m in matches[p] &&
                Classify(m, currentYear) == Some(Extracted(text, matches, currentYear))
  {
    var all := AcceptedAll(matches, currentYear);
    var r := Extracted(text, matches, currentYear);
    forall p, m | 0 <= p < |matches| && m in matches[p] && Classify(m, currentYear).Some?
      ensures Classify(m, currentYear).value <= r
    {
      var v := Classify(m, currentYear).value;
      AcceptedMember(matches[p], currentYear, v);
      AcceptedAllMember(matches, currentYear, v);
    }
    if all != [] {
      var v := all[0];
      AcceptedAllMember(matches, currentYear, v);
      var p :| 0 <= p < |matches| && v in Accepted(matches[p], currentYear);
      AcceptedMember(matches[p], currentYear, v);
    }
    if r != 0 {
      AcceptedAllMember(matches, currentYear, r);
      var p :| 0 <= p < |matches| && r in Accepted(matches[p], currentYear);
      AcceptedMember(matches[p], currentYear, r);
    }
  }

  /** The maximum only depends on which values occur. */
  lemma MaxOrZeroOfSameValues(xs: seq<nat>, ys: seq<nat>)
    requires forall v :: v in xs <==> v in ys
    ensures MaxOrZero(xs) == MaxOrZero(ys)
  {
    var a, b := MaxOrZero(xs), MaxOrZero(ys);
    if xs != [] {
      assert xs[0] in ys;
    }
    if ys != [] {
      assert ys[0] in xs;
      var i :| 0 <= i < |ys| && ys[i] == a;
      var j :| 0 <= j < |xs| && xs[j] == b;
    }
  }

  /** Some pattern produced the match `m`. */
  predicate Found(matches: seq<seq<Match>>, m: Match) {
    exists p :: 0 <= p < |matches| && m in matches[p]
  }

  /** The answer does not depend on the order of the patterns or of their
      matches: two scans that find the same matches give the same answer. */
  lemma ExtractedOrderIndependent(text: string, m1: seq<seq<Match>>, m2: seq<seq<Match>>, currentYear: int)
    requires forall m :: Found(m1, m) <==> Found(m2, m)
    ensures Extracted(text, m1, currentYear) == Extracted(text, m2, currentYear)
  {
    var a1, a2 := AcceptedAll(m1, currentYear), AcceptedAll(m2, currentYear);
    forall v ensures v in a1 <==> v in a2 {
      SameMatchesSameValue(m1, m2, currentYear, v);
      SameMatchesSameValue(m2, m1, currentYear, v);
    }
    MaxOrZeroOfSameValues(a1, a2);
  }

  lemma SameMatchesSameValue(m1: seq<seq<Match>>, m2: seq<seq<Match>>, currentYear: int, v: nat)
    requires forall m :: Found(m1, m) ==> Found(m2, m)
    ensures v in AcceptedAll(m1, currentYear) ==> v in AcceptedAll(m2, currentYear)
  {
    if v in AcceptedAll(m1, currentYear) {
      AcceptedAllMember(m1, currentYear, v);
      var p :| 0 <= p < |m1| && v in Accepted(m1[p], currentYear);
      AcceptedMember(m1[p], currentYear, v);
      var m :| m in m1[p] && Classify(m, currentYear) == Some(v);
      assert Found(m1, m);
      var q :| 0 <= q < |m2| && m in m2[q];
      AcceptedMember(m2[q], currentYear, v);
      AcceptedAllMember(m2, currentYear, v);
    }
  }

  /** `"2 yrs experience"` does not contain `years`, so its `2` is read as a
      start year: it yields `currentYear - 2`, which is discarded for any
      current year after 52. */
  lemma YrsReadAsStartYear(currentYear: int)
    requires currentYear > 2 + MaxYears
    ensures Classify(Match(false, 2, None), currentYear) == None
  {
  }

  /** A direct mention of 0 years is rejected. */
  lemma ZeroYearsRejected(second: Option<End>, currentYear: int)
    ensures Classify(Match(true, 0, second), currentYear) == None
  {
  }

  /** A range ending `present` or `current` counts up to the current year. */
  lemma PresentIsCurrentYear(start: nat, currentYear: int)
    requires 0 < start <= currentYear <= start + MaxYears
    ensures Classify(Match(false, start, Some(Present)), currentYear) == Some(currentYear - start)
  {
  }
}
