/** Scoring of one resume against the selected job (`scoreResume` in
    ResultsDashboard.jsx): case-insensitive skill matching, the skill,
    experience and total scores, the two bias flags and line-wise redaction of
    identifying labels. */
module Scoring {
  import opened Strings

  /** The job as the landing page hands it over (`selectedJob`). */
  datatype SelectedJob = SelectedJob(
    title: string,
    description: string,
    skills: seq<string>,
    yearsExperience: int)

  /** The object `scoreResume` returns. */
  datatype ScoredResume = ScoredResume(
    skillMatchScore: nat,
    experienceScore: nat,
    biasFlags: seq<string>,
    matchedSkills: seq<string>,
    missingSkills: seq<string>,
    anonymizedResumeText: string,
    totalScore: nat)

  /** One entry of `bulkResults`: a resume's text, the job and the years of
      experience extracted from the text. */
  datatype BulkEntry = BulkEntry(resumeText: string, selectedJob: SelectedJob, yearsOfExperience: nat)

  // ---------------------------------------------------------------------------
  // Skill matching

  /** `resumeLower.includes(skill.toLowerCase())` */
  predicate SkillFound(resumeLower: string, skill: string)
    ensures skill == [] ==> SkillFound(resumeLower, skill)
    ensures SkillFound(resumeLower, skill) ==> |skill| <= |resumeLower|
  {
    Contains(resumeLower, Lower(skill))
  }

  /** `a` is an in-order subsequence of `b`. */
  ghost predicate Subsequence<T>(a: seq<T>, b: seq<T>)
    decreases |b|
  {
    a == [] || (b != [] && if a[0] == b[0] then Subsequence(a[1..], b[1..]) else Subsequence(a, b[1..]))
  }

  /** `job.skills.filter(skill => resumeLower.includes(skill.toLowerCase()))` */
  function MatchedSkills(resumeLower: string, skills: seq<string>): (r: seq<string>)
    ensures Subsequence(r, skills)
    ensures forall s :: s in r <==> s in skills && SkillFound(resumeLower, s)
    ensures forall s :: multiset(r)[s] == if SkillFound(resumeLower, s) then multiset(skills)[s] else 0
  {
    if skills == [] then []
    else
      var rest := MatchedSkills(resumeLower, skills[1..]);
      assert skills == [skills[0]] + skills[1..];
      if SkillFound(resumeLower, skills[0]) then [skills[0]] + rest else rest
  }

  /** `job.skills.filter(skill => !matchedSkills.includes(skill))` */
  function MissingSkills(skills: seq<string>, matched: seq<string>): (r: seq<string>)
    ensures Subsequence(r, skills)
    ensures forall s :: s in r <==> s in skills && s !in matched
    ensures forall s :: multiset(r)[s] == if s in matched then 0 else multiset(skills)[s]
  {
    if skills == [] then []
    else
      var rest := MissingSkills(skills[1..], matched);
      assert skills == [skills[0]] + skills[1..];
      if skills[0] !in matched then [skills[0]] + rest else rest
  }

  /** The skills of `skills` that are not found in the resume, in order. */
  function NotFoundSkills(resumeLower: string, skills: seq<string>): seq<string> {
    if skills == [] then []
    else
      var rest := NotFoundSkills(resumeLower, skills[1..]);
      if SkillFound(resumeLower, skills[0]) then rest else [skills[0]] + rest
  }

  /** Filtering on membership in the matched list is the same as filtering on
      "not found": a skill string is matched exactly when it is found. */
  lemma {:induction false} MissingIsNotFound(resumeLower: string, skills: seq<string>, all: seq<string>)
    requires forall s :: s in skills ==> s in all
    ensures MissingSkills(skills, MatchedSkills(resumeLower, all)) == NotFoundSkills(resumeLower, skills)
  {
    if skills != [] {
      MissingIsNotFound(resumeLower, skills[1..], all);
    }
  }

  /** Every required skill lands in exactly one of the two lists. */
  lemma {:induction false} SkillsPartition(resumeLower: string, skills: seq<string>)
    ensures |MatchedSkills(resumeLower, skills)| + |NotFoundSkills(resumeLower, skills)| == |skills|
    ensures multiset(MatchedSkills(resumeLower, skills)) + multiset(NotFoundSkills(resumeLower, skills))
      == multiset(skills)
    ensures forall s :: s in NotFoundSkills(resumeLower, skills) <==> s in skills && !SkillFound(resumeLower, s)
  {
    if skills != [] {
      SkillsPartition(resumeLower, skills[1..]);
      assert skills == [skills[0]] + skills[1..];
    }
  }

  /** An empty required skill (as `",".split` produces for `"a,,b"`) is
      matched by every resume, even an empty one. */
  lemma EmptySkillAlwaysMatched(resumeLower: string, skills: seq<string>)
    requires "" in skills
    ensures "" in MatchedSkills(resumeLower, skills)
  {
  }

  // ---------------------------------------------------------------------------
  // Scores and flags

  /** `Math.round((matched / total) * 100)`, rounded half up on exact values. */
  function SkillMatchScore(matched: nat, total: nat): (r: nat)
    requires total > 0
    ensures total * (2 * r - 1) <= 200 * matched < total * (2 * r + 1)
    ensures matched <= total ==> r <= 100
    ensures r == 0 <==> 200 * matched < total
  {
    var a := 200 * matched;
    var r := (a + total) / (2 * total);
    RoundHalfUp(a, total, r);
    if matched <= total then MulAtLeast(200, total, matched); r else r
  }

  /** `q` is `a / 2k` rounded half up: `a / 2k` lies within half a unit
      of `q`, so `q` is at most 100 when `a / 2k` is, and 0 exactly when
      `a / 2k` is below one half. */
  lemma RoundHalfUp(a: nat, k: nat, q: nat)
    requires k > 0 && q == (a + k) / (2 * k)
    ensures k * (2 * q - 1) <= a < k * (2 * q + 1)
    ensures a <= 200 * k ==> q <= 100
    ensures q == 0 <==> a < k
  {
    var rem := (a + k) % (2 * k);
    assert a + k == 2 * k * q + rem && 0 <= rem < 2 * k;
    assert k * (2 * q - 1) == 2 * k * q - k;
    assert k * (2 * q + 1) == 2 * k * q + k;
    if q >= 1 {
      MulAtLeast(2 * k, q, 1);
    }
    if q >= 101 {
      MulAtLeast(2 * k, q, 101);
    }
  }

  lemma MulAtLeast(x: nat, y: nat, m: nat)
    requires y >= m
    ensures x * y >= x * m
  {
    assert x * y == x * m + x * (y - m);
  }

  /** `Math.min(candidateExp, 10) * 10` */
  function ExperienceScore(candidateExp: nat): (r: nat)
    ensures r % 10 == 0 && r <= 100
    ensures candidateExp <= 10 ==> r == 10 * candidateExp
    ensures candidateExp >= 10 ==> r == 100
  {
    (if candidateExp < 10 then candidateExp else 10) * 10
  }

  /** `Math.round(skillMatchScore * 0.7 + expScore * 0.3)`, rounded half up. */
  function TotalScore(skill: nat, exp: nat): (r: nat)
    ensures 10 * r - 5 <= 7 * skill + 3 * exp < 10 * r + 5
    ensures (if skill < exp then skill else exp) <= r <= (if skill < exp then exp else skill)
  {
    (7 * skill + 3 * exp + 5) / 10
  }

  const LowSkillMatch := "Low skill match"
  const LowExperience := "Less than 1 year experience"

  function BiasFlags(skillMatchScore: nat, candidateExp: nat): (r: seq<string>)
    ensures LowSkillMatch in r <==> skillMatchScore < 50
    ensures LowExperience in r <==> candidateExp < 1
    ensures forall i :: 0 <= i < |r| ==> r[i] == LowSkillMatch || r[i] == LowExperience
    ensures forall i, j :: 0 <= i < j < |r| ==> r[i] == LowSkillMatch && r[j] == LowExperience
  {
    (if skillMatchScore < 50 then [LowSkillMatch] else []) + (if candidateExp < 1 then [LowExperience] else [])
  }

  // ---------------------------------------------------------------------------
  // Redaction: `resumeText.replace(/(Name|Email|Phone|Contact):?.*$/gim, "[redacted]")`

  const Keywords: seq<string> := ["name", "email", "phone", "contact"]
  const Redacted := "[redacted]"

  /** The characters at which `.` stops and multiline `$` matches. */
  predicate IsLineTerminator(c: char) {
    c == '\n' || c == '\r' || c == '\U{2028}' || c == '\U{2029}'
  }

  /** `kw` (lower case) occurs at `i` in `s` when `s` is compared case-insensitively. */
  predicate MatchesAt(s: string, kw: string, i: int) {
    0 <= i && i + |kw| <= |s| && forall t :: 0 <= t < |kw| ==> LowerChar(s[i + t]) == kw[t]
  }

  /** One of the four labels starts at `i`. */
  predicate KeywordAt(line: string, i: int) {
    exists k | 0 <= k < |Keywords| :: MatchesAt(line, Keywords[k], i)
  }

  /** The first position at or after `from` where a label starts. */
  function FirstKeyword(line: string, from: nat): (r: Option<nat>)
    ensures r.Some? ==> (from <= r.value < |line| && KeywordAt(line, r.value)
                         && forall j :: from <= j < r.value ==> !KeywordAt(line, j))
    ensures r.None? ==> forall j :: from <= j ==> !KeywordAt(line, j)
    decreases |line| - from
  {
    if from >= |line| then None
    else if KeywordAt(line, from) then Some(from)
    else FirstKeyword(line, from + 1)
  }

  /** One line (no terminator inside) after the replace: unchanged when no label
      occurs, otherwise everything from the first label on becomes the marker. */
  function RedactLine(line: string): (r: string)
    ensures (forall j :: !KeywordAt(line, j)) ==> r == line
    ensures (exists j :: KeywordAt(line, j)) ==>
              exists i | 0 <= i < |line| :: KeywordAt(line, i) && (forall j :: 0 <= j < i ==> !KeywordAt(line, j))
                                            && r == line[..i] + Redacted
    ensures forall j :: !KeywordAt(r, j)
  {
    match FirstKeyword(line, 0)
    case None => line
    case Some(i) =>
      var r := line[..i] + Redacted;
      forall j, k | 0 <= k < |Keywords| ensures !MatchesAt(r, Keywords[k], j) {
        NoLabelAfterCut(line, i, k, j);
      }
      r
  }

  /** No label occurs in the marker itself: wherever a label's first letter
      appears in it, the next character differs from the label's second. */
  lemma MarkerHasNoLabel(k: nat, o: int)
    requires k < |Keywords|
    ensures !MatchesAt(Redacted, Keywords[k], o)
  {
    var kw := Keywords[k];
    if 0 <= o && o + |kw| <= |Redacted| {
      assert LowerChar(Redacted[o]) != kw[0] || LowerChar(Redacted[o + 1]) != kw[1];
    }
  }

  lemma NoLabelAfterCut(line: string, i: nat, k: nat, j: int)
    requires i <= |line| && k < |Keywords|
    requires forall j' :: 0 <= j' < i ==> !KeywordAt(line, j')
    ensures !MatchesAt(line[..i] + Redacted, Keywords[k], j)
  {
    var kw := Keywords[k];
    if 0 <= j && j + |kw| <= i + |Redacted| {
      if j + |kw| <= i {
        assert !KeywordAt(line, j);
        NoLabelBeforeCut(line, i, kw, j);
      } else if j < i {
        NoLabelAcrossCut(line, i, k, j);
      } else {
        NoLabelInMarker(line, i, k, j);
      }
    }
  }

  /** A label ending before the cut would already be in the line. */
  lemma NoLabelBeforeCut(line: string, i: nat, kw: string, j: int)
    requires i <= |line| && 0 <= j && j + |kw| <= i
    requires !MatchesAt(line, kw, j)
    ensures !MatchesAt(line[..i] + Redacted, kw, j)
  {
    var t :| 0 <= t < |kw| && LowerChar(line[j + t]) != kw[t];
    assert (line[..i] + Redacted)[j + t] == line[j + t];
  }

  /** A label straddling the cut would have to hold the marker's `[`. */
  lemma NoLabelAcrossCut(line: string, i: nat, k: nat, j: int)
    requires i <= |line| && k < |Keywords| && 0 <= j < i < j + |Keywords[k]|
    ensures !MatchesAt(line[..i] + Redacted, Keywords[k], j)
  {
    var kw := Keywords[k];
    assert kw == Keywords[0] || kw == Keywords[1] || kw == Keywords[2] || kw == Keywords[3];
    assert '[' !in kw;
    var r := line[..i] + Redacted;
    if j + |kw| <= |r| {
      assert r[j + (i - j)] == '[' && LowerChar('[') == '[';
      assert LowerChar(r[j + (i - j)]) != kw[i - j];
    }
  }

  /** A label starting inside the marker would be a label of the marker. */
  lemma NoLabelInMarker(line: string, i: nat, k: nat, j: int)
    requires i <= |line| && k < |Keywords| && i <= j
    ensures !MatchesAt(line[..i] + Redacted, Keywords[k], j)
  {
    var kw := Keywords[k];
    var r := line[..i] + Redacted;
    if j + |kw| <= |r| {
      MarkerHasNoLabel(k, j - i);
      var t :| 0 <= t < |kw| && LowerChar(Redacted[j - i + t]) != kw[t];
      assert r[j + t] == Redacted[j - i + t];
    }
  }

  /** Redacting a line that was already redacted changes nothing. */
  lemma RedactLineIdempotent(line: string)
    ensures RedactLine(RedactLine(line)) == RedactLine(line)
  {
  }

  /** A redacted line holds a line terminator only where the original did. */
  lemma RedactLineTerminatorFree(line: string)
    requires forall k :: 0 <= k < |line| ==> !IsLineTerminator(line[k])
    ensures forall k :: 0 <= k < |RedactLine(line)| ==> !IsLineTerminator(RedactLine(line)[k])
  {
  }

  /** The lines of `s`: the pieces between line terminators. */
  function Lines(s: string): (r: seq<string>)
    ensures |r| > 0
  {
    if s == [] then [""]
    else
      var rest := Lines(s[1..]);
      if IsLineTerminator(s[0]) then [""] + rest else [[s[0]] + rest[0]] + rest[1..]
  }

  /** The line terminators of `s`, in order. */
  function Terminators(s: string): seq<char> {
    if s == [] then [] else (if IsLineTerminator(s[0]) then [s[0]] else []) + Terminators(s[1..])
  }

  /** The index of the first line terminator at or after `from`, or `|s|`. */
  function LineEnd(s: string, from: nat): (r: nat)
    requires from <= |s|
    ensures from <= r <= |s|
    ensures r < |s| ==> IsLineTerminator(s[r])
    ensures forall k :: from <= k < r ==> !IsLineTerminator(s[k])
    decreases |s| - from
  {
    if from == |s| || IsLineTerminator(s[from]) then from else LineEnd(s, from + 1)
  }

  /** The whole replace, line by line, keeping every line terminator. */
  function Redact(text: string): string
    decreases |text|
  {
    var k := LineEnd(text, 0);
    if k == |text| then RedactLine(text)
    else RedactLine(text[..k]) + [text[k]] + Redact(text[k + 1..])
  }

  function RedactLines(lines: seq<string>): (r: seq<string>)
    ensures |r| == |lines|
    ensures forall i :: 0 <= i < |lines| ==> r[i] == RedactLine(lines[i])
  {
    if lines == [] then [] else [RedactLine(lines[0])] + RedactLines(lines[1..])
  }

  /** The replace works per line: the text keeps its line terminators, and
      each line becomes what `RedactLine` makes of it. */
  lemma {:induction false} RedactPerLine(text: string)
    ensures Lines(Redact(text)) == RedactLines(Lines(text))
    ensures Terminators(Redact(text)) == Terminators(text)
    decreases |text|
  {
    var k := LineEnd(text, 0);
    if k == |text| {
      LinesOfLine(text);
      RedactLineTerminatorFree(text);
      LinesOfLine(RedactLine(text));
    } else {
      var line, c, rest := text[..k], text[k], text[k + 1..];
      assert text == line + [c] + rest;
      RedactLineTerminatorFree(line);
      LinesConcat(line, c, rest);
      LinesConcat(RedactLine(line), c, Redact(rest));
      RedactPerLine(rest);
    }
  }

  lemma {:induction false} LinesOfLine(line: string)
    requires forall k :: 0 <= k < |line| ==> !IsLineTerminator(line[k])
    ensures Lines(line) == [line]
    ensures Terminators(line) == []
  {
    if line != [] {
      LinesOfLine(line[1..]);
      assert [line[0]] + line[1..] == line;
    }
  }

  lemma {:induction false} LinesConcat(line: string, c: char, rest: string)
    requires forall k :: 0 <= k < |line| ==> !IsLineTerminator(line[k])
    requires IsLineTerminator(c)
    ensures Lines(line + [c] + rest) == [line] + Lines(rest)
    ensures Terminators(line + [c] + rest) == [c] + Terminators(rest)
  {
    if line == [] {
      assert line + [c] + rest == [c] + rest;
      assert ([c] + rest)[1..] == rest;
    } else {
      assert (line + [c] + rest)[1..] == line[1..] + [c] + rest;
      LinesConcat(line[1..], c, rest);
      assert [line[0]] + line[1..] == line;
    }
  }

  /** Redacting twice is the same as redacting once. */
  lemma {:induction false} RedactIdempotent(text: string)
    ensures Redact(Redact(text)) == Redact(text)
    decreases |text|
  {
    var k := LineEnd(text, 0);
    if k < |text| {
      var line, c, rest := text[..k], text[k], text[k + 1..];
      assert text == line + [c] + rest;
      RedactIdempotent(rest);
      RedactIdempotentCons(line, c, rest);
    } else {
      assert text[..k] == text;
      RedactLineIdempotent(text);
      RedactLineTerminatorFree(text);
      RedactOneLine(text);
      RedactOneLine(RedactLine(text));
    }
  }

  lemma RedactIdempotentCons(line: string, c: char, rest: string)
    requires forall k :: 0 <= k < |line| ==> !IsLineTerminator(line[k])
    requires IsLineTerminator(c)
    requires Redact(Redact(rest)) == Redact(rest)
    ensures Redact(Redact(line + [c] + rest)) == Redact(line + [c] + rest)
  {
    RedactCons(line, c, rest);
    RedactLineTerminatorFree(line);
    RedactCons(RedactLine(line), c, Redact(rest));
    RedactLineIdempotent(line);
  }

  lemma RedactOneLine(line: string)
    requires forall k :: 0 <= k < |line| ==> !IsLineTerminator(line[k])
    ensures Redact(line) == RedactLine(line)
  {
    assert LineEnd(line, 0) == |line|;
  }

  lemma RedactCons(line: string, c: char, rest: string)
    requires forall k :: 0 <= k < |line| ==> !IsLineTerminator(line[k])
    requires IsLineTerminator(c)
    ensures Redact(line + [c] + rest) == RedactLine(line) + [c] + Redact(rest)
  {
    var text := line + [c] + rest;
    assert forall t :: 0 <= t < |line| ==> text[t] == line[t];
    assert text[|line|] == c;
    assert LineEnd(text, 0) == |line|;
    assert text[..|line|] == line;
    assert text[|line| + 1..] == rest;
  }

  /** A text in which no label occurs anywhere is returned unchanged. */
  lemma {:induction false} RedactWithoutLabels(text: string)
    requires forall j :: !KeywordAt(text, j)
    ensures Redact(text) == text
    decreases |text|
  {
    var k := LineEnd(text, 0);
    var line := text[..k];
    PrefixWithoutLabels(text, k);
    if k < |text| {
      var rest := text[k + 1..];
      SuffixWithoutLabels(text, k + 1);
      RedactWithoutLabels(rest);
      assert text == line + [text[k]] + rest;
      RedactCons(line, text[k], rest);
    } else {
      assert line == text;
      RedactOneLine(text);
    }
  }

  lemma PrefixWithoutLabels(s: string, n: nat)
    requires n <= |s| && forall j :: !KeywordAt(s, j)
    ensures RedactLine(s[..n]) == s[..n]
  {
    forall j | KeywordAt(s[..n], j) ensures false { LabelInPrefix(s, n, j); }
  }

  lemma SuffixWithoutLabels(s: string, n: nat)
    requires n <= |s| && forall j :: !KeywordAt(s, j)
    ensures forall j :: !KeywordAt(s[n..], j)
  {
    forall j | KeywordAt(s[n..], j) ensures false { LabelInSuffix(s, n, j); }
  }

  lemma LabelInPrefix(s: string, n: nat, j: int)
    requires n <= |s|
    requires KeywordAt(s[..n], j)
    ensures KeywordAt(s, j)
  {
    var k :| 0 <= k < |Keywords| && MatchesAt(s[..n], Keywords[k], j);
    assert MatchesAt(s, Keywords[k], j);
  }

  lemma LabelInSuffix(s: string, n: nat, j: int)
    requires n <= |s|
    requires KeywordAt(s[n..], j)
    ensures KeywordAt(s, n + j)
  {
    var k :| 0 <= k < |Keywords| && MatchesAt(s[n..], Keywords[k], j);
    forall t | 0 <= t < |Keywords[k]| ensures LowerChar(s[n + j + t]) == Keywords[k][t] {
      assert s[n..][j + t] == s[n + j + t];
    }
    assert MatchesAt(s, Keywords[k], n + j);
  }

  // ---------------------------------------------------------------------------
  // The whole per-resume score

  /** `scoreResume(resumeText, job, candidateExp)`. The source divides by
      `job.skills.length`; its only caller always passes at least one skill. */
  function ScoreResume(resumeText: string, job: SelectedJob, candidateExp: nat): (r: ScoredResume)
    requires |job.skills| > 0
    ensures r.skillMatchScore <= 100 && r.experienceScore <= 100 && r.totalScore <= 100
    ensures r.experienceScore % 10 == 0
    ensures |r.matchedSkills| + |r.missingSkills| == |job.skills|
    ensures multiset(r.matchedSkills) + multiset(r.missingSkills) == multiset(job.skills)
    ensures forall s :: s in r.matchedSkills <==> s in job.skills && SkillFound(Lower(resumeText), s)
    ensures forall s :: s in r.missingSkills <==> s in job.skills && !SkillFound(Lower(resumeText), s)
    ensures r.skillMatchScore == 0 <==> 200 * |r.matchedSkills| < |job.skills|
    ensures LowSkillMatch in r.biasFlags <==> r.skillMatchScore < 50
    ensures LowExperience in r.biasFlags <==> candidateExp == 0
    ensures r.anonymizedResumeText == Redact(resumeText)
    ensures r.matchedSkills == MatchedSkills(Lower(resumeText), job.skills)
    ensures r.missingSkills == NotFoundSkills(Lower(resumeText), job.skills)
    ensures r.skillMatchScore == SkillMatchScore(|r.matchedSkills|, |job.skills|)
    ensures r.experienceScore == ExperienceScore(candidateExp)
    ensures r.biasFlags == BiasFlags(r.skillMatchScore, candidateExp)
    ensures r.totalScore == TotalScore(r.skillMatchScore, r.experienceScore)
  {
    var resumeLower := Lower(resumeText);
    var matched := MatchedSkills(resumeLower, job.skills);
    var missing := MissingSkills(job.skills, matched);
    MissingIsNotFound(resumeLower, job.skills, job.skills);
    SkillsPartition(resumeLower, job.skills);
    var skillMatchScore := SkillMatchScore(|matched|, |job.skills|);
    var expScore := ExperienceScore(candidateExp);
    ScoredResume(
      skillMatchScore,
      expScore,
      BiasFlags(skillMatchScore, candidateExp),
      matched,
      missing,
      Redact(resumeText),
      TotalScore(skillMatchScore, expScore))
  }
}
