# Resume scoring and ranking, modelled in Dafny

This project models the core of a resume-screening web app. The app has
three parts:

- **The landing page** (`LandingPage.jsx`). It accepts up to 15 resume files and checks the "Submit & Score" preconditions. It reads the years of experience from each resume's text. It hands the results page a `bulkResults` batch: each resume's text, the selected job with its comma-separated skills split and trimmed, and the years found.
- **The results page** (`ResultsDashboard.jsx`). It scores every resume against the job with `scoreResume`:
  - matched and missing skills;
  - a skill percentage, an experience score and a weighted total, each rounded;
  - two bias flags;
  - label-based redaction of the text.

  It then ranks the batch. Candidates with a positive skill match come first, stably sorted by descending total. Candidates with no match follow in input order. The page exports the ranking as CSV.
- **The job store** (`backend.py`). It keeps the job list in a JSON file behind the `/jobs`, `/add_job`, `/update_job` and `/delete_job` handlers.

Modules:

| file | module | what it holds |
|---|---|---|
| `strings.dfy` | `Strings` | ASCII lower-casing, `includes`, `split`/`join`, `trim`, decimal rendering and parsing |
| `scoring.dfy` | `Scoring` | `scoreResume` and its parts, including the multiline redaction `replace` |
| `stable_sort.dfy` | `StableSort` | the descending stable sort: a specification function, an in-place insertion sort on an array, and proofs that it sorts, permutes, is stable and is the only stable descending order |
| `ranking.dfy` | `Ranking` | the partition, the sort of the positive part, and scoring a whole batch |
| `csv.dfy` | `Csv` | `generateCSV`, with a reader used to state what the export round-trips |
| `experience.dfy` | `Experience` | `extractYearsOfExperience`: the loop over the seven patterns and their matches, and the filters on each match |
| `landing.dfy` | `Landing` | the landing page as a class (`handleResumeUpload`, `handleSubmit`), skill parsing, `jobs.find` and the construction of `bulkResults` |
| `job_store.dfy` | `JobStore` | the job file as a class: whether it exists and its list, with one method per handler returning the HTTP status |

Three behaviours of the code that a reader may not expect:

- **Redaction is not line-anchored.** The regular expression `/(Name|Email|Phone|Contact):?.*$/gim` has no `^`. On every line it replaces everything from the first case-insensitive occurrence of a label to the end of the line, wherever that occurrence starts. So `Surname: X` becomes `Sur[redacted]`.
- **An empty skill list does not score 0.** It makes the skill percentage `NaN`. The model requires a non-empty list, and `Landing.BulkResultsScorable` shows that the landing page never produces an empty one: `split` always yields at least one piece.
- **The CSV export does not escape quotes.**

## Model

| member | source | states |
|---|---|---|
| Strings.Lower | ResultsDashboard.jsx:6 | lower-casing keeps the length and maps every character through the case fold |
| Strings.Split | LandingPage.jsx:301 | `split` yields one piece more than there are separators, no piece holds the separator, and joining the pieces gives back the string |
| Strings.SplitJoin | LandingPage.jsx:301 | splitting a join of separator-free pieces gives back those pieces |
| Strings.Join | ResultsDashboard.jsx:55-62 | `join` puts the separator between consecutive parts; its ends are stated by `Strings.JoinEnds` |
| Strings.JoinEnds | ResultsDashboard.jsx:60-62 | a join of no parts is empty; otherwise it starts with the first part and ends with the last |
| Strings.Contains | ResultsDashboard.jsx:8 | `includes` holds when the text occurs at some position; the empty string occurs in every string, and nothing longer than the string does |
| Strings.Trim | LandingPage.jsx:301 | `trim` returns a slice of the string with no whitespace at either end, and only whitespace is cut away |
| Strings.NatToString | ResultsDashboard.jsx:51-54 | a number renders as a non-empty run of digits with no leading zero |
| Strings.ParseNatToString | ResultsDashboard.jsx:51-54 | reading the digits of a rendered number gives back that number |
| Scoring.SkillFound | ResultsDashboard.jsx:8 | a skill is found when its lower-cased name occurs in the lower-cased resume; an empty skill is always found, and a found skill is no longer than the resume |
| Scoring.MatchedSkills | ResultsDashboard.jsx:6-9 | the matched skills are an in-order subsequence of the job's skills, holding exactly the skills found in the lower-cased resume, with their multiplicities |
| Scoring.MissingSkills | ResultsDashboard.jsx:10-12 | the missing skills are an in-order subsequence of the job's skills, holding exactly those not in the matched list, each as many times as the job lists it |
| Scoring.MissingIsNotFound | ResultsDashboard.jsx:7-12 | filtering on membership in the matched list is the same as filtering on "not found in the resume" |
| Scoring.SkillsPartition | ResultsDashboard.jsx:7-12 | every required skill lands in exactly one of matched or missing: the lengths add up and the multisets add up to the job's skills |
| Scoring.EmptySkillAlwaysMatched | ResultsDashboard.jsx:7-9 | an empty skill name is always counted as matched |
| Scoring.SkillMatchScore | ResultsDashboard.jsx:13 | the percentage is `100 * matched / total` rounded to the nearest integer, half up; it is at most 100, and it is 0 exactly when fewer than half a percent of the skills match |
| Scoring.RoundHalfUp | ResultsDashboard.jsx:13 | `(a + k) div 2k` lies within half a unit of `a / 2k`, is at most 100 when `a <= 200k`, and is 0 exactly when `a < k` |
| Scoring.ExperienceScore | ResultsDashboard.jsx:14 | the experience score is ten times the years, capped at 100 |
| Scoring.TotalScore | ResultsDashboard.jsx:25 | the total is `0.7 * skill + 0.3 * experience` rounded half up, and lies between the two scores |
| Scoring.BiasFlags | ResultsDashboard.jsx:16-18 | the low-skill flag is present exactly when the skill score is below 50, and the low-experience flag exactly when the years are below 1, in that order and nothing else |
| Scoring.FirstKeyword | ResultsDashboard.jsx:20-23 | the first position at which a label starts, case-insensitively, or none when no label occurs |
| Scoring.RedactLine | ResultsDashboard.jsx:20-23 | a line without a label is unchanged; otherwise it is cut at the first label and `[redacted]` appended; no label is left in the result |
| Scoring.RedactLineIdempotent | ResultsDashboard.jsx:20-23 | redacting a redacted line changes nothing |
| Scoring.RedactLineTerminatorFree | ResultsDashboard.jsx:20-23 | redaction introduces no line terminator into a line |
| Scoring.LineEnd | ResultsDashboard.jsx:20-23 | the end of the current line is the first line terminator at or after the position, or the end of the text |
| Scoring.Redact | ResultsDashboard.jsx:20-23 | the replace applied line by line up to each line terminator; its lines and terminators are stated by `Scoring.RedactPerLine` |
| Scoring.RedactLines | ResultsDashboard.jsx:20-23 | each line is redacted on its own |
| Scoring.RedactPerLine | ResultsDashboard.jsx:20-23 | the multiline replace works line by line: the lines of the result are the redacted lines, and the line terminators are kept |
| Scoring.RedactIdempotent | ResultsDashboard.jsx:20-23 | redacting a whole text twice is the same as redacting it once |
| Scoring.RedactWithoutLabels | ResultsDashboard.jsx:20-23 | a text with no label anywhere is returned unchanged |
| Scoring.ScoreResume | ResultsDashboard.jsx:5-36 | the record holds the matched skills (found in the lower-cased resume, in job order) and the missing ones (not found, in job order), the skill percentage of the matched count, the experience score of the years, the flags of those two, the total of the two scores and the redacted text; every score is at most 100, and matched and missing partition the job's skills |
| StableSort.SortDesc | ResultsDashboard.jsx:87 | the sort keeps the length |
| StableSort.InsertPermutation | ResultsDashboard.jsx:87 | inserting adds exactly the inserted element |
| StableSort.InsertSorted | ResultsDashboard.jsx:87 | inserting into a descending sequence keeps it descending |
| StableSort.InsertStable | ResultsDashboard.jsx:87 | inserting appends the element to the end of its key's group |
| StableSort.SortDescPermutation | ResultsDashboard.jsx:87 | sorting loses and adds no element |
| StableSort.SortDescSorted | ResultsDashboard.jsx:87 | the comparator `b.totalScore - a.totalScore` puts the keys in descending order |
| StableSort.SortDescStable | ResultsDashboard.jsx:87 | elements with equal keys keep their input order, as `Array.prototype.sort` guarantees |
| StableSort.SortDescUnique | ResultsDashboard.jsx:87 | any descending order that is stable is exactly this sort, so the result does not depend on the sort algorithm |
| StableSort.SortedWithSameGroupsEqual | ResultsDashboard.jsx:87 | two descending sequences with the same elements per key, in the same order, are equal |
| StableSort.SortInPlace | ResultsDashboard.jsx:87 | sorting the array in place leaves it holding the stable descending sort of its old contents |
| StableSort.InsertIntoPrefix | ResultsDashboard.jsx:87 | one pass moves the next element into its place in the sorted prefix and leaves the rest of the array alone |
| Ranking.Positives | ResultsDashboard.jsx:84 | the filter keeps, in input order, exactly the candidates with a positive skill score |
| Ranking.PositivesCount | ResultsDashboard.jsx:84 | the filter keeps each positive-score candidate as many times as it occurs, and no other |
| Ranking.Zeros | ResultsDashboard.jsx:85 | the filter keeps, in input order, exactly the candidates with a zero skill score |
| Ranking.ZerosCount | ResultsDashboard.jsx:85 | the filter keeps each zero-score candidate as many times as it occurs, and no other |
| Ranking.PartitionIsPermutation | ResultsDashboard.jsx:84-85 | together the two filters hold every candidate exactly once |
| Ranking.Ranked | ResultsDashboard.jsx:84-89 | the ranking has one row per scored candidate |
| Ranking.Rank | ResultsDashboard.jsx:84-89 | sorting a fresh array of the positive candidates and appending the zero ones gives the ranking |
| Ranking.RankedIsPermutation | ResultsDashboard.jsx:84-89 | ranking loses and adds no candidate |
| Ranking.RankedPositivesFirst | ResultsDashboard.jsx:84-89 | a position holds a positive skill match exactly when it lies before the end of the positive part |
| Ranking.RankedOrder | ResultsDashboard.jsx:84-89 | the positive part is descending by total with ties in input order, and the zero part is the zero candidates in input order |
| Ranking.RankedUnique | ResultsDashboard.jsx:84-89 | any stable descending order of the positive part followed by the zero part is the ranking |
| Ranking.ScoreAll | ResultsDashboard.jsx:79-82 | each entry of the batch is scored against its own job and years |
| Ranking.ScoreAndRank | ResultsDashboard.jsx:79-89 | the results page ranks the scored batch and shows one row per entry |
| Csv.GenerateCsv | ResultsDashboard.jsx:39-65 | the export starts with the header line, and is just that line for no candidates |
| Csv.CsvLine | ResultsDashboard.jsx:61 | a line of no fields is empty; otherwise it starts and ends with a double quote |
| Csv.RowFields | ResultsDashboard.jsx:50-58 | a candidate row has one cell per column, and its three score cells are decimal digits |
| Csv.CsvLines | ResultsDashboard.jsx:60-62 | the lines are the header line followed by one line per candidate |
| Csv.Quote | ResultsDashboard.jsx:61 | a cell is the field between two double quotes, nothing escaped |
| Csv.Unquote | ResultsDashboard.jsx:61 | removing the surrounding quotes of a quoted cell gives its inside |
| Csv.JoinFree | ResultsDashboard.jsx:55-57 | joining pieces free of a character with a separator free of it gives a string free of it |
| Csv.RowFieldsFree | ResultsDashboard.jsx:50-58 | a candidate's cells hold no comma, line break or quote unless a skill does |
| Csv.BiasFlagsFree | ResultsDashboard.jsx:57 | the bias flag texts hold no comma, line break or quote |
| Csv.CsvLineFree | ResultsDashboard.jsx:61 | a line holds a line break only if one of its cells does |
| Csv.CsvLineRoundTrip | ResultsDashboard.jsx:61 | splitting a comma-free line at commas and unquoting gives back its cells |
| Csv.CsvLinesFree | ResultsDashboard.jsx:60-62 | no line of the export holds a line break when no skill does |
| Csv.GenerateCsvLines | ResultsDashboard.jsx:39-65 | the export splits at line breaks into the header line and one line per candidate |
| Csv.CsvRowStart | ResultsDashboard.jsx:51 | row `i`, counted from 1, starts with `"Candidate #i` |
| Csv.CsvRowRoundTrip | ResultsDashboard.jsx:50-62 | a candidate's row reads back as its seven cells, and its three score cells parse back to the candidate's scores |
| Csv.HeaderRoundTrip | ResultsDashboard.jsx:40-48 | the header line reads back as the seven column titles |
| Csv.QuoteNotEscaped | ResultsDashboard.jsx:61 | a quote inside a field is written as it is, leaving an odd number of quote characters in the cell |
| Experience.EndYear | LandingPage.jsx:225-227 | `present` and `current` end a range in the current year; any other end is the year written |
| Experience.Classify | LandingPage.jsx:216-244 | a match mentioning `years` yields its own number, exactly when it lies in 1..50; a range yields `end - start`, exactly when both years are non-zero and the end lies 0 to 50 years after the start; a start year yields `currentYear - start`, exactly when the start is non-zero and lies 0 to 50 years before the current year |
| Experience.Accepted | LandingPage.jsx:214-245 | the values one pattern pushes, at most one per match |
| Experience.AcceptedAll | LandingPage.jsx:213-246 | the values of all patterns, pattern after pattern, at most one per match |
| Experience.Extracted | LandingPage.jsx:184-250 | the years read from a text: 0 for an empty text, and otherwise 0 or one of the accepted values |
| Experience.MaxOrZero | LandingPage.jsx:249 | the answer is 0 for no candidates, otherwise a candidate at least as large as every other |
| Experience.ExtractYears | LandingPage.jsx:184-250 | an empty text gives 0; otherwise the loops over patterns and matches give the largest accepted value, or 0 |
| Experience.ScanPattern | LandingPage.jsx:214-245 | the inner loop appends, in order, the values the pattern's matches yield |
| Experience.PushCandidate | LandingPage.jsx:216-244 | one match appends its value when it passes the filters, and nothing otherwise |
| Experience.AcceptedMember | LandingPage.jsx:214-245 | a value is pushed for a pattern exactly when one of its matches yields it |
| Experience.AcceptedAllMember | LandingPage.jsx:213-246 | a value is a candidate exactly when some match of some pattern yields it |
| Experience.AcceptedAllBounded | LandingPage.jsx:213-246 | every candidate lies in 0..50 |
| Experience.ExtractedBounded | LandingPage.jsx:184-250 | the years read from a resume never exceed 50 |
| Experience.ExtractedIsMax | LandingPage.jsx:184-250 | the answer is 0 when no match passes, is at least every accepted value, and when non-zero is the value of some match |
| Experience.MaxOrZeroOfSameValues | LandingPage.jsx:249 | the maximum depends only on which values occur |
| Experience.ExtractedOrderIndependent | LandingPage.jsx:184-250 | the answer depends only on which matches are found, not on their order or on which pattern found them |
| Experience.YrsReadAsStartYear | LandingPage.jsx:216-244 | `2 yrs experience` does not contain `years`, so its 2 is taken as a start year and rejected |
| Experience.ZeroYearsRejected | LandingPage.jsx:219 | a direct mention of 0 years is not a candidate |
| Experience.PresentIsCurrentYear | LandingPage.jsx:225-232 | a range ending `present` counts up to the current year |
| Landing.ParseSkills | LandingPage.jsx:301 | splitting and trimming yields one skill per comma plus one, the `k`-th being the `k`-th comma-separated piece trimmed, each comma-free and without surrounding whitespace |
| Landing.TrimInside | LandingPage.jsx:301 | trimming adds no character |
| Landing.ParseSkillsJoin | LandingPage.jsx:301 | a comma-separated list of trimmed names parses back to that list |
| Landing.YearsOrZero | LandingPage.jsx:302 | a missing required-years value becomes 0, and any other value is kept |
| Landing.ToSelectedJob | LandingPage.jsx:298-303 | the selected job keeps the title and description, has the parsed skills, and has the required years defaulted to 0 |
| Landing.FindJob | LandingPage.jsx:288 | the lookup finds nothing exactly when no job has the id, and otherwise finds the first job with it |
| Landing.BulkResults | LandingPage.jsx:294-306 | one entry per text, holding the text, the selected job and the years read from that text |
| Landing.BulkResultsScorable | LandingPage.jsx:294-306 | every entry has a non-empty skill list and at most 50 years, so scoring it is defined |
| Landing.Texts | LandingPage.jsx:267-286 | one text per selected file, in order |
| Landing.LandingPage.constructor | LandingPage.jsx:107-112 | the page starts with no job selected, no files, no error and nothing processing |
| Landing.LandingPage.HandleResumeUpload | LandingPage.jsx:174-182 | more than 15 files sets the error and keeps the previous selection; otherwise the error is cleared, the selection replaced and the extracted experiences reset |
| Landing.LandingPage.SelectJob | LandingPage.jsx:395 | choosing an option of the job list changes the selected job and nothing else |
| Landing.LandingPage.HandleSubmit | LandingPage.jsx:252-317 | the guards report no job, then no file, then a missing job, each with its message and no batch; otherwise the batch is built from every file's text; processing is over in every case |
| JobStore.Complete | backend.py:42-43 | a request is complete when all four job fields are present |
| JobStore.WithFields | backend.py:54-60 | the job a request describes carries the given id, and its title, skills, description and required years are the request's |
| JobStore.NextId | backend.py:55 | the new id exceeds every id, is 1 for an empty list, and is otherwise one more than an existing id |
| JobStore.FirstWithId | backend.py:95-102 | the scan finds nothing exactly when no job has the id, and otherwise the first position holding it |
| JobStore.JobStore.constructor | backend.py:6 | the store holds whether the file exists and the list it contains |
| JobStore.JobStore.Get | backend.py:23-32 | a missing file is created empty; the list is returned with status 200 |
| JobStore.JobStore.Add | backend.py:36-66 | a request missing a field gets 400 and changes nothing; otherwise the new job is appended under the next id and returned with 200 |
| JobStore.JobStore.Update | backend.py:70-111 | a missing id or field gets 400, a missing file 500, an unknown id 404, each changing nothing; 200 exactly when all are present, and then only the first job with the id is overwritten |
| JobStore.JobStore.Delete | backend.py:115-136 | a missing id gets 400 and a missing file 500, changing nothing; otherwise every job with the id is removed with 200 |
| JobStore.AddKeepsIdsUnique | backend.py:54-61 | appending under the next id keeps ids unique |
| JobStore.UpdateKeepsIds | backend.py:94-102 | an update keeps every id, changes only the first job with the id, and keeps ids unique |
| JobStore.WithoutId | backend.py:131 | the comprehension never grows the list, and shrinks it when some job has the id |
| JobStore.DeleteMembers | backend.py:131 | a delete keeps exactly the jobs whose id differs |
| JobStore.DeleteRemovesId | backend.py:131 | after a delete no job has the id |
| JobStore.DeleteKeepsIdsUnique | backend.py:131 | deleting keeps ids unique |
| JobStore.DeleteAbsentId | backend.py:131 | deleting an id no job has leaves the list unchanged |
| JobStore.DeleteKeepsOrder | backend.py:131 | deleting works job by job, so the remaining jobs keep their order |

## Left out

- The React user interface is not modelled: rendering, state hooks beyond the fields of `LandingPage`, navigation and the download link. `UploadResume.jsx` is not part of this model.
- The job add/edit/delete form (`handleAddOrUpdateJob`, `handleDeleteJob`) is not modelled. Its one check of its own, refusing an empty title, skills, description or required years before sending (LandingPage.jsx:322), is stricter than the backend, which only checks that the four keys are present (backend.py:43 and 83); `JobStore` models what the backend accepts.
- HTTP is not modelled: `fetch`, CORS headers, JSON encoding, the "Route not found" 404 branches and `Content-Length`. The job file's reading and writing becomes the `present`/`jobs` fields of `JobStore.JobStore`.
- JobStore.JobStore.Add: `int(data["years_experience"])` raising on a non-number is not modelled; the field arrives already an integer. In the source the exception escapes `do_POST`, the server sends no response and closes the connection, and a job file missing until then has already been created empty (backend.py:47-49, 59).
- JobStore.JobStore.Update: a non-numeric `id` query parameter (an exception in `int(...)`) is not modelled; the id is `None` when absent and an integer otherwise.
- File reading (`FileReader`, pdf.js) is not modelled. A file's text is the `text` field of `ResumeFile`. The fallback text for a file that fails to read is not modelled.
- Experience.ExtractYears: the JavaScript regular-expression engine is not modelled. The matches of each of the seven patterns are an input: for each, whether the matched text contains `years`, the first capture group and the second capture group. The filters applied to each match are modelled exactly.
- The current year (`new Date().getFullYear()`) is a parameter.
- Strings.Lower: case folding covers ASCII letters only, and `trim` removes ASCII whitespace only; Unicode case mapping and Unicode spaces are left out.
- Scoring.SkillMatchScore: `Math.round` on IEEE doubles is modelled as exact rational rounding half up. This can differ from floating point only when `100 * matched / total` lands within rounding error of a half.
- Scoring.TotalScore: `0.7` and `0.3` are taken as exact tenths. With doubles, a sum like `skill * 0.7 + exp * 0.3` that is mathematically `n + 0.5` can round either way.
- Scoring.ScoreResume: requires a non-empty skill list. The source divides by zero there and produces `NaN`; `Landing.BulkResultsScorable` shows the landing page never passes such a list.
- `cosineSimilarity`, the embedding helpers and the OpenAI calls are not modelled: they are not reachable from the upload-to-results flow.
- Csv.CsvLineRoundTrip: the round-trip lemmas require cells free of commas, because the model's reader `Csv.ParseLine` splits a line at every comma; Csv.GenerateCsvLines requires skills free of line breaks, because it splits the export at every `\n`. Every field is quoted, so a reader following section 2 of RFC 4180 would recover commas and line breaks inside fields; that reader is not modelled. Only an embedded `"` defeats such a reader (`Csv.QuoteNotEscaped`). Skills produced by `Landing.ParseSkills` never hold a comma.
- StableSort.SortInPlace: the sort uses insertion sort where the browser uses its own algorithm. `StableSort.SortDescUnique` shows that every stable descending sort gives the same result.
