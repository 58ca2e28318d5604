/** The input side of the landing page (LandingPage.jsx): the resume upload
    limit, the guards of "Submit & Score", and the shaping of every resume
    into an entry of `bulkResults` (its text, the selected job with its
    skills split and trimmed, and the years of experience read from it). */
module Landing {
  import opened Strings
  import opened Scoring
  import opened Experience

  /** A selected file, with the text reading it yields. Reading the file
      (`FileReader` or pdf.js) happens outside the model. */
  datatype ResumeFile = ResumeFile(name: string, text: string)

  /** A job as the page receives it from `GET /jobs`; `yearsExperience` is
      `None` when the field is missing or `null`. */
  datatype JobListing = JobListing(id: int, title: string, skills: string,
                                   description: string, yearsExperience: Option<int>)

  const MaxFiles := 15
  const TooManyFiles := "You can upload up to 15 files only."
  const NoJobSelected := "Select a job."
  const NoResumes := "Upload at least one resume."
  const JobMissing := "Selected job not found."

  /** `job.skills.split(",").map(s => s.trim())` */
  function ParseSkills(skills: string): (r: seq<string>)
    ensures |r| == Count(skills, ',') + 1
    ensures forall k :: 0 <= k < |r| ==> r[k] == Trim(Split(skills, ',')[k])
    ensures forall k :: 0 <= k < |r| ==> ',' !in r[k] && (r[k] == [] || (!IsSpace(r[k][0]) && !IsSpace(r[k][|r[k]| - 1])))
  {
    var pieces := Split(skills, ',');
    var r := seq(|pieces|, k requires 0 <= k < |pieces| => Trim(pieces[k]));
    forall k | 0 <= k < |r| ensures ',' !in r[k] {
      TrimInside(pieces[k], ',');
    }
    r
  }

  /** Trimming keeps a slice of the string, so it adds no character. */
  lemma TrimInside(s: string, c: char)
    requires c !in s
    ensures c !in Trim(s)
  {
    var r := Trim(s);
    var i :| 0 <= i <= |s| - |r| && OccursAt(s, r, i);
    forall k | 0 <= k < |r| ensures r[k] != c {
      assert r[k] == s[i + k];
    }
  }

  /** Trimming a string with no surrounding whitespace changes nothing. */
  lemma TrimTrimmed(s: string)
    requires s == [] || (!IsSpace(s[0]) && !IsSpace(s[|s| - 1]))
    ensures Trim(s) == s
  {
    assert LeadingSpaces(s) == 0;
    assert s[0..] == s;
    assert TrailingSpaces(s) == 0;
  }

  /** Skills written as a comma-separated list of trimmed names come back as
      that list: `ParseSkills` inverts joining with `,`. */
  lemma ParseSkillsJoin(names: seq<string>)
    requires |names| > 0
    requires forall k :: 0 <= k < |names| ==> ',' !in names[k]
    requires forall k :: 0 <= k < |names| ==> names[k] == [] || (!IsSpace(names[k][0]) && !IsSpace(names[k][|names[k]| - 1]))
    ensures ParseSkills(Join(names, ",")) == names
  {
    SplitJoin(names, ',');
    forall k | 0 <= k < |names| ensures Trim(names[k]) == names[k] {
      TrimTrimmed(names[k]);
    }
  }

  /** `job.years_experience || 0` */
  function YearsOrZero(v: Option<int>): (r: int)
    ensures v.None? ==> r == 0
    ensures v.Some? ==> r == v.value
  {
    match v
    case None => 0
    case Some(y) => y
  }

  /** The job handed to the scorer: title and description as listed, the
      skills split and trimmed, and the required years defaulted to 0. */
  function ToSelectedJob(job: JobListing): (r: SelectedJob)
    ensures |r.skills| == Count(job.skills, ',') + 1
    ensures r.title == job.title && r.description == job.description
    ensures r.skills == ParseSkills(job.skills)
    ensures r.yearsExperience == YearsOrZero(job.yearsExperience)
  {
    SelectedJob(job.title, job.description, ParseSkills(job.skills), YearsOrZero(job.yearsExperience))
  }

  /** `jobs.find(j => String(j.id) === selectedJobId)`: the first listed job
      with the selected id. */
  function FindJob(jobs: seq<JobListing>, id: int): (r: Option<JobListing>)
    ensures r.None? <==> forall k :: 0 <= k < |jobs| ==> jobs[k].id != id
    ensures r.Some? ==> exists k :: 0 <= k < |jobs| && jobs[k] == r.value && r.value.id == id &&
                          forall k' :: 0 <= k' < k ==> jobs[k'].id != id
  {
    if jobs == [] then None
    else if jobs[0].id == id then Some(jobs[0])
    else
      var r := FindJob(jobs[1..], id);
      if r.Some? then
        var k :| 0 <= k < |jobs[1..]| && jobs[1..][k] == r.value && r.value.id == id &&
                 forall k' :: 0 <= k' < k ==> jobs[1..][k'].id != id;
        assert jobs[k + 1] == r.value;
        r
      else r
  }

  /** `texts.map(txt => ({ resumeText: txt, selectedJob: ..., yearsOfExperience:
      extractYearsOfExperience(txt) }))`, where `scan(txt)` stands for the
      matches the seven patterns find in `txt`. */
  function BulkResults(texts: seq<string>, job: JobListing, scan: string -> seq<seq<Match>>,
                       currentYear: int): (r: seq<BulkEntry>)
    ensures |r| == |texts|
    ensures forall k :: 0 <= k < |r| ==>
              r[k].resumeText == texts[k] && r[k].selectedJob == ToSelectedJob(job) &&
              r[k].yearsOfExperience == Extracted(texts[k], scan(texts[k]), currentYear)
  {
    seq(|texts|, k requires 0 <= k < |texts| =>
      BulkEntry(texts[k], ToSelectedJob(job), Extracted(texts[k], scan(texts[k]), currentYear)))
  }

  /** Every entry of `bulkResults` can be scored: its job has at least one
      skill (splitting never yields an empty list), and its years of
      experience lie in 0..50. */
  lemma BulkResultsScorable(texts: seq<string>, job: JobListing, scan: string -> seq<seq<Match>>, currentYear: int)
    ensures forall k :: 0 <= k < |texts| ==> |BulkResults(texts, job, scan, currentYear)[k].selectedJob.skills| > 0
    ensures forall k :: 0 <= k < |texts| ==> BulkResults(texts, job, scan, currentYear)[k].yearsOfExperience <= MaxYears
  {
    forall k | 0 <= k < |texts| ensures Extracted(texts[k], scan(texts[k]), currentYear) <= MaxYears {
      ExtractedBounded(texts[k], scan(texts[k]), currentYear);
    }
  }

  function Texts(files: seq<ResumeFile>): (r: seq<string>)
    ensures |r| == |files| && forall k :: 0 <= k < |files| ==> r[k] == files[k].text
  {
    seq(|files|, k requires 0 <= k < |files| => files[k].text)
  }

  class LandingPage {
    var jobs: seq<JobListing>
    /** `None` is the "-- Choose --" option (the empty string). */
    var selectedJobId: Option<int>
    var resumeFiles: seq<ResumeFile>
    var extractedExperiences: seq<nat>
    var error: string
    var isProcessing: bool

    /** The page once the job list has loaded. */
    constructor(jobs: seq<JobListing>)
      ensures this.jobs == jobs && selectedJobId == None && resumeFiles == []
      ensures extractedExperiences == [] && error == "" && !isProcessing
    {
      this.jobs := jobs;
      selectedJobId := None;
      resumeFiles := [];
      extractedExperiences := [];
      error := "";
      isProcessing := false;
    }

    /** `handleResumeUpload`: more than 15 files is refused with an error and
        the previous selection stays; otherwise the error is cleared, the
        selection replaced and the extracted experiences reset. */
    method HandleResumeUpload(list: seq<ResumeFile>)
      modifies this
      ensures |list| > MaxFiles ==>
                error == TooManyFiles && resumeFiles == old(resumeFiles) &&
                extractedExperiences == old(extractedExperiences)
      ensures |list| <= MaxFiles ==> error == "" && resumeFiles == list && extractedExperiences == []
      ensures jobs == old(jobs) && selectedJobId == old(selectedJobId) && isProcessing == old(isProcessing)
      ensures |resumeFiles| <= MaxFiles || resumeFiles == old(resumeFiles)
    {
      if |list| > MaxFiles {
        error := TooManyFiles;
        return;
      }
      error := "";
      resumeFiles := list;
      extractedExperiences := [];
    }

    /** The job `<select>`'s `setSelectedJobId`: choosing an option (`None`
        for "-- Choose --") changes the selection and nothing else. */
    method SelectJob(id: Option<int>)
      modifies this
      ensures selectedJobId == id
      ensures jobs == old(jobs) && resumeFiles == old(resumeFiles)
      ensures extractedExperiences == old(extractedExperiences) && error == old(error) && isProcessing == old(isProcessing)
    {
      selectedJobId := id;
    }

    /** `handleSubmit`: with no job selected, reports that first; then with
        no file; then, after reading every file, with a selected id that no
        listed job has. Otherwise returns the `bulkResults` the page
        navigates to the results with. Processing is over in every case. */
    method HandleSubmit(scan: string -> seq<seq<Match>>, currentYear: int) returns (bulkResults: Option<seq<BulkEntry>>)
      modifies this
      ensures !isProcessing
      ensures jobs == old(jobs) && selectedJobId == old(selectedJobId)
      ensures resumeFiles == old(resumeFiles) && extractedExperiences == old(extractedExperiences)
      ensures old(selectedJobId).None? ==> error == NoJobSelected && bulkResults.None?
      ensures old(selectedJobId).Some? && old(resumeFiles) == [] ==> error == NoResumes && bulkResults.None?
      ensures old(selectedJobId).Some? && old(resumeFiles) != [] && FindJob(old(jobs), old(selectedJobId).value).None? ==>
                error == JobMissing && bulkResults.None?
      ensures bulkResults.Some? <==>
                old(selectedJobId).Some? && old(resumeFiles) != [] && FindJob(old(jobs), old(selectedJobId).value).Some?
      ensures bulkResults.Some? ==>
                error == "" &&
                bulkResults.value == BulkResults(Texts(old(resumeFiles)), FindJob(old(jobs), old(selectedJobId).value).value,
                                                 scan, currentYear)
    {
      error := "";
      isProcessing := true;

      if selectedJobId.None? {
        isProcessing := false;
        error := NoJobSelected;
        return None;
      }
      if |resumeFiles| == 0 {
        isProcessing := false;
        error := NoResumes;
        return None;
      }

      var texts: seq<string> := [];
      var i := 0;
      while i < |resumeFiles|
        invariant 0 <= i <= |resumeFiles|
        invariant texts == Texts(resumeFiles[..i])
      {
        texts := texts + [resumeFiles[i].text];
        i := i + 1;
      }
      assert resumeFiles[..i] == resumeFiles;

      var job := FindJob(jobs, selectedJobId.value);
      if job.None? {
        isProcessing := false;
        error := JobMissing;
        return None;
      }

      bulkResults := Some(BulkResults(texts, job.value, scan, currentYear));
      isProcessing := false;
    }
  }
}
