/** The job table kept by the backend (backend.py): a list of jobs in a JSON
    file, read and rewritten by the `/jobs`, `/add_job`, `/update_job` and
    `/delete_job` handlers. The file becomes an object holding whether the
    file exists and the list it contains; each handler becomes a method
    returning the HTTP status it sends. */
module JobStore {
  import opened Strings

  datatype Job = Job(id: int, title: string, skills: string, description: string, yearsExperience: int)

  /** The JSON body of an add or update request: each of the four fields may
      be missing. `years_experience` is given after `int(...)`. */
  datatype JobData = JobData(title: Option<string>, skills: Option<string>,
                             description: Option<string>, yearsExperience: Option<int>)

  const Ok := 200
  const BadRequest := 400
  const NotFound := 404
  const ServerError := 500

  /** `all(field in data for field in required_fields)` */
  predicate Complete(data: JobData) {
    data.title.Some? && data.skills.Some? && data.description.Some? && data.yearsExperience.Some?
  }

  /** The job `data` describes, under the id `id`. */
  function WithFields(id: int, data: JobData): (j: Job)
    requires Complete(data)
    ensures j.id == id
    ensures j.title == data.title.value && j.skills == data.skills.value
    ensures j.description == data.description.value && j.yearsExperience == data.yearsExperience.value
  {
    Job(id, data.title.value, data.skills.value, data.description.value, data.yearsExperience.value)
  }

  predicate HasId(jobs: seq<Job>, id: int) {
    exists k :: 0 <= k < |jobs| && jobs[k].id == id
  }

  /** `max([j["id"] for j in jobs], default=0) + 1` */
  function NextId(jobs: seq<Job>): (r: int)
    ensures forall k :: 0 <= k < |jobs| ==> jobs[k].id < r
    ensures jobs == [] ==> r == 1
    ensures jobs != [] ==> exists k :: 0 <= k < |jobs| && jobs[k].id == r - 1
  {
    if jobs == [] then 1
    else
      var rest := NextId(jobs[..|jobs| - 1]);
      var last := jobs[|jobs| - 1].id;
      assert forall k :: 0 <= k < |jobs| - 1 ==> jobs[k] == jobs[..|jobs| - 1][k];
      if |jobs| == 1 || last + 1 > rest then last + 1 else rest
  }

  predicate UniqueIds(jobs: seq<Job>) {
    forall i, j :: 0 <= i < j < |jobs| ==> jobs[i].id != jobs[j].id
  }

  /** The position of the first job with the id, as the `for ... break` scan finds it. */
  function FirstWithId(jobs: seq<Job>, id: int): (r: Option<nat>)
    ensures r.None? <==> !HasId(jobs, id)
    ensures r.Some? ==> r.value < |jobs| && jobs[r.value].id == id &&
                        forall k :: 0 <= k < r.value ==> jobs[k].id != id
  {
    if jobs == [] then None
    else if jobs[0].id == id then Some(0)
    else
      match FirstWithId(jobs[1..], id)
      case None => None
      case Some(k) => Some(k + 1)
  }

  /** `[job for job in jobs if job["id"] != job_id]` */
  function WithoutId(jobs: seq<Job>, id: int): (r: seq<Job>)
    ensures |r| <= |jobs|
    ensures HasId(jobs, id) ==> |r| < |jobs|
  {
    if jobs == [] then []
    else
      assert HasId(jobs, id) && jobs[0].id != id ==> HasId(jobs[1..], id) by {
        if HasId(jobs, id) && jobs[0].id != id {
          var k :| 0 <= k < |jobs| && jobs[k].id == id;
          assert jobs[1..][k - 1] == jobs[k];
        }
      }
      (if jobs[0].id != id then [jobs[0]] else []) + WithoutId(jobs[1..], id)
  }

  class JobStore {
    /** Whether `jobs.json` exists. */
    var present: bool
    /** The list the file holds (meaningless while it does not exist). */
    var jobs: seq<Job>

    constructor(present: bool, jobs: seq<Job>)
      ensures this.present == present && this.jobs == jobs
    {
      this.present := present;
      this.jobs := jobs;
    }

    /** The list a handler reads: a missing file is created empty first. */
    function Current(): seq<Job>
      reads this
    {
      if present then jobs else []
    }

    /** `GET /jobs`: creates an empty file when there is none, then returns
        the list. */
    method Get() returns (code: int, listed: seq<Job>)
      modifies this
      ensures code == Ok && present
      ensures jobs == old(Current()) && listed == jobs
      ensures !old(present) ==> listed == []
    {
      if !present {
        present := true;
        jobs := [];
      }
      code, listed := Ok, jobs;
    }

    /** `POST /add_job`: with all four fields, appends a job whose id is one
        more than the largest id (1 in an empty list) and returns it. */
    method Add(data: JobData) returns (code: int, created: Option<Job>)
      modifies this
      ensures !Complete(data) ==> code == BadRequest && created == None && unchanged(this)
      ensures Complete(data) ==>
                (code == Ok && present &&
                 created == Some(WithFields(NextId(old(Current())), data)) &&
                 jobs == old(Current()) + [created.value])
    {
      if !Complete(data) {
        return BadRequest, None;
      }
      if !present {
        present := true;
        jobs := [];
      }
      var newJob := Job(NextId(jobs), data.title.value, data.skills.value,
                        data.description.value, data.yearsExperience.value);
      jobs := jobs + [newJob];
      return Ok, Some(newJob);
    }

    /** `PUT /update_job?id=...`: overwrites the four fields of the first job
        with the id; the file is left alone on any error. */
    method Update(id: Option<int>, data: JobData) returns (code: int)
      modifies this
      ensures id.None? ==> code == BadRequest
      ensures id.Some? && !Complete(data) ==> code == BadRequest
      ensures id.Some? && Complete(data) && !old(present) ==> code == ServerError
      ensures id.Some? && Complete(data) && old(present) && !HasId(old(jobs), id.value) ==> code == NotFound
      ensures code != Ok ==> unchanged(this)
      ensures code == Ok <==> id.Some? && Complete(data) && old(present) && HasId(old(jobs), id.value)
      ensures code == Ok ==>
                (present && jobs == old(jobs)[FirstWithId(old(jobs), id.value).value := WithFields(id.value, data)])
    {
      if id.None? {
        return BadRequest;
      }
      var jobId := id.value;
      if !Complete(data) {
        return BadRequest;
      }
      if !present {
        return ServerError;
      }
      var updated := false;
      var i := 0;
      while i < |jobs|
        invariant 0 <= i <= |jobs|
        invariant !updated && jobs == old(jobs) && present == old(present)
        invariant forall k :: 0 <= k < i ==> jobs[k].id != jobId
      {
        if jobs[i].id == jobId {
          jobs := jobs[i := Job(jobId, data.title.value, data.skills.value,
                                data.description.value, data.yearsExperience.value)];
          updated := true;
          break;
        }
        i := i + 1;
      }
      if !updated {
        return NotFound;
      }
      return Ok;
    }

    /** `DELETE /delete_job?id=...`: drops every job with the id, keeping the
        others in order; an absent id still succeeds. */
    method Delete(id: Option<int>) returns (code: int)
      modifies this
      ensures id.None? ==> code == BadRequest && unchanged(this)
      ensures id.Some? && !old(present) ==> code == ServerError && unchanged(this)
      ensures id.Some? && old(present) ==> code == Ok && present && jobs == WithoutId(old(jobs), id.value)
    {
      if id.None? {
        return BadRequest;
      }
      if !present {
        return ServerError;
      }
      jobs := WithoutId(jobs, id.value);
      return Ok;
    }
  }

  // ---------------------------------------------------------------------------
  // Properties of the table

  /** The new id is larger than every id, so appending keeps ids unique. */
  lemma AddKeepsIdsUnique(jobs: seq<Job>, data: JobData)
    requires Complete(data) && UniqueIds(jobs)
    ensures UniqueIds(jobs + [WithFields(NextId(jobs), data)])
  {
    var r := jobs + [WithFields(NextId(jobs), data)];
    forall i, j | 0 <= i < j < |r| ensures r[i].id != r[j].id {
      if j == |jobs| {
        assert r[i] == jobs[i];
      } else {
        assert r[i] == jobs[i] && r[j] == jobs[j];
      }
    }
  }

  /** An update keeps every id in place, so ids stay unique; only the first
      job with the id changes. */
  lemma UpdateKeepsIds(jobs: seq<Job>, id: int, data: JobData)
    requires Complete(data) && HasId(jobs, id)
    ensures var r := jobs[FirstWithId(jobs, id).value := WithFields(id, data)];
            |r| == |jobs| &&
            (forall k :: 0 <= k < |r| ==> r[k].id == jobs[k].id) &&
            (forall k :: 0 <= k < |r| && k != FirstWithId(jobs, id).value ==> r[k] == jobs[k]) &&
            (UniqueIds(jobs) ==> UniqueIds(r))
  {
  }

  /** A delete keeps exactly the jobs whose id differs. */
  lemma {:induction false} DeleteMembers(jobs: seq<Job>, id: int, j: Job)
    ensures j in WithoutId(jobs, id) <==> j in jobs && j.id != id
  {
    if jobs != [] {
      DeleteMembers(jobs[1..], id, j);
      assert jobs == [jobs[0]] + jobs[1..];
    }
  }

  /** After a delete no job with the id is left. */
  lemma DeleteRemovesId(jobs: seq<Job>, id: int)
    ensures !HasId(WithoutId(jobs, id), id)
  {
    var r := WithoutId(jobs, id);
    forall k | 0 <= k < |r| ensures r[k].id != id {
      DeleteMembers(jobs, id, r[k]);
    }
  }

  /** Deleting keeps ids unique. */
  lemma {:induction false} DeleteKeepsIdsUnique(jobs: seq<Job>, id: int)
    requires UniqueIds(jobs)
    ensures UniqueIds(WithoutId(jobs, id))
  {
    if jobs != [] {
      DeleteKeepsIdsUnique(jobs[1..], id);
      var rest := WithoutId(jobs[1..], id);
      if jobs[0].id != id {
        var r := [jobs[0]] + rest;
        forall j | 0 < j < |r| ensures r[0].id != r[j].id {
          assert r[j] in rest;
          DeleteMembers(jobs[1..], id, r[j]);
          var k :| 0 <= k < |jobs[1..]| && jobs[1..][k] == r[j];
          assert jobs[k + 1] == r[j];
        }
        assert forall i, j :: 0 < i < j < |r| ==> r[i] == rest[i - 1] && r[j] == rest[j - 1];
      }
    }
  }

  /** Deleting an id no job has leaves the list as it was. */
  lemma {:induction false} DeleteAbsentId(jobs: seq<Job>, id: int)
    requires !HasId(jobs, id)
    ensures WithoutId(jobs, id) == jobs
  {
    if jobs != [] {
      assert jobs[0].id != id;
      assert !HasId(jobs[1..], id) by {
        forall k | 0 <= k < |jobs| - 1 ensures jobs[1..][k].id != id {
          assert jobs[1..][k] == jobs[k + 1];
        }
      }
      DeleteAbsentId(jobs[1..], id);
    }
  }

  /** Deleting works job by job, so the remaining jobs keep their original
      order: deleting from a concatenation concatenates the results. */
  lemma {:induction false} DeleteKeepsOrder(a: seq<Job>, b: seq<Job>, id: int)
    ensures WithoutId(a + b, id) == WithoutId(a, id) + WithoutId(b, id)
  {
    if a != [] {
      DeleteKeepsOrder(a[1..], b, id);
      assert (a + b)[1..] == a[1..] + b;
      var head := if a[0].id != id then [a[0]] else [];
      assert WithoutId(a + b, id) == head + WithoutId(a[1..] + b, id);
      assert WithoutId(a, id) == head + WithoutId(a[1..], id);
    } else {
      assert a + b == b;
    }
  }
}
