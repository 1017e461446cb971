/**
 What the relationship resolvers promise: Company.jobs is the exact, complete,
 order-preserving selection of the job list for one company id; selections for
 different ids are disjoint; and Company.jobs and Job.company are inverse views
 of the same companyId reference.
 */
module ResolverProperties {
  import opened Db
  import opened Resolvers

  /** `idx` lists, in increasing order, positions of `b` that spell out `a`. */
  ghost predicate Embeds(idx: seq<nat>, a: seq<Job>, b: seq<Job>) {
    && |idx| == |a|
    && (forall i | 0 <= i < |idx| :: idx[i] < |b| && a[i] == b[idx[i]])
    && (forall i, k | 0 <= i < k < |idx| :: idx[i] < idx[k])
  }

  /** `a` is obtained from `b` by deleting elements, keeping the rest in order. */
  ghost predicate SubsequenceOf(a: seq<Job>, b: seq<Job>) {
    exists idx: seq<nat> :: Embeds(idx, a, b)
  }

  /** The filter keeps only jobs of company `cid`, each drawn from the input. */
  lemma {:induction false} JobsOfExact(js: seq<Job>, cid: Id)
    ensures forall j | j in JobsOf(js, cid) :: j.companyId == cid && j in js
  {
    if js != [] {
      JobsOfExact(js[1..], cid);
    }
  }

  /** The filter keeps every job of company `cid` as often as it occurs, and nothing else. */
  lemma {:induction false} JobsOfCounts(js: seq<Job>, cid: Id)
    ensures forall j :: multiset(JobsOf(js, cid))[j] ==
                        if j.companyId == cid then multiset(js)[j] else 0
  {
    if js != [] {
      JobsOfCounts(js[1..], cid);
      assert js == [js[0]] + js[1..];
    }
  }

  /** The filter never lengthens its input. */
  lemma {:induction false} JobsOfLength(js: seq<Job>, cid: Id)
    ensures |JobsOf(js, cid)| <= |js|
  {
    if js != [] {
      JobsOfLength(js[1..], cid);
    }
  }

  /** The positions of `js` the filter keeps, in increasing order. */
  lemma {:induction false} JobsOfEmbeds(js: seq<Job>, cid: Id) returns (idx: seq<nat>)
    ensures Embeds(idx, JobsOf(js, cid), js)
  {
    if js == [] {
      idx := [];
    } else {
      var rest := JobsOfEmbeds(js[1..], cid);
      var shifted := seq(|rest|, i requires 0 <= i < |rest| => rest[i] + 1);
      if js[0].companyId == cid {
        idx := [0] + shifted;
      } else {
        idx := shifted;
      }
    }
  }

  /** The filter keeps job ids unique when they were unique in its input. */
  lemma {:induction false} JobsOfUniqueIds(js: seq<Job>, cid: Id)
    requires UniqueJobIds(js)
    ensures UniqueJobIds(JobsOf(js, cid))
  {
    if js != [] {
      var t := js[1..];
      assert UniqueJobIds(t) by {
        forall i, k | 0 <= i < k < |t| ensures t[i].id != t[k].id {
          assert t[i] == js[i + 1] && t[k] == js[k + 1];
        }
      }
      JobsOfUniqueIds(t, cid);
      if js[0].companyId == cid {
        JobsOfExact(t, cid);
        var r := JobsOf(js, cid);
        forall i, k | 0 <= i < k < |r| ensures r[i].id != r[k].id {
          if i == 0 {
            assert r[k] in t;
            var m :| 0 <= m < |t| && t[m] == r[k];
            assert js[m + 1] == r[k];
          } else {
            assert r[i] == JobsOf(t, cid)[i - 1] && r[k] == JobsOf(t, cid)[k - 1];
          }
        }
      }
    }
  }

  // ---- Company.jobs ----

  /** Company.jobs returns only jobs of that company, all of them listed by Query.jobs. */
  lemma CompanyJobsOnlyMatching(s: Store, c: Company)
    ensures forall j | j in CompanyJobs(s, c) :: j.companyId == c.id && j in QueryJobs(s)
  {
    JobsOfExact(s.jobs, c.id);
  }

  /** Company.jobs drops no listed job of that company, and keeps each with its multiplicity. */
  lemma CompanyJobsComplete(s: Store, c: Company)
    ensures forall j | j in QueryJobs(s) && j.companyId == c.id :: j in CompanyJobs(s, c)
    ensures forall j :: multiset(CompanyJobs(s, c))[j] ==
                        if j.companyId == c.id then multiset(QueryJobs(s))[j] else 0
  {
    JobsOfCounts(s.jobs, c.id);
  }

  /** Company.jobs preserves the creation order of the job list and is no longer than it. */
  lemma CompanyJobsOrdered(s: Store, c: Company)
    ensures SubsequenceOf(CompanyJobs(s, c), QueryJobs(s))
    ensures |CompanyJobs(s, c)| <= |QueryJobs(s)|
  {
    var idx := JobsOfEmbeds(s.jobs, c.id);
    JobsOfLength(s.jobs, c.id);
  }

  /** Under the store contract, Company.jobs lists each job at most once. */
  lemma CompanyJobsUniqueIds(s: Store, c: Company)
    requires Valid(s)
    ensures UniqueJobIds(CompanyJobs(s, c))
  {
    JobsOfUniqueIds(s.jobs, c.id);
  }

  /** Companies with different ids have no job in common. */
  lemma CompanyJobsDisjoint(s: Store, c1: Company, c2: Company)
    requires c1.id != c2.id
    ensures forall j | j in CompanyJobs(s, c1) :: j !in CompanyJobs(s, c2)
  {
    CompanyJobsOnlyMatching(s, c1);
    CompanyJobsOnlyMatching(s, c2);
  }

  /** Each listed job appears under exactly the companies carrying its companyId. */
  lemma JobUnderOneCompany(s: Store, j: Job, c: Company)
    requires j in QueryJobs(s)
    ensures j in CompanyJobs(s, c) <==> c.id == j.companyId
  {
    CompanyJobsOnlyMatching(s, c);
    CompanyJobsComplete(s, c);
  }

  // ---- Company.jobs and Job.company ----

  /** Following Job.company from any job of Company.jobs(c) gives the company stored under c.id. */
  lemma CompanyJobsRoundTrip(s: Store, c: Company)
    ensures forall j | j in CompanyJobs(s, c) :: JobCompany(s, j) == QueryCompany(s, c.id)
  {
    CompanyJobsOnlyMatching(s, c);
  }

  /**
   For a stored company c, a job is in Company.jobs(c) exactly when it is listed
   and Job.company resolves it to c.
   */
  lemma CompanyJobsInverseOfJobCompany(s: Store, c: Company, j: Job)
    requires Valid(s)
    requires QueryCompany(s, c.id) == Some(c)
    ensures j in CompanyJobs(s, c) <==> j in QueryJobs(s) && JobCompany(s, j) == Some(c)
  {
    CompanyJobsOnlyMatching(s, c);
    CompanyJobsComplete(s, c);
  }

  /** A listed job whose companyId names a stored company belongs to Company.jobs of the company it resolves to. */
  lemma JobCompanyThenCompanyJobs(s: Store, j: Job)
    requires Valid(s) && j.companyId in s.companies
    requires j in QueryJobs(s)
    ensures JobCompany(s, j).Some?
    ensures j in CompanyJobs(s, JobCompany(s, j).value)
  {
    CompanyJobsComplete(s, JobCompany(s, j).value);
  }

  // ---- Root queries ----

  /** Query.job yields the listed job with that id, or None exactly when no listed job has it. */
  lemma QueryJobLookup(s: Store, id: Id, j: Job)
    requires Valid(s)
    ensures QueryJob(s, id) == Some(j) <==> j in QueryJobs(s) && j.id == id
    ensures QueryJob(s, id) == None <==> forall k | k in QueryJobs(s) :: k.id != id
  {
    if j in s.jobs && j.id == id {
      var b :| 0 <= b < |s.jobs| && s.jobs[b] == j;
      var r := QueryJob(s, id);
      assert r.Some?;
      var a :| 0 <= a < |s.jobs| && s.jobs[a] == r.value;
      assert a == b;
    }
  }

  /** Query.company yields the stored company with that id, or None exactly when no stored company has it. */
  lemma QueryCompanyLookup(s: Store, id: Id, c: Company)
    requires Valid(s)
    ensures QueryCompany(s, id) == Some(c) <==> c in s.companies.Values && c.id == id
    ensures QueryCompany(s, id) == None <==> forall k | k in s.companies.Values :: k.id != id
  {
    if c in s.companies.Values && c.id == id {
      var key :| key in s.companies && s.companies[key] == c;
    }
    if QueryCompany(s, id) == None {
      forall k | k in s.companies.Values ensures k.id != id {
        var key :| key in s.companies && s.companies[key] == k;
      }
    } else {
      assert s.companies[id] in s.companies.Values;
    }
  }
}
