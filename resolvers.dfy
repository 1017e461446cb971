/**
 The server's resolver layer: three root queries and the two relationship
 resolvers between Company and Job. Each resolver is a pure function of the store
 and its one argument; none of them returns or alters a store.
 */
module Resolvers {
  import opened Db

  /** `Query.company`: point read of a company by id. */
  function QueryCompany(s: Store, id: Id): Option<Company> {
    CompaniesGet(s, id)
  }

  /** `Query.job`: point read of a job by id. */
  function QueryJob(s: Store, id: Id): Option<Job> {
    JobsGet(s, id)
  }

  /** `Query.jobs`: the store's job list. */
  function QueryJobs(s: Store): seq<Job> {
    JobsList(s)
  }

  /** `Company.jobs`: every listed job whose companyId is the company's id. */
  function CompanyJobs(s: Store, company: Company): seq<Job> {
    JobsOf(JobsList(s), company.id)
  }

  /** `Job.company`: the company the job's companyId names. */
  function JobCompany(s: Store, job: Job): Option<Company> {
    CompaniesGet(s, job.companyId)
  }

  /** `filter((job) => job.companyId === cid)` over a list of jobs. */
  function JobsOf(js: seq<Job>, cid: Id): seq<Job> {
    if js == [] then []
    else if js[0].companyId == cid then [js[0]] + JobsOf(js[1..], cid)
    else JobsOf(js[1..], cid)
  }
}
