/**
 The entity store the resolvers read from. Its implementation is not part of this
 model; it is represented by an immutable value holding the two collections, with
 the contract the resolvers rely on stated as the predicate Valid.
 */
module Db {

  /** Entity identities are opaque strings. */
  type Id = string

  datatype Option<+T> = None | Some(value: T)

  datatype Company = Company(id: Id, name: string, description: string)

  /** A job refers to its company by identity only. */
  datatype Job = Job(id: Id, title: string, description: string, companyId: Id)

  /** `companies` is addressed by id; `jobs` is kept in creation order. */
  datatype Store = Store(companies: map<Id, Company>, jobs: seq<Job>)

  /** Every company is stored under its own id. */
  ghost predicate CompaniesKeyedById(s: Store) {
    forall k | k in s.companies :: s.companies[k].id == k
  }

  /** No two jobs in the list share an id. */
  ghost predicate UniqueJobIds(js: seq<Job>) {
    forall i, k | 0 <= i < k < |js| :: js[i].id != js[k].id
  }

  /** The store contract assumed by the resolvers. */
  ghost predicate Valid(s: Store) {
    CompaniesKeyedById(s) && UniqueJobIds(s.jobs)
  }

  /** `db.companies.get(id)`: the company stored under `id`, or None. */
  function CompaniesGet(s: Store, id: Id): Option<Company> {
    if id in s.companies then Some(s.companies[id]) else None
  }

  /** `db.jobs.list()`: every job, in creation order. */
  function JobsList(s: Store): seq<Job> {
    s.jobs
  }

  /** `db.jobs.get(id)`: the job of the list that has this id, or None. */
  function JobsGet(s: Store, id: Id): Option<Job> {
    FindJob(s.jobs, id)
  }

  /** The first job of `js` whose id is `id`. */
  function FindJob(js: seq<Job>, id: Id): (r: Option<Job>)
    ensures r.Some? ==> r.value in js && r.value.id == id
    ensures r.Some? ==> exists i | 0 <= i < |js| :: js[i] == r.value && forall k | 0 <= k < i :: js[k].id != id
    ensures r.None? <==> forall k | 0 <= k < |js| :: js[k].id != id
  {
    if js == [] then None
    else if js[0].id == id then Some(js[0])
    else FindJob(js[1..], id)
  }
}
