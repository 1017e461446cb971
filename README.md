# Job-board resolver layer

A Dafny model of the server-side resolver layer of a small job-board GraphQL
service. The service exposes two entities, Company and Job. A Job refers to its
Company by `companyId`. The resolver layer answers three root queries
(`Query.company`, `Query.job`, `Query.jobs`) and two relationship fields
(`Company.jobs`, `Job.company`) by reading an entity store.

Files:

- `db.dfy` (module `Db`): the entity store as an immutable value.
  `companies` is a map from id to `Company(id, name, description)`.
  `jobs` is a sequence of `Job(id, title, description, companyId)` in creation order.
  `CompaniesGet`, `JobsGet` and `JobsList` stand for the store's `get` and `list`.
  `Valid` is the store contract the resolvers rely on: every company is stored under its own id, and job ids are unique.
  That every job's `companyId` names a stored company is not part of `Valid`, because nothing in the resolver code enforces it; the one lemma that needs it asks it of its own job only.
- `resolvers.dfy` (module `Resolvers`): one pure function per resolver, of the store and the resolver's one argument (`id`, `company` or `job`).
  The GraphQL `root`/`args` plumbing is dropped.
  `JobsOf` is the `filter` by `companyId` that `Company.jobs` applies to the job list.
- `resolver_properties.dfy` (module `ResolverProperties`): what `Company.jobs` and `Job.company` promise, and the point-lookup behaviour of the root queries.

No resolver changes the store. Every resolver is a function that takes the store as a value and returns no store, so this holds by construction. `server/resolvers.js` exports only `Query`, `Job` and `Company` (server/resolvers.js:21). `Query.jobs` is by definition the store's job list, unchanged.

## Model

| member | source | states |
|---|---|---|
| Db.FindJob | server/resolvers.js:7 | the job found has the requested id, is in the list and no earlier listed job has that id; None exactly when no listed job has that id |
| ResolverProperties.JobsOfExact | server/resolvers.js:12-13 | the filter keeps only jobs whose `companyId` is the given id, each taken from the input list |
| ResolverProperties.JobsOfCounts | server/resolvers.js:12-13 | each job occurs in the filter's output as often as in its input if its `companyId` matches, and not at all otherwise |
| ResolverProperties.JobsOfLength | server/resolvers.js:12-13 | the filter's output is no longer than its input |
| ResolverProperties.JobsOfEmbeds | server/resolvers.js:12-13 | the filter's output sits at strictly increasing positions of its input, so it keeps the input's order |
| ResolverProperties.JobsOfUniqueIds | server/resolvers.js:12-13 | if job ids are unique in the input, they are unique in the filter's output |
| ResolverProperties.CompanyJobsOnlyMatching | server/resolvers.js:11-14 | every job of `Company.jobs(c)` has `companyId == c.id` and is listed by `Query.jobs` |
| ResolverProperties.CompanyJobsComplete | server/resolvers.js:11-14 | every listed job of company `c.id` is in `Company.jobs(c)`, with its multiplicity in the list; no other job appears |
| ResolverProperties.CompanyJobsOrdered | server/resolvers.js:8-14 | `Company.jobs(c)` is a subsequence of `Query.jobs`, so creation order is kept, and it is no longer than that list |
| ResolverProperties.CompanyJobsUniqueIds | server/resolvers.js:11-14 | under the store contract, `Company.jobs(c)` lists no job id twice |
| ResolverProperties.CompanyJobsDisjoint | server/resolvers.js:11-14 | `Company.jobs` of two companies with different ids share no job |
| ResolverProperties.JobUnderOneCompany | server/resolvers.js:11-14 | a listed job is in `Company.jobs(c)` if and only if `c.id` is the job's `companyId` |
| ResolverProperties.CompanyJobsRoundTrip | server/resolvers.js:11-19 | for every job of `Company.jobs(c)`, `Job.company` gives the same answer as `Query.company(c.id)` |
| ResolverProperties.CompanyJobsInverseOfJobCompany | server/resolvers.js:11-19 | for a stored company `c`, a job is in `Company.jobs(c)` if and only if it is listed and `Job.company` resolves it to `c` |
| ResolverProperties.JobCompanyThenCompanyJobs | server/resolvers.js:11-19 | a listed job whose `companyId` names a stored company is resolved by `Job.company`, and the job is in `Company.jobs` of that company |
| ResolverProperties.QueryJobLookup | server/resolvers.js:7-8 | under the store contract, `Query.job(id)` is exactly the job of `Query.jobs` with that id; it is None exactly when no listed job has that id |
| ResolverProperties.QueryCompanyLookup | server/resolvers.js:4 | under the store contract, `Query.company(id)` is exactly the stored company whose id is `id`; it is None exactly when no stored company has that id |

## Left out

- The store module `db.js` is not part of this model. Its storage, id generation and persistence are left out. It is represented only by the `Store` value and the `Valid` contract.
- `Db.JobsGet` picks the first listed job with the id. What the real store does with duplicate ids is unknown. Under `Valid` there are no duplicates, so the choice does not matter.
- A `createJob` mutation, its authorization check and the rule that `companyId` comes from the actor are left out. The resolver module exports no `Mutation`.
- The client code in `client/src/requests.js` is left out: the bearer-token link that adds the header when `isLoggedIn()` holds (client/src/requests.js:7-17), the HTTP transport, the normalized cache, the mutation's `update` callback that writes the result under `jobQuery` and `{id: data.job.id}` (client/src/requests.js:101-107), the `no-cache` fetch policy of the jobs query (client/src/requests.js:119) and the query documents. This code is calls into Apollo (`ApolloLink`, `HttpLink`, `InMemoryCache`, `writeQuery`, `fetchPolicy`). What those calls do is defined by Apollo, which is not part of this model, so it cannot be modelled against this source.
- Asynchronous (Promise) evaluation and request ordering are left out. They are transport and concurrency concerns; the model evaluates each resolver as a pure function.
