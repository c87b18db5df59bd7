/** The job scheduler as the reminder code sees it: a finite map from job id to the
    daily cron job registered under it. Every job calls the same reminder callback, in
    the same fixed timezone, so a job is its time of day and the callback's arguments. */
module Scheduler {

  type JobId = string

  /** A cron job firing every day at `hour:minute`, calling the reminder callback with
      the chat to notify, the user key and the reminder name. */
  datatype Job = Job(hour: int, minute: int, chatId: int, userId: string, name: string)

  type Jobs = map<JobId, Job>

  /** `add_job(..., id=id)`: register `job` under `id`. */
  function AddJob(jobs: Jobs, id: JobId, job: Job): (r: Jobs)
    ensures r.Keys == jobs.Keys + {id}
    ensures r[id] == job
    ensures forall other :: other in jobs && other != id ==> r[other] == jobs[other]
  {
    jobs[id := job]
  }

  /** `remove_job(id)`: unregister the job under `id`; every other job stays. */
  function RemoveJob(jobs: Jobs, id: JobId): (r: Jobs)
    ensures r.Keys == jobs.Keys - {id}
    ensures forall other :: other in r ==> r[other] == jobs[other]
  {
    jobs - {id}
  }
}
