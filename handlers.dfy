/**
 * The HTTP handlers and background jobs of the backend (backend/handlers/url_handler.go).
 *
 * The handlers work on the record store and on the `jobs` registry, which maps a
 * record id to the cancel function of the job analysing it. A cancel function is
 * modelled by its context: contexts are numbered as they are created, and `cancelled`
 * holds the numbers of the contexts whose cancel function has been called. Each
 * `go func()` becomes a `Worker` that runs in two explicit steps: marking its record
 * as running, and recording the outcome of the crawl. The crawl's result and error
 * are inputs of the second step; the crawler itself is modelled in `Crawler`.
 *
 * `State` and the functions on it specify every handler and step; the `Server`
 * class holds the same state in fields and performs the same steps imperatively.
 */
module Handlers {
  import opened Wrappers
  import opened Models
  import opened Storage

  type Ctx = nat

  datatype Phase = Spawned | Crawling

  /** A background job: the record it analyses and how far it has come. */
  datatype Worker = Worker(id: string, url: string, phase: Phase)

  datatype Body =
    | Record(info: UrlInfo)
    | Records(infos: seq<UrlInfo>)
    | ErrorBody(error: string)
    | StatusBody(status: string)
    | NoBody

  datatype Response = Response(code: int, body: Body)

  const StatusOK := 200
  const StatusAccepted := 202
  const StatusNoContent := 204
  const StatusBadRequest := 400
  const StatusNotFound := 404

  const NotFoundResponse := Response(StatusNotFound, ErrorBody("not found"))
  const InvalidInputResponse := Response(StatusBadRequest, ErrorBody("invalid input"))
  const NotRunningResponse := Response(StatusBadRequest, ErrorBody("not running"))
  const StoppedResponse := Response(StatusOK, StatusBody("stopped"))

  datatype State = State(
    rows: Table,
    jobs: map<string, Ctx>,
    cancelled: set<Ctx>,
    workers: map<Ctx, Worker>,
    nextCtx: Ctx)

  /** What the handlers maintain: rows are keyed by id, every registered job is a live
      worker for that id whose context has not been cancelled, and contexts not yet
      created belong to nobody. */
  predicate Inv(s: State) {
    && WellKeyed(s.rows)
    && (forall id :: id in s.jobs ==>
          s.jobs[id] in s.workers && s.workers[s.jobs[id]].id == id && s.jobs[id] !in s.cancelled)
    && (forall c :: c in s.workers ==> c < s.nextCtx)
    && (forall c :: c in s.cancelled ==> c < s.nextCtx)
  }

  /** The state before any request: the rows the database file already holds, and
      no jobs, since the registry lives in memory only. */
  function Initial(persisted: Table): (s: State)
    requires WellKeyed(persisted)
    ensures Inv(s)
    ensures s.rows == persisted && s.jobs == map[] && s.workers == map[] && s.cancelled == {}
  {
    State(persisted, map[], {}, map[], 0)
  }

  /** After a restart, a row left `running` (or `queued`) has no job: Stop answers
      "not running" and the row stays as it was. */
  lemma OrphanRowAfterRestart(persisted: Table, id: string)
    requires WellKeyed(persisted) && id in persisted
    ensures Stop(Initial(persisted), id) == (Initial(persisted), NotRunningResponse)
    ensures Stop(Initial(persisted), id).0.rows[id].status == persisted[id].status
  {
  }

  /** `cancel()` for the job registered under `id`, if there is one, and `delete(jobs, id)`. */
  function CancelJob(s: State, id: string): (r: State)
    ensures id !in r.jobs
    ensures forall other :: other != id && other in s.jobs ==> other in r.jobs && r.jobs[other] == s.jobs[other]
    ensures forall other :: other in r.jobs ==> other in s.jobs
    ensures r.cancelled == s.cancelled + (if id in s.jobs then {s.jobs[id]} else {})
    ensures r.rows == s.rows && r.workers == s.workers && r.nextCtx == s.nextCtx
    ensures Inv(s) ==> Inv(r)
  {
    if id in s.jobs then s.(jobs := s.jobs - {id}, cancelled := s.cancelled + {s.jobs[id]}) else s
  }

  /** `context.WithCancel`, `jobs[id] = cancel` and `go func()` for a job on `url`. */
  function SpawnJob(s: State, id: string, url: string): (r: State)
    ensures Inv(s) ==> s.nextCtx !in s.workers && s.nextCtx !in s.cancelled
    ensures id in r.jobs && r.jobs[id] in r.workers && r.workers[r.jobs[id]] == Worker(id, url, Spawned)
    ensures forall other :: other != id && other in s.jobs ==> other in r.jobs && r.jobs[other] == s.jobs[other]
    ensures Inv(s) && WellKeyed(r.rows) ==> Inv(r)
    ensures r.rows == s.rows && r.cancelled == s.cancelled
  {
    s.(jobs := s.jobs[id := s.nextCtx],
       workers := s.workers[s.nextCtx := Worker(id, url, Spawned)],
       nextCtx := s.nextCtx + 1)
  }

  /** `GetURLByID`. */
  function Lookup(s: State, id: string): (resp: Response)
    ensures resp.code == StatusNotFound <==> id !in s.rows
    ensures id in s.rows ==> resp == Response(StatusOK, Record(s.rows[id]))
  {
    if id in s.rows then Response(StatusOK, Record(s.rows[id])) else NotFoundResponse
  }

  /** `PostURL`; `payload` is `None` when the body does not bind, and `freshId` is the
      new uuid. */
  function Post(s: State, payload: Option<string>, freshId: string): (r: (State, Response))
    ensures payload.None? || payload.value == "" ==> r == (s, InvalidInputResponse)
    ensures payload.Some? && payload.value != "" ==>
      var queued := Placeholder(freshId, payload.value, Queued);
      && r.1 == Response(StatusAccepted, Record(queued))
      && r.0.rows == Upsert(s.rows, queued)
      && r.0.jobs == s.jobs[freshId := s.nextCtx]
      && r.0.workers == s.workers[s.nextCtx := Worker(freshId, payload.value, Spawned)]
      && r.0.cancelled == s.cancelled
      && r.0.nextCtx == s.nextCtx + 1
  {
    if payload.None? || payload.value == "" then (s, InvalidInputResponse)
    else
      var queued := Placeholder(freshId, payload.value, Queued);
      (SpawnJob(s.(rows := Upsert(s.rows, queued)), freshId, payload.value),
       Response(StatusAccepted, Record(queued)))
  }

  /** `DeleteURL`: stops the record's job, then deletes the row. */
  function Delete(s: State, id: string): (r: (State, Response))
    ensures r.1 == if id in s.rows then Response(StatusNoContent, NoBody) else NotFoundResponse
    ensures r.0.rows == DeleteWhere(s.rows, id) && id !in r.0.rows
    ensures id !in r.0.jobs
    ensures id in s.jobs ==> s.jobs[id] in r.0.cancelled
    ensures r.0.cancelled == s.cancelled + (if id in s.jobs then {s.jobs[id]} else {})
    ensures forall other :: other != id && other in s.jobs ==> other in r.0.jobs && r.0.jobs[other] == s.jobs[other]
    ensures forall other :: other in r.0.jobs ==> other in s.jobs
    ensures r.0.workers == s.workers && r.0.nextCtx == s.nextCtx
  {
    var t := CancelJob(s, id);
    (t.(rows := DeleteWhere(t.rows, id)),
     if id in s.rows then Response(StatusNoContent, NoBody) else NotFoundResponse)
  }

  /** `ReanalyzeURL`: a known record gets a new job, and its row is reset to a queued
      placeholder for the same url. */
  function Reanalyze(s: State, id: string): (r: (State, Response))
    ensures id !in s.rows ==> r == (s, NotFoundResponse)
    ensures id in s.rows ==>
      var queued := Placeholder(id, s.rows[id].url, Queued);
      && r.1 == Response(StatusOK, Record(queued))
      && r.0.rows == s.rows[id := queued]
      && (id in s.jobs ==> s.jobs[id] in r.0.cancelled)
      && id in r.0.jobs && r.0.jobs[id] == s.nextCtx
      && (forall other :: other != id && other in s.jobs ==> other in r.0.jobs && r.0.jobs[other] == s.jobs[other])
      && (forall other :: other != id && other in r.0.jobs ==> other in s.jobs)
      && r.0.cancelled == s.cancelled + (if id in s.jobs then {s.jobs[id]} else {})
      && r.0.workers == s.workers[s.nextCtx := Worker(id, s.rows[id].url, Spawned)]
      && r.0.nextCtx == s.nextCtx + 1
  {
    if id !in s.rows then (s, NotFoundResponse)
    else
      var existing := s.rows[id];
      var queued := Placeholder(id, existing.url, Queued);
      var t := SpawnJob(CancelJob(s, id), id, existing.url);
      (t.(rows := UpdateWhere(t.rows, id, queued)), Response(StatusOK, Record(queued)))
  }

  /** `StopURL`: cancels a registered job and marks its record stopped, keeping the
      record's other fields. */
  function Stop(s: State, id: string): (r: (State, Response))
    ensures id !in s.jobs ==> r == (s, NotRunningResponse)
    ensures id in s.jobs ==>
      && r.1 == StoppedResponse
      && s.jobs[id] in r.0.cancelled && id !in r.0.jobs
      && r.0.rows.Keys == s.rows.Keys
      && (id in s.rows ==> r.0.rows[id] == s.rows[id].(id := id, status := Stopped))
      && (forall other :: other in s.rows && other != id ==> r.0.rows[other] == s.rows[other])
      && (forall other :: other != id && other in s.jobs ==> other in r.0.jobs && r.0.jobs[other] == s.jobs[other])
      && (forall other :: other in r.0.jobs ==> other in s.jobs)
      && r.0.cancelled == s.cancelled + {s.jobs[id]}
      && r.0.workers == s.workers && r.0.nextCtx == s.nextCtx
  {
    if id !in s.jobs then (s, NotRunningResponse)
    else
      var t := CancelJob(s, id);
      var rows := if id in t.rows then UpdateWhere(t.rows, id, t.rows[id].(status := Stopped)) else t.rows;
      (t.(rows := rows), StoppedResponse)
  }

  /** The first step of a job: `storage.UpdateURL(id, runningInfo)`. */
  function MarkRunning(s: State, ctx: Ctx): (t: State)
    requires ctx in s.workers && s.workers[ctx].phase == Spawned
    ensures t.rows == UpdateWhere(s.rows, s.workers[ctx].id,
                                  Placeholder(s.workers[ctx].id, s.workers[ctx].url, Running))
    ensures ctx in t.workers && t.workers[ctx].phase == Crawling
    ensures t.jobs == s.jobs && t.cancelled == s.cancelled
  {
    var w := s.workers[ctx];
    s.(rows := UpdateWhere(s.rows, w.id, Placeholder(w.id, w.url, Running)),
       workers := s.workers[ctx := w.(phase := Crawling)])
  }

  /** The status a finished job records: `done` without an error; with an error,
      `stopped` when its context was cancelled and `error` otherwise. */
  function CompletionStatus(failed: bool, cancelled: bool): (status: string)
    ensures status == Done <==> !failed
    ensures status == Stopped <==> failed && cancelled
    ensures status == Failed <==> failed && !cancelled
  {
    if !failed then Done else if cancelled then Stopped else Failed
  }

  /** The second step of a job: record the outcome and `delete(jobs, id)`. The
      registry entry is removed by id, whichever job it belongs to by then. */
  function Finish(s: State, ctx: Ctx, result: UrlInfo, failed: bool): (t: State)
    requires ctx in s.workers && s.workers[ctx].phase == Crawling
    ensures var id := s.workers[ctx].id;
      && t.rows == UpdateWhere(s.rows, id, result.(id := id, status := CompletionStatus(failed, ctx in s.cancelled)))
      && t.jobs == s.jobs - {id}
      && ctx !in t.workers
  {
    var w := s.workers[ctx];
    var outcome := result.(id := w.id, status := CompletionStatus(failed, ctx in s.cancelled));
    s.(rows := UpdateWhere(s.rows, w.id, outcome),
       jobs := s.jobs - {w.id},
       workers := s.workers - {ctx})
  }

  // ---------------------------------------------------------------- invariants

  lemma {:induction false} PostPreservesInv(s: State, payload: Option<string>, freshId: string)
    requires Inv(s)
    ensures Inv(Post(s, payload, freshId).0)
  {
    if payload.Some? && payload.value != "" {
      var t := Post(s, payload, freshId).0;
      forall id | id in t.jobs
        ensures t.jobs[id] in t.workers && t.workers[t.jobs[id]].id == id && t.jobs[id] !in t.cancelled
      {
        if id != freshId {
          assert t.jobs[id] == s.jobs[id] && s.jobs[id] < s.nextCtx;
        }
      }
    }
  }

  lemma DeletePreservesInv(s: State, id: string)
    requires Inv(s)
    ensures Inv(Delete(s, id).0)
  {
  }

  lemma {:induction false} ReanalyzePreservesInv(s: State, id: string)
    requires Inv(s)
    ensures Inv(Reanalyze(s, id).0)
  {
    if id in s.rows {
      var c := CancelJob(s, id);
      var t := Reanalyze(s, id).0;
      forall other | other in t.jobs
        ensures t.jobs[other] in t.workers && t.workers[t.jobs[other]].id == other && t.jobs[other] !in t.cancelled
      {
        if other != id {
          assert t.jobs[other] == s.jobs[other] && s.jobs[other] < s.nextCtx;
        }
      }
    }
  }

  lemma StopPreservesInv(s: State, id: string)
    requires Inv(s)
    ensures Inv(Stop(s, id).0)
  {
  }

  lemma MarkRunningPreservesInv(s: State, ctx: Ctx)
    requires Inv(s) && ctx in s.workers && s.workers[ctx].phase == Spawned
    ensures Inv(MarkRunning(s, ctx))
  {
  }

  lemma FinishPreservesInv(s: State, ctx: Ctx, result: UrlInfo, failed: bool)
    requires Inv(s) && ctx in s.workers && s.workers[ctx].phase == Crawling
    ensures Inv(Finish(s, ctx, result, failed))
  {
  }

  // ---------------------------------------------------------------- job outcomes

  /** A job that runs undisturbed records `done` or `error` along with the crawl's
      fields, under its record's id. */
  lemma UndisturbedJob(s: State, payload: string, freshId: string, result: UrlInfo, failed: bool)
    requires Inv(s) && payload != ""
    ensures var posted := Post(s, Some(payload), freshId).0;
      var ctx := posted.jobs[freshId];
      var running := MarkRunning(posted, ctx);
      var done := Finish(running, ctx, result, failed);
      && running.rows[freshId] == Placeholder(freshId, payload, Running)
      && done.rows[freshId] == result.(id := freshId, status := if failed then Failed else Done)
      && freshId !in done.jobs
  {
    var posted := Post(s, Some(payload), freshId).0;
    PostPreservesInv(s, Some(payload), freshId);
    var ctx := posted.jobs[freshId];
    assert ctx !in posted.cancelled;
  }

  /** A job whose record was deleted cannot bring the record back when it finishes. */
  lemma FinishAfterDelete(s: State, ctx: Ctx, result: UrlInfo, failed: bool)
    requires ctx in s.workers && s.workers[ctx].phase == Crawling
    ensures var id := s.workers[ctx].id;
      var deleted := Delete(s, id).0;
      id !in Finish(deleted, ctx, result, failed).rows
  {
  }

  /** Stopping a running job and then seeing it fail records `stopped`; if the crawl
      returns without an error after the stop, the record ends up `done`. */
  lemma FinishAfterStop(s: State, id: string, result: UrlInfo, failed: bool)
    requires Inv(s) && id in s.jobs && id in s.rows
    requires s.workers[s.jobs[id]].phase == Crawling
    ensures var ctx := s.jobs[id];
      var stopped := Stop(s, id).0;
      && stopped.rows[id].status == Stopped
      && Finish(stopped, ctx, result, failed).rows[id].status == if failed then Stopped else Done
  {
  }

  /** A reanalysis cancels the previous job, so that job's failure records `stopped`. */
  lemma OldJobAfterReanalyze(s: State, id: string, result: UrlInfo)
    requires Inv(s) && id in s.jobs && id in s.rows
    requires s.workers[s.jobs[id]].phase == Crawling
    ensures var previous := s.jobs[id];
      var t := Reanalyze(s, id).0;
      && previous in t.workers && previous in t.cancelled
      && Finish(t, previous, result, true).rows[id].status == Stopped
      && id !in Finish(t, previous, result, true).jobs
  {
    var t := Reanalyze(s, id).0;
    assert s.jobs[id] < s.nextCtx;
  }

  // ---------------------------------------------------------------- the server

  class Server {
    var store: Store
    var jobs: map<string, Ctx>
    var cancelled: set<Ctx>
    var workers: map<Ctx, Worker>
    var nextCtx: Ctx

    ghost function Current(): State
      reads this, store
    {
      State(store.rows, jobs, cancelled, workers, nextCtx)
    }

    ghost predicate Valid()
      reads this, store
    {
      Inv(Current())
    }

    /** `InitDB` on the database file's rows `persisted`, and the empty registry. */
    constructor (persisted: Table)
      requires WellKeyed(persisted)
      ensures Valid() && fresh(store)
      ensures Current() == Initial(persisted)
    {
      store := new Store(persisted);
      jobs := map[];
      cancelled := {};
      workers := map[];
      nextCtx := 0;
    }

    method NewJob(id: string, url: string)
      modifies this
      ensures store == old(store)
      ensures Current() == SpawnJob(old(Current()), id, url)
    {
      jobs := jobs[id := nextCtx];
      workers := workers[nextCtx := Worker(id, url, Spawned)];
      nextCtx := nextCtx + 1;
    }

    method Cancel(id: string)
      modifies this
      ensures store == old(store)
      ensures Current() == CancelJob(old(Current()), id)
    {
      if id in jobs {
        cancelled := cancelled + {jobs[id]};
        jobs := jobs - {id};
      }
    }

    /** `GetAllURLs`: every stored record once, with status 200. */
    method GetAllURLs() returns (resp: Response)
      requires Valid()
      ensures resp.code == StatusOK && resp.body.Records?
      ensures |resp.body.infos| == |store.rows|
      ensures forall k :: k in store.rows ==> store.rows[k] in resp.body.infos
      ensures forall info :: info in resp.body.infos ==> info.id in store.rows && store.rows[info.id] == info
    {
      var all := store.GetAllURLs();
      resp := Response(StatusOK, Records(all));
    }

    /** `GetURLByID`. */
    method GetURLByID(id: string) returns (resp: Response)
      ensures resp == Lookup(Current(), id)
    {
      var info, found := store.GetURLByID(id);
      if !found {
        return NotFoundResponse;
      }
      resp := Response(StatusOK, Record(info));
    }

    method PostURL(payload: Option<string>, freshId: string) returns (resp: Response)
      requires Valid()
      modifies this, store
      ensures Valid() && store == old(store)
      ensures (Current(), resp) == Post(old(Current()), payload, freshId)
    {
      PostPreservesInv(Current(), payload, freshId);
      if payload.None? || payload.value == "" {
        return InvalidInputResponse;
      }
      var queued := Placeholder(freshId, payload.value, Queued);
      store.SaveURL(queued);
      NewJob(freshId, payload.value);
      resp := Response(StatusAccepted, Record(queued));
    }

    method DeleteURL(id: string) returns (resp: Response)
      requires Valid()
      modifies this, store
      ensures Valid() && store == old(store)
      ensures (Current(), resp) == Delete(old(Current()), id)
    {
      DeletePreservesInv(Current(), id);
      Cancel(id);
      var success := store.DeleteURL(id);
      resp := if success then Response(StatusNoContent, NoBody) else NotFoundResponse;
    }

    method ReanalyzeURL(id: string) returns (resp: Response)
      requires Valid()
      modifies this, store
      ensures Valid() && store == old(store)
      ensures (Current(), resp) == Reanalyze(old(Current()), id)
    {
      ReanalyzePreservesInv(Current(), id);
      var existing, found := store.GetURLByID(id);
      if !found {
        return NotFoundResponse;
      }
      Cancel(id);
      NewJob(id, existing.url);
      var queued := Placeholder(id, existing.url, Queued);
      var _ := store.UpdateURL(id, queued);
      resp := Response(StatusOK, Record(queued));
    }

    method StopURL(id: string) returns (resp: Response)
      requires Valid()
      modifies this, store
      ensures Valid() && store == old(store)
      ensures (Current(), resp) == Stop(old(Current()), id)
    {
      StopPreservesInv(Current(), id);
      if id !in jobs {
        return NotRunningResponse;
      }
      var ctx := jobs[id];
      cancelled := cancelled + {ctx};
      var info, found := store.GetURLByID(id);
      if found {
        var _ := store.UpdateURL(id, info.(status := Stopped));
      }
      jobs := jobs - {id};
      resp := StoppedResponse;
    }

    /** The job with context `ctx` marks its record running. */
    method RunJob(ctx: Ctx)
      requires Valid() && ctx in workers && workers[ctx].phase == Spawned
      modifies this, store
      ensures Valid() && store == old(store)
      ensures Current() == MarkRunning(old(Current()), ctx)
    {
      MarkRunningPreservesInv(Current(), ctx);
      var w := workers[ctx];
      var _ := store.UpdateURL(w.id, Placeholder(w.id, w.url, Running));
      workers := workers[ctx := w.(phase := Crawling)];
    }

    /** The job with context `ctx` records the crawl's `result` and whether it failed. */
    method FinishJob(ctx: Ctx, result: UrlInfo, failed: bool)
      requires Valid() && ctx in workers && workers[ctx].phase == Crawling
      modifies this, store
      ensures Valid() && store == old(store)
      ensures Current() == Finish(old(Current()), ctx, result, failed)
    {
      FinishPreservesInv(Current(), ctx, result, failed);
      var w := workers[ctx];
      var status := CompletionStatus(failed, ctx in cancelled);
      var _ := store.UpdateURL(w.id, result.(id := w.id, status := status));
      jobs := jobs - {w.id};
      workers := workers - {ctx};
    }
  }
}
