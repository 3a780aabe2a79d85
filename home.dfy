/**
 * The home page's record list (frontend/src/pages/Home.tsx): the list loaded once
 * at mount, the append after a successful create, and one tick of the per-record
 * poller that replaces the record by id and stops at a terminal status.
 *
 * The HTTP calls and the timer are not modelled: each operation receives what the
 * server answered as a parameter, and the running pollers are kept as the ids
 * they watch.
 */
module Home {
  import opened Wrappers
  import opened Types

  /** `data.find((u) => u.id === id)`: the first record with that id. */
  function FindById(data: seq<Row>, id: string): (found: Option<Row>)
    ensures found.None? <==> forall i :: 0 <= i < |data| ==> data[i].id != id
    ensures found.Some? ==> found.value in data && found.value.id == id
    ensures found.Some? ==>
      exists i :: 0 <= i < |data| && data[i] == found.value && (forall j :: 0 <= j < i ==> data[j].id != id)
  {
    if data == [] then None
    else if data[0].id == id then Some(data[0])
    else FindById(data[1..], id)
  }

  /** `prev.map((u) => (u.id === id ? updated : u))`. */
  function ReplaceById(rows: seq<Row>, id: string, updated: Row): (r: seq<Row>)
    ensures |r| == |rows|
    ensures forall i :: 0 <= i < |rows| ==> r[i] == if rows[i].id == id then updated else rows[i]
  {
    seq(|rows|, i requires 0 <= i < |rows| => if rows[i].id == id then updated else rows[i])
  }

  /** Replacing with a record for the same id a second time changes nothing more. */
  lemma ReplaceByIdIdempotent(rows: seq<Row>, updated: Row)
    ensures ReplaceById(ReplaceById(rows, updated.id, updated), updated.id, updated)
         == ReplaceById(rows, updated.id, updated)
  {
  }

  /** The ids of the list, and so its order, survive a replacement by a record for the
      same id. */
  lemma ReplaceByIdKeepsIds(rows: seq<Row>, updated: Row)
    ensures Ids(ReplaceById(rows, updated.id, updated)) == Ids(rows)
  {
  }

  /** A list without the id is left as it was. */
  lemma ReplaceAbsentId(rows: seq<Row>, id: string, updated: Row)
    requires forall i :: 0 <= i < |rows| ==> rows[i].id != id
    ensures ReplaceById(rows, id, updated) == rows
  {
  }

  /** The statuses that stop the poller. */
  predicate IsTerminal(status: string) {
    status == "done" || status == "error"
  }

  /** What the server answered to the create request. */
  datatype CreateResponse =
    | NetworkError      // `fetch` rejected: the `catch` logs it
    | NotOk             // `!res.ok`: the body is logged
    | Created(row: Row)  // `res.ok`: the new record

  class HomePage {
    var urls: seq<Row>
    /** The ids whose `setInterval` poller is still running, in start order. */
    var pollers: seq<string>

    /** `useState([])`, before the mount-time load. */
    constructor ()
      ensures urls == [] && pollers == []
    {
      urls := [];
      pollers := [];
    }

    /** `fetchURLs`: the list becomes the fetched array, whatever it held before. */
    method FetchURLs(data: seq<Row>)
      modifies this`urls
      ensures urls == data
    {
      urls := data;
    }

    /** `handleAdd`: only a successful response appends the record and starts its
        poller; a failed request or a non-ok answer changes nothing. */
    method HandleAdd(response: CreateResponse)
      modifies this`urls, this`pollers
      ensures response.Created? ==> urls == old(urls) + [response.row]
      ensures response.Created? ==> pollers == old(pollers) + [response.row.id]
      ensures !response.Created? ==> urls == old(urls) && pollers == old(pollers)
    {
      match response {
        case NetworkError =>
        case NotOk =>
        case Created(row) =>
          urls := urls + [row];
          pollers := pollers + [row.id];
      }
    }

    /** One tick of the poller with index `k`, given the list the server returned.
        Returns whether the poller is still running afterwards. */
    method PollTick(k: nat, data: seq<Row>) returns (keepPolling: bool)
      requires k < |pollers|
      modifies this`urls, this`pollers
      ensures var id := old(pollers[k]);
        var updated := FindById(data, id);
        && (updated.None? ==> urls == old(urls) && pollers == old(pollers) && keepPolling)
        && (updated.Some? ==> urls == ReplaceById(old(urls), id, updated.value))
        && (updated.Some? ==> keepPolling == !IsTerminal(updated.value.status))
        && (pollers == if keepPolling then old(pollers) else old(pollers[..k] + pollers[k + 1..]))
    {
      var id := pollers[k];
      var updated := FindById(data, id);
      if updated.None? {
        return true;
      }
      urls := ReplaceById(urls, id, updated.value);
      if IsTerminal(updated.value.status) {
        pollers := pollers[..k] + pollers[k + 1..];
        return false;
      }
      return true;
    }
  }

  /** `queued`, `running` and `stopped` keep the poller going. */
  lemma NonTerminalStatuses()
    ensures !IsTerminal("queued") && !IsTerminal("running") && !IsTerminal("stopped")
  {
  }
}
