/** Registered relying parties and their in-memory store with per-entry expiry. */
module Clients {
  import opened Text
  import opened Requests

  const AUTH_NONE := "none"

  datatype Client = Client(
    clientId: string,
    redirectUris: seq<string>,
    responseTypes: seq<string>,
    grantTypes: seq<string>,
    authMethod: string,
    scope: Option<string>,
    subjectType: string)

  ghost predicate AllowsResponseType(client: Client, rt: string) {
    exists i :: 0 <= i < |client.responseTypes| && ResponseTypeEq(client.responseTypes[i], rt)
  }

  datatype Entry = Entry(client: Client, expiresAt: Option<nat>)

  predicate Expired(e: Entry, now: nat) { e.expiresAt.Some? && e.expiresAt.value <= now }

  function Visible(e: Option<Entry>, now: nat): Option<Client> {
    if e.None? || Expired(e.value, now) then None else Some(e.value.client)
  }

  function Find(m: map<string, Entry>, id: string): Option<Entry> {
    if id in m then Some(m[id]) else None
  }

  function Retain(m: map<string, Entry>, now: nat): map<string, Entry> {
    map k | k in m && !Expired(m[k], now) :: m[k]
  }

  /** One call on the store with the clock reading it made. */
  datatype Call =
    | GetCall(id: string, now: nat)
    | PutCall(client: Client, now: nat)
    | TtlCall(client: Client, ttl: nat, now: nat)

  function Apply(m: map<string, Entry>, c: Call): map<string, Entry> {
    match c
    case GetCall(id, now) => if id in m && Expired(m[id], now) then m - {id} else m
    case PutCall(client, _) => m[client.clientId := Entry(client, None)]
    case TtlCall(client, ttl, now) => Retain(m, now)[client.clientId := Entry(client, Some(now + ttl))]
  }

  class InMemoryClientStore {
    var inner: map<string, Entry>

    constructor ()
      ensures inner == map[]
    {
      inner := map[];
    }

    /** Returns the unexpired entry for `id`, and drops an expired one. */
    method Get(id: string, now: nat) returns (found: Option<Client>)
      modifies this
      ensures found == Visible(Find(old(inner), id), now)
      ensures id in inner <==> found.Some?
      ensures inner == Apply(old(inner), GetCall(id, now))
    {
      if id !in inner {
        return None;
      }
      var entry := inner[id];
      if entry.expiresAt.Some? && entry.expiresAt.value <= now {
        inner := inner - {id};
        return None;
      }
      return Some(entry.client);
    }

    method Put(client: Client, now: nat)
      modifies this
      ensures inner == old(inner)[client.clientId := Entry(client, None)]
      ensures inner == Apply(old(inner), PutCall(client, now))
    {
      inner := inner[client.clientId := Entry(client, None)];
    }

    /** Sweeps every expired entry, then records the client until `now + ttl`. */
    method PutWithTtl(client: Client, ttl: nat, now: nat)
      modifies this
      ensures inner == Apply(old(inner), TtlCall(client, ttl, now))
      ensures forall k :: k in inner && k != client.clientId ==> !Expired(inner[k], now)
      ensures forall k :: k != client.clientId ==> Visible(Find(inner, k), now) == Visible(Find(old(inner), k), now)
    {
      inner := map k | k in inner && !(inner[k].expiresAt.Some? && inner[k].expiresAt.value <= now) :: inner[k];
      inner := inner[client.clientId := Entry(client, Some(now + ttl))];
    }
  }

  // ---- Runs -------------------------------------------------------------

  ghost predicate OrderedUpTo(calls: seq<Call>, now: nat) {
    && (forall i, j :: 0 <= i < j < |calls| ==> calls[i].now <= calls[j].now)
    && (forall i :: 0 <= i < |calls| ==> calls[i].now <= now)
  }

  function StoreAfter(calls: seq<Call>): map<string, Entry> {
    if calls == [] then map[] else Apply(StoreAfter(calls[..|calls| - 1]), calls[|calls| - 1])
  }

  /** The entry made by the latest put of `id`, read off the history alone. */
  function LatestPut(calls: seq<Call>, id: string): Option<Entry> {
    if calls == [] then None
    else
      match calls[|calls| - 1]
      case GetCall(_, _) => LatestPut(calls[..|calls| - 1], id)
      case PutCall(client, _) =>
        if client.clientId == id then Some(Entry(client, None)) else LatestPut(calls[..|calls| - 1], id)
      case TtlCall(client, ttl, now) =>
        if client.clientId == id then Some(Entry(client, Some(now + ttl))) else LatestPut(calls[..|calls| - 1], id)
  }

  /** After any sequence of calls under a clock that never goes back, a lookup sees exactly the
      latest put of that client unless its lifetime has elapsed. */
  lemma {:induction false} GetSeesLatestPut(calls: seq<Call>, id: string, now: nat)
    requires OrderedUpTo(calls, now)
    ensures Visible(Find(StoreAfter(calls), id), now) == Visible(LatestPut(calls, id), now)
  {
    if calls != [] {
      var n := |calls| - 1;
      GetSeesLatestPut(calls[..n], id, now);
    }
  }

  /** Call `i` put this client, and no later call did. */
  ghost predicate LastPut(calls: seq<Call>, i: nat, id: string)
    requires i < |calls|
  {
    && !calls[i].GetCall? && calls[i].client.clientId == id
    && forall j :: i < j < |calls| && !calls[j].GetCall? ==> calls[j].client.clientId != id
  }

  lemma {:induction false} LatestPutExactly(calls: seq<Call>, id: string)
    ensures LatestPut(calls, id).None? <==> forall i :: 0 <= i < |calls| ==> !LastPut(calls, i, id)
    ensures forall i :: 0 <= i < |calls| && LastPut(calls, i, id) ==>
              LatestPut(calls, id) ==
              Some(Entry(calls[i].client, if calls[i].TtlCall? then Some(calls[i].now + calls[i].ttl) else None))
  {
    if calls != [] {
      var n := |calls| - 1;
      LatestPutExactly(calls[..n], id);
      forall i | 0 <= i < n
        ensures LastPut(calls, i, id) <==>
                LastPut(calls[..n], i, id) && (calls[n].GetCall? || calls[n].client.clientId != id)
      {
        assert forall j :: 0 <= j < n ==> calls[..n][j] == calls[j];
      }
      if LatestPut(calls[..n], id).Some? && (calls[n].GetCall? || calls[n].client.clientId != id) {
        var i :| 0 <= i < n && LastPut(calls[..n], i, id);
        assert LastPut(calls, i, id);
      }
      if !calls[n].GetCall? && calls[n].client.clientId == id {
        assert LastPut(calls, n, id);
      }
    }
  }

  /** After any calls a lookup returns the client of the last put, exactly while that put had no lifetime or
      the clock is before its end. */
  lemma LookupExactly(calls: seq<Call>, id: string, now: nat, client: Client)
    requires OrderedUpTo(calls, now)
    ensures Visible(Find(StoreAfter(calls), id), now) == Some(client) <==>
            exists i :: 0 <= i < |calls| && LastPut(calls, i, id) && calls[i].client == client
                        && (calls[i].TtlCall? ==> now < calls[i].now + calls[i].ttl)
  {
    GetSeesLatestPut(calls, id, now);
    LatestPutExactly(calls, id);
    if Visible(LatestPut(calls, id), now) == Some(client) {
      var i :| 0 <= i < |calls| && LastPut(calls, i, id);
      assert LastPut(calls, i, id) && calls[i].client == client;
    }
  }
}
