/** Sequences of requests whose outcome follows from the handlers'
    contracts alone: round trips through the memory table and repeated
    registration. */
module Scenarios {
  import opened Http
  import opened Memories
  import opened Auth

  /** A memory created by one user reads back with the given fields and
      that user as owner; another user is refused while it is private. */
  method CreateThenGet(t: MemoryTable, owner: string, other: string, content: string, coverUrl: string,
                       newId: string, now: int, isUuid: string -> bool)
    returns (mine: Reply<Memory>, theirs: Reply<Memory>)
    requires t.Valid() && newId !in t.rows && isUuid(newId) && other != owner
    modifies t
    ensures mine.Ok? && mine.value.content == content && mine.value.coverUrl == coverUrl
    ensures mine.Ok? && !mine.value.isPublic && mine.value.userId == owner
    ensures theirs == Fail(Unauthorized)
  {
    var body := JObject(map["content" := JStr(content), "coverUrl" := JStr(coverUrl)]);
    var created := t.Create(owner, body, newId, now);
    mine := t.Get(owner, newId, isUuid);
    theirs := t.Get(other, newId, isUuid);
  }

  /** Deleting what one has just created restores the table. */
  method CreateThenDelete(t: MemoryTable, owner: string, body: Json, newId: string, now: int, isUuid: string -> bool)
    returns (deleted: Reply<()>)
    requires t.Valid() && newId !in t.rows && isUuid(newId)
    requires ParseMemoryBody(body).Ok?
    modifies t
    ensures deleted.Ok?
    ensures t.rows == old(t.rows)
  {
    var created := t.Create(owner, body, newId, now);
    assert created.Ok? && t.rows[newId] == created.value;
    deleted := t.Delete(owner, newId, isUuid);
  }

  /** An update by another user changes nothing, even on a public memory,
      and the owner's update is what a later read returns. */
  method UpdateThenGet(t: MemoryTable, owner: string, other: string, id: string, body: Json, isUuid: string -> bool)
    returns (refused: Reply<Memory>, updated: Reply<Memory>, read: Reply<Memory>)
    requires t.Valid() && id in t.rows && t.rows[id].userId == owner && other != owner
    requires isUuid(id) && ParseMemoryBody(body).Ok?
    modifies t
    ensures refused == Fail(Unauthorized)
    ensures updated.Ok? && read == updated
    ensures read.Ok? && read.value.content == ParseMemoryBody(body).value.content
    ensures t.rows.Keys == old(t.rows.Keys)
  {
    refused := t.Update(other, id, body, isUuid);
    updated := t.Update(owner, id, body, isUuid);
    read := t.Get(owner, id, isUuid);
  }

  /** Registering the same identity twice leaves the table as the first
      call left it, with one user for that GitHub id, and both tokens name
      that user. */
  method RegisterTwice(users: UserTable, cfg: Config, body: Json, fetched: Fetch, isUrl: string -> bool,
                       firstId: string, secondId: string, now: int, later: int)
    returns (first: Reply<Claims>, second: Reply<Claims>)
    requires users.Valid() && firstId !in users.users && secondId !in users.users && secondId != firstId
    modifies users
    ensures first.Ok? ==> second.Ok? && second.value.sub == first.value.sub
    ensures first.Ok? ==> second.value.exp == first.value.exp + (later - now)
    ensures first.Fail? ==> users.users == old(users.users)
    ensures first.Ok? ==>
      && fetched.Fetched? && ParseProfile(fetched.data, isUrl).Ok?
      && users.users == Upserted(old(users.users), ParseProfile(fetched.data, isUrl).value, firstId)
  {
    var exchange;
    first, exchange := users.Register(cfg, body, fetched, isUrl, firstId, now);
    if first.Fail? {
      second, exchange := users.Register(cfg, body, fetched, isUrl, secondId, later);
      return;
    }
    ghost var afterFirst := users.users;
    ghost var p := ParseProfile(fetched.data, isUrl).value;
    UpsertedKeepsInvariant(old(users.users), p, firstId);
    UpsertedIdempotent(old(users.users), p, firstId, secondId);
    assert secondId !in users.users;
    second, exchange := users.Register(cfg, body, fetched, isUrl, secondId, later);
    assert users.users == afterFirst;
  }
}
