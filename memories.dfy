/** The memories routes: a table of memories owned by users, the excerpt
    shown in listings, and the visibility and ownership rules applied by the
    list, get, create, update and delete handlers. The caller's user id is
    the subject of an already verified bearer token. */
module Memories {
  import opened Http

  /** Number of content characters kept in an excerpt. */
  const ExcerptLength := 115
  /** Appended to every excerpt, whatever the content's length. */
  const Ellipsis := "..."

  datatype Memory = Memory(
    id: string,
    content: string,
    coverUrl: string,
    isPublic: bool,
    createdAt: int,
    userId: string)

  /** The projection returned by the list handler. */
  datatype Summary = Summary(id: string, coverUrl: string, excerpt: string)

  /** A request body that passed the memory schema. */
  datatype MemoryInput = MemoryInput(content: string, coverUrl: string, isPublic: bool)

  function Min(a: int, b: int): int { if a <= b then a else b }

  /** An index argument of String.prototype.substring, clamped to [0, len]. */
  function ClampIndex(i: int, len: nat): (r: nat)
    ensures r <= len
  {
    if i < 0 then 0 else if i > len then len else i
  }

  /** JavaScript's s.substring(start, end): both indices are clamped to the
      string and swapped when start exceeds end. */
  function Substring(s: string, start: int, end: int): (r: string)
    ensures 0 <= start <= end <= |s| ==> r == s[start..end]
    ensures |r| <= |s|
  {
    var a, b := ClampIndex(start, |s|), ClampIndex(end, |s|);
    if a <= b then s[a..b] else s[b..a]
  }

  /** The preview shown in listings: at most ExcerptLength characters of the
      content, then the ellipsis, which is appended even to short content. */
  function Excerpt(content: string): (e: string)
    ensures |e| == Min(|content|, ExcerptLength) + |Ellipsis|
    ensures e[..|e| - |Ellipsis|] == content[..Min(|content|, ExcerptLength)]
    ensures e[..|e| - |Ellipsis|] <= content
    ensures e[|e| - |Ellipsis|..] == Ellipsis
  {
    Substring(content, 0, ExcerptLength) + Ellipsis
  }

  /** The excerpt is the whole content plus the ellipsis exactly when the
      content is no longer than ExcerptLength. */
  lemma ExcerptKeepsAllIff(content: string)
    ensures Excerpt(content) == content + Ellipsis <==> |content| <= ExcerptLength
  {
  }

  function Summarize(m: Memory): Summary {
    Summary(m.id, m.coverUrl, Excerpt(m.content))
  }

  /** Any caller may read a public memory; only its owner a private one. */
  predicate CanRead(m: Memory, caller: string) {
    m.isPublic || m.userId == caller
  }

  /** Only the owner may update or delete a memory, public or not. */
  predicate CanModify(m: Memory, caller: string) {
    m.userId == caller
  }

  /** The body schema of the create and update handlers: content and coverUrl
      are required strings; isPublic is coerced to a boolean and is false
      when absent. */
  function ParseMemoryBody(body: Json): (r: Reply<MemoryInput>)
    ensures r.Fail? ==> r.error == Validation
    ensures r.Ok? <==>
      && body.JObject?
      && "content" in body.fields && body.fields["content"].JStr?
      && "coverUrl" in body.fields && body.fields["coverUrl"].JStr?
    ensures r.Ok? ==>
      && body.fields["content"] == JStr(r.value.content)
      && body.fields["coverUrl"] == JStr(r.value.coverUrl)
      && (r.value.isPublic <==> "isPublic" in body.fields && Truthy(body.fields["isPublic"]))
  {
    match body
    case JObject(fields) =>
      var content, coverUrl := StringField(fields, "content"), StringField(fields, "coverUrl");
      if content.Some? && coverUrl.Some? then
        Ok(MemoryInput(content.value, coverUrl.value, CoercedFlag(fields, "isPublic")))
      else
        Fail(Validation)
    case _ => Fail(Validation)
  }

  ghost predicate SortedByCreatedAt(ms: seq<Memory>) {
    forall i, j :: 0 <= i < j < |ms| ==> ms[i].createdAt <= ms[j].createdAt
  }

  ghost predicate DistinctIds(ms: seq<Memory>) {
    forall i, j :: 0 <= i < j < |ms| ==> ms[i].id != ms[j].id
  }

  /** Places m in a sequence ordered by creation time, after the memories
      created at the same time or earlier. */
  function InsertByCreatedAt(ms: seq<Memory>, m: Memory): (r: seq<Memory>)
    ensures |r| == |ms| + 1
    ensures forall x :: x in r <==> x in ms || x == m
    ensures multiset(r) == multiset(ms) + multiset{m}
  {
    if ms == [] || m.createdAt < ms[0].createdAt then [m] + ms
    else
      assert ms == [ms[0]] + ms[1..];
      [ms[0]] + InsertByCreatedAt(ms[1..], m)
  }

  /** Insertion keeps a sequence ordered by creation time. */
  lemma {:induction false} InsertKeepsOrder(ms: seq<Memory>, m: Memory)
    requires SortedByCreatedAt(ms)
    ensures SortedByCreatedAt(InsertByCreatedAt(ms, m))
  {
    if ms != [] && m.createdAt >= ms[0].createdAt {
      var rest := InsertByCreatedAt(ms[1..], m);
      InsertKeepsOrder(ms[1..], m);
      forall k | 0 <= k < |rest|
        ensures ms[0].createdAt <= rest[k].createdAt
      {
        assert rest[k] in ms[1..] || rest[k] == m;
      }
      assert InsertByCreatedAt(ms, m) == [ms[0]] + rest;
    }
  }

  /** Inserting a memory whose id is new keeps the ids distinct. */
  lemma {:induction false} InsertKeepsIdsDistinct(ms: seq<Memory>, m: Memory)
    requires DistinctIds(ms)
    requires forall x :: x in ms ==> x.id != m.id
    ensures DistinctIds(InsertByCreatedAt(ms, m))
  {
    if ms != [] && m.createdAt >= ms[0].createdAt {
      var rest := InsertByCreatedAt(ms[1..], m);
      InsertKeepsIdsDistinct(ms[1..], m);
      forall k | 0 <= k < |rest|
        ensures ms[0].id != rest[k].id
      {
        assert rest[k] in ms[1..] || rest[k] == m;
      }
      assert InsertByCreatedAt(ms, m) == [ms[0]] + rest;
    }
  }

  /** The memory table, keyed by memory id. */
  class MemoryTable {
    var rows: map<string, Memory>

    /** Every row is stored under its own id. */
    ghost predicate Valid()
      reads this
    {
      forall id :: id in rows ==> rows[id].id == id
    }

    constructor ()
      ensures Valid() && rows == map[]
    {
      rows := map[];
    }

    /** GET /memories: the caller's memories, each once, in ascending order
        of creation time, projected to id, cover and excerpt. */
    method List(caller: string) returns (r: seq<Summary>)
      requires Valid()
      ensures forall i :: 0 <= i < |r| ==>
        r[i].id in rows && rows[r[i].id].userId == caller && r[i] == Summarize(rows[r[i].id])
      ensures forall id :: id in rows && rows[id].userId == caller ==>
        exists i :: 0 <= i < |r| && r[i].id == id
      ensures forall i, j :: 0 <= i < j < |r| ==> r[i].id != r[j].id
      ensures forall i, j :: 0 <= i < j < |r| ==> rows[r[i].id].createdAt <= rows[r[j].id].createdAt
    {
      var pending := rows.Keys;
      var found: seq<Memory> := [];
      while pending != {}
        invariant pending <= rows.Keys
        invariant forall x :: x in found ==>
          x.id in rows && rows[x.id] == x && x.userId == caller && x.id !in pending
        invariant forall id :: id in rows && id !in pending && rows[id].userId == caller ==>
          rows[id] in found
        invariant SortedByCreatedAt(found)
        invariant DistinctIds(found)
        decreases pending
      {
        var id :| id in pending;
        if rows[id].userId == caller {
          InsertKeepsOrder(found, rows[id]);
          InsertKeepsIdsDistinct(found, rows[id]);
          found := InsertByCreatedAt(found, rows[id]);
        }
        pending := pending - {id};
      }
      r := seq(|found|, i requires 0 <= i < |found| => Summarize(found[i]));
      forall id | id in rows && rows[id].userId == caller
        ensures exists i :: 0 <= i < |r| && r[i].id == id
      {
        var i :| 0 <= i < |found| && found[i] == rows[id];
        assert r[i].id == id;
      }
    }

    /** GET /memories/:id: a non-UUID id is rejected before the lookup, an
        absent id is not found, and a private memory of another user is
        refused; otherwise the stored record is returned as it is. */
    method Get(caller: string, id: string, isUuid: string -> bool) returns (r: Reply<Memory>)
      requires Valid()
      ensures r == Fail(Validation) <==> !isUuid(id)
      ensures r == Fail(NotFound) <==> isUuid(id) && id !in rows
      ensures r == Fail(Unauthorized) <==>
        isUuid(id) && id in rows && !rows[id].isPublic && rows[id].userId != caller
      ensures r.Ok? <==> isUuid(id) && id in rows && CanRead(rows[id], caller)
      ensures r.Ok? ==> r.value == rows[id]
    {
      if !isUuid(id) {
        return Fail(Validation);
      }
      if id !in rows {
        return Fail(NotFound);
      }
      var memory := rows[id];
      if !CanRead(memory, caller) {
        return Fail(Unauthorized);
      }
      r := Ok(memory);
    }

    /** POST /memories: a body that fails the schema changes nothing; a valid
        one inserts exactly one memory, owned by the caller, under the fresh
        id the store hands out. */
    method Create(caller: string, body: Json, newId: string, now: int) returns (r: Reply<Memory>)
      requires Valid()
      requires newId !in rows
      modifies this
      ensures Valid()
      ensures ParseMemoryBody(body).Fail? ==> r == Fail(Validation) && rows == old(rows)
      ensures ParseMemoryBody(body).Ok? ==>
        var input := ParseMemoryBody(body).value;
        && r == Ok(Memory(newId, input.content, input.coverUrl, input.isPublic, now, caller))
        && rows == old(rows)[newId := r.value]
    {
      var parsed := ParseMemoryBody(body);
      if parsed.Fail? {
        return Fail(Validation);
      }
      var input := parsed.value;
      var memory := Memory(newId, input.content, input.coverUrl, input.isPublic, now, caller);
      rows := rows[newId := memory];
      r := Ok(memory);
    }

    /** PUT /memories/:id: the id and then the body are validated before the
        lookup; only the owner may update, and an update replaces content,
        cover and visibility while id, owner and creation time stay. Every
        failure leaves the table as it was. */
    method Update(caller: string, id: string, body: Json, isUuid: string -> bool) returns (r: Reply<Memory>)
      requires Valid()
      modifies this
      ensures Valid()
      ensures r.Fail? ==> rows == old(rows)
      ensures r == Fail(Validation) <==> !isUuid(id) || ParseMemoryBody(body).Fail?
      ensures r == Fail(NotFound) <==>
        isUuid(id) && ParseMemoryBody(body).Ok? && id !in old(rows)
      ensures r == Fail(Unauthorized) <==>
        isUuid(id) && ParseMemoryBody(body).Ok? && id in old(rows) && !CanModify(old(rows)[id], caller)
      ensures r.Ok? <==>
        isUuid(id) && ParseMemoryBody(body).Ok? && id in old(rows) && CanModify(old(rows)[id], caller)
      ensures r.Ok? ==>
        var input, before := ParseMemoryBody(body).value, old(rows)[id];
        && id in old(rows) && CanModify(before, caller)
        && r.value == before.(content := input.content, coverUrl := input.coverUrl, isPublic := input.isPublic)
        && rows == old(rows)[id := r.value]
    {
      if !isUuid(id) {
        return Fail(Validation);
      }
      var parsed := ParseMemoryBody(body);
      if parsed.Fail? {
        return Fail(Validation);
      }
      var input := parsed.value;
      if id !in rows {
        return Fail(NotFound);
      }
      var memory := rows[id];
      if !CanModify(memory, caller) {
        return Fail(Unauthorized);
      }
      memory := memory.(content := input.content, coverUrl := input.coverUrl, isPublic := input.isPublic);
      rows := rows[id := memory];
      r := Ok(memory);
    }

    /** DELETE /memories/:id: after the id check and the lookup, only the
        owner may delete; the row with that id goes and no other. */
    method Delete(caller: string, id: string, isUuid: string -> bool) returns (r: Reply<()>)
      requires Valid()
      modifies this
      ensures Valid()
      ensures r == Fail(Validation) <==> !isUuid(id)
      ensures r == Fail(NotFound) <==> isUuid(id) && id !in old(rows)
      ensures r == Fail(Unauthorized) <==>
        isUuid(id) && id in old(rows) && !CanModify(old(rows)[id], caller)
      ensures r.Fail? ==> rows == old(rows)
      ensures r.Ok? <==> isUuid(id) && id in old(rows) && CanModify(old(rows)[id], caller)
      ensures r.Ok? ==> rows == old(rows) - {id}
    {
      if !isUuid(id) {
        return Fail(Validation);
      }
      if id !in rows {
        return Fail(NotFound);
      }
      var memory := rows[id];
      if !CanModify(memory, caller) {
        return Fail(Unauthorized);
      }
      rows := rows - {id};
      r := Ok(());
    }
  }
}
