/** The five handlers of backend/controllers/urlController.js over the `Urls` table.
    An HTTP reply is a `Response`; the clock and the short-code generator are
    parameters: `now` is the instant the handler reads, and `gen(i)` is the candidate
    that the (i+1)-th call of `generateShortCode` in a request returns. */
module UrlController {
  import opened UrlModel
  import opened UrlStore

  /** One element of the `listLinks` reply: the row and its derived `lastClicked`. */
  datatype LinkEntry = LinkEntry(link: Url, lastClicked: Option<nat>)

  datatype Response =
    | Created(link: Url)               // 201 with the new row
    | BadRequest(error: string)        // 400
    | Conflict(error: string)          // 409
    | NotFound(error: string)          // 404
    | Stats(link: Url)                 // 200 with one row
    | Listing(links: seq<LinkEntry>)   // 200 with every row
    | Deleted(message: string)         // 200
    | Redirect(location: string)       // 302 to the stored target
    | ServerError(error: string)       // 500
    | Pending                          // no reply yet: the generator loop is still running

  const LongUrlRequired := "longUrl is required"
  const CodeFormatError := "Custom code must be 6-8 alphanumeric characters."
  const CodeExists := "Code already exists"
  const LinkNotFound := "Link not found"
  const RedirectNotFound := "Not found"
  const LinkDeletedMessage := "Link deleted"
  const ServerErrorMessage := "Server error"

  /** A request-body string field is truthy: present and not the empty string. */
  predicate Present(s: Option<string>): (b: bool)
    ensures b ==> s.Some? && |s.value| > 0
    // the falsy cases are exactly the absent field and the empty string
    ensures !b <==> s == None || s == Some("")
  {
    s.Some? && s.value != ""
  }

  // ---------------------------------------------------------------------------
  // The custom-code pattern ^[A-Za-z0-9]{6,8}$

  predicate IsAlphanumeric(c: char) {
    ('A' <= c <= 'Z') || ('a' <= c <= 'z') || ('0' <= c <= '9')
  }

  predicate IsCustomCode(s: string): (b: bool)
    ensures b ==> 0 < |s| <= ShortUrlWidth
    ensures b ==> forall c :: c in s ==> IsAlphanumeric(c)
  {
    6 <= |s| <= 8 && forall i :: 0 <= i < |s| ==> IsAlphanumeric(s[i])
  }

  /** Every code the pattern admits fits the STRING(10) column. */
  lemma CustomCodeFitsColumn(s: string)
    requires IsCustomCode(s)
    ensures 0 < |s| <= ShortUrlWidth
  {
  }

  // ---------------------------------------------------------------------------
  // createLink

  /** The k-th candidate is the first one that no row carries yet. */
  predicate FirstFree(rows: seq<Url>, gen: nat -> string, k: nat) {
    !Taken(rows, gen(k)) && forall j :: 0 <= j < k ==> Taken(rows, gen(j))
  }

  /** The auto-generate path: take a first candidate (line 24), then draw a new one
      while the current one is taken (lines 34-38).  The source has no retry cap: after
      `fuel` calls of the generator without a free candidate the request has simply not
      answered yet, reported as `None`.  On exit, the result is the number of the call
      whose candidate is free, and it is the first such call. */
  method GenerateCode(rows: seq<Url>, gen: nat -> string, fuel: nat) returns (r: Option<nat>)
    ensures r.Some? ==> r.value < fuel && FirstFree(rows, gen, r.value)
    ensures r.None? <==> forall i :: 0 <= i < fuel ==> Taken(rows, gen(i))
  {
    if fuel == 0 {
      return None;
    }
    var calls := 1;
    var shortCode := gen(0);
    var found := Find(rows, shortCode).Some?;
    while found
      invariant 1 <= calls <= fuel
      invariant shortCode == gen(calls - 1)
      invariant found <==> Taken(rows, shortCode)
      invariant forall j :: 0 <= j < calls - 1 ==> Taken(rows, gen(j))
      decreases fuel - calls
    {
      if calls == fuel {
        return None;
      }
      shortCode := gen(calls);
      calls := calls + 1;
      found := Find(rows, shortCode).Some?;
    }
    return Some(calls - 1);
  }

  /** `createLink`: validate, pick the short code, INSERT, reply. */
  method CreateLink(db: UrlTable, longUrl: Option<string>, code: Option<string>,
                    gen: nat -> string, fuel: nat, now: nat) returns (resp: Response)
    requires db.Valid()
    modifies db
    ensures db.Valid()
    ensures LinksConsistent(old(db.rows)) ==> LinksConsistent(db.rows)
    // every reply other than 201 leaves the table as it was
    ensures !resp.Created? ==> db.rows == old(db.rows) && db.nextId == old(db.nextId)
    ensures resp.Created? || resp.BadRequest? || resp.Conflict? || resp.ServerError? || resp.Pending?
    ensures resp.BadRequest? ==> resp.error == LongUrlRequired || resp.error == CodeFormatError
    // 400: missing or empty target
    ensures resp == BadRequest(LongUrlRequired) <==> !Present(longUrl)
    // 400: a custom code that does not match the pattern
    ensures resp == BadRequest(CodeFormatError) <==>
      Present(longUrl) && Present(code) && !IsCustomCode(code.value)
    // 409: a well-formed custom code that is already in use
    ensures resp.Conflict? <==>
      Present(longUrl) && Present(code) && IsCustomCode(code.value) && Taken(old(db.rows), code.value)
    ensures resp.Conflict? ==> resp.error == CodeExists
    // a free well-formed custom code is always accepted, as itself
    ensures Present(longUrl) && Present(code) && IsCustomCode(code.value) && !Taken(old(db.rows), code.value)
      ==> resp.Created? && resp.link.shortUrl == code.value
    // auto-generate: no reply yet exactly when every observed candidate is taken
    ensures resp.Pending? <==>
      Present(longUrl) && !Present(code) && forall i :: 0 <= i < fuel ==> Taken(old(db.rows), gen(i))
    // auto-generate: the code used is the first free candidate
    ensures resp.Created? && !Present(code) ==>
      exists k :: 0 <= k < fuel && FirstFree(old(db.rows), gen, k) && resp.link.shortUrl == gen(k)
    // 500: only a generated candidate too wide for the column makes the INSERT fail
    ensures resp.ServerError? ==>
      resp.error == ServerErrorMessage && Present(longUrl) && !Present(code) &&
      exists k :: 0 <= k < fuel && FirstFree(old(db.rows), gen, k) && |gen(k)| > ShortUrlWidth
    // 201: exactly one new row, with the defaults and a fresh key and code
    ensures resp.Created? ==>
      db.rows == old(db.rows) + [resp.link] && db.nextId == old(db.nextId) + 1 &&
      resp.link.longUrl == longUrl.value && resp.link.clickCount == 0 &&
      resp.link.clickTimestamps == [] && resp.link.createdAt == now &&
      resp.link.id == old(db.nextId) && !Taken(old(db.rows), resp.link.shortUrl) &&
      (forall i :: 0 <= i < |old(db.rows)| ==> old(db.rows)[i].id != resp.link.id)
  {
    if !Present(longUrl) {
      return BadRequest(LongUrlRequired);
    }
    if Present(code) && !IsCustomCode(code.value) {
      return BadRequest(CodeFormatError);
    }
    var shortCode: string;
    if Present(code) {
      if Find(db.rows, code.value).Some? {
        return Conflict(CodeExists);
      }
      shortCode := code.value;
      CustomCodeFitsColumn(shortCode);
    } else {
      var k := GenerateCode(db.rows, gen, fuel);
      if k.None? {
        return Pending;
      }
      shortCode := gen(k.value);
    }
    ghost var before := db.rows;
    var created := db.Create(NewUrl(longUrl.value, shortCode, Some(0), Some([])), now);
    if created.None? {
      return ServerError(ServerErrorMessage);
    }
    assert forall i :: 0 <= i < |before| ==> db.rows[i] == before[i];
    return Created(created.value);
  }

  // ---------------------------------------------------------------------------
  // Candidates that are pairwise distinct cannot all be taken

  /** The short codes the table carries. */
  ghost function Codes(rows: seq<Url>): set<string>
  {
    if rows == [] then {} else {rows[0].shortUrl} + Codes(rows[1..])
  }

  lemma {:induction false} CodesBound(rows: seq<Url>)
    ensures |Codes(rows)| <= |rows|
    ensures forall c :: Taken(rows, c) ==> c in Codes(rows)
  {
    if rows != [] {
      CodesBound(rows[1..]);
      forall c | Taken(rows, c) ensures c in Codes(rows) {
        var i :| 0 <= i < |rows| && rows[i].shortUrl == c;
        if i > 0 {
          assert rows[1..][i - 1].shortUrl == c;
        }
      }
    }
  }

  /** The first n candidates. */
  ghost function Candidates(gen: nat -> string, n: nat): set<string>
  {
    if n == 0 then {} else Candidates(gen, n - 1) + {gen(n - 1)}
  }

  lemma {:induction false} CandidatesCount(gen: nat -> string, n: nat)
    requires forall i, j :: 0 <= i < j < n ==> gen(i) != gen(j)
    ensures |Candidates(gen, n)| == n
    ensures forall c :: c in Candidates(gen, n) ==> exists i :: 0 <= i < n && gen(i) == c
  {
    if n > 0 {
      CandidatesCount(gen, n - 1);
      assert gen(n - 1) !in Candidates(gen, n - 1);
    }
  }

  lemma {:induction false} SubsetCard(a: set<string>, b: set<string>)
    requires a <= b
    ensures |a| <= |b|
  {
    if a != {} {
      var x :| x in a;
      SubsetCard(a - {x}, b - {x});
    }
  }

  /** If the first |rows| + 1 candidates are pairwise distinct, one of them is free:
      the table holds only |rows| codes. */
  lemma DistinctCandidatesFindFreeCode(rows: seq<Url>, gen: nat -> string)
    requires forall i, j :: 0 <= i < j <= |rows| ==> gen(i) != gen(j)
    ensures exists k :: 0 <= k <= |rows| && !Taken(rows, gen(k))
  {
    var n := |rows| + 1;
    CandidatesCount(gen, n);
    CodesBound(rows);
    if forall k :: 0 <= k < n ==> Taken(rows, gen(k)) {
      forall c | c in Candidates(gen, n) ensures c in Codes(rows) {
        var i :| 0 <= i < n && gen(i) == c;
        assert Taken(rows, gen(i));
      }
      SubsetCard(Candidates(gen, n), Codes(rows));
      assert false;
    }
  }

  /** So the auto-generate loop always answers within |rows| + 1 calls of a generator
      whose first |rows| + 1 candidates are distinct: by the second ensures of
      `GenerateCode`, its result is then not `None`. */
  lemma DistinctCandidatesAnswer(rows: seq<Url>, gen: nat -> string, fuel: nat)
    requires fuel > |rows|
    requires forall i, j :: 0 <= i < j <= |rows| ==> gen(i) != gen(j)
    ensures !forall i :: 0 <= i < fuel ==> Taken(rows, gen(i))
  {
    DistinctCandidatesFindFreeCode(rows, gen);
  }

  // ---------------------------------------------------------------------------
  // listLinks

  predicate NewestFirstOrder(s: seq<Url>) {
    forall i, j :: 0 <= i < j < |s| ==> s[i].createdAt >= s[j].createdAt
  }

  /** Insert one row into a newest-first sequence, ahead of every row no newer than it. */
  function InsertByCreatedAt(u: Url, s: seq<Url>): (r: seq<Url>)
    requires NewestFirstOrder(s)
    ensures NewestFirstOrder(r)
    ensures forall j :: 0 <= j < |r| ==> r[j] == u || r[j] in s
  {
    if s == [] || u.createdAt >= s[0].createdAt then
      [u] + s
    else
      var rest := InsertByCreatedAt(u, s[1..]);
      assert forall j :: 0 <= j < |rest| ==> rest[j].createdAt <= s[0].createdAt by {
        forall j | 0 <= j < |rest| ensures rest[j].createdAt <= s[0].createdAt {
          if rest[j] != u {
            var m :| 0 <= m < |s[1..]| && s[1..][m] == rest[j];
            assert s[m + 1] == rest[j];
          }
        }
      }
      [s[0]] + rest
  }

  /** Insertion loses no row and adds only the inserted one. */
  lemma {:induction false} InsertIsPermutation(u: Url, s: seq<Url>)
    requires NewestFirstOrder(s)
    ensures multiset(InsertByCreatedAt(u, s)) == multiset(s) + multiset{u}
  {
    if s != [] && u.createdAt < s[0].createdAt {
      InsertIsPermutation(u, s[1..]);
      assert s == [s[0]] + s[1..];
    }
  }

  /** `findAll({ order: [["createdAt", "DESC"]] })`: the rows, newest first. */
  function NewestFirst(rows: seq<Url>): (r: seq<Url>)
    ensures NewestFirstOrder(r)
    ensures multiset(r) == multiset(rows)
  {
    if rows == [] then []
    else
      var rest := NewestFirst(rows[1..]);
      InsertIsPermutation(rows[0], rest);
      assert rows == [rows[0]] + rows[1..];
      InsertByCreatedAt(rows[0], rest)
  }

  /** The last click of a history, or null when there is none; for a history in
      chronological order that is its latest instant. */
  function LastClicked(ts: seq<nat>): (r: Option<nat>)
    ensures r.None? <==> ts == []
    ensures r.Some? ==> r.value in ts
    ensures r.Some? && Chronological(ts) ==> forall t :: t in ts ==> t <= r.value
  {
    if |ts| > 0 then Some(ts[|ts| - 1]) else None
  }

  /** The instant a redirect records is the one `lastClicked` reports afterwards. */
  lemma LastClickedAfterAppend(ts: seq<nat>, t: nat)
    ensures LastClicked(ts + [t]) == Some(t)
  {
  }

  /** After a redirect on a known code, the listing shows that redirect's `now` as the
      row's `lastClicked`, whatever instants the history held before. */
  lemma LastClickedAfterClick(rows: seq<Url>, code: string, now: nat, k: nat)
    requires SchemaValid(rows)
    requires k < |rows| && rows[k].shortUrl == code
    ensures LastClicked(Click(rows, code, now)[k].clickTimestamps) == Some(now)
  {
    ClickEffect(rows, code, now, k);
  }

  function Annotate(s: seq<Url>): seq<LinkEntry>
  {
    seq(|s|, i requires 0 <= i < |s| => LinkEntry(s[i], LastClicked(s[i].clickTimestamps)))
  }

  function LinksOf(entries: seq<LinkEntry>): seq<Url>
  {
    seq(|entries|, i requires 0 <= i < |entries| => entries[i].link)
  }

  /** `listLinks`: one entry per stored row, newest first, each with its `lastClicked`. */
  function ListLinks(db: UrlTable): (r: Response)
    reads db
    ensures r.Listing?
    ensures multiset(LinksOf(r.links)) == multiset(db.rows)
    ensures |r.links| == |db.rows|
    ensures forall i, j :: 0 <= i < j < |r.links| ==> r.links[i].link.createdAt >= r.links[j].link.createdAt
    ensures forall i :: 0 <= i < |r.links| ==>
      r.links[i].lastClicked == LastClicked(r.links[i].link.clickTimestamps)
  {
    var sorted := NewestFirst(db.rows);
    assert LinksOf(Annotate(sorted)) == sorted;
    assert |sorted| == |multiset(sorted)| == |multiset(db.rows)| == |db.rows|;
    Listing(Annotate(sorted))
  }

  // ---------------------------------------------------------------------------
  // getLinkStats, deleteLink, redirectLink

  /** `getLinkStats`: the row that carries the code, or 404. */
  function GetLinkStats(db: UrlTable, code: string): (r: Response)
    reads db
    ensures r.Stats? <==> Taken(db.rows, code)
    ensures r.Stats? ==> r.link in db.rows && r.link.shortUrl == code
    ensures !r.Stats? ==> r == NotFound(LinkNotFound)
  {
    match Find(db.rows, code)
    case None => NotFound(LinkNotFound)
    case Some(link) => Stats(link)
  }

  /** `deleteLink`: find the row, then delete it by its key. */
  method DeleteLink(db: UrlTable, code: string) returns (resp: Response)
    requires db.Valid()
    modifies db
    ensures db.Valid() && db.nextId == old(db.nextId)
    ensures db.rows == Delete(old(db.rows), code)
    ensures resp == NotFound(LinkNotFound) <==> !Taken(old(db.rows), code)
    ensures !Taken(old(db.rows), code) ==> db.rows == old(db.rows)
    ensures Taken(old(db.rows), code) ==>
      resp == Deleted(LinkDeletedMessage) &&
      var k := IndexOf(old(db.rows), code).value;
      db.rows == old(db.rows)[..k] + old(db.rows)[k + 1..]
    ensures LinksConsistent(old(db.rows)) ==> LinksConsistent(db.rows)
    // afterwards the code is unknown to the stats and the redirect handlers
    ensures GetLinkStats(db, code) == NotFound(LinkNotFound)
    ensures forall now :: Click(db.rows, code, now) == db.rows
  {
    ghost var before := db.rows;
    DeleteEffect(before, code);
    DeleteRemovesCode(before, code);
    forall now ensures Click(Delete(before, code), code, now) == Delete(before, code) {
      RedirectAfterDelete(before, code, now);
    }
    var link := Find(db.rows, code);
    if link.None? {
      return NotFound(LinkNotFound);
    }
    db.Destroy(link.value.id);
    return Deleted(LinkDeletedMessage);
  }

  /** `redirectLink`: find the row, write back the loaded count plus one and the loaded
      history with `now` appended, and redirect to the loaded target. */
  method RedirectLink(db: UrlTable, code: string, now: nat) returns (resp: Response)
    requires db.Valid()
    modifies db
    ensures db.Valid() && db.nextId == old(db.nextId)
    ensures db.rows == Click(old(db.rows), code, now)
    ensures resp == NotFound(RedirectNotFound) <==> !Taken(old(db.rows), code)
    ensures !Taken(old(db.rows), code) ==> db.rows == old(db.rows)
    // the row that carries the code: the loaded target, one more click at `now`, nothing else
    ensures Taken(old(db.rows), code) ==>
      var k := IndexOf(old(db.rows), code).value;
      resp == Redirect(old(db.rows)[k].longUrl) &&
      |db.rows| == |old(db.rows)| &&
      db.rows[k] == old(db.rows)[k].(clickCount := old(db.rows)[k].clickCount + 1,
                                     clickTimestamps := old(db.rows)[k].clickTimestamps + [now]) &&
      forall i :: 0 <= i < |db.rows| && i != k ==> db.rows[i] == old(db.rows)[i]
    ensures LinksConsistent(old(db.rows)) ==> LinksConsistent(db.rows)
  {
    ghost var before := db.rows;
    var link := Find(db.rows, code);
    if link.None? {
      ClickUnknown(before, code, now);
      return NotFound(RedirectNotFound);
    }
    var loaded := link.value;
    db.Update(loaded.id, loaded.clickCount + 1, loaded.clickTimestamps + [now]);
    assert db.rows == Click(before, code, now);
    ClickKeepsInvariants(before, code, now);
    ClickEffect(before, code, now, IndexOf(before, code).value);
    return Redirect(loaded.longUrl);
  }

  // ---------------------------------------------------------------------------
  // A session against a fresh table: create without a custom code, follow the short
  // link three times, read the stats, delete, follow it again.

  /** The first step: a link created without a custom code on a fresh table. */
  method ExampleCreate(gen: nat -> string, t0: nat) returns (db: UrlTable, link: Url)
    requires 0 < |gen(0)| <= ShortUrlWidth
    ensures fresh(db) && db.Valid()
    ensures db.rows == [link] && link.shortUrl == gen(0) && link.longUrl == "https://example.com"
    ensures link.clickCount == 0 && link.clickTimestamps == []
  {
    db := new UrlTable();
    assert !Taken(db.rows, gen(0));
    var created := CreateLink(db, Some("https://example.com"), None, gen, 1, t0);
    assert !created.ServerError? by {
      assert forall k :: 0 <= k < 1 && FirstFree([], gen, k) ==> |gen(k)| <= ShortUrlWidth;
    }
    assert created.Created?;
    assert created.link.shortUrl == gen(0) by {
      assert forall k :: 0 <= k < 1 && FirstFree([], gen, k) ==> gen(k) == gen(0);
    }
    link := created.link;
  }

  method ExampleSession(gen: nat -> string, t0: nat, t1: nat, t2: nat, t3: nat)
    requires 0 < |gen(0)| <= ShortUrlWidth
  {
    var db, link := ExampleCreate(gen, t0);
    var code := link.shortUrl;
    var r1 := RedirectLink(db, code, t1);
    assert db.rows[0] == link.(clickCount := 1, clickTimestamps := [t1]);
    var r2 := RedirectLink(db, code, t2);
    assert db.rows[0] == link.(clickCount := 2, clickTimestamps := [t1, t2]);
    var r3 := RedirectLink(db, code, t3);
    assert db.rows[0] == link.(clickCount := 3, clickTimestamps := [t1, t2, t3]);
    assert r3 == Redirect("https://example.com");
    var stats := GetLinkStats(db, code);
    FindUnique(db.rows, 0);
    assert stats == Stats(db.rows[0]);
    assert stats.link.clickCount == 3 && stats.link.clickTimestamps == [t1, t2, t3];
    var gone := DeleteLink(db, code);
    assert gone == Deleted(LinkDeletedMessage);
    var again := RedirectLink(db, code, t3);
    assert again == NotFound(RedirectNotFound);
    assert GetLinkStats(db, code) == NotFound(LinkNotFound);
  }
}
