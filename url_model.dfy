/** The `Url` record of backend/models/Url.js and the table of such records that the
    controller works against.  Pure: the record datatype, the schema constraints as
    predicates over a table, and the table operations (lookup by short code,
    UPDATE and DELETE by primary key) as functions with the lemmas about them. */
module UrlModel {

  datatype Option<T> = None | Some(value: T)

  /** One row of the `Urls` table.  Timestamps are abstract naturals. */
  datatype Url = Url(
    id: nat,                     // INTEGER, auto-incremented primary key
    shortUrl: string,            // STRING(10), unique, not null
    longUrl: string,             // TEXT, not null
    clickCount: nat,             // INTEGER, default 0
    clickTimestamps: seq<nat>,   // ARRAY(DATE), default []
    createdAt: nat)              // DATE, default NOW

  /** The attributes handed to `Url.create`; an absent attribute takes its column default. */
  datatype NewUrl = NewUrl(
    longUrl: string,
    shortUrl: string,
    clickCount: Option<nat>,
    clickTimestamps: Option<seq<nat>>)

  /** The declared width of the `shortUrl` column, STRING(10). */
  const ShortUrlWidth: nat := 10

  /** The row `Url.create(attrs)` builds, with the schema defaults filled in and
      `id`, `createdAt` supplied by the database. */
  function WithDefaults(attrs: NewUrl, id: nat, now: nat): (u: Url)
    ensures u.id == id && u.createdAt == now
    ensures u.shortUrl == attrs.shortUrl && u.longUrl == attrs.longUrl
    ensures attrs.clickCount.None? ==> u.clickCount == 0
    ensures attrs.clickTimestamps.None? ==> u.clickTimestamps == []
    // attributes given explicitly are stored as given
    ensures attrs.clickCount.Some? ==> u.clickCount == attrs.clickCount.value
    ensures attrs.clickTimestamps.Some? ==> u.clickTimestamps == attrs.clickTimestamps.value
  {
    var count := match attrs.clickCount case None => 0 case Some(c) => c;
    var stamps := match attrs.clickTimestamps case None => [] case Some(ts) => ts;
    Url(id, attrs.shortUrl, attrs.longUrl, count, stamps, now)
  }

  // ---------------------------------------------------------------------------
  // Schema constraints

  predicate FitsColumn(u: Url) {
    |u.shortUrl| <= ShortUrlWidth
  }

  predicate UniqueShortUrls(rows: seq<Url>) {
    forall i, j :: 0 <= i < j < |rows| ==> rows[i].shortUrl != rows[j].shortUrl
  }

  predicate UniqueIds(rows: seq<Url>) {
    forall i, j :: 0 <= i < j < |rows| ==> rows[i].id != rows[j].id
  }

  /** Every row fits its columns, and both unique keys are unique. */
  predicate SchemaValid(rows: seq<Url>) {
    (forall i :: 0 <= i < |rows| ==> FitsColumn(rows[i]))
    && UniqueShortUrls(rows) && UniqueIds(rows)
  }

  /** The invariant the controller keeps on top of the schema: every stored link has a
      non-empty target and a click count equal to the length of its click history. */
  predicate LinksConsistent(rows: seq<Url>) {
    forall i :: 0 <= i < |rows| ==>
      rows[i].longUrl != "" && rows[i].clickCount == |rows[i].clickTimestamps|
  }

  predicate Chronological(ts: seq<nat>) {
    forall i, j :: 0 <= i < j < |ts| ==> ts[i] <= ts[j]
  }

  /** Some row carries `code` as its short code. */
  predicate Taken(rows: seq<Url>, code: string) {
    exists i :: 0 <= i < |rows| && rows[i].shortUrl == code
  }

  // ---------------------------------------------------------------------------
  // findOne({ where: { shortUrl: code } })

  /** The position of the first row whose short code is `code`. */
  function IndexOf(rows: seq<Url>, code: string): (r: Option<nat>)
    ensures r.None? <==> !Taken(rows, code)
    ensures r.Some? ==> r.value < |rows| && rows[r.value].shortUrl == code
    ensures r.Some? ==> forall j :: 0 <= j < r.value ==> rows[j].shortUrl != code
  {
    if rows == [] then None
    else if rows[0].shortUrl == code then Some(0)
    else
      match IndexOf(rows[1..], code)
      case None =>
        assert forall i :: 1 <= i < |rows| ==> rows[i] == rows[1..][i - 1];
        None
      case Some(k) => Some(k + 1)
  }

  /** `Url.findOne({ where: { shortUrl: code } })`. */
  function Find(rows: seq<Url>, code: string): (r: Option<Url>)
    ensures r.None? <==> !Taken(rows, code)
    ensures r.Some? ==> r.value in rows && r.value.shortUrl == code
  {
    match IndexOf(rows, code)
    case None => None
    case Some(k) => Some(rows[k])
  }

  /** With unique short codes, the lookup finds the one row that carries the code. */
  lemma FindUnique(rows: seq<Url>, k: nat)
    requires UniqueShortUrls(rows)
    requires k < |rows|
    ensures IndexOf(rows, rows[k].shortUrl) == Some(k)
    ensures Find(rows, rows[k].shortUrl) == Some(rows[k])
  {
    var r := IndexOf(rows, rows[k].shortUrl);
    assert r.Some?;
    assert r.value >= k;
  }

  // ---------------------------------------------------------------------------
  // link.update({ clickCount, clickTimestamps }): UPDATE ... WHERE id = link.id

  function SetClicks(rows: seq<Url>, id: nat, count: nat, stamps: seq<nat>): (r: seq<Url>)
    ensures |r| == |rows|
    ensures forall i {:trigger r[i]} :: 0 <= i < |rows| ==>
      r[i] == if rows[i].id == id then rows[i].(clickCount := count, clickTimestamps := stamps) else rows[i]
  {
    if rows == [] then []
    else
      var head := if rows[0].id == id then rows[0].(clickCount := count, clickTimestamps := stamps)
                  else rows[0];
      var tail := SetClicks(rows[1..], id, count, stamps);
      assert forall i :: 1 <= i < |rows| ==> rows[i] == rows[1..][i - 1] && ([head] + tail)[i] == tail[i - 1];
      [head] + tail
  }

  /** The update touches only the click columns, so both unique keys, the column widths
      and every row's `createdAt` survive it. */
  lemma SetClicksKeepsSchema(rows: seq<Url>, id: nat, count: nat, stamps: seq<nat>)
    requires SchemaValid(rows)
    ensures SchemaValid(SetClicks(rows, id, count, stamps))
    ensures forall i :: 0 <= i < |rows| ==>
      SetClicks(rows, id, count, stamps)[i].createdAt == rows[i].createdAt
  {
    var r := SetClicks(rows, id, count, stamps);
    assert forall i :: 0 <= i < |rows| ==>
      r[i].id == rows[i].id && r[i].shortUrl == rows[i].shortUrl && r[i].createdAt == rows[i].createdAt;
  }

  // ---------------------------------------------------------------------------
  // link.destroy(): DELETE ... WHERE id = link.id

  function RemoveId(rows: seq<Url>, id: nat): (r: seq<Url>)
    ensures |r| <= |rows|
  {
    if rows == [] then []
    else (if rows[0].id == id then [] else [rows[0]]) + RemoveId(rows[1..], id)
  }

  /** The rows that survive the delete are exactly those with another key. */
  lemma {:induction false} RemoveIdMembers(rows: seq<Url>, id: nat, u: Url)
    ensures u in RemoveId(rows, id) <==> u in rows && u.id != id
  {
    if rows != [] {
      RemoveIdMembers(rows[1..], id, u);
      assert u in rows <==> u == rows[0] || u in rows[1..];
    }
  }

  lemma {:induction false} RemoveAbsentId(rows: seq<Url>, id: nat)
    requires forall i :: 0 <= i < |rows| ==> rows[i].id != id
    ensures RemoveId(rows, id) == rows
  {
    if rows != [] {
      RemoveAbsentId(rows[1..], id);
      assert [rows[0]] + rows[1..] == rows;
    }
  }

  /** Deleting by a primary key that occurs at position `k` removes exactly that row
      and keeps the others in their order. */
  lemma {:induction false} RemoveUniqueId(rows: seq<Url>, k: nat)
    requires UniqueIds(rows)
    requires k < |rows|
    ensures RemoveId(rows, rows[k].id) == rows[..k] + rows[k + 1..]
  {
    var id := rows[k].id;
    var tail := rows[1..];
    assert UniqueIds(tail) by {
      assert forall i :: 0 <= i < |tail| ==> tail[i] == rows[i + 1];
    }
    if k == 0 {
      assert forall i :: 0 <= i < |tail| ==> tail[i].id != id by {
        assert forall i :: 0 <= i < |tail| ==> tail[i] == rows[i + 1];
      }
      RemoveAbsentId(tail, id);
    } else {
      assert tail[k - 1] == rows[k];
      RemoveUniqueId(tail, k - 1);
      assert rows[0].id != id;
      assert tail[..k - 1] + tail[k..] == rows[1..k] + rows[k + 1..];
      assert [rows[0]] + rows[1..k] == rows[..k];
    }
  }

  /** Dropping one row keeps every schema constraint and the controller's invariant. */
  lemma DropKeepsInvariants(rows: seq<Url>, k: nat)
    requires k < |rows|
    ensures SchemaValid(rows) ==> SchemaValid(rows[..k] + rows[k + 1..])
    ensures LinksConsistent(rows) ==> LinksConsistent(rows[..k] + rows[k + 1..])
  {
    var r := rows[..k] + rows[k + 1..];
    assert forall i :: 0 <= i < |r| ==> r[i] == rows[if i < k then i else i + 1];
  }

  // ---------------------------------------------------------------------------
  // The table after one redirect, and after one delete, on a short code

  /** `redirectLink`: load the row, then write back count + 1 and the history with
      `now` appended, computed from the loaded copy. */
  function Click(rows: seq<Url>, code: string, now: nat): (r: seq<Url>)
    ensures |r| == |rows|
  {
    match Find(rows, code)
    case None => rows
    case Some(link) => SetClicks(rows, link.id, link.clickCount + 1, link.clickTimestamps + [now])
  }

  /** `deleteLink`: load the row, then delete it by its primary key. */
  function Delete(rows: seq<Url>, code: string): (r: seq<Url>)
    ensures |r| <= |rows|
    ensures !Taken(rows, code) ==> r == rows
  {
    match Find(rows, code)
    case None => rows
    case Some(link) => RemoveId(rows, link.id)
  }

  /** A redirect on a known code counts one click on exactly that row: its count goes
      up by one, `now` is appended after the earlier timestamps, every other row and
      every other column stays as it was. */
  lemma ClickEffect(rows: seq<Url>, code: string, now: nat, k: nat)
    requires SchemaValid(rows)
    requires k < |rows| && rows[k].shortUrl == code
    ensures |Click(rows, code, now)| == |rows|
    ensures Click(rows, code, now)[k] ==
      rows[k].(clickCount := rows[k].clickCount + 1, clickTimestamps := rows[k].clickTimestamps + [now])
    ensures forall i :: 0 <= i < |rows| && i != k ==> Click(rows, code, now)[i] == rows[i]
  {
    FindUnique(rows, k);
  }

  /** A redirect on an unknown code changes nothing. */
  lemma ClickUnknown(rows: seq<Url>, code: string, now: nat)
    requires !Taken(rows, code)
    ensures Click(rows, code, now) == rows
  {
  }

  /** A redirect keeps the schema: it touches only the click columns. */
  lemma ClickKeepsSchema(rows: seq<Url>, code: string, now: nat)
    requires SchemaValid(rows)
    ensures SchemaValid(Click(rows, code, now))
  {
    var found := Find(rows, code);
    if found.Some? {
      var link := found.value;
      SetClicksKeepsSchema(rows, link.id, link.clickCount + 1, link.clickTimestamps + [now]);
      assert Click(rows, code, now) == SetClicks(rows, link.id, link.clickCount + 1, link.clickTimestamps + [now]);
    }
  }

  /** A redirect keeps the schema and the controller's invariant; in particular it keeps
      `clickCount == |clickTimestamps|`. */
  lemma ClickKeepsInvariants(rows: seq<Url>, code: string, now: nat)
    requires SchemaValid(rows)
    ensures SchemaValid(Click(rows, code, now))
    ensures LinksConsistent(rows) ==> LinksConsistent(Click(rows, code, now))
    ensures forall i :: 0 <= i < |rows| ==> Click(rows, code, now)[i].createdAt == rows[i].createdAt
  {
    ClickKeepsSchema(rows, code, now);
    if k :| 0 <= k < |rows| && rows[k].shortUrl == code {
      ClickEffect(rows, code, now, k);
    } else {
      ClickUnknown(rows, code, now);
    }
  }

  /** A redirect whose clock reads no earlier than the last recorded click keeps the
      history in chronological order. */
  lemma ClickKeepsChronological(rows: seq<Url>, code: string, now: nat, k: nat)
    requires SchemaValid(rows)
    requires k < |rows| && rows[k].shortUrl == code
    requires Chronological(rows[k].clickTimestamps)
    requires forall t :: t in rows[k].clickTimestamps ==> t <= now
    ensures Chronological(Click(rows, code, now)[k].clickTimestamps)
  {
    ClickEffect(rows, code, now, k);
    var ts := rows[k].clickTimestamps;
    assert forall i :: 0 <= i < |ts| ==> ts[i] in ts;
  }

  /** The table after redirects on `code` at the instants `times`, in order. */
  function Clicks(rows: seq<Url>, code: string, times: seq<nat>): (r: seq<Url>)
    ensures |r| == |rows|
    decreases |times|
  {
    if times == [] then rows
    else Clicks(Click(rows, code, times[0]), code, times[1..])
  }

  /** After n redirects on a known code its row has counted exactly n more clicks, and
      the history is the old one followed by the n instants in order: no click is lost
      when the requests run one after another. */
  lemma {:induction false} ClicksAccumulate(rows: seq<Url>, code: string, times: seq<nat>, k: nat)
    requires SchemaValid(rows)
    requires k < |rows| && rows[k].shortUrl == code
    ensures |Clicks(rows, code, times)| == |rows|
    ensures Clicks(rows, code, times)[k] ==
      rows[k].(clickCount := rows[k].clickCount + |times|, clickTimestamps := rows[k].clickTimestamps + times)
    decreases |times|
  {
    if times == [] {
      assert rows[k].clickTimestamps + [] == rows[k].clickTimestamps;
    } else {
      var t, rest := times[0], times[1..];
      assert rows[k].clickTimestamps + [t] + rest == rows[k].clickTimestamps + times by {
        assert times == [t] + rest;
      }
      var next := Click(rows, code, t);
      var row := rows[k].(clickCount := rows[k].clickCount + 1, clickTimestamps := rows[k].clickTimestamps + [t]);
      assert SchemaValid(next) && k < |next| && next[k] == row by {
        ClickKeepsSchema(rows, code, t);
        ClickEffect(rows, code, t, k);
      }
      ClicksAccumulate(next, code, rest, k);
    }
  }

  /** Redirects on one code leave every other row as it was. */
  lemma {:induction false} ClicksLeaveOthers(rows: seq<Url>, code: string, times: seq<nat>, k: nat)
    requires SchemaValid(rows)
    requires k < |rows| && rows[k].shortUrl == code
    ensures |Clicks(rows, code, times)| == |rows|
    ensures forall i :: 0 <= i < |rows| && i != k ==> Clicks(rows, code, times)[i] == rows[i]
    decreases |times|
  {
    if times != [] {
      ClickKeepsSchema(rows, code, times[0]);
      ClickEffect(rows, code, times[0], k);
      ClicksLeaveOthers(Click(rows, code, times[0]), code, times[1..], k);
    }
  }

  /** Once deleted, a code is no longer found. */
  lemma DeleteRemovesCode(rows: seq<Url>, code: string)
    requires SchemaValid(rows)
    ensures !Taken(Delete(rows, code), code)
  {
    match IndexOf(rows, code)
    case None =>
    case Some(k) =>
      var r := Delete(rows, code);
      assert r == RemoveId(rows, rows[k].id);
      forall i | 0 <= i < |r| ensures r[i].shortUrl != code {
        RemoveIdMembers(rows, rows[k].id, r[i]);
        var j :| 0 <= j < |rows| && rows[j] == r[i];
        assert j != k;
      }
  }

  /** After a delete, a redirect on the same code finds nothing and changes nothing. */
  lemma RedirectAfterDelete(rows: seq<Url>, code: string, now: nat)
    requires SchemaValid(rows)
    ensures Find(Delete(rows, code), code).None?
    ensures Click(Delete(rows, code), code, now) == Delete(rows, code)
  {
    DeleteRemovesCode(rows, code);
  }

  /** Deleting a known code removes exactly its row and keeps the others in order;
      deleting an unknown one changes nothing. */
  lemma DeleteEffect(rows: seq<Url>, code: string)
    requires SchemaValid(rows)
    ensures !Taken(rows, code) ==> Delete(rows, code) == rows
    ensures Taken(rows, code) ==>
      var k := IndexOf(rows, code).value;
      Delete(rows, code) == rows[..k] + rows[k + 1..]
    ensures SchemaValid(Delete(rows, code))
    ensures LinksConsistent(rows) ==> LinksConsistent(Delete(rows, code))
  {
    match IndexOf(rows, code)
    case None =>
    case Some(k) =>
      RemoveUniqueId(rows, k);
      DropKeepsInvariants(rows, k);
  }

  // ---------------------------------------------------------------------------
  // What the store needs to keep the schema across INSERT and DELETE

  /** Appending a row whose key is above every existing key and whose short code fits
      its column and is not yet taken keeps the schema. */
  lemma AppendKeepsSchema(rows: seq<Url>, u: Url, nextId: nat)
    requires SchemaValid(rows)
    requires forall i :: 0 <= i < |rows| ==> rows[i].id < nextId
    requires u.id == nextId && FitsColumn(u) && !Taken(rows, u.shortUrl)
    ensures SchemaValid(rows + [u])
  {
    var r := rows + [u];
    assert forall i :: 0 <= i < |rows| ==> r[i] == rows[i];
  }

  /** DELETE by any key keeps the schema and the controller's invariant, and removes no
      row it should keep and adds none. */
  lemma RemoveIdKeepsInvariants(rows: seq<Url>, id: nat)
    requires SchemaValid(rows)
    ensures SchemaValid(RemoveId(rows, id))
    ensures LinksConsistent(rows) ==> LinksConsistent(RemoveId(rows, id))
    ensures forall u :: u in RemoveId(rows, id) <==> u in rows && u.id != id
  {
    forall u {
      RemoveIdMembers(rows, id, u);
    }
    if k :| 0 <= k < |rows| && rows[k].id == id {
      RemoveUniqueId(rows, k);
      DropKeepsInvariants(rows, k);
    } else {
      RemoveAbsentId(rows, id);
    }
  }
}
