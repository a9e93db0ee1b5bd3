/** The `Urls` table as the controller reaches it through Sequelize: `Url.create`,
    `instance.update` and `instance.destroy` change it; `Url.findOne` and `Url.findAll`
    only read it and are the pure functions `Find` and `rows` itself. */
module UrlStore {
  import opened UrlModel

  class UrlTable {
    /** The stored rows, in insertion order. */
    var rows: seq<Url>
    /** The next value of the `id` sequence (SERIAL starts at 1). */
    var nextId: nat

    /** The schema's constraints hold, and every key already handed out is below the
        sequence's next value. */
    ghost predicate Valid()
      reads this
    {
      SchemaValid(rows) && forall i :: 0 <= i < |rows| ==> rows[i].id < nextId
    }

    constructor ()
      ensures Valid()
      ensures rows == [] && nextId == 1
    {
      rows := [];
      nextId := 1;
    }

    /** `Url.create(attrs)`: INSERT one row with the defaults filled in.  The database
        refuses a short code that is already taken (unique) or wider than STRING(10). */
    method Create(attrs: NewUrl, now: nat) returns (r: Option<Url>)
      requires Valid()
      modifies this
      ensures Valid()
      ensures r.None? <==> |attrs.shortUrl| > ShortUrlWidth || Taken(old(rows), attrs.shortUrl)
      ensures r.None? ==> rows == old(rows) && nextId == old(nextId)
      ensures r.Some? ==>
        r.value == WithDefaults(attrs, old(nextId), now) &&
        rows == old(rows) + [r.value] && nextId == old(nextId) + 1
      ensures r.Some? ==> forall i :: 0 <= i < |old(rows)| ==> old(rows)[i].id != r.value.id
    {
      if |attrs.shortUrl| > ShortUrlWidth || Find(rows, attrs.shortUrl).Some? {
        return None;
      }
      var u := WithDefaults(attrs, nextId, now);
      AppendKeepsSchema(rows, u, nextId);
      rows := rows + [u];
      nextId := nextId + 1;
      return Some(u);
    }

    /** `instance.update({ clickCount, clickTimestamps })`: UPDATE the row with this key. */
    method Update(id: nat, count: nat, stamps: seq<nat>)
      requires Valid()
      modifies this
      ensures Valid() && nextId == old(nextId)
      ensures rows == SetClicks(old(rows), id, count, stamps)
    {
      SetClicksKeepsSchema(rows, id, count, stamps);
      rows := SetClicks(rows, id, count, stamps);
    }

    /** `instance.destroy()`: DELETE the row with this key. */
    method Destroy(id: nat)
      requires Valid()
      modifies this
      ensures Valid() && nextId == old(nextId)
      ensures rows == RemoveId(old(rows), id)
    {
      RemoveIdKeepsInvariants(rows, id);
      rows := RemoveId(rows, id);
    }
  }
}
