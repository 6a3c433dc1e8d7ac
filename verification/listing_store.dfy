/** The listing table behind `database/database_manager.py`
    (`save_listing`, `update_listing`).

    The table is a map from row id to row. Its `url` column is unique
    (`database/models.py`), and ids are handed out by the database from a
    counter above every id in use. Timestamps and prices are carried as
    opaque values. */
module ListingStore {
  import opened Util

  /** One `listing` row, without its id. */
  datatype Listing = Listing(url: string, accessedTime: int, title: string, price: int)

  datatype Table = Table(rows: map<int, Listing>, nextId: int)

  /** The unique constraint on `listing.url`. */
  predicate UrlsUnique(rows: map<int, Listing>) {
    forall a, b :: a in rows && b in rows && rows[a].url == rows[b].url ==> a == b
  }

  /** What the database guarantees of the table between transactions. */
  predicate Valid(t: Table) {
    && UrlsUnique(t.rows)
    && forall id :: id in t.rows ==> id < t.nextId
  }

  predicate HasUrl(rows: map<int, Listing>, url: string) {
    exists id :: id in rows && rows[id].url == url
  }

  /** `select(Listing).where(Listing.url == url).limit(1)`: the id of the row
      holding `url`, if there is one. */
  function IdOfUrl(t: Table, url: string): (r: Option<int>)
    requires Valid(t)
    ensures r.Some? <==> HasUrl(t.rows, url)
    ensures r.Some? ==> r.value in t.rows && t.rows[r.value].url == url
  {
    if HasUrl(t.rows, url) then
      var id :| id in t.rows && t.rows[id].url == url;
      Some(id)
    else None
  }

  /** The table after a call together with the id the call returned. */
  datatype Saved = Saved(table: Table, id: int)

  /** `save_listing`: insert the row and return its new id; when the insert
      violates the unique constraint on `url`, roll back and return the id of
      the row already holding that url. */
  function SaveListing(t: Table, listing: Listing): (r: Saved)
    requires Valid(t)
    ensures Valid(r.table)
    // The returned id names the row that now holds the listing's url, and no other row does.
    ensures r.id in r.table.rows && r.table.rows[r.id].url == listing.url
    ensures forall id :: id in r.table.rows && r.table.rows[id].url == listing.url ==> id == r.id
    // A new url adds exactly one row, holding the listing, under a fresh id.
    ensures !HasUrl(t.rows, listing.url) ==>
              && r.id !in t.rows
              && r.table.rows == t.rows[r.id := listing]
              && |r.table.rows| == |t.rows| + 1
    // A known url leaves the table as it was.
    ensures HasUrl(t.rows, listing.url) ==> r.table == t && r.id in t.rows
  {
    match IdOfUrl(t, listing.url)
    case Some(existing) => Saved(t, existing)
    case None =>
      var id := t.nextId;
      Saved(Table(t.rows[id := listing], t.nextId + 1), id)
  }

  /** Saving the same listing twice is the same as saving it once. */
  lemma SaveListingIdempotent(t: Table, listing: Listing)
    requires Valid(t)
    ensures var first := SaveListing(t, listing);
            SaveListing(first.table, listing) == first
  {
  }

  /** Saving any listing never removes or alters an existing row. */
  lemma SaveListingKeepsRows(t: Table, listing: Listing, id: int)
    requires Valid(t)
    requires id in t.rows
    ensures id in SaveListing(t, listing).table.rows
    ensures SaveListing(t, listing).table.rows[id] == t.rows[id]
  {
  }

  datatype UpdateOutcome = Updated(table: Table) | UniqueViolation

  /** `update_listing`: `UPDATE listing SET accessed_time, title, price, url
      WHERE id = listingId`. An id that names no row matches nothing and the
      table is unchanged. Moving the row onto a url another row holds makes
      the database raise an integrity error, which the source does not catch;
      nothing is committed. */
  function UpdateListing(t: Table, listingId: int, accessedTime: int, title: string, price: int, url: string)
    : (r: UpdateOutcome)
    requires Valid(t)
    ensures r.Updated? ==> Valid(r.table)
    ensures r.Updated? ==> r.table.rows.Keys == t.rows.Keys && r.table.nextId == t.nextId
    // Only the addressed row changes, and it takes exactly the new values.
    ensures r.Updated? ==> forall id :: id in t.rows && id != listingId ==> r.table.rows[id] == t.rows[id]
    ensures r.Updated? && listingId in t.rows ==>
              r.table.rows[listingId] == Listing(url, accessedTime, title, price)
    // An unknown id changes nothing.
    ensures listingId !in t.rows ==> r == Updated(t)
    // The update is refused exactly when another row already holds the url.
    ensures r.UniqueViolation? <==>
              listingId in t.rows && exists id :: id in t.rows && id != listingId && t.rows[id].url == url
  {
    if listingId !in t.rows then Updated(t)
    else if exists id :: id in t.rows && id != listingId && t.rows[id].url == url then UniqueViolation
    else Updated(Table(t.rows[listingId := Listing(url, accessedTime, title, price)], t.nextId))
  }

  /** After a successful update the row can be found again under its new url,
      and saving a listing with that url returns the updated row's id. */
  lemma UpdateThenSaveFindsRow(t: Table, listingId: int, accessedTime: int, title: string, price: int,
                               url: string, other: Listing)
    requires Valid(t)
    requires listingId in t.rows
    requires UpdateListing(t, listingId, accessedTime, title, price, url).Updated?
    requires other.url == url
    ensures var t' := UpdateListing(t, listingId, accessedTime, title, price, url).table;
            && IdOfUrl(t', url) == Some(listingId)
            && SaveListing(t', other) == Saved(t', listingId)
  {
  }
}
