/** The favorites page: the list of favorite destination queries kept in the
    browser's durable key-value storage under one fixed key, its removal
    operation, and the listing rendered from it. */
module Favorites {
  import opened Wrappers
  import opened Filter
  import opened Links

  /** The one storage key the favorites page reads and writes. */
  const FavoritesKey: string := "travelExplorerFavorites"

  /** What a storage slot can hold: the empty string, the serialization of
      an array of strings (strings free of lone surrogates, which is all a
      Dafny string can be), or any other text: unparseable text, JSON of
      another shape, or an array holding a lone-surrogate string. */
  datatype Blob = Blank | Encoded(items: seq<string>) | Malformed(raw: string)

  /** Durable storage: a missing key is a key outside the map. */
  type Storage = map<string, Blob>

  /** The stored text is not the serialization of an array of strings; the
      read is reported as failed. */
  datatype ReadError = Unparseable(raw: string)

  /** True when `s` and `t` agree on every key other than `key`. */
  ghost predicate SameOutside(s: Storage, t: Storage, key: string)
  {
    forall k :: k != key ==> (k in s <==> k in t) && (k in s ==> s[k] == t[k])
  }

  /** `getFavorites`: a missing or empty slot reads as the empty list; a
      malformed one makes the read fail rather than read as empty. */
  function GetFavorites(store: Storage): (r: Result<seq<string>, ReadError>)
    ensures FavoritesKey !in store ==> r == Success([])
    ensures FavoritesKey in store && store[FavoritesKey] == Blank ==> r == Success([])
    ensures r.Failure? <==> FavoritesKey in store && store[FavoritesKey].Malformed?
  {
    if FavoritesKey !in store then Success([])
    else match store[FavoritesKey]
      case Blank => Success([])
      case Encoded(items) => Success(items)
      case Malformed(raw) => Failure(Unparseable(raw))
  }

  /** `localStorage.setItem(FAVORITES_KEY, JSON.stringify(favs))`: the list
      reads back unchanged and no other key is touched. */
  function Persist(store: Storage, favs: seq<string>): (r: Storage)
    ensures GetFavorites(r) == Success(favs)
    ensures SameOutside(store, r, FavoritesKey)
    ensures r.Keys == store.Keys + {FavoritesKey}
  {
    store[FavoritesKey := Encoded(favs)]
  }

  /** `removeFavorite`: read the list, drop every entry equal to `query`,
      write the rest back under the same key. A failed read propagates and
      nothing is written. */
  function RemoveFavorite(store: Storage, query: string): (r: Result<Storage, ReadError>)
    ensures r.Failure? <==> GetFavorites(store).Failure?
    ensures r.Failure? ==> r == GetFavorites(store).PropagateFailure()
    ensures r.Success? ==> SameOutside(store, r.value, FavoritesKey)
    ensures r.Success? ==>
      FavoritesKey in r.value && r.value[FavoritesKey].Encoded?
    ensures r.Success? ==>
      var before := GetFavorites(store).value;
      && GetFavorites(r.value).Success?
      && var after := GetFavorites(r.value).value;
      && query !in after
      && IsSubsequence(after, before)
      && multiset(after) == multiset(before)[query := 0]
      && |after| == |before| - Count(before, query)
  {
    var favs :- GetFavorites(store);
    WithoutIsSubsequence(favs, query);
    WithoutMultiset(favs, query);
    Success(Persist(store, Without(favs, query)))
  }

  /** A successful removal is the write of the filtered list. */
  lemma RemoveIsWrite(store: Storage, query: string)
    requires GetFavorites(store).Success?
    ensures RemoveFavorite(store, query)
         == Success(store[FavoritesKey := Encoded(Without(GetFavorites(store).value, query))])
  {
  }

  /** The list written back is exactly the filtered list read. */
  lemma RemoveWritesFiltered(store: Storage, query: string)
    requires GetFavorites(store).Success?
    ensures RemoveFavorite(store, query).Success?
    ensures GetFavorites(RemoveFavorite(store, query).value)
         == Success(Without(GetFavorites(store).value, query))
  {
    var before := GetFavorites(store).value;
    var after := GetFavorites(RemoveFavorite(store, query).value).value;
    WithoutUnique(after, before, query);
  }

  /** Removing a query that is not stored writes back the identical list
      (the slot itself becomes `Encoded`, even if it was missing or blank). */
  lemma RemoveAbsentKeepsList(store: Storage, query: string)
    requires GetFavorites(store).Success?
    requires query !in GetFavorites(store).value
    ensures RemoveFavorite(store, query).Success?
    ensures RemoveFavorite(store, query).value[FavoritesKey] == Encoded(GetFavorites(store).value)
  {
    RemoveIsWrite(store, query);
    WithoutAbsent(GetFavorites(store).value, query);
  }

  /** Removing the same query twice leaves the same storage as removing it
      once. */
  lemma RemoveIdempotent(store: Storage, query: string)
    requires GetFavorites(store).Success?
    ensures RemoveFavorite(store, query).Success?
    ensures RemoveFavorite(RemoveFavorite(store, query).value, query) == RemoveFavorite(store, query)
  {
    RemoveTwice(store, query, query);
    RemoveIsWrite(store, query);
    WithoutIdempotent(GetFavorites(store).value, query);
  }

  /** Removing from a slot that was just written filters the written list,
      and the second write replaces the first. */
  lemma RemoveAfterWrite(store: Storage, w: seq<string>, q: string)
    ensures RemoveFavorite(store[FavoritesKey := Encoded(w)], q)
         == Success(store[FavoritesKey := Encoded(Without(w, q))])
  {
    var written := store[FavoritesKey := Encoded(w)];
    assert GetFavorites(written) == Success(w);
    RemoveIsWrite(written, q);
    OverwriteTwice(store, FavoritesKey, Encoded(w), Encoded(Without(w, q)));
  }

  /** A second write to a key replaces the first. */
  lemma OverwriteTwice(store: Storage, key: string, first: Blob, second: Blob)
    ensures store[key := first][key := second] == store[key := second]
  {
  }

  /** Two removals in a row are one write of the twice-filtered list. */
  lemma RemoveTwice(store: Storage, p: string, q: string)
    requires GetFavorites(store).Success?
    ensures RemoveFavorite(store, p).Success?
    ensures RemoveFavorite(RemoveFavorite(store, p).value, q)
         == Success(store[FavoritesKey := Encoded(Without(Without(GetFavorites(store).value, p), q))])
  {
    RemoveIsWrite(store, p);
    RemoveAfterWrite(store, Without(GetFavorites(store).value, p), q);
  }

  /** Removing two queries gives the same storage in either order. */
  lemma RemoveCommutes(store: Storage, p: string, q: string)
    requires GetFavorites(store).Success?
    ensures RemoveFavorite(store, p).Success? && RemoveFavorite(store, q).Success?
    ensures RemoveFavorite(RemoveFavorite(store, p).value, q)
         == RemoveFavorite(RemoveFavorite(store, q).value, p)
  {
    RemoveTwice(store, p, q);
    RemoveTwice(store, q, p);
    WithoutCommutes(GetFavorites(store).value, p, q);
  }

  /** Text of the single row shown when there are no favorites. */
  const NoFavoritesText: string := "You have no saved favorites yet."

  /** One list item of the favorites page: the notice, or a favorite with
      its link, its displayed name and the query its remove button removes. */
  datatype Row = Notice(text: string) | Entry(query: string, href: string, name: string)

  /** The item shown for an empty favorites list. */
  const NoFavoritesRow: Row := Notice(NoFavoritesText)

  /** The item rendered for one stored query (`decode` stands for
      `decodeURIComponent`). */
  function EntryFor(query: string, encode: string -> string, decode: string -> string): (row: Row)
    ensures row.Entry? && row.query == query && row.name == decode(query)
    ensures |row.href| == |DestinationPrefix| + |encode(query)|
    ensures row.href[..|DestinationPrefix|] == DestinationPrefix
    ensures row.href[|DestinationPrefix|..] == encode(query)
  {
    Entry(query, DestinationLink(query, encode), decode(query))
  }

  /** The `forEach` over the stored list: one entry per query, in order. */
  function EntryRows(favs: seq<string>, encode: string -> string, decode: string -> string): (rows: seq<Row>)
    ensures |rows| == |favs|
    ensures forall i | 0 <= i < |favs| :: rows[i] == EntryFor(favs[i], encode, decode)
  {
    if favs == [] then []
    else [EntryFor(favs[0], encode, decode)] + EntryRows(favs[1..], encode, decode)
  }

  /** The queries of the entry rows, in order; notices contribute nothing. */
  function Queries(rows: seq<Row>): seq<string>
  {
    if rows == [] then []
    else (if rows[0].Entry? then [rows[0].query] else []) + Queries(rows[1..])
  }

  /** The rows `displayFavorites` renders for a list it has read. */
  function Rows(favs: seq<string>, encode: string -> string, decode: string -> string): (rows: seq<Row>)
    ensures rows == [NoFavoritesRow] <==> favs == []
    ensures NoFavoritesRow in rows ==> rows == [NoFavoritesRow]
    ensures favs != [] ==> |rows| == |favs|
  {
    if |favs| == 0 then [NoFavoritesRow] else EntryRows(favs, encode, decode)
  }

  /** Reading the queries back off the rendered rows gives the stored list:
      nothing is lost, duplicated or reordered. */
  lemma {:induction false} RowsQueries(favs: seq<string>, encode: string -> string, decode: string -> string)
    ensures Queries(Rows(favs, encode, decode)) == favs
  {
    if favs != [] {
      EntryRowsQueries(favs, encode, decode);
    }
  }

  /** The same for the entry rows alone, by induction over the list. */
  lemma {:induction false} EntryRowsQueries(favs: seq<string>, encode: string -> string, decode: string -> string)
    ensures Queries(EntryRows(favs, encode, decode)) == favs
  {
    if favs != [] {
      var rows := EntryRows(favs, encode, decode);
      assert rows[1..] == EntryRows(favs[1..], encode, decode);
      EntryRowsQueries(favs[1..], encode, decode);
    }
  }

  /** `displayFavorites`: read the list and project it to rows. A failed read
      renders nothing new. */
  function Listing(store: Storage, encode: string -> string, decode: string -> string): (r: Result<seq<Row>, ReadError>)
    ensures r.Failure? <==> GetFavorites(store).Failure?
    ensures r.Success? ==> Queries(r.value) == GetFavorites(store).value
    ensures r.Success? ==> (r.value == [NoFavoritesRow] <==> GetFavorites(store).value == [])
    ensures r.Success? ==> (NoFavoritesRow in r.value ==> r.value == [NoFavoritesRow])
    ensures r.Success? && GetFavorites(store).value != [] ==>
      var favs := GetFavorites(store).value;
      && |r.value| == |favs|
      && forall i | 0 <= i < |favs| :: r.value[i] == EntryFor(favs[i], encode, decode)
  {
    var favs :- GetFavorites(store);
    RowsQueries(favs, encode, decode);
    Success(Rows(favs, encode, decode))
  }

  /** The remove button: `removeFavorite(query)` then `displayFavorites()`.
      Yields the new storage and the re-rendered rows. */
  function OnRemoveClicked(store: Storage, query: string, encode: string -> string, decode: string -> string)
    : (r: Result<(Storage, seq<Row>), ReadError>)
    ensures r.Failure? <==> GetFavorites(store).Failure?
    ensures r.Success? ==> SameOutside(store, r.value.0, FavoritesKey)
    ensures r.Success? ==>
      FavoritesKey in r.value.0 && r.value.0[FavoritesKey] == Encoded(Queries(r.value.1))
    ensures r.Success? ==> Queries(r.value.1) == Without(GetFavorites(store).value, query)
    ensures r.Success? ==> query !in Queries(r.value.1)
    ensures r.Success? ==>
      (r.value.1 == [NoFavoritesRow] <==> forall x | x in GetFavorites(store).value :: x == query)
    ensures r.Success? ==> (NoFavoritesRow in r.value.1 ==> r.value.1 == [NoFavoritesRow])
    ensures r.Success? && Without(GetFavorites(store).value, query) != [] ==>
      var kept := Without(GetFavorites(store).value, query);
      && |r.value.1| == |kept|
      && forall i | 0 <= i < |kept| :: r.value.1[i] == EntryFor(kept[i], encode, decode)
  {
    var after :- RemoveFavorite(store, query);
    RemoveWritesFiltered(store, query);
    WithoutEmpty(GetFavorites(store).value, query);
    // The re-read sees the list just written, so it cannot fail.
    var rows := Listing(after, encode, decode).value;
    Success((after, rows))
  }
}
