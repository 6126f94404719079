/** The favorites list of src/hooks/useFavorites.js: an ordered list of movie
    records, unique by `id`, loaded once from browser storage and written back
    after every change.

    The update bodies (`some`, spread-append, `filter`) are pure functions over
    the list; the hook's state is a class whose methods replace the list the
    way `setFavorites` does. */
module Favorites {
  import opened Optional

  /** A stored movie record: its `id`, the only field the store looks at, and
      the rest of the record (title, poster path, rating, ...) kept verbatim. */
  datatype Movie = Movie(id: int, fields: map<string, string>)

  // ---------------------------------------------------------------------------
  // The update bodies
  // ---------------------------------------------------------------------------

  /** The membership test of `isFavorite` and of the add updater: some entry carries `id`. */
  function HasId(list: seq<Movie>, id: int): (r: bool)
    ensures r <==> exists i :: 0 <= i < |list| && list[i].id == id
  {
    if list == [] then false else list[0].id == id || HasId(list[1..], id)
  }

  /** No two entries share an `id`. */
  ghost predicate UniqueIds(list: seq<Movie>)
  {
    forall i, j :: 0 <= i < j < |list| ==> list[i].id != list[j].id
  }

  /** The `addToFavorites` updater: keep the list if the id is already there,
      otherwise append the movie. */
  function Added(list: seq<Movie>, movie: Movie): seq<Movie>
  {
    if HasId(list, movie.id) then list else list + [movie]
  }

  /** The `removeFromFavorites` updater: keep, in order, the entries whose id differs. */
  function Removed(list: seq<Movie>, id: int): seq<Movie>
  {
    if list == [] then []
    else (if list[0].id != id then [list[0]] else []) + Removed(list[1..], id)
  }

  /** The `toggleFavorite` decision: remove the id if present, add the movie otherwise. */
  function Toggled(list: seq<Movie>, movie: Movie): seq<Movie>
  {
    if HasId(list, movie.id) then Removed(list, movie.id) else Added(list, movie)
  }

  /** `s` is `t` with some entries dropped: order is kept, nothing is added. */
  ghost predicate IsSubsequence(s: seq<Movie>, t: seq<Movie>)
    decreases |t|
  {
    if t == [] then s == []
    else (s != [] && s[0] == t[0] && IsSubsequence(s[1..], t[1..])) || IsSubsequence(s, t[1..])
  }

  // ---------------------------------------------------------------------------
  // Loading
  // ---------------------------------------------------------------------------

  /** What the load effect leaves in `favorites`. `stored` is the text under the
      storage key (None when there is none) and `parse` stands for `JSON.parse`
      (None when it throws). An absent or empty text leaves the initial empty
      list; a parse failure resets it to the empty list; otherwise the parsed
      list is taken as it is. */
  function Load(stored: Option<string>, parse: string -> Option<seq<Movie>>): (r: seq<Movie>)
    ensures stored.None? ==> r == []
    ensures stored.Some? && parse(stored.value).None? ==> r == []
    ensures stored.Some? && stored.value != "" && parse(stored.value).Some? ==> r == parse(stored.value).value
    ensures r != [] ==> stored.Some? && stored.value != "" && parse(stored.value) == Some(r)
  {
    if stored.None? || stored.value == "" then []
    else match parse(stored.value)
      case None => []
      case Some(list) => list
  }

  /** Reloading what was saved gives the same list back, in the same order,
      whenever the serialiser writes non-empty text that the parser reads back. */
  lemma LoadAfterSave(list: seq<Movie>, text: string, parse: string -> Option<seq<Movie>>)
    requires text != "" && parse(text) == Some(list)
    ensures Load(Some(text), parse) == list
  {
  }

  // ---------------------------------------------------------------------------
  // Properties of the update bodies
  // ---------------------------------------------------------------------------

  lemma {:induction false} HasIdAppend(a: seq<Movie>, b: seq<Movie>, id: int)
    ensures HasId(a + b, id) <==> HasId(a, id) || HasId(b, id)
  {
    if HasId(a + b, id) {
      var i :| 0 <= i < |a + b| && (a + b)[i].id == id;
      if i >= |a| {
        assert b[i - |a|].id == id;
      }
    }
    if HasId(a, id) {
      var i :| 0 <= i < |a| && a[i].id == id;
      assert (a + b)[i].id == id;
    }
    if HasId(b, id) {
      var i :| 0 <= i < |b| && b[i].id == id;
      assert (a + b)[|a| + i].id == id;
    }
  }

  /** Adding keeps every earlier entry in place and in order; it changes the
      list exactly when the id is new, and then appends the movie at the end. */
  lemma AddedShape(list: seq<Movie>, movie: Movie)
    ensures var r := Added(list, movie);
      && r[..|list|] == list
      && (r == list <==> HasId(list, movie.id))
      && (r != list ==> r == list + [movie])
  {
  }

  /** After adding, an id is present iff it was present before or it is the
      added movie's. */
  lemma AddedMembership(list: seq<Movie>, movie: Movie, id: int)
    ensures HasId(Added(list, movie), id) <==> HasId(list, id) || id == movie.id
  {
    if !HasId(list, movie.id) {
      HasIdAppend(list, [movie], id);
    }
  }

  /** Adding twice is adding once. */
  lemma AddedIdempotent(list: seq<Movie>, movie: Movie)
    ensures Added(Added(list, movie), movie) == Added(list, movie)
  {
    AddedMembership(list, movie, movie.id);
  }

  /** Adding preserves uniqueness of ids. */
  lemma AddedUnique(list: seq<Movie>, movie: Movie)
    requires UniqueIds(list)
    ensures UniqueIds(Added(list, movie))
  {
  }

  /** Applying the add updater to each movie in turn, as a run of
      `addToFavorites` calls does. */
  function AddAll(list: seq<Movie>, movies: seq<Movie>): seq<Movie>
    decreases |movies|
  {
    if movies == [] then list else AddAll(Added(list, movies[0]), movies[1..])
  }

  /** However many adds, duplicates included, the ids stay unique. */
  lemma {:induction false} AddAllUnique(list: seq<Movie>, movies: seq<Movie>)
    requires UniqueIds(list)
    ensures UniqueIds(AddAll(list, movies))
    decreases |movies|
  {
    if movies != [] {
      AddedUnique(list, movies[0]);
      AddAllUnique(Added(list, movies[0]), movies[1..]);
    }
  }

  /** Removing drops every entry with the id and keeps every other entry, as
      many times as it occurred. */
  lemma {:induction false} RemovedContents(list: seq<Movie>, id: int)
    ensures forall m :: multiset(Removed(list, id))[m] == if m.id == id then 0 else multiset(list)[m]
  {
    if list != [] {
      RemovedContents(list[1..], id);
      assert list == [list[0]] + list[1..];
    }
  }

  /** Removing keeps the remaining entries in their original relative order. */
  lemma {:induction false} RemovedOrder(list: seq<Movie>, id: int)
    ensures IsSubsequence(Removed(list, id), list)
  {
    if list != [] {
      RemovedOrder(list[1..], id);
      if list[0].id != id {
        assert Removed(list, id)[1..] == Removed(list[1..], id);
      } else {
        assert Removed(list, id) == Removed(list[1..], id);
      }
    }
  }

  /** After removing, an id is present iff it was present before and it is not
      the removed one. */
  lemma {:induction false} RemovedMembership(list: seq<Movie>, id: int, other: int)
    ensures HasId(Removed(list, id), other) <==> HasId(list, other) && other != id
  {
    if list != [] {
      RemovedMembership(list[1..], id, other);
      assert list == [list[0]] + list[1..];
      HasIdAppend([list[0]], list[1..], other);
      HasIdAppend(if list[0].id != id then [list[0]] else [], Removed(list[1..], id), other);
    }
  }

  /** Removing an id that is not present leaves the list unchanged. */
  lemma {:induction false} RemovedAbsent(list: seq<Movie>, id: int)
    requires !HasId(list, id)
    ensures Removed(list, id) == list
  {
    if list != [] {
      assert list[0].id != id;
      RemovedAbsent(list[1..], id);
      assert list == [list[0]] + list[1..];
    }
  }

  /** Removing from a concatenation removes from each part. */
  lemma {:induction false} RemovedAppend(a: seq<Movie>, b: seq<Movie>, id: int)
    ensures Removed(a + b, id) == Removed(a, id) + Removed(b, id)
  {
    if a != [] {
      RemovedAppend(a[1..], b, id);
      assert (a + b)[1..] == a[1..] + b;
    } else {
      assert a + b == b;
    }
  }

  /** Removing preserves uniqueness of ids. */
  lemma {:induction false} RemovedUnique(list: seq<Movie>, id: int)
    requires UniqueIds(list)
    ensures UniqueIds(Removed(list, id))
  {
    if list != [] {
      RemovedUnique(list[1..], id);
      if list[0].id != id {
        var rest := Removed(list[1..], id);
        RemovedMembership(list[1..], id, list[0].id);
        assert !HasId(list[1..], list[0].id);
        assert forall k :: 0 <= k < |rest| ==> rest[k].id != list[0].id;
      }
    }
  }

  /** Toggling flips the membership of the movie's id and leaves every other
      id's membership as it was. */
  lemma ToggledFlips(list: seq<Movie>, movie: Movie, id: int)
    ensures HasId(Toggled(list, movie), id) <==> (if id == movie.id then !HasId(list, id) else HasId(list, id))
  {
    if HasId(list, movie.id) {
      RemovedMembership(list, movie.id, id);
    } else {
      AddedMembership(list, movie, id);
    }
  }

  /** Toggling a movie whose id is absent twice restores the list exactly. */
  lemma ToggleTwiceAbsent(list: seq<Movie>, movie: Movie)
    requires !HasId(list, movie.id)
    ensures Toggled(Toggled(list, movie), movie) == list
  {
    var once := list + [movie];
    assert Toggled(list, movie) == once;
    HasIdAppend(list, [movie], movie.id);
    RemovedAppend(list, [movie], movie.id);
    RemovedAbsent(list, movie.id);
  }

  /** Toggling a movie whose id is present twice keeps the id but moves the
      entry to the end, now holding the record that was passed in. */
  lemma ToggleTwicePresent(list: seq<Movie>, movie: Movie)
    requires HasId(list, movie.id)
    ensures Toggled(Toggled(list, movie), movie) == Removed(list, movie.id) + [movie]
  {
    RemovedMembership(list, movie.id, movie.id);
  }

  /** Toggling preserves uniqueness of ids. */
  lemma ToggledUnique(list: seq<Movie>, movie: Movie)
    requires UniqueIds(list)
    ensures UniqueIds(Toggled(list, movie))
  {
    if HasId(list, movie.id) {
      RemovedUnique(list, movie.id);
    } else {
      AddedUnique(list, movie);
    }
  }

  // ---------------------------------------------------------------------------
  // The hook's state
  // ---------------------------------------------------------------------------

  /** The state of one `useFavorites` instance. The save effect writes the whole
      list to storage after every change; `saved` is the list it last wrote. */
  class FavoritesStore {
    var favorites: seq<Movie>
    ghost var saved: seq<Movie>

    /** The list this instance last wrote to storage is its current list.
        Other instances write the same storage key, so this says nothing
        about what storage holds after another instance has written. */
    ghost predicate Valid()
      reads this
    {
      saved == favorites
    }

    /** Mounting the hook: the load effect runs on the text found in storage. */
    constructor (stored: Option<string>, parse: string -> Option<seq<Movie>>)
      ensures Valid()
      ensures favorites == Load(stored, parse)
    {
      favorites := Load(stored, parse);
      saved := favorites;
    }

    /** `addToFavorites`. */
    method AddToFavorites(movie: Movie)
      requires Valid()
      modifies this
      ensures Valid()
      ensures favorites == Added(old(favorites), movie)
      ensures HasId(favorites, movie.id)
      ensures UniqueIds(old(favorites)) ==> UniqueIds(favorites)
    {
      if UniqueIds(favorites) {
        AddedUnique(favorites, movie);
      }
      AddedMembership(favorites, movie, movie.id);
      favorites := Added(favorites, movie);
      saved := favorites;
    }

    /** `removeFromFavorites`. */
    method RemoveFromFavorites(movieId: int)
      requires Valid()
      modifies this
      ensures Valid()
      ensures favorites == Removed(old(favorites), movieId)
      ensures !HasId(favorites, movieId)
      ensures UniqueIds(old(favorites)) ==> UniqueIds(favorites)
    {
      if UniqueIds(favorites) {
        RemovedUnique(favorites, movieId);
      }
      RemovedMembership(favorites, movieId, movieId);
      favorites := Removed(favorites, movieId);
      saved := favorites;
    }

    /** `isFavorite`: some entry carries the id. */
    function IsFavorite(movieId: int): (r: bool)
      reads this
      ensures r <==> exists i :: 0 <= i < |favorites| && favorites[i].id == movieId
    {
      HasId(favorites, movieId)
    }

    /** `toggleFavorite`: remove when the id is a favorite, add otherwise. */
    method ToggleFavorite(movie: Movie)
      requires Valid()
      modifies this
      ensures Valid()
      ensures favorites == Toggled(old(favorites), movie)
      ensures HasId(favorites, movie.id) <==> !HasId(old(favorites), movie.id)
      ensures UniqueIds(old(favorites)) ==> UniqueIds(favorites)
    {
      if IsFavorite(movie.id) {
        RemoveFromFavorites(movie.id);
      } else {
        AddToFavorites(movie);
      }
    }
  }

  /** Mounting the hook again on the text a store last wrote: when that text
      reads back as the store's saved list, the new store starts with the
      same favorites, in the same order. */
  method MountAfterSave(store: FavoritesStore, text: string, parse: string -> Option<seq<Movie>>)
    returns (remounted: FavoritesStore)
    requires store.Valid()
    requires text != "" && parse(text) == Some(store.saved)
    ensures remounted.Valid()
    ensures remounted.favorites == store.favorites
  {
    remounted := new FavoritesStore(Some(text), parse);
    LoadAfterSave(store.saved, text, parse);
  }
}
