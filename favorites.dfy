/**
 * The favorites provider: one list of saved property ids that every
 * operation replaces through its setter.
 */
module Favorites {
  import opened ListSet

  class FavoritesProvider {
    var favorites: seq<string>

    /** The list starts as whatever was stored; reading and parsing the stored JSON is not modelled. */
    constructor (stored: seq<string>)
      ensures favorites == stored
    {
      favorites := stored;
    }

    method AddFavorite(id: string)
      modifies this
      ensures favorites == Added(old(favorites), id)
      ensures IsFavorite(id)
      ensures NoDuplicates(old(favorites)) ==> NoDuplicates(favorites)
    {
      if NoDuplicates(favorites) { AddedNoDuplicates(favorites, id); }
      favorites := Added(favorites, id);
    }

    method RemoveFavorite(id: string)
      modifies this
      ensures favorites == Removed(old(favorites), id)
      ensures !IsFavorite(id)
      ensures forall other :: other != id ==> (other in favorites <==> other in old(favorites))
      ensures NoDuplicates(old(favorites)) ==> NoDuplicates(favorites)
    {
      forall other | other != id
        ensures other in Removed(favorites, id) <==> other in favorites
      {
        RemovedMembership(favorites, id, other);
      }
      RemovedMembership(favorites, id, id);
      if NoDuplicates(favorites) { RemovedNoDuplicates(favorites, id); }
      favorites := Removed(favorites, id);
    }

    method ToggleFavorite(id: string)
      modifies this
      ensures favorites == Toggled(old(favorites), id)
      ensures IsFavorite(id) <==> !old(id in favorites)
      ensures forall other :: other != id ==> (other in favorites <==> other in old(favorites))
      ensures NoDuplicates(old(favorites)) ==> NoDuplicates(favorites)
    {
      forall other | other != id
        ensures other in Toggled(favorites, id) <==> other in favorites
      {
        ToggledMembership(favorites, id, other);
      }
      ToggledMembership(favorites, id, id);
      if NoDuplicates(favorites) { ToggledNoDuplicates(favorites, id); }
      favorites := Toggled(favorites, id);
    }

    /** `favorites.includes(id)`: some position of the list holds the id. */
    predicate IsFavorite(id: string)
      reads this
      ensures IsFavorite(id) <==> exists i :: 0 <= i < |favorites| && favorites[i] == id
    {
      id in favorites
    }

    method ClearFavorites()
      modifies this
      ensures favorites == []
    {
      favorites := [];
    }
  }

  /** Toggling the same id twice, starting from a list without it, leaves the provider as it was. */
  method ToggleTwice(p: FavoritesProvider, id: string)
    requires id !in p.favorites
    modifies p
    ensures p.favorites == old(p.favorites)
  {
    ToggledTwice(p.favorites, id);
    p.ToggleFavorite(id);
    p.ToggleFavorite(id);
  }
}
