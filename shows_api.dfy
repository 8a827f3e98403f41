/**
 * The handlers of `shows_api` over one sequential show list. Each method
 * changes `shows` step by step as the handler does and is proved to leave
 * the response and list that the matching function of module Shows gives.
 */
module Api {
  import opened Wrappers
  import opened Shows

  class ShowsApi {
    /** The process-wide list of shows, in insertion order. */
    var shows: seq<Show>

    ghost predicate Valid()
      reads this
    {
      ValidTable(shows)
    }

    /** The list starts out empty. */
    constructor ()
      ensures Valid() && shows == []
    {
      shows := [];
    }

    /** GetShows: the list as it is. */
    method GetShows() returns (r: Response)
      ensures r == Listed(shows)
    {
      r := Listed(shows);
    }

    method Create(payload: Option<Show>) returns (r: Response)
      requires Valid()
      modifies this
      ensures Valid()
      ensures (r, shows) == CreateShow(old(shows), payload)
      ensures r.Ok? ==> |shows| == |old(shows)| + 1 && shows[..|old(shows)|] == old(shows)
      ensures r.Ok? ==> forall i :: 0 <= i < |old(shows)| ==> old(shows)[i].id < r.show.id
    {
      if payload.None? {
        return BadRequest;
      }
      var newShow := payload.value;
      var maxId := if |shows| > 0 then LargestId(shows) else 0;
      newShow := newShow.(id := maxId + 1);
      shows := shows + [newShow];
      r := Ok(newShow);
    }

    method Delete(id: int) returns (r: Response)
      requires Valid()
      modifies this
      ensures Valid()
      ensures (r, shows) == DeleteShow(old(shows), id)
      ensures r.NotFound? <==> shows == old(shows)
      ensures !HasId(shows, id)
    {
      var showToDelete := FindFirst(shows, id);
      if showToDelete.None? {
        return NotFound;
      }
      var k := showToDelete.value;
      shows := shows[..k] + shows[k + 1..];
      r := Deleted(id);
    }

    method Update(id: int, payload: Option<Show>) returns (r: Response)
      requires Valid()
      modifies this
      ensures Valid()
      ensures (r, shows) == UpdateShow(old(shows), id, payload)
      ensures !r.Ok? ==> shows == old(shows)
      ensures r.Ok? ==> r.show.id == id && r.show in shows
    {
      var existingShow := FindFirst(shows, id);
      if existingShow.None? {
        return NotFound;
      }
      if payload.None? || IsNullOrWhiteSpace(payload.value.title) {
        return BadRequest;
      }
      var k := existingShow.value;
      var updatedShowData := payload.value;
      var show := shows[k];
      show := show.(title := updatedShowData.title);
      show := show.(showRunner := updatedShowData.showRunner);
      show := show.(genre := updatedShowData.genre);
      show := show.(releaseYear := updatedShowData.releaseYear);
      show := show.(numberOfSeasons := updatedShowData.numberOfSeasons);
      show := show.(distributor := updatedShowData.distributor);
      shows := shows[k := show];
      r := Ok(show);
    }
  }
}
