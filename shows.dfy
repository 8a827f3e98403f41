/**
 * The in-memory show table: the `Show` record, the queries the handlers run
 * over the list (largest id, first show with an id, blank-title test) and,
 * for each handler, a function that gives its response and the list it
 * leaves behind. The class in module Api is proved against these functions.
 */
module Shows {
  import opened Wrappers

  /** One TV show. The strings that C# declares nullable are `Option`s; `title`
      is one too, because a JSON `null` for Title still deserializes. */
  datatype Show = Show(
    id: int,
    title: Option<string>,
    showRunner: Option<string>,
    genre: Option<string>,
    releaseYear: int,
    numberOfSeasons: int,
    distributor: Option<string>)

  /** What a handler answers: the whole list, one show, the id of a deleted
      show (its confirmation text is left out), 400 or 404. */
  datatype Response =
    | Listed(shows: seq<Show>)
    | Ok(show: Show)
    | Deleted(id: int)
    | BadRequest
    | NotFound

  /** The requests the four handlers serve. */
  datatype Request =
    | GetShows
    | Create(payload: Option<Show>)
    | Delete(id: int)
    | Update(id: int, payload: Option<Show>)

  /** `a` and `b` agree on every field except `id`. */
  predicate SameFields(a: Show, b: Show) {
    && a.title == b.title
    && a.showRunner == b.showRunner
    && a.genre == b.genre
    && a.releaseYear == b.releaseYear
    && a.numberOfSeasons == b.numberOfSeasons
    && a.distributor == b.distributor
  }

  predicate HasId(s: seq<Show>, id: int) {
    exists i :: 0 <= i < |s| && s[i].id == id
  }

  /** The table invariant: every id is at least 1 and no two shows share one. */
  predicate ValidTable(s: seq<Show>) {
    && (forall i :: 0 <= i < |s| ==> s[i].id >= 1)
    && (forall i, j :: 0 <= i < j < |s| ==> s[i].id != s[j].id)
  }

  /** `shows.Max(s => s.Id)`: the largest id of a non-empty list. */
  function LargestId(s: seq<Show>): (m: int)
    requires s != []
    ensures forall i :: 0 <= i < |s| ==> s[i].id <= m
    ensures exists i :: 0 <= i < |s| && s[i].id == m
  {
    if |s| == 1 then s[0].id
    else
      var rest := LargestId(s[1..]);
      assert forall i :: 1 <= i < |s| ==> s[i] == s[1..][i - 1];
      if s[0].id < rest then rest else s[0].id
  }

  /** The id Create gives a new show: one more than the largest id, or 1 on an
      empty list. */
  function NextId(s: seq<Show>): (n: int)
    ensures s == [] ==> n == 1
    ensures forall i :: 0 <= i < |s| ==> s[i].id < n
    ensures s != [] ==> exists i :: 0 <= i < |s| && s[i].id == n - 1
  {
    var maxId := if |s| > 0 then LargestId(s) else 0;
    maxId + 1
  }

  /** `shows.FirstOrDefault(s => s.Id == id)`, as the index of that show. */
  function FindFirst(s: seq<Show>, id: int): (r: Option<nat>)
    ensures r.Some? ==> r.value < |s| && s[r.value].id == id
    ensures r.Some? ==> forall j :: 0 <= j < r.value ==> s[j].id != id
    ensures r.None? ==> forall j :: 0 <= j < |s| ==> s[j].id != id
  {
    if s == [] then None
    else if s[0].id == id then Some(0)
    else
      match FindFirst(s[1..], id)
      case None =>
        assert forall j :: 1 <= j < |s| ==> s[j] == s[1..][j - 1];
        None
      case Some(k) => Some(k + 1)
  }

  /** .NET's `char.IsWhiteSpace`: the space, line and paragraph separators of
      Unicode, the controls U+0009 to U+000D, and U+0085. */
  predicate IsWhiteSpace(c: char) {
    || '\t' <= c <= '\r'
    || c == ' '
    || c == '\U{0085}'
    || c == '\U{00A0}'
    || c == '\U{1680}'
    || '\U{2000}' <= c <= '\U{200A}'
    || c == '\U{2028}'
    || c == '\U{2029}'
    || c == '\U{202F}'
    || c == '\U{205F}'
    || c == '\U{3000}'
  }

  function AllWhiteSpace(t: string): (b: bool)
    ensures b <==> forall i :: 0 <= i < |t| ==> IsWhiteSpace(t[i])
  {
    if t == [] then true
    else
      assert forall i :: 1 <= i < |t| ==> t[i] == t[1..][i - 1];
      IsWhiteSpace(t[0]) && AllWhiteSpace(t[1..])
  }

  /** `string.IsNullOrWhiteSpace`. */
  function IsNullOrWhiteSpace(t: Option<string>): (b: bool)
    ensures b <==> t.None? || forall i :: 0 <= i < |t.value| ==> IsWhiteSpace(t.value[i])
  {
    t.None? || AllWhiteSpace(t.value)
  }

  /** The Create handler: a null payload is a bad request; otherwise the payload,
      with its id replaced by the next one, is appended. */
  function CreateShow(s: seq<Show>, payload: Option<Show>): (out: (Response, seq<Show>))
    ensures payload.None? ==> out == (BadRequest, s)
    ensures payload.Some? ==> out.0.Ok? && out.1 == s + [out.0.show]
    ensures payload.Some? ==> out.0.Ok? && SameFields(out.0.show, payload.value)
    ensures payload.Some? && s == [] ==> out.0.Ok? && out.0.show.id == 1
    ensures payload.Some? ==> out.0.Ok? && forall i :: 0 <= i < |s| ==> s[i].id < out.0.show.id
    ensures payload.Some? && s != [] ==>
      out.0.Ok? && exists i :: 0 <= i < |s| && s[i].id == out.0.show.id - 1
    ensures ValidTable(s) ==> ValidTable(out.1)
  {
    match payload
    case None => (BadRequest, s)
    case Some(p) =>
      var created := p.(id := NextId(s));
      (Ok(created), s + [created])
  }

  /** The Delete handler: removes the first show with the id, or answers 404. */
  function DeleteShow(s: seq<Show>, id: int): (out: (Response, seq<Show>))
    ensures !HasId(s, id) ==> out == (NotFound, s)
    ensures HasId(s, id) ==> out.0 == Deleted(id) && |out.1| == |s| - 1
    ensures HasId(s, id) ==>
      exists k :: && 0 <= k < |s| && s[k].id == id
                  && (forall j :: 0 <= j < k ==> s[j].id != id)
                  && out.1 == s[..k] + s[k + 1..]
    ensures ValidTable(s) ==> ValidTable(out.1) && !HasId(out.1, id)
  {
    match FindFirst(s, id)
    case None => (NotFound, s)
    case Some(k) =>
      var rest := s[..k] + s[k + 1..];
      assert forall i :: 0 <= i < |rest| ==> rest[i] == s[if i < k then i else i + 1];
      (Deleted(id), rest)
  }

  /** The Update handler: 404 for an absent id, checked first; 400 for a null
      payload or a blank Title; otherwise the six non-id fields of the first
      show with the id are overwritten with the payload's, nulls and zeros too. */
  function UpdateShow(s: seq<Show>, id: int, payload: Option<Show>): (out: (Response, seq<Show>))
    ensures !HasId(s, id) ==> out == (NotFound, s)
    ensures HasId(s, id) && (payload.None? || IsNullOrWhiteSpace(payload.value.title)) ==>
      out == (BadRequest, s)
    ensures HasId(s, id) && payload.Some? && !IsNullOrWhiteSpace(payload.value.title) ==>
      && out.0.Ok?
      && out.0.show.id == id
      && SameFields(out.0.show, payload.value)
      && exists k :: && 0 <= k < |s| && s[k].id == id
                     && (forall j :: 0 <= j < k ==> s[j].id != id)
                     && out.1 == s[k := out.0.show]
    ensures |out.1| == |s| && forall i :: 0 <= i < |s| ==> out.1[i].id == s[i].id
    ensures ValidTable(s) ==> ValidTable(out.1)
  {
    match FindFirst(s, id)
    case None => (NotFound, s)
    case Some(k) =>
      if payload.None? || IsNullOrWhiteSpace(payload.value.title) then (BadRequest, s)
      else
        var p := payload.value;
        var updated := s[k].(title := p.title, showRunner := p.showRunner, genre := p.genre,
                             releaseYear := p.releaseYear, numberOfSeasons := p.numberOfSeasons,
                             distributor := p.distributor);
        (Ok(updated), s[k := updated])
  }

  /** One request against the table: the response and the table afterwards. */
  function Handle(s: seq<Show>, req: Request): (out: (Response, seq<Show>))
    ensures req.GetShows? ==> out == (Listed(s), s)
    ensures ValidTable(s) ==> ValidTable(out.1)
  {
    match req
    case GetShows => (Listed(s), s)
    case Create(payload) => CreateShow(s, payload)
    case Delete(id) => DeleteShow(s, id)
    case Update(id, payload) => UpdateShow(s, id, payload)
  }

  /** The table after serving `reqs` one after another; whatever the requests,
      ids stay positive and pairwise distinct. */
  function Replay(s: seq<Show>, reqs: seq<Request>): (t: seq<Show>)
    ensures ValidTable(s) ==> ValidTable(t)
    decreases |reqs|
  {
    if reqs == [] then s else Replay(Handle(s, reqs[0]).1, reqs[1..])
  }

  /** Starting from the empty list the process begins with, every reachable
      table keeps its ids positive and distinct. */
  lemma ReachableTablesValid(reqs: seq<Request>)
    ensures ValidTable(Replay([], reqs))
  {
  }

  /** Ids are unique among the shows present, not over time: after the show
      with the largest id is deleted, the next Create hands that id out again. */
  lemma IdReusedAfterDeletingLargest(x: Show, p: Show)
    ensures Replay([], [Create(Some(x)), Delete(1), Create(Some(p))]) == [p.(id := 1)]
  {
    var reqs := [Create(Some(x)), Delete(1), Create(Some(p))];
    var one := Handle([], reqs[0]).1;
    assert one == [x.(id := 1)];
    var none := Handle(one, reqs[1]).1;
    assert none == [];
    var again := Handle(none, reqs[2]).1;
    assert again == [p.(id := 1)];
    calc {
      Replay([], reqs);
      Replay(one, reqs[1..]);
      { assert reqs[1..][0] == reqs[1] && reqs[1..][1..] == reqs[2..]; }
      Replay(none, reqs[2..]);
      { assert reqs[2..][0] == reqs[2] && reqs[2..][1..] == []; }
      Replay(again, []);
    }
  }
}
