/** The decision logic of the AnkiConnect client (markdown_anki_decks/sync.py): the
    request envelope, response validation, which remote notes to delete, and the
    template and styling updates pushed for each model. The HTTP transport is not modelled. */
module Sync {
  import opened Wrappers
  import opened Dicts
  import Decks

  /** A decoded JSON value. Numbers are integers. */
  datatype Json =
    | Null
    | Bool(b: bool)
    | Num(n: int)
    | Str(s: string)
    | Arr(items: seq<Json>)
    | Obj(fields: map<string, Json>)

  /** The AnkiConnect protocol version sent with every request. */
  const ApiVersion := 6

  /** `request`: the envelope posted for every action. */
  function Request(action: string, params: map<string, Json>): (r: Json)
    ensures r.Obj? && r.fields.Keys == {"action", "params", "version"}
    ensures r.fields["action"] == Str(action) && r.fields["params"] == Obj(params)
    ensures r.fields["version"] == Num(6)
  {
    Obj(map["action" := Str(action), "params" := Obj(params), "version" := Num(ApiVersion)])
  }

  /** Why `invoke` raised. `TypeMismatch` stands for the Python `TypeError` raised when
      the response is not a JSON object (`len` of a number, or a list indexed by a string). */
  datatype InvokeError = FieldCount | MissingError | MissingResult | Remote(error: Json) | TypeMismatch

  /** The value under `key` of a JSON object, `null` when absent or not an object. */
  function Member(j: Json, key: string): Json
  {
    if j.Obj? && key in j.fields then j.fields[key] else Null
  }

  /** The `model` parameter of a request. */
  function ModelParam(req: Json): Json
  {
    Member(Member(req, "params"), "model")
  }

  /** The response shape a well-behaved server produces. */
  function Response(error: Json, result: Json): Json
  {
    Obj(map["error" := error, "result" := result])
  }

  /** The checks `invoke` applies to a decoded response, in the order `invoke` makes them. It
      succeeds, returning `result` unchanged, exactly when the response is an object with
      the two fields `error` and `result` and a null `error`. */
  function Validate(response: Json): (r: Result<Json, InvokeError>)
    ensures r.Success? <==>
      && response.Obj?
      && response.fields.Keys == {"error", "result"}
      && response.fields["error"] == Null
    ensures r.Success? ==> r.value == response.fields["result"]
    ensures response.Obj? && |response.fields| != 2 ==> r == Failure(FieldCount)
  {
    match response
    case Obj(fields) =>
      if |fields| != 2 then Failure(FieldCount)
      else if "error" !in fields then Failure(MissingError)
      else if "result" !in fields then Failure(MissingResult)
      else
        assert fields.Keys == {"error", "result"} by {
          SubsetSameSize({"error", "result"}, fields.Keys);
        }
        if fields["error"] != Null then Failure(Remote(fields["error"]))
        else Success(fields["result"])
    case Arr(items) =>
      if |items| != 2 then Failure(FieldCount)
      else if Str("error") !in items then Failure(MissingError)
      else if Str("result") !in items then Failure(MissingResult)
      else Failure(TypeMismatch)
    case Str(s) =>
      // `"error" in s` cannot hold for a two-character string.
      if |s| != 2 then Failure(FieldCount) else Failure(MissingError)
    case _ => Failure(TypeMismatch)
  }

  lemma SubsetSameSize<T>(a: set<T>, b: set<T>)
    requires a <= b && |a| == |b|
    ensures a == b
  {
    assert b == a + (b - a);
    assert |b - a| == 0;
  }

  lemma SomeNoteId(ids: set<int>)
    requires ids != {}
    ensures exists id :: id in ids
  {
    if forall id :: id !in ids {
      assert false;
    }
  }

  /** Validation inverts the server's encoding: a null error yields the result, any other
      error is raised as it is. */
  lemma ValidateResponse(error: Json, result: Json)
    ensures Validate(Response(error, result))
         == if error == Null then Success(result) else Failure(Remote(error))
  {
    var fields := map["error" := error, "result" := result];
    assert fields.Keys == {"error", "result"};
    assert |fields| == 2;
  }

  /** A missing field is reported whichever one it is, once the count is right. */
  lemma ValidateMissingField(fields: map<string, Json>)
    requires |fields| == 2
    ensures "error" !in fields ==> Validate(Obj(fields)) == Failure(MissingError)
    ensures "error" in fields && "result" !in fields ==> Validate(Obj(fields)) == Failure(MissingResult)
  {
  }

  // ---------------------------------------------------------------------------
  // Deleting remote notes that are gone from the markdown

  /** One entry of the `notesInfo` answer: the note id and its field values by field name. */
  datatype NoteInfo = NoteInfo(noteId: int, fields: map<string, string>)

  const GuidField := "Guid"

  /** `sync_deck` raises `KeyError` when a remote note has no `Guid` field. */
  datatype SyncError = MissingGuid(noteId: int)

  predicate HasGuid(info: NoteInfo)
  {
    GuidField in info.fields
  }

  /** `n["fields"]["Guid"]["value"]`. */
  function GuidOf(info: NoteInfo): string
    requires HasGuid(info)
  {
    info.fields[GuidField]
  }

  /** Every remote note has a `Guid` field, so `sync_deck` raises no `KeyError`. */
  ghost predicate AllHaveGuids(infos: seq<NoteInfo>)
  {
    forall i :: 0 <= i < |infos| ==> HasGuid(infos[i])
  }

  /** The `(guid, info)` pairs of `anki_note_info_by_guid`, in `notesInfo` order; the first
      note without a `Guid` field aborts. */
  function GuidPairs(infos: seq<NoteInfo>): (r: Result<seq<(string, NoteInfo)>, SyncError>)
    ensures r.Success? <==> AllHaveGuids(infos)
    ensures r.Success? ==>
      && |r.value| == |infos|
      && forall i :: 0 <= i < |infos| ==> r.value[i] == (GuidOf(infos[i]), infos[i])
    ensures r.Failure? ==> exists i :: 0 <= i < |infos| && !HasGuid(infos[i]) && r.error == MissingGuid(infos[i].noteId)
  {
    if infos == [] then Success([])
    else if !HasGuid(infos[0]) then Failure(MissingGuid(infos[0].noteId))
    else
      assert forall j :: 0 < j < |infos| ==> infos[j] == infos[1..][j - 1];
      match GuidPairs(infos[1..])
      case Failure(e) => Failure(e)
      case Success(rest) => Success([(GuidOf(infos[0]), infos[0])] + rest)
  }

  /** The guids of the local deck's notes (`md_note_guids`). */
  function LocalGuids(deck: Decks.Deck): (guids: set<string>)
    ensures forall k :: 0 <= k < |deck.notes| ==> deck.notes[k].guid in guids
    ensures forall g :: g in guids ==> exists k :: 0 <= k < |deck.notes| && deck.notes[k].guid == g
  {
    set k | 0 <= k < |deck.notes| :: deck.notes[k].guid
  }

  /** `guids_to_delete`: remote guids that the local deck does not have. A local guid is never deleted. */
  function GuidsToDelete(remote: set<string>, local: set<string>): (doomed: set<string>)
    ensures doomed !! local
    ensures forall g :: g in remote ==> (g in doomed <==> g !in local)
    ensures doomed <= remote
  {
    remote - local
  }

  /** The note ids sent with `deleteNotes`, as `sync_deck` computes them: through the
      guid-keyed dictionary, where a later note overwrites an earlier one with the same guid. */
  function NoteIdsToDeleteAsWritten(infos: seq<NoteInfo>, local: set<string>): (r: Result<set<int>, SyncError>)
    ensures r.Success? <==> AllHaveGuids(infos)
    ensures r.Success? ==> forall id :: id in r.value ==>
      exists i :: 0 <= i < |infos| && LastWithGuid(infos, i) && infos[i].noteId == id && GuidOf(infos[i]) !in local
    ensures r.Success? ==> forall i :: 0 <= i < |infos| && LastWithGuid(infos, i) && GuidOf(infos[i]) !in local ==>
      infos[i].noteId in r.value
  {
    var pairs :- GuidPairs(infos);
    IndexedIdsSound(infos, local);
    IndexedIdsComplete(infos, local);
    Success(IndexedIds(infos, local))
  }

  /** The ids the guid index yields for the non-local guids. */
  function IndexedIds(infos: seq<NoteInfo>, local: set<string>): set<int>
    requires AllHaveGuids(infos)
  {
    var byGuid := FromPairs(GuidPairs(infos).value);
    IdsOf(byGuid, GuidsToDelete(byGuid.Keys, local))
  }

  /** Every id the index yields belongs to the last remote note carrying its guid, and that guid is not local. */
  lemma IndexedIdsSound(infos: seq<NoteInfo>, local: set<string>)
    requires AllHaveGuids(infos)
    ensures forall id :: id in IndexedIds(infos, local) ==>
      exists i :: 0 <= i < |infos| && LastWithGuid(infos, i) && infos[i].noteId == id && GuidOf(infos[i]) !in local
  {
    var pairs := GuidPairs(infos).value;
    var byGuid := FromPairs(pairs);
    var doomed := GuidsToDelete(byGuid.Keys, local);
    forall id | id in IndexedIds(infos, local)
      ensures exists i :: 0 <= i < |infos| && LastWithGuid(infos, i) && infos[i].noteId == id && GuidOf(infos[i]) !in local
    {
      var g :| g in doomed && byGuid[g].noteId == id;
      var i :| IsLastFor(pairs, g, i) && byGuid[g] == pairs[i].1;
      assert infos[i].noteId == id;
      assert LastWithGuid(infos, i) by {
        forall j | i < j < |infos| ensures GuidOf(infos[j]) != GuidOf(infos[i]) {
          assert pairs[j].0 != g;
        }
      }
    }
  }

  /** The last remote note carrying each non-local guid is among the ids the index yields. */
  lemma IndexedIdsComplete(infos: seq<NoteInfo>, local: set<string>)
    requires AllHaveGuids(infos)
    ensures forall i :: 0 <= i < |infos| && LastWithGuid(infos, i) && GuidOf(infos[i]) !in local ==>
      infos[i].noteId in IndexedIds(infos, local)
  {
    var pairs := GuidPairs(infos).value;
    forall i | 0 <= i < |infos| && LastWithGuid(infos, i) && GuidOf(infos[i]) !in local
      ensures infos[i].noteId in IndexedIds(infos, local)
    {
      assert IsLastFor(pairs, pairs[i].0, i);
      FromPairsLast(pairs, i);
    }
  }

  /** Note `i` is the last remote note carrying its guid, so the guid index holds it. */
  ghost predicate LastWithGuid(infos: seq<NoteInfo>, i: int)
    requires AllHaveGuids(infos) && 0 <= i < |infos|
  {
    forall j :: i < j < |infos| ==> GuidOf(infos[j]) != GuidOf(infos[i])
  }

  /** `[anki_note_info_by_guid[g]["noteId"] for g in guids_to_delete]`, as a set. */
  function IdsOf(byGuid: map<string, NoteInfo>, doomed: set<string>): (ids: set<int>)
    requires doomed <= byGuid.Keys
    ensures forall g :: g in doomed ==> byGuid[g].noteId in ids
    ensures forall id :: id in ids ==> exists g :: g in doomed && byGuid[g].noteId == id
  {
    set g | g in doomed :: byGuid[g].noteId
  }

  /** The note ids that should be deleted: every remote note whose guid is not local. */
  function StaleNoteIds(infos: seq<NoteInfo>, local: set<string>): (r: Result<set<int>, SyncError>)
    ensures r.Success? <==> AllHaveGuids(infos)
    ensures r.Success? ==> forall i :: 0 <= i < |infos| ==>
      (GuidOf(infos[i]) !in local ==> infos[i].noteId in r.value)
    ensures r.Success? ==> forall id :: id in r.value ==>
      exists i :: 0 <= i < |infos| && infos[i].noteId == id && GuidOf(infos[i]) !in local
  {
    var pairs :- GuidPairs(infos);
    Success(set i | 0 <= i < |infos| && GuidOf(infos[i]) !in local :: infos[i].noteId)
  }

  /** The guids left on the remote deck after the deletion. `infos` is read after the
      package import, so it already holds the notes the import added or updated. */
  ghost function Surviving(infos: seq<NoteInfo>, deleted: set<int>): set<string>
    requires AllHaveGuids(infos)
  {
    set i | 0 <= i < |infos| && infos[i].noteId !in deleted :: GuidOf(infos[i])
  }

  /** Convergence: deleting the stale notes leaves only local guids on the remote deck. */
  lemma StaleDeletionConverges(infos: seq<NoteInfo>, local: set<string>)
    requires AllHaveGuids(infos)
    ensures StaleNoteIds(infos, local).Success?
    ensures Surviving(infos, StaleNoteIds(infos, local).value) <= local
  {
    var deleted := StaleNoteIds(infos, local).value;
    forall g | g in Surviving(infos, deleted) ensures g in local {
      var i :| 0 <= i < |infos| && infos[i].noteId !in deleted && GuidOf(infos[i]) == g;
    }
  }

  /** The guids on the remote deck before the deletion. */
  ghost function RemoteGuids(infos: seq<NoteInfo>): set<string>
    requires AllHaveGuids(infos)
  {
    set i | 0 <= i < |infos| :: GuidOf(infos[i])
  }

  /** When remote note ids are distinct, no note with a local guid is deleted: the
      remote guids that survive are exactly the remote guids that are local. */
  lemma StaleDeletionKeepsLocal(infos: seq<NoteInfo>, local: set<string>)
    requires AllHaveGuids(infos)
    requires forall i, j :: 0 <= i < |infos| && 0 <= j < |infos| && infos[i].noteId == infos[j].noteId ==> i == j
    ensures StaleNoteIds(infos, local).Success?
    ensures Surviving(infos, StaleNoteIds(infos, local).value) == RemoteGuids(infos) * local
  {
    var deleted := StaleNoteIds(infos, local).value;
    StaleDeletionConverges(infos, local);
    forall g | g in RemoteGuids(infos) * local ensures g in Surviving(infos, deleted) {
      var i :| 0 <= i < |infos| && GuidOf(infos[i]) == g;
      assert infos[i].noteId !in deleted;
    }
  }

  /** When the import has put every local note on the remote deck, so that the notes read
      back carry every local guid, deleting the stale notes leaves exactly the local guids. */
  lemma StaleDeletionReachesLocal(infos: seq<NoteInfo>, local: set<string>)
    requires AllHaveGuids(infos)
    requires forall i, j :: 0 <= i < |infos| && 0 <= j < |infos| && infos[i].noteId == infos[j].noteId ==> i == j
    requires local <= RemoteGuids(infos)
    ensures StaleNoteIds(infos, local).Success?
    ensures Surviving(infos, StaleNoteIds(infos, local).value) == local
  {
    StaleDeletionKeepsLocal(infos, local);
    assert RemoteGuids(infos) * local == local;
  }

  /** When no guid occurs twice remotely, `sync_deck`'s computation is the intended one. */
  lemma AsWrittenAgreesOnDistinctGuids(infos: seq<NoteInfo>, local: set<string>)
    requires AllHaveGuids(infos)
    requires forall i, j :: 0 <= i < j < |infos| ==> GuidOf(infos[i]) != GuidOf(infos[j])
    ensures NoteIdsToDeleteAsWritten(infos, local) == StaleNoteIds(infos, local)
  {
    var pairs := GuidPairs(infos).value;
    var byGuid := FromPairs(pairs);
    var asWritten := NoteIdsToDeleteAsWritten(infos, local).value;
    var stale := StaleNoteIds(infos, local).value;
    assert DistinctKeys(pairs);
    forall id | id in stale
      ensures id in asWritten
    {
      var i :| 0 <= i < |infos| && infos[i].noteId == id && GuidOf(infos[i]) !in local;
      FromPairsDistinct(pairs, i);
      assert GuidOf(infos[i]) in GuidsToDelete(byGuid.Keys, local);
    }
    assert asWritten == stale;
  }

  /** Two remote notes `first` and `copy` sharing the guid `guid`. */
  function Duplicated(first: int, copy: int, guid: string): seq<NoteInfo>
  {
    [NoteInfo(first, map[GuidField := guid]), NoteInfo(copy, map[GuidField := guid])]
  }

  /** The dictionary in `sync_deck` keeps only the later of two notes with one guid. */
  lemma AsWrittenDeletesLater(first: int, copy: int, guid: string, local: set<string>)
    requires guid !in local
    ensures NoteIdsToDeleteAsWritten(Duplicated(first, copy, guid), local) == Success({copy})
  {
    var infos := Duplicated(first, copy, guid);
    assert GuidOf(infos[0]) == guid && GuidOf(infos[1]) == guid;
    var pairs := GuidPairs(infos).value;
    assert pairs[0].0 == guid && pairs[1] == (guid, infos[1]);
    assert KeysOf(pairs) == {guid};
    var byGuid := FromPairs(pairs);
    var i :| IsLastFor(pairs, guid, i) && byGuid[guid] == pairs[i].1;
    assert byGuid[guid].noteId == copy;
    assert GuidsToDelete(byGuid.Keys, local) == {guid};
    assert IdsOf(byGuid, {guid}) == {copy};
  }

  /** Both notes with a non-local guid are stale. */
  lemma StaleDeletesBoth(first: int, copy: int, guid: string, local: set<string>)
    requires guid !in local
    ensures StaleNoteIds(Duplicated(first, copy, guid), local) == Success({first, copy})
  {
    var infos := Duplicated(first, copy, guid);
    assert GuidOf(infos[0]) == guid && GuidOf(infos[1]) == guid;
    var stale := StaleNoteIds(infos, local).value;
    assert first in stale && copy in stale;
    assert forall id :: id in stale ==> id == first || id == copy;
    assert stale == {first, copy};
  }

  /** A remote copy of a note keeps its `Guid` field. When that guid has left the
      markdown, `sync_deck` deletes only the later of the two notes: the copy's original
      survives, while every stale note should go. */
  lemma AsWrittenKeepsDuplicate(first: int, copy: int, guid: string, local: set<string>)
    requires first != copy && guid !in local
    ensures NoteIdsToDeleteAsWritten(Duplicated(first, copy, guid), local).Success?
    ensures first !in NoteIdsToDeleteAsWritten(Duplicated(first, copy, guid), local).value
    ensures first in StaleNoteIds(Duplicated(first, copy, guid), local).value
  {
    AsWrittenDeletesLater(first, copy, guid, local);
    StaleDeletesBoth(first, copy, guid, local);
  }

  /** `deleteNotes` is sent only when something is to be deleted, with each id once. */
  method DeleteNotesRequest(ids: set<int>) returns (req: Option<Json>)
    ensures req.None? <==> ids == {}
    ensures req.Some? ==>
      exists notes: seq<Json> ::
        && req.value == Request("deleteNotes", map["notes" := Arr(notes)])
        && |notes| == |ids|
        && (forall id :: id in ids <==> Num(id) in notes)
  {
    if ids == {} {
      return None;
    }
    var notes: seq<Json> := [];
    var left := ids;
    while left != {}
      invariant left <= ids
      invariant |notes| + |left| == |ids|
      invariant forall id :: id in ids <==> id in left || Num(id) in notes
      invariant forall id :: id in left ==> Num(id) !in notes
      decreases left
    {
      SomeNoteId(left);
      var next :| next in left;
      notes := notes + [Num(next)];
      left := left - {next};
    }
    req := Some(Request("deleteNotes", map["notes" := Arr(notes)]));
  }

  /** `sync_deck` with deletion on, from the `notesInfo` answer on: the `deleteNotes`
      request to send, if any. */
  method DeletionRequest(infos: seq<NoteInfo>, deck: Decks.Deck) returns (r: Result<Option<Json>, SyncError>)
    ensures r.Success? <==> AllHaveGuids(infos)
    ensures r.Success? ==> (r.value.None? <==> StaleNoteIds(infos, LocalGuids(deck)).value == {})
    ensures r.Success? && r.value.Some? ==>
      && Member(r.value.value, "action") == Str("deleteNotes")
      && var notes := Member(Member(r.value.value, "params"), "notes");
         notes.Arr? && forall id :: id in StaleNoteIds(infos, LocalGuids(deck)).value <==> Num(id) in notes.items
  {
    var ids :- StaleNoteIds(infos, LocalGuids(deck));
    var req := DeleteNotesRequest(ids);
    return Success(req);
  }

  // ---------------------------------------------------------------------------
  // Pushing a model's templates and stylesheet

  /** The fields sent for one template. */
  function TemplateFormats(t: Decks.CardTemplate): Json
  {
    Obj(map["qfmt" := Str(t.qfmt), "afmt" := Str(t.afmt)])
  }

  /** The `templates` object of `updateModelTemplates`: one entry per template name,
      holding the formats of the last template with that name. */
  function TemplateMap(templates: seq<Decks.CardTemplate>): (m: map<string, Json>)
    ensures m.Keys == set i | 0 <= i < |templates| :: templates[i].name
    ensures forall name :: name in m ==>
      exists i :: 0 <= i < |templates| && templates[i].name == name && m[name] == TemplateFormats(templates[i])
                  && forall j :: i < j < |templates| ==> templates[j].name != name
  {
    var pairs := seq(|templates|, i requires 0 <= i < |templates| => (templates[i].name, TemplateFormats(templates[i])));
    assert forall i :: 0 <= i < |templates| ==> pairs[i].0 == templates[i].name;
    assert KeysOf(pairs) == set i | 0 <= i < |templates| :: templates[i].name;
    FromPairs(pairs)
  }

  /** With distinct template names, every template is sent with its formats unchanged. */
  lemma TemplateMapKeepsFormats(templates: seq<Decks.CardTemplate>, i: int)
    requires forall a, b :: 0 <= a < b < |templates| ==> templates[a].name != templates[b].name
    requires 0 <= i < |templates|
    ensures TemplateMap(templates)[templates[i].name]
         == Obj(map["qfmt" := Str(templates[i].qfmt), "afmt" := Str(templates[i].afmt)])
  {
    var pairs := seq(|templates|, j requires 0 <= j < |templates| => (templates[j].name, TemplateFormats(templates[j])));
    FromPairsDistinct(pairs, i);
  }

  /** The two requests `sync_model` sends, templates first, then the stylesheet. */
  function ModelUpdates(model: Decks.NoteModel): (reqs: seq<Json>)
    ensures |reqs| == 2
    ensures Member(reqs[0], "action") == Str("updateModelTemplates")
    ensures Member(reqs[1], "action") == Str("updateModelStyling")
    ensures Member(ModelParam(reqs[0]), "name") == Str(model.name)
    ensures Member(ModelParam(reqs[1]), "name") == Str(model.name)
    ensures Member(ModelParam(reqs[1]), "css") == Str(model.css)
    ensures var sent := Member(ModelParam(reqs[0]), "templates");
      && sent.Obj?
      && sent.fields.Keys == (set i | 0 <= i < |model.templates| :: model.templates[i].name)
      && forall name :: name in sent.fields ==>
           exists i :: 0 <= i < |model.templates| && model.templates[i].name == name
                       && sent.fields[name] == TemplateFormats(model.templates[i])
                       && forall j :: i < j < |model.templates| ==> model.templates[j].name != name
  {
    [ Request("updateModelTemplates",
        map["model" := Obj(map["name" := Str(model.name), "templates" := Obj(TemplateMap(model.templates))])]),
      Request("updateModelStyling",
        map["model" := Obj(map["name" := Str(model.name), "css" := Str(model.css)])]) ]
  }
}
