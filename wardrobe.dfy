/** The wardrobe service: the season normaliser and the item handlers. Each
    write handler calls the image service (its answer is a parameter) and
    then writes the `clothing_items` table, a map from id to row. */
module Wardrobe {
  import opened Options
  import Text
  import Uuids
  import Timestamps
  import opened Models
  import opened Protocol

  /** The `valid_seasons` list of `validate_season`. */
  const ValidSeasons: seq<string> := ["Spring", "Summer", "Fall", "Winter", "Untitled"]

  /** The first candidate equal to `lowered` ignoring case, or "Untitled". */
  function FirstSeasonMatch(lowered: string, candidates: seq<string>): (r: string)
    ensures r in candidates || r == "Untitled"
    ensures r != "Untitled" ==> Text.Lower(r) == lowered
    decreases |candidates|
  {
    if candidates == [] then "Untitled"
    else if lowered == Text.Lower(candidates[0]) then candidates[0]
    else FirstSeasonMatch(lowered, candidates[1..])
  }

  /** `validate_season`: an absent or empty season is "Untitled"; otherwise
      the first valid season equal to it ignoring case, else "Untitled". */
  function ValidateSeason(season: Option<string>): (r: string)
    ensures r in ValidSeasons
  {
    if season.None? || season.value == "" then "Untitled"
    else FirstSeasonMatch(Text.Lower(season.value), ValidSeasons)
  }

  /** The list `validate_season` accepts is the `SeasonEnum` values, in order. */
  lemma ValidSeasonsAreSeasonEnum()
    ensures |ValidSeasons| == |AllSeasons|
    ensures forall i :: 0 <= i < |ValidSeasons| ==> ValidSeasons[i] == AllSeasons[i].Value()
  {
  }

  /** No two valid seasons are equal ignoring case. */
  lemma ValidSeasonsDistinctIgnoringCase(i: nat, j: nat)
    requires i < j < |ValidSeasons|
    ensures Text.Lower(ValidSeasons[i]) != Text.Lower(ValidSeasons[j])
  {
    assert Text.Lower(ValidSeasons[i])[0] != Text.Lower(ValidSeasons[j])[0]
        || Text.Lower(ValidSeasons[i])[1] != Text.Lower(ValidSeasons[j])[1];
  }

  lemma {:induction false} FirstSeasonMatchAt(lowered: string, k: nat)
    requires k < |ValidSeasons| && lowered == Text.Lower(ValidSeasons[k])
    ensures FirstSeasonMatch(lowered, ValidSeasons) == ValidSeasons[k]
  {
    var c := ValidSeasons;
    assert c[1..][1..][1..][1..] == [c[4]];
    forall i | 0 <= i < k ensures lowered != Text.Lower(c[i]) {
      ValidSeasonsDistinctIgnoringCase(i, k);
    }
  }

  /** Any casing of a valid season maps to its canonical spelling. */
  lemma ValidateSeasonCanonical(s: string, k: nat)
    requires k < |ValidSeasons| && Text.Lower(s) == Text.Lower(ValidSeasons[k])
    ensures ValidateSeason(Some(s)) == ValidSeasons[k]
  {
    FirstSeasonMatchAt(Text.Lower(s), k);
  }

  /** `validate_season` gives a season other than "Untitled" exactly when its
      input equals that season ignoring case; "Untitled" for anything else,
      including an absent or empty input. */
  lemma ValidateSeasonExactly(season: Option<string>, k: nat)
    requires k < |ValidSeasons| - 1
    ensures ValidateSeason(season) == ValidSeasons[k] <==>
              season.Some? && Text.Lower(season.value) == Text.Lower(ValidSeasons[k])
    ensures ValidateSeason(season) == "Untitled" <==>
              forall i :: 0 <= i < |ValidSeasons| - 1 ==> !(season.Some? && Text.Lower(season.value) == Text.Lower(ValidSeasons[i]))
  {
    if season.Some? && Text.Lower(season.value) == Text.Lower(ValidSeasons[k]) {
      ValidateSeasonCanonical(season.value, k);
    }
    forall i | 0 <= i < |ValidSeasons| - 1 && season.Some? && Text.Lower(season.value) == Text.Lower(ValidSeasons[i])
      ensures ValidateSeason(season) == ValidSeasons[i]
    {
      ValidateSeasonCanonical(season.value, i);
    }
  }

  /** Normalising is idempotent. */
  lemma ValidateSeasonIdempotent(season: Option<string>)
    ensures ValidateSeason(Some(ValidateSeason(season))) == ValidateSeason(season)
  {
    var r := ValidateSeason(season);
    var k :| 0 <= k < |ValidSeasons| && ValidSeasons[k] == r;
    ValidateSeasonCanonical(r, k);
  }

  /** Normalising ignores case. */
  lemma ValidateSeasonIgnoresCase(a: string, b: string)
    requires Text.Lower(a) == Text.Lower(b)
    ensures ValidateSeason(Some(a)) == ValidateSeason(Some(b))
  {
  }

  /** A handler's JSON response. */
  datatype Response =
    | ItemResponse(item: ItemDict)          // {"success": true, "data": item.to_dict()}
    | ItemsResponse(items: seq<ItemDict>)   // {"success": true, "data": [...]}
    | DeletedResponse                       // {"success": true, "message": "Item deleted successfully"}
    | ErrorResponse(status: int, code: string, message: string)

  const InvalidId := ErrorResponse(400, "INVALID_INPUT", "Invalid item ID format")
  const NotFound := ErrorResponse(404, "ITEM_NOT_FOUND", "Item not found")

  /** The response to an `httpx.RequestError` from the image service. */
  function Unreachable(detail: string): Response {
    ErrorResponse(503, "SERVER_ERROR", "Failed to connect to image processing service: " + detail)
  }

  /** The response to a process reply whose `success` is not true: the
      reply's code and message, or the defaults when absent. */
  function ProcessFailure(code: Option<string>, message: Option<string>): Response {
    ErrorResponse(400, code.GetOr("PROCESSING_FAILED"), message.GetOr("Image processing failed"))
  }

  /** Python truthiness of an optional string: present and not empty. */
  predicate Truthy(s: Option<string>) {
    s.Some? && s.value != ""
  }

  /** `item_name or "Untitled"` (an absent form field is already "Untitled"). */
  function NameOrUntitled(itemName: Option<string>): string {
    if Truthy(itemName) then itemName.value else DefaultItemName
  }

  /** The four image fields, all set from one `data` object. */
  function WithImage(item: ClothingItem, data: ImageData): ClothingItem {
    item.(imageUrl := data.processedUrl, originalImageUrl := Some(data.originalUrl),
          fileName := Some(data.fileName), fileSize := Some(data.fileSize))
  }

  /** The four image fields of a stored `item` are those of `data`, the
      file name as its `VARCHAR(255)` column holds it. */
  predicate ImageFrom(item: ClothingItem, data: ImageData) {
    item.imageUrl == data.processedUrl && item.originalImageUrl == Some(data.originalUrl)
    && item.fileName == Varchar(data.fileName, FileNameLength) && item.fileSize == Some(data.fileSize)
  }

  /** The four image fields of `a` and `b` agree. */
  predicate SameImage(a: ClothingItem, b: ClothingItem) {
    a.imageUrl == b.imageUrl && a.originalImageUrl == b.originalImageUrl
    && a.fileName == b.fileName && a.fileSize == b.fileSize
  }

  /** What the table holds: every row is stored under its own id and is in
      the form its column types give it. */
  predicate WellKeyed(rows: map<Uuids.Uuid, ClothingItem>) {
    forall k :: k in rows ==> rows[k].id == k && FitsColumns(rows[k])
  }

  /** Why inserting `item` fails: a duplicate primary key or a value that does
      not fit its column; None when the insert commits. */
  function InsertError(rows: map<Uuids.Uuid, ClothingItem>, item: ClothingItem): Option<string> {
    if item.id in rows then Some("duplicate key value violates unique constraint \"clothing_items_pkey\"")
    else ColumnError(item)
  }

  /** The row `create_item` builds from a successful process reply. */
  function NewItem(id: Uuids.Uuid, itemName: Option<string>, season: Option<string>, data: ImageData,
                   now: Timestamps.DateTime): ClothingItem
  {
    ClothingItem(id, NameOrUntitled(itemName), Some(ValidateSeason(season)), data.processedUrl,
                 Some(data.originalUrl), Some(data.fileName), Some(data.fileSize), Some(now), Some(now))
  }

  /** The response, the table afterwards, and the requests sent to the image
      service, in order. */
  datatype Outcome = Outcome(response: Response, rows: map<Uuids.Uuid, ClothingItem>, sent: seq<ImageRequest>)

  /** `get_item`. */
  function GetItemReply(rows: map<Uuids.Uuid, ClothingItem>, idText: string): Response {
    match Uuids.Parse(idText)
    case None => InvalidId
    case Some(id) => if id in rows then ItemResponse(ToDict(rows[id])) else NotFound
  }

  /** `create_item`. */
  function CreateOutcome(rows: map<Uuids.Uuid, ClothingItem>, image: Upload, itemName: Option<string>,
                         season: Option<string>, call: Call<ProcessReply>, newId: Uuids.Uuid,
                         now: Timestamps.DateTime): Outcome
  {
    var sent := [ProcessRequest(image)];
    match call
    case RequestError(detail) => Outcome(Unreachable(detail), rows, sent)
    case Answered(ProcessFailed(code, message)) => Outcome(ProcessFailure(code, message), rows, sent)
    case Answered(ProcessSucceeded(data)) =>
      var item := NewItem(newId, itemName, season, data, now);
      match InsertError(rows, item)
      case Some(e) => Outcome(ErrorResponse(500, "SERVER_ERROR", "Failed to save item: " + e), rows, sent)
      case None =>
        var row := Stored(item);
        Outcome(ItemResponse(ToDict(row)), rows[newId := row], sent)
  }

  /** The commit at the end of `update_item`: `updated_at` is stamped when a
      column was assigned a different value; a row that cannot be written is
      rolled back, and otherwise the table holds it as `Stored` cuts it. */
  function CommitUpdate(rows: map<Uuids.Uuid, ClothingItem>, before: ClothingItem, after: ClothingItem,
                        now: Timestamps.DateTime, sent: seq<ImageRequest>): Outcome
  {
    var stamped := if after == before then after else after.(updatedAt := Some(now));
    match ColumnError(stamped)
    case Some(e) => Outcome(ErrorResponse(500, "SERVER_ERROR", "Failed to update item: " + e), rows, sent)
    case None =>
      var row := Stored(stamped);
      Outcome(ItemResponse(ToDict(row)), rows[row.id := row], sent)
  }

  /** The cleanup request `update_item` and `delete_item` send for a row. */
  function Cleanup(item: ClothingItem): seq<ImageRequest> {
    if Truthy(item.fileName) then [DeleteRequest(item.fileName.value, "both")] else []
  }

  /** The new-image part of `update_item`: the old files' deletion is
      requested first, and an unreachable image service at that point ends
      the request; then the upload is processed and the row committed. */
  function ReplaceImageOutcome(rows: map<Uuids.Uuid, ClothingItem>, before: ClothingItem, edited: ClothingItem,
                               image: Upload, deleteCall: Call<()>, processCall: Call<ProcessReply>,
                               now: Timestamps.DateTime): Outcome
  {
    var cleanup := Cleanup(before);
    if cleanup != [] && deleteCall.RequestError? then Outcome(Unreachable(deleteCall.detail), rows, cleanup)
    else
      var sent := cleanup + [ProcessRequest(image)];
      match processCall
      case RequestError(detail) => Outcome(Unreachable(detail), rows, sent)
      case Answered(ProcessFailed(code, message)) => Outcome(ProcessFailure(code, message), rows, sent)
      case Answered(ProcessSucceeded(data)) => CommitUpdate(rows, before, WithImage(edited, data), now, sent)
  }

  /** The row after the name and season edits of `update_item`: each is
      set only when supplied, the season normalised. */
  function Edited(item: ClothingItem, itemName: Option<string>, season: Option<string>): ClothingItem {
    var named := if itemName.Some? then item.(itemName := itemName.value) else item;
    if season.Some? then named.(season := Some(ValidateSeason(season))) else named
  }

  /** `update_item`. */
  function UpdateOutcome(rows: map<Uuids.Uuid, ClothingItem>, idText: string, image: Option<Upload>,
                         itemName: Option<string>, season: Option<string>, deleteCall: Call<()>,
                         processCall: Call<ProcessReply>, now: Timestamps.DateTime): Outcome
  {
    match Uuids.Parse(idText)
    case None => Outcome(InvalidId, rows, [])
    case Some(id) =>
      if id !in rows then Outcome(NotFound, rows, [])
      else
        var item := rows[id];
        var edited := Edited(item, itemName, season);
        if image.Some? && Truthy(image.value.filename) then
          ReplaceImageOutcome(rows, item, edited, image.value, deleteCall, processCall, now)
        else CommitUpdate(rows, item, edited, now, [])
  }

  /** `delete_item`. The answer to the cleanup request plays no part. */
  function DeleteOutcome(rows: map<Uuids.Uuid, ClothingItem>, idText: string): Outcome {
    match Uuids.Parse(idText)
    case None => Outcome(InvalidId, rows, [])
    case Some(id) =>
      if id !in rows then Outcome(NotFound, rows, [])
      else Outcome(DeletedResponse, rows - {id}, Cleanup(rows[id]))
  }

  /** Where `ORDER BY created_at DESC` may list a row with timestamp `a`
      before one with `b`: PostgreSQL puts NULLs first in descending order. */
  predicate ListedBefore(a: Option<Timestamps.DateTime>, b: Option<Timestamps.DateTime>) {
    a.None? || (b.Some? && Timestamps.NotAfter(b.value, a.value))
  }

  /** A non-empty set of rows has one that may be listed before all the others. */
  lemma {:induction false} LatestExists(rows: map<Uuids.Uuid, ClothingItem>, keys: set<Uuids.Uuid>)
    requires keys <= rows.Keys && keys != {}
    ensures exists k :: k in keys && forall j :: j in keys ==> ListedBefore(rows[k].createdAt, rows[j].createdAt)
    decreases |keys|
  {
    var x :| x in keys;
    if keys != {x} {
      LatestExists(rows, keys - {x});
      var m :| m in keys - {x} && forall j :: j in keys - {x} ==> ListedBefore(rows[m].createdAt, rows[j].createdAt);
      if ListedBefore(rows[m].createdAt, rows[x].createdAt) {
        assert forall j :: j in keys ==> ListedBefore(rows[m].createdAt, rows[j].createdAt);
      } else {
        assert forall j :: j in keys ==> ListedBefore(rows[x].createdAt, rows[j].createdAt);
      }
    } else {
      assert forall j :: j in keys ==> ListedBefore(rows[x].createdAt, rows[j].createdAt);
    }
  }

  /** `ids` lists, newest first, the rows of `table` outside `remaining`,
      each once, and none of them may be listed after a row in `remaining`. */
  ghost predicate Listing(table: map<Uuids.Uuid, ClothingItem>, ids: seq<Uuids.Uuid>, remaining: set<Uuids.Uuid>) {
    && remaining <= table.Keys
    && |ids| + |remaining| == |table|
    && (forall i :: 0 <= i < |ids| ==> ids[i] in table)
    && (forall k :: k in table ==> (k in ids <==> k !in remaining))
    && (forall i, j :: 0 <= i < j < |ids| ==> ids[i] != ids[j])
    && (forall i, j :: 0 <= i < j < |ids| ==> ListedBefore(table[ids[i]].createdAt, table[ids[j]].createdAt))
    && (forall i, k :: 0 <= i < |ids| && k in remaining ==> ListedBefore(table[ids[i]].createdAt, table[k].createdAt))
  }

  /** Moving a latest remaining row to the end of the listing keeps it one. */
  lemma ListingExtends(table: map<Uuids.Uuid, ClothingItem>, ids: seq<Uuids.Uuid>, remaining: set<Uuids.Uuid>,
                       k: Uuids.Uuid)
    requires Listing(table, ids, remaining) && k in remaining
    requires forall j :: j in remaining ==> ListedBefore(table[k].createdAt, table[j].createdAt)
    ensures Listing(table, ids + [k], remaining - {k})
  {
    var ids' := ids + [k];
    var rest := remaining - {k};
    assert |rest| == |remaining| - 1;
    forall k' | k' in table ensures k' in ids' <==> k' !in rest {
      assert k' in ids' <==> k' in ids || k' == k;
    }
    forall i, j | 0 <= i < j < |ids'| ensures ids'[i] != ids'[j] {
      if j == |ids| { assert ids[i] !in remaining; }
    }
    forall i, j | 0 <= i < j < |ids'|
      ensures ListedBefore(table[ids'[i]].createdAt, table[ids'[j]].createdAt)
    {
      if j == |ids| { assert ids'[i] == ids[i]; }
    }
    forall i, j | 0 <= i < |ids'| && j in rest
      ensures ListedBefore(table[ids'[i]].createdAt, table[j].createdAt)
    {
      if i < |ids| { assert ids'[i] == ids[i]; }
    }
  }

  /** The `clothing_items` table, reached through a session. */
  class ItemStore {
    var rows: map<Uuids.Uuid, ClothingItem>

    predicate Valid()
      reads this
    {
      WellKeyed(rows)
    }

    constructor (rows: map<Uuids.Uuid, ClothingItem>)
      requires WellKeyed(rows)
      ensures Valid() && this.rows == rows
    {
      this.rows := rows;
    }

    /** `get_item`. */
    method GetItem(idText: string) returns (r: Response)
      ensures r == GetItemReply(rows, idText)
    {
      var id := Uuids.Parse(idText);
      if id.None? {
        return InvalidId;
      }
      if id.value !in rows {
        return NotFound;
      }
      r := ItemResponse(ToDict(rows[id.value]));
    }

    /** `get_all_items`: every row once, newest `created_at` first (NULLs
        first); rows with equal timestamps come in no promised order.
        `order` is the listed ids. */
    method GetAllItems() returns (r: Response, ghost order: seq<Uuids.Uuid>)
      ensures |order| == |rows|
      ensures forall k :: k in rows <==> k in order
      ensures forall i :: 0 <= i < |order| ==> order[i] in rows
      ensures forall i, j :: 0 <= i < j < |order| ==> order[i] != order[j]
      ensures forall i, j :: 0 <= i < j < |order| ==> ListedBefore(rows[order[i]].createdAt, rows[order[j]].createdAt)
      ensures r.ItemsResponse? && |r.items| == |order|
      ensures forall i :: 0 <= i < |order| ==> order[i] in rows && r.items[i] == ToDict(rows[order[i]])
    {
      var table := rows;
      var ids: seq<Uuids.Uuid> := [];
      var remaining := table.Keys;
      while remaining != {}
        invariant Listing(table, ids, remaining)
        decreases |remaining|
      {
        LatestExists(table, remaining);
        var k :| k in remaining && forall j :: j in remaining ==> ListedBefore(table[k].createdAt, table[j].createdAt);
        ListingExtends(table, ids, remaining, k);
        ids := ids + [k];
        remaining := remaining - {k};
      }
      order := ids;
      var items := seq(|ids|, i requires 0 <= i < |ids| => ToDict(table[ids[i]]));
      forall i | 0 <= i < |order| ensures order[i] in rows && items[i] == ToDict(rows[order[i]]) {
        assert ids[i] in table;
      }
      r := ItemsResponse(items);
    }

    /** `create_item`: forward the upload, then insert a row built from the
        reply and commit. */
    method CreateItem(image: Upload, itemName: Option<string>, season: Option<string>, call: Call<ProcessReply>,
                      newId: Uuids.Uuid, now: Timestamps.DateTime)
      returns (r: Response, sent: seq<ImageRequest>)
      requires Valid()
      modifies this
      ensures Valid()
      ensures Outcome(r, rows, sent) == CreateOutcome(old(rows), image, itemName, season, call, newId, now)
    {
      var validatedSeason := ValidateSeason(season);
      sent := [ProcessRequest(image)];
      var data: ImageData;
      match call {
        case RequestError(detail) =>
          return Unreachable(detail), sent;
        case Answered(ProcessFailed(code, message)) =>
          return ProcessFailure(code, message), sent;
        case Answered(ProcessSucceeded(d)) =>
          data := d;
      }
      var item := ClothingItem(newId, NameOrUntitled(itemName), Some(validatedSeason), data.processedUrl,
                               Some(data.originalUrl), Some(data.fileName), Some(data.fileSize), Some(now), Some(now));
      var error := InsertError(rows, item);
      if error.Some? {
        return ErrorResponse(500, "SERVER_ERROR", "Failed to save item: " + error.value), sent;
      }
      var row := Stored(item);
      StoredFits(item);
      rows := rows[newId := row];
      r := ItemResponse(ToDict(row));
    }

    /** `update_item`: edit the fetched row in the session; with a new image,
        first ask for the old files to be deleted, then process the upload;
        commit at the end. An early return commits nothing. */
    method UpdateItem(idText: string, image: Option<Upload>, itemName: Option<string>, season: Option<string>,
                      deleteCall: Call<()>, processCall: Call<ProcessReply>, now: Timestamps.DateTime)
      returns (r: Response, sent: seq<ImageRequest>)
      requires Valid()
      modifies this
      ensures Valid()
      ensures Outcome(r, rows, sent)
              == UpdateOutcome(old(rows), idText, image, itemName, season, deleteCall, processCall, now)
    {
      sent := [];
      var id := Uuids.Parse(idText);
      if id.None? {
        return InvalidId, sent;
      }
      if id.value !in rows {
        return NotFound, sent;
      }
      var fetched := rows[id.value];
      var item := fetched;
      if itemName.Some? {
        item := item.(itemName := itemName.value);
      }
      if season.Some? {
        item := item.(season := Some(ValidateSeason(season)));
      }
      if image.Some? && Truthy(image.value.filename) {
        r, sent := ReplaceImage(fetched, item, image.value, deleteCall, processCall, now);
        return;
      }
      r := Commit(fetched, item, now, sent);
    }

    /** The new-image part of `update_item`, on the row `before` already
        edited into `item` in the session. */
    method ReplaceImage(before: ClothingItem, item: ClothingItem, image: Upload, deleteCall: Call<()>,
                        processCall: Call<ProcessReply>, now: Timestamps.DateTime)
      returns (r: Response, sent: seq<ImageRequest>)
      requires Valid() && before.id in rows && rows[before.id] == before
      requires item.id == before.id && SameImage(item, before)
      modifies this
      ensures Valid()
      ensures Outcome(r, rows, sent) == ReplaceImageOutcome(old(rows), before, item, image, deleteCall, processCall, now)
    {
      sent := [];
      var oldFileName := item.fileName;
      assert Cleanup(before) == if Truthy(oldFileName) then [DeleteRequest(oldFileName.value, "both")] else [];
      if Truthy(oldFileName) {
        sent := sent + [DeleteRequest(oldFileName.value, "both")];
        if deleteCall.RequestError? {
          return Unreachable(deleteCall.detail), sent;
        }
      }
      sent := sent + [ProcessRequest(image)];
      var edited := item;
      match processCall {
        case RequestError(detail) =>
          return Unreachable(detail), sent;
        case Answered(ProcessFailed(code, message)) =>
          return ProcessFailure(code, message), sent;
        case Answered(ProcessSucceeded(data)) =>
          edited := edited.(imageUrl := data.processedUrl);
          edited := edited.(originalImageUrl := Some(data.originalUrl));
          edited := edited.(fileName := Some(data.fileName));
          edited := edited.(fileSize := Some(data.fileSize));
          assert edited == WithImage(item, data);
      }
      r := Commit(before, edited, now, sent);
    }

    /** `db.commit()` after an update of `before` into `after`. */
    method Commit(before: ClothingItem, after: ClothingItem, now: Timestamps.DateTime, ghost sent: seq<ImageRequest>)
      returns (r: Response)
      requires Valid() && before.id in rows && rows[before.id] == before && after.id == before.id
      modifies this
      ensures Valid()
      ensures Outcome(r, rows, sent) == CommitUpdate(old(rows), before, after, now, sent)
    {
      var item := after;
      if item != before {
        item := item.(updatedAt := Some(now));
      }
      var error := ColumnError(item);
      if error.Some? {
        return ErrorResponse(500, "SERVER_ERROR", "Failed to update item: " + error.value);
      }
      var row := Stored(item);
      StoredFits(item);
      rows := rows[row.id := row];
      r := ItemResponse(ToDict(row));
    }

    /** `delete_item`: ask for the files to be deleted, ignoring an
        unreachable image service, then delete the row and commit. */
    method DeleteItem(idText: string, deleteCall: Call<()>) returns (r: Response, sent: seq<ImageRequest>)
      requires Valid()
      modifies this
      ensures Valid()
      ensures Outcome(r, rows, sent) == DeleteOutcome(old(rows), idText)
    {
      sent := [];
      var id := Uuids.Parse(idText);
      if id.None? {
        return InvalidId, sent;
      }
      if id.value !in rows {
        return NotFound, sent;
      }
      var item := rows[id.value];
      if Truthy(item.fileName) {
        sent := sent + [DeleteRequest(item.fileName.value, "both")];
        match deleteCall {
          case RequestError(_) =>   // logged and ignored
          case Answered(_) =>
        }
      }
      rows := rows - {id.value};
      r := DeletedResponse;
    }
  }
}
