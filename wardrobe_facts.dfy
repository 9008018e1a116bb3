/** What the wardrobe handlers promise, stated over the functions the
    `ItemStore` methods are proved against. */
module WardrobeFacts {
  import opened Options
  import Text
  import Uuids
  import Timestamps
  import opened Models
  import opened Protocol
  import opened Wardrobe

  /** An absent or empty season is the `season` column's default, and every
      result is one of the `SeasonEnum` values; an absent or empty name is
      the `item_name` column's default. */
  lemma ValidateSeasonDefaults(season: Option<string>)
    ensures ValidateSeason(None) == DefaultSeason.Value() && ValidateSeason(Some("")) == DefaultSeason.Value()
    ensures NameOrUntitled(None) == DefaultItemName && NameOrUntitled(Some("")) == DefaultItemName
    ensures exists s :: s in AllSeasons && s.Value() == ValidateSeason(season)
  {
    ValidSeasonsAreSeasonEnum();
    var k :| 0 <= k < |ValidSeasons| && ValidSeasons[k] == ValidateSeason(season);
    assert AllSeasons[k] in AllSeasons;
  }

  /** The id `to_dict` prints fetches the same row back. */
  lemma GetItemByPrintedId(rows: map<Uuids.Uuid, ClothingItem>, k: Uuids.Uuid)
    requires WellKeyed(rows) && k in rows
    ensures GetItemReply(rows, ToDict(rows[k]).id) == ItemResponse(ToDict(rows[k]))
  {
    ToDictIdParses(rows[k]);
  }

  /** A malformed id is `INVALID_INPUT` and an unknown one `ITEM_NOT_FOUND`
      for `get_item`, `update_item` and `delete_item`, with nothing sent to
      the image service and the table unchanged. */
  lemma UnaddressableIdChangesNothing(rows: map<Uuids.Uuid, ClothingItem>, idText: string, image: Option<Upload>,
                                      itemName: Option<string>, season: Option<string>, deleteCall: Call<()>,
                                      processCall: Call<ProcessReply>, now: Timestamps.DateTime)
    requires Uuids.Parse(idText).None? || Uuids.Parse(idText).value !in rows
    ensures var e := if Uuids.Parse(idText).None? then ErrorResponse(400, "INVALID_INPUT", "Invalid item ID format")
                     else ErrorResponse(404, "ITEM_NOT_FOUND", "Item not found");
            && GetItemReply(rows, idText) == e
            && UpdateOutcome(rows, idText, image, itemName, season, deleteCall, processCall, now) == Outcome(e, rows, [])
            && DeleteOutcome(rows, idText) == Outcome(e, rows, [])
  {
  }

  /** `create_item` adds nothing unless the image service answers with a
      success: an unreachable service is 503 `SERVER_ERROR`, a refusal is
      400 with the service's code and message or their defaults. */
  lemma CreateFailureAddsNothing(rows: map<Uuids.Uuid, ClothingItem>, image: Upload, itemName: Option<string>,
                                 season: Option<string>, call: Call<ProcessReply>, newId: Uuids.Uuid,
                                 now: Timestamps.DateTime)
    requires !(call.Answered? && call.reply.ProcessSucceeded?)
    ensures var o := CreateOutcome(rows, image, itemName, season, call, newId, now);
            && o.rows == rows
            && o.sent == [ProcessRequest(image)]
            && (call.RequestError? ==> o.response.ErrorResponse? && o.response.status == 503 && o.response.code == "SERVER_ERROR")
            && (call.Answered? ==> o.response == ErrorResponse(400, call.reply.code.GetOr("PROCESSING_FAILED"),
                                                               call.reply.message.GetOr("Image processing failed")))
  {
  }

  /** A successful `create_item` adds exactly one row under the new id, leaves
      the others alone, takes all four image fields from the one reply, falls
      back to "Untitled" for an empty name, normalises the season, and answers
      with the stored row, its `VARCHAR` values cut of excess spaces; it
      succeeds exactly when the id is new and the row can be written, and a
      failed commit leaves the table as it was. */
  lemma CreateAddsOneRow(rows: map<Uuids.Uuid, ClothingItem>, image: Upload, itemName: Option<string>,
                         season: Option<string>, data: ImageData, newId: Uuids.Uuid, now: Timestamps.DateTime)
    requires WellKeyed(rows)
    ensures var o := CreateOutcome(rows, image, itemName, season, Answered(ProcessSucceeded(data)), newId, now);
            && WellKeyed(o.rows)
            && (o.response.ItemResponse? <==> newId !in rows && ColumnError(NewItem(newId, itemName, season, data, now)).None?)
            && (!o.response.ItemResponse? ==> o.rows == rows && o.response.ErrorResponse? && o.response.status == 500)
            && (o.response.ItemResponse? ==>
                  && o.rows.Keys == rows.Keys + {newId}
                  && (forall k :: k in rows ==> o.rows[k] == rows[k])
                  && ImageFrom(o.rows[newId], data)
                  && Some(o.rows[newId].itemName)
                     == Varchar(if itemName.Some? && itemName.value != "" then itemName.value else "Untitled", ItemNameLength)
                  && o.rows[newId].season == Some(ValidateSeason(season))
                  && o.rows[newId].createdAt == Some(now) && o.rows[newId].updatedAt == Some(now)
                  && o.response.item == ToDict(o.rows[newId]))
  {
    var o := CreateOutcome(rows, image, itemName, season, Answered(ProcessSucceeded(data)), newId, now);
    var item := NewItem(newId, itemName, season, data, now);
    if o.response.ItemResponse? {
      var row := Stored(item);
      StoredFits(item);
      ValidatedSeasonFits(season);
      assert newId !in rows;
      assert o.rows == rows[newId := row];
      forall k | k in rows ensures o.rows[k] == rows[k] {
        assert k != newId;
      }
      assert forall k :: k in o.rows ==> o.rows[k].id == k && FitsColumns(o.rows[k]);
    }
  }

  /** After a successful `create_item`, `get_item` on the id it printed
      returns the same body. */
  lemma CreateThenGet(rows: map<Uuids.Uuid, ClothingItem>, image: Upload, itemName: Option<string>,
                      season: Option<string>, call: Call<ProcessReply>, newId: Uuids.Uuid, now: Timestamps.DateTime)
    requires WellKeyed(rows)
    ensures var o := CreateOutcome(rows, image, itemName, season, call, newId, now);
            o.response.ItemResponse? ==> GetItemReply(o.rows, o.response.item.id) == o.response
  {
    var o := CreateOutcome(rows, image, itemName, season, call, newId, now);
    if o.response.ItemResponse? {
      CreateAddsOneRow(rows, image, itemName, season, call.reply.data, newId, now);
      GetItemByPrintedId(o.rows, newId);
    }
  }

  /** Deleting, by the id it printed, the item a successful `create_item`
      added restores the table, and sends the deletion of the `file_name`
      the image service returned. */
  lemma CreateThenDeleteRestoresTable(rows: map<Uuids.Uuid, ClothingItem>, image: Upload, itemName: Option<string>,
                                      season: Option<string>, data: ImageData, newId: Uuids.Uuid,
                                      now: Timestamps.DateTime)
    requires data.fileName != ""
    ensures var created := CreateOutcome(rows, image, itemName, season, Answered(ProcessSucceeded(data)), newId, now);
            created.response.ItemResponse? ==>
              && Varchar(data.fileName, FileNameLength).Some?
              && DeleteOutcome(created.rows, created.response.item.id)
                 == Outcome(DeletedResponse, rows, [DeleteRequest(Varchar(data.fileName, FileNameLength).value, "both")])
  {
    var created := CreateOutcome(rows, image, itemName, season, Answered(ProcessSucceeded(data)), newId, now);
    if created.response.ItemResponse? {
      var item := NewItem(newId, itemName, season, data, now);
      assert InsertError(rows, item).None?;
      StoredFits(item);
      VarcharCuts(data.fileName, FileNameLength);
      var row := Stored(item);
      assert created == Outcome(ItemResponse(ToDict(row)), rows[newId := row], [ProcessRequest(image)]);
      ToDictIdParses(row);
      var name := Varchar(data.fileName, FileNameLength).value;
      assert row.fileName == Some(name) && name != "";
      assert Cleanup(row) == [DeleteRequest(name, "both")];
      var deleted := DeleteOutcome(rows[newId := row], ToDict(row).id);
      assert deleted == Outcome(DeletedResponse, rows[newId := row] - {newId}, Cleanup(row));
      UndoStore(rows, newId, row);
    }
  }

  /** Removing a key just added to a map that lacked it gives the map back. */
  lemma UndoStore<K, V>(m: map<K, V>, k: K, v: V)
    requires k !in m
    ensures m[k := v] - {k} == m
  {
  }

  /** The commit that ends `update_item` succeeds exactly when the edited row
      can be written; it then rewrites the one row as the table holds it,
      stamping `updated_at` only when a column was assigned a different
      value, and otherwise rolls back. */
  lemma CommitUpdateRewritesOneRow(rows: map<Uuids.Uuid, ClothingItem>, before: ClothingItem, after: ClothingItem,
                                   now: Timestamps.DateTime, sent: seq<ImageRequest>)
    requires WellKeyed(rows) && before.id in rows && rows[before.id] == before
    requires after.id == before.id && after.updatedAt == before.updatedAt
    ensures var o := CommitUpdate(rows, before, after, now, sent);
            && WellKeyed(o.rows)
            && o.rows.Keys == rows.Keys
            && (forall k :: k in rows && k != before.id ==> o.rows[k] == rows[k])
            && (o.response.ItemResponse? <==> ColumnError(after).None?)
            && (!o.response.ItemResponse? ==> o.rows == rows && o.response.ErrorResponse? && o.response.status == 500)
            && (o.response.ItemResponse? ==>
                  && o.response.item == ToDict(o.rows[before.id])
                  && o.rows[before.id].(updatedAt := before.updatedAt) == Stored(after)
                  && o.rows[before.id].updatedAt == (if after == before then before.updatedAt else Some(now)))
  {
    var o := CommitUpdate(rows, before, after, now, sent);
    var stamped := if after == before then after else after.(updatedAt := Some(now));
    ColumnErrorIgnoresTimestamps(after, Some(now));
    if o.response.ItemResponse? {
      var row := Stored(stamped);
      StoredFits(stamped);
      assert o.rows == rows[before.id := row];
      assert o.rows.Keys == rows.Keys;
      forall k | k in rows && k != before.id ensures o.rows[k] == rows[k] {
      }
      forall k | k in o.rows ensures o.rows[k].id == k && FitsColumns(o.rows[k]) {
        if k != before.id { assert o.rows[k] == rows[k]; }
      }
    }
  }

  /** The new-image branch of `update_item` either commits the edited row
      with all four image fields from the one successful reply, or ends with
      an error and the table as it was. */
  lemma ReplaceImageCommitsOrAborts(rows: map<Uuids.Uuid, ClothingItem>, before: ClothingItem, edited: ClothingItem,
                                    image: Upload, deleteCall: Call<()>, processCall: Call<ProcessReply>,
                                    now: Timestamps.DateTime)
    ensures var o := ReplaceImageOutcome(rows, before, edited, image, deleteCall, processCall, now);
            if processCall.Answered? && processCall.reply.ProcessSucceeded? && !(Cleanup(before) != [] && deleteCall.RequestError?)
            then o == CommitUpdate(rows, before, WithImage(edited, processCall.reply.data), now, o.sent)
            else o.rows == rows && o.response.ErrorResponse?
  {
  }

  /** `update_item` on an existing row touches that row only, and any
      failure commits nothing. */
  lemma UpdateTouchesOneRow(rows: map<Uuids.Uuid, ClothingItem>, idText: string, id: Uuids.Uuid,
                            image: Option<Upload>, itemName: Option<string>, season: Option<string>,
                            deleteCall: Call<()>, processCall: Call<ProcessReply>, now: Timestamps.DateTime)
    requires WellKeyed(rows) && Uuids.Parse(idText) == Some(id) && id in rows
    ensures var o := UpdateOutcome(rows, idText, image, itemName, season, deleteCall, processCall, now);
            && WellKeyed(o.rows)
            && o.rows.Keys == rows.Keys
            && (forall k :: k in rows && k != id ==> o.rows[k] == rows[k])
            && (!o.response.ItemResponse? ==> o.rows == rows && o.response.ErrorResponse?)
            && (o.response.ItemResponse? ==> o.response.item == ToDict(o.rows[id]))
  {
    var b := rows[id];
    var edited := Edited(b, itemName, season);
    var o := UpdateOutcome(rows, idText, image, itemName, season, deleteCall, processCall, now);
    if image.Some? && Truthy(image.value.filename) {
      assert o == ReplaceImageOutcome(rows, b, edited, image.value, deleteCall, processCall, now);
      ReplaceImageCommitsOrAborts(rows, b, edited, image.value, deleteCall, processCall, now);
      if processCall.Answered? && processCall.reply.ProcessSucceeded? && !(Cleanup(b) != [] && deleteCall.RequestError?) {
        CommitUpdateRewritesOneRow(rows, b, WithImage(edited, processCall.reply.data), now, o.sent);
      }
    } else {
      assert o == CommitUpdate(rows, b, edited, now, []);
      CommitUpdateRewritesOneRow(rows, b, edited, now, []);
    }
  }

  /** The row `update_item` tries to commit: the edited row, with the four
      image fields of a successful reply when a new image was processed. */
  function Committed(item: ClothingItem, itemName: Option<string>, season: Option<string>, image: Option<Upload>,
                     processCall: Call<ProcessReply>): (r: ClothingItem)
    ensures r.id == item.id && r.createdAt == item.createdAt && r.updatedAt == item.updatedAt
    ensures itemName.None? && season.None? && !(image.Some? && Truthy(image.value.filename)) ==> r == item
  {
    var edited := Edited(item, itemName, season);
    if image.Some? && Truthy(image.value.filename) && processCall.Answered? && processCall.reply.ProcessSucceeded?
    then WithImage(edited, processCall.reply.data)
    else edited
  }

  /** `update_item` on an existing row either ends before the commit, with
      the table as it was, or is the commit of `Committed`. */
  lemma UpdateCommitsOrAborts(rows: map<Uuids.Uuid, ClothingItem>, idText: string, id: Uuids.Uuid,
                              image: Option<Upload>, itemName: Option<string>, season: Option<string>,
                              deleteCall: Call<()>, processCall: Call<ProcessReply>, now: Timestamps.DateTime)
    requires Uuids.Parse(idText) == Some(id) && id in rows
    ensures var o := UpdateOutcome(rows, idText, image, itemName, season, deleteCall, processCall, now);
            || (o.rows == rows && o.response.ErrorResponse?)
            || o == CommitUpdate(rows, rows[id], Committed(rows[id], itemName, season, image, processCall), now, o.sent)
  {
    var b := rows[id];
    var edited := Edited(b, itemName, season);
    var o := UpdateOutcome(rows, idText, image, itemName, season, deleteCall, processCall, now);
    if image.Some? && Truthy(image.value.filename) {
      assert o == ReplaceImageOutcome(rows, b, edited, image.value, deleteCall, processCall, now);
      ReplaceImageCommitsOrAborts(rows, b, edited, image.value, deleteCall, processCall, now);
    } else {
      assert o == CommitUpdate(rows, b, edited, now, []);
    }
  }

  /** A season `validate_season` returns fits its `VARCHAR(50)` column. */
  lemma ValidatedSeasonFits(season: Option<string>)
    ensures Varchar(ValidateSeason(season), SeasonLength) == Some(ValidateSeason(season))
  {
    VarcharCuts(ValidateSeason(season), SeasonLength);
  }

  /** The row `update_item` leaves behind: its name and season change only
      when supplied (the season normalised, the name as its `VARCHAR(255)`
      column holds it) and only if the update commits; the four image fields
      change together, only when a new image was processed successfully, and
      then all come from that one reply; `created_at` never changes. */
  lemma UpdateChangesOnlySupplied(rows: map<Uuids.Uuid, ClothingItem>, idText: string, id: Uuids.Uuid,
                                  image: Option<Upload>, itemName: Option<string>, season: Option<string>,
                                  deleteCall: Call<()>, processCall: Call<ProcessReply>, now: Timestamps.DateTime)
    requires WellKeyed(rows) && Uuids.Parse(idText) == Some(id) && id in rows
    ensures var o := UpdateOutcome(rows, idText, image, itemName, season, deleteCall, processCall, now);
            var b := rows[id];
            var a := o.rows[id];
            && a.id == b.id && a.createdAt == b.createdAt
            && Some(a.itemName)
               == (if itemName.Some? && o.response.ItemResponse? then Varchar(itemName.value, ItemNameLength) else Some(b.itemName))
            && a.season == (if season.Some? && o.response.ItemResponse? then Some(ValidateSeason(season)) else b.season)
            && (SameImage(a, b) || (image.Some? && Truthy(image.value.filename)
                                    && processCall.Answered? && processCall.reply.ProcessSucceeded?
                                    && ImageFrom(a, processCall.reply.data)))
  {
    var b := rows[id];
    var after := Committed(b, itemName, season, image, processCall);
    var o := UpdateOutcome(rows, idText, image, itemName, season, deleteCall, processCall, now);
    UpdateCommitsOrAborts(rows, idText, id, image, itemName, season, deleteCall, processCall, now);
    UpdateTouchesOneRow(rows, idText, id, image, itemName, season, deleteCall, processCall, now);
    if o.response.ItemResponse? {
      assert o == CommitUpdate(rows, b, after, now, o.sent);
      CommitUpdateRewritesOneRow(rows, b, after, now, o.sent);
      assert after.itemName == if itemName.Some? then itemName.value else b.itemName;
      assert after.season == if season.Some? then Some(ValidateSeason(season)) else b.season;
      StoredFits(after);
      FitsAreWritable(b);
      StoredFits(b);
      VarcharCuts(b.itemName, ItemNameLength);
      ValidatedSeasonFits(season);
      if b.season.Some? { VarcharCuts(b.season.value, SeasonLength); }
      if b.fileName.Some? { VarcharCuts(b.fileName.value, FileNameLength); }
    }
  }

  /** `update_item` moves `updated_at` only to `now` and only on a commit,
      and does move it whenever another column changed; a request that
      supplies nothing leaves the row as it was. */
  lemma UpdateStampsOnlyOnChange(rows: map<Uuids.Uuid, ClothingItem>, idText: string, id: Uuids.Uuid,
                                 image: Option<Upload>, itemName: Option<string>, season: Option<string>,
                                 deleteCall: Call<()>, processCall: Call<ProcessReply>, now: Timestamps.DateTime)
    requires WellKeyed(rows) && Uuids.Parse(idText) == Some(id) && id in rows
    ensures var o := UpdateOutcome(rows, idText, image, itemName, season, deleteCall, processCall, now);
            var b := rows[id];
            var a := o.rows[id];
            && (a.updatedAt == b.updatedAt || (a.updatedAt == Some(now) && o.response.ItemResponse?))
            && (a.(updatedAt := b.updatedAt) != b ==> a.updatedAt == Some(now))
            && (itemName.None? && season.None? && !(image.Some? && Truthy(image.value.filename)) ==> a == b)
  {
    var b := rows[id];
    var after := Committed(b, itemName, season, image, processCall);
    var o := UpdateOutcome(rows, idText, image, itemName, season, deleteCall, processCall, now);
    UpdateCommitsOrAborts(rows, idText, id, image, itemName, season, deleteCall, processCall, now);
    UpdateTouchesOneRow(rows, idText, id, image, itemName, season, deleteCall, processCall, now);
    if o.response.ItemResponse? {
      assert o == CommitUpdate(rows, b, after, now, o.sent);
      CommitUpdateRewritesOneRow(rows, b, after, now, o.sent);
      FitsAreWritable(b);
      StoredFits(b);
    }
  }

  /** The asymmetry between `update_item` and `delete_item`: `update_item`
      sends the old files' deletion before processing the new image, so a
      processing failure leaves the row unchanged while its files have been
      asked away; and an unreachable image service at that first request
      ends `update_item` with 503, while `delete_item` goes on and removes
      the row. */
  lemma UpdateDeletesFilesBeforeProcessing(rows: map<Uuids.Uuid, ClothingItem>, idText: string, id: Uuids.Uuid,
                                           upload: Upload, itemName: Option<string>, season: Option<string>,
                                           deleteCall: Call<()>, processCall: Call<ProcessReply>,
                                           now: Timestamps.DateTime)
    requires Uuids.Parse(idText) == Some(id) && id in rows
    requires Truthy(rows[id].fileName) && Truthy(upload.filename)
    ensures var o := UpdateOutcome(rows, idText, Some(upload), itemName, season, deleteCall, processCall, now);
            && |o.sent| >= 1 && o.sent[0] == DeleteRequest(rows[id].fileName.value, "both")
            && (!(processCall.Answered? && processCall.reply.ProcessSucceeded?) ==> o.rows == rows && o.rows[id].fileName == rows[id].fileName)
            && (deleteCall.RequestError? ==>
                  && o == Outcome(ErrorResponse(503, "SERVER_ERROR", "Failed to connect to image processing service: " + deleteCall.detail),
                                  rows, [DeleteRequest(rows[id].fileName.value, "both")])
                  && DeleteOutcome(rows, idText).response == DeletedResponse
                  && DeleteOutcome(rows, idText).rows == rows - {id})
  {
  }

  /** `delete_item` on an existing row removes that row and no other, sends
      the files' deletion exactly when `file_name` is set, and succeeds
      whatever the image service answers; the id is then unknown. */
  lemma DeleteRemovesOneRow(rows: map<Uuids.Uuid, ClothingItem>, idText: string, id: Uuids.Uuid)
    requires WellKeyed(rows) && Uuids.Parse(idText) == Some(id) && id in rows
    ensures var o := DeleteOutcome(rows, idText);
            && o.response == DeletedResponse
            && WellKeyed(o.rows)
            && o.rows.Keys == rows.Keys - {id}
            && (forall k :: k in o.rows ==> o.rows[k] == rows[k])
            && (o.sent == [] <==> rows[id].fileName.None? || rows[id].fileName.value == "")
            && (o.sent != [] ==> o.sent == [DeleteRequest(rows[id].fileName.value, "both")])
            && GetItemReply(o.rows, idText) == ErrorResponse(404, "ITEM_NOT_FOUND", "Item not found")
            && DeleteOutcome(o.rows, idText) == Outcome(ErrorResponse(404, "ITEM_NOT_FOUND", "Item not found"), o.rows, [])
  {
  }
}
