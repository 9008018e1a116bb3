/** The two services together: the wardrobe keeps the `file_name` the image
    service returns and later hands it back for deletion. */
module EndToEnd {
  import opened Options
  import Text
  import Uuids
  import Timestamps
  import opened Models
  import opened Protocol
  import opened ImageService
  import opened Wardrobe
  import ImageServiceFacts
  import WardrobeFacts

  /** How the wardrobe reads a `/images/process` response: `success` and
      `data`, or the `error` object's code and message. */
  function AsProcessReply(r: ProcessResponse): ProcessReply {
    match r
    case ProcessOk(data) => ProcessSucceeded(data)
    case ProcessError(_, code, message) => ProcessFailed(Some(code), Some(message))
  }

  /** No stored file has the file id as its stem. */
  predicate FreshId(files: map<StoredFile, seq<bv8>>, fileId: Uuids.Uuid, order: seq<string>) {
    (forall i :: 0 <= i < |order| ==> StoredFile(Original, Uuids.Format(fileId) + order[i]) !in files)
    && StoredFile(Processed, Uuids.Format(fileId) + ".png") !in files
  }

  /** A `type=both` delete of `{stem}.png`, when the only files under `stem`
      are the original `{stem}{order[k]}` and `{stem}.png`, removes those two
      and reports both. */
  lemma DeletePairRemovesBoth(files: map<StoredFile, seq<bv8>>, stem: string, order: seq<string>, k: nat)
    requires k < |order| && forall j :: 0 <= j < |order| ==> order[j] in AllowedExtensions
    requires Text.Stem(stem + ".png") == stem
    requires StoredFile(Original, stem + order[k]) in files && StoredFile(Processed, stem + ".png") in files
    requires forall j :: 0 <= j < |order| && j != k ==> StoredFile(Original, stem + order[j]) !in files
    ensures var original := StoredFile(Original, stem + order[k]);
            var processed := StoredFile(Processed, stem + ".png");
            && FilesAfterDelete(files, stem + ".png", "both", order, map[]) == files - {original} - {processed}
            && DeleteReplyFor(files, stem + ".png", "both", order, map[])
               == DeleteOk([RelativePath(original), RelativePath(processed)])
  {
    var original := StoredFile(Original, stem + order[k]);
    var processed := StoredFile(Processed, stem + ".png");
    ImageServiceFacts.FirstOriginalUnique(files, stem, order, k);
    var s1 := Unlink(Sweep(files, [], []), original, "Failed to delete original: ", map[]);
    assert SweepOriginal(Sweep(files, [], []), stem, order, map[]) == s1;
    assert processed in s1.files;
    var s2 := Unlink(s1, processed, "Failed to delete processed: ", map[]);
    assert SweepProcessed(s1, stem, map[]) == s2;
    assert DeleteSweep(files, stem + ".png", "both", order, map[]) == s2;
  }

  /** Deleting, with `type=both`, the `file_name` a successful process
      returned removes exactly the two files that process stored and
      reports both; for a fresh file id the directory is as before. */
  lemma ProcessThenDeleteRestores(baseUrl: string, order: seq<string>, files: map<StoredFile, seq<bv8>>,
                                  filename: string, content: seq<bv8>, fileId: Uuids.Uuid, png: seq<bv8>)
    requires IsEnumeration(order) && FreshId(files, fileId, order)
    requires ValidateImageFile(Some(filename), order).None? && |content| <= MaxFileSize
    ensures var reply := ProcessReplyFor(baseUrl, order, Some(filename), content, fileId, Removed(png));
            var stored := FilesAfterProcess(files, Some(filename), content, fileId, Removed(png));
            && reply.ProcessOk?
            && reply.data.fileName == ProcessedName(fileId)
            && FilesAfterDelete(stored, reply.data.fileName, "both", order, map[]) == files
            && DeleteReplyFor(stored, reply.data.fileName, "both", order, map[])
               == DeleteOk(["original/" + OriginalName(fileId, filename), "processed/" + ProcessedName(fileId)])
  {
    ImageServiceFacts.ProcessStoresPair(baseUrl, order, files, filename, content, fileId, png);
    var ext := Text.Lower(Text.Suffix(filename));
    var stem := Uuids.Format(fileId);
    var original := StoredFile(Original, stem + ext);
    var processed := StoredFile(Processed, stem + ".png");
    var stored := files[original := content][processed := png];
    assert FilesAfterProcess(files, Some(filename), content, fileId, Removed(png)) == stored;
    var k :| 0 <= k < |order| && order[k] == ext;
    forall j | 0 <= j < |order| && j != k ensures StoredFile(Original, stem + order[j]) !in stored {
      assert (stem + order[j])[|stem|..] == order[j];
      assert (stem + ext)[|stem|..] == ext;
    }
    DeletePairRemovesBoth(stored, stem, order, k);
    assert original !in files && processed !in files;
    UndoTwoStores(files, original, content, processed, png);
  }

  /** Removing two keys just added to a map that lacked them gives the map back. */
  lemma UndoTwoStores<K, V>(m: map<K, V>, a: K, va: V, b: K, vb: V)
    requires a !in m && b !in m
    ensures m[a := va][b := vb] - {a} - {b} == m
  {
  }

  /** A whole item's life: the upload is processed, the item created from
      the reply, and then deleted by the id it was given. The delete sends
      the stored `file_name` with `type=both`, and once the image service
      carries that out the directory is as it was before the upload. */
  lemma ItemLifecycleRestoresStorage(rows: map<Uuids.Uuid, ClothingItem>, image: Upload, itemName: Option<string>,
                                     season: Option<string>, newId: Uuids.Uuid, now: Timestamps.DateTime,
                                     baseUrl: string, order: seq<string>, files: map<StoredFile, seq<bv8>>,
                                     fileId: Uuids.Uuid, png: seq<bv8>)
    requires WellKeyed(rows) && IsEnumeration(order) && FreshId(files, fileId, order)
    requires image.filename.Some? && ValidateImageFile(image.filename, order).None? && |image.content| <= MaxFileSize
    ensures var processed := ProcessReplyFor(baseUrl, order, image.filename, image.content, fileId, Removed(png));
            var stored := FilesAfterProcess(files, image.filename, image.content, fileId, Removed(png));
            var created := CreateOutcome(rows, image, itemName, season, Answered(AsProcessReply(processed)), newId, now);
            created.response.ItemResponse? ==>
              var deleted := DeleteOutcome(created.rows, created.response.item.id);
              && deleted.response == DeletedResponse
              && deleted.rows == rows
              && deleted.sent == [DeleteRequest(ProcessedName(fileId), "both")]
              && FilesAfterDelete(stored, ProcessedName(fileId), "both", order, map[]) == files
  {
    var processed := ProcessReplyFor(baseUrl, order, image.filename, image.content, fileId, Removed(png));
    ProcessThenDeleteRestores(baseUrl, order, files, image.filename.value, image.content, fileId, png);
    var data := processed.data;
    assert AsProcessReply(processed) == ProcessSucceeded(data);
    Uuids.FormatShape(fileId);
    WardrobeFacts.CreateThenDeleteRestoresTable(rows, image, itemName, season, data, newId, now);
  }

  /** An `update_item` whose new image fails to process leaves its row
      naming the old `file_name`, but the deletion of that file was already
      sent: once the image service carries it out, the row refers to a
      processed image that no longer exists. */
  lemma FailedUpdateLeavesDanglingRow(rows: map<Uuids.Uuid, ClothingItem>, idText: string, id: Uuids.Uuid,
                                      upload: Upload, itemName: Option<string>, season: Option<string>,
                                      processCall: Call<ProcessReply>, now: Timestamps.DateTime,
                                      files: map<StoredFile, seq<bv8>>, order: seq<string>)
    requires Uuids.Parse(idText) == Some(id) && id in rows
    requires Truthy(rows[id].fileName) && Truthy(upload.filename)
    requires !(processCall.Answered? && processCall.reply.ProcessSucceeded?)
    ensures var o := UpdateOutcome(rows, idText, Some(upload), itemName, season, Answered(()), processCall, now);
            var name := rows[id].fileName.value;
            && o.response.ErrorResponse?
            && o.rows[id].fileName == Some(name)
            && o.sent[0] == DeleteRequest(name, "both")
            && StoredFile(Processed, Text.Stem(name) + ".png") !in FilesAfterDelete(files, name, "both", order, map[])
  {
  }
}
