/** The `clothing_items` table: the `ClothingItem` row, the limits its
    column types put on it, the `SeasonEnum` values, and `to_dict`. */
module Models {
  import opened Options
  import Uuids
  import Timestamps

  /** `SeasonEnum`, in declaration order. */
  datatype Season = Spring | Summer | Fall | Winter | Untitled {
    function Value(): string {
      match this
      case Spring => "Spring"
      case Summer => "Summer"
      case Fall => "Fall"
      case Winter => "Winter"
      case Untitled => "Untitled"
    }
  }

  const AllSeasons: seq<Season> := [Spring, Summer, Fall, Winter, Untitled]

  /** Column defaults of `item_name` and `season`. */
  const DefaultItemName: string := "Untitled"
  const DefaultSeason: Season := Untitled

  /** `String(255)`, `String(50)` and `String(255)`: `item_name`, `season`, `file_name`. */
  const ItemNameLength := 255
  const SeasonLength := 50
  const FileNameLength := 255

  /** One row. Nullability follows the columns: `item_name` and `image_url`
      are `nullable=False`; `season`, `original_image_url`, `file_name`,
      `file_size` and both timestamps may be NULL. */
  datatype ClothingItem = ClothingItem(
    id: Uuids.Uuid,
    itemName: string,
    season: Option<string>,
    imageUrl: string,
    originalImageUrl: Option<string>,
    fileName: Option<string>,
    fileSize: Option<int>,
    createdAt: Option<Timestamps.DateTime>,
    updatedAt: Option<Timestamps.DateTime>)

  /** Assigning `s` to a `VARCHAR(n)` column in PostgreSQL: a value of at
      most `n` characters is kept; a longer one is cut to `n` characters
      when every excess character is a space, and refused otherwise. */
  function Varchar(s: string, n: nat): Option<string>
    decreases |s|
  {
    if |s| <= n then Some(s)
    else if s[|s| - 1] == ' ' then Varchar(s[..|s| - 1], n)
    else None
  }

  /** A `VARCHAR(n)` column takes `s` exactly when it fits or only spaces
      overflow; it then holds a prefix of `s` of at most `n` characters,
      having dropped spaces only: `s` itself when `s` fits, else exactly its
      first `n` characters. */
  lemma {:induction false} VarcharCuts(s: string, n: nat)
    ensures Varchar(s, n).Some? <==> |s| <= n || forall i :: n <= i < |s| ==> s[i] == ' '
    ensures Varchar(s, n).Some? ==> |Varchar(s, n).value| <= n && Varchar(s, n).value <= s
    ensures Varchar(s, n).Some? ==> forall i :: |Varchar(s, n).value| <= i < |s| ==> s[i] == ' '
    ensures |s| <= n ==> Varchar(s, n) == Some(s)
    ensures |s| > n && Varchar(s, n).Some? ==> Varchar(s, n).value == s[..n]
    decreases |s|
  {
    if |s| > n {
      var t := s[..|s| - 1];
      VarcharCuts(t, n);
      assert forall i :: 0 <= i < |t| ==> t[i] == s[i];
    }
  }

  /** psycopg2 refuses to send a string that holds a NUL character. */
  predicate NulFree(s: string) {
    '\0' !in s
  }

  predicate OptionalNulFree(s: Option<string>) {
    s.Some? ==> NulFree(s.value)
  }

  /** The error the driver or PostgreSQL raises when `item` is written: a
      string with a NUL, a `VARCHAR` value too long even after its excess
      spaces are cut, a size outside `INTEGER`; None when the write goes
      through. The timestamps and the id play no part. */
  function ColumnError(item: ClothingItem): Option<string> {
    if !(NulFree(item.itemName) && OptionalNulFree(item.season) && NulFree(item.imageUrl)
         && OptionalNulFree(item.originalImageUrl) && OptionalNulFree(item.fileName))
    then Some("A string literal cannot contain NUL (0x00) characters.")
    else if Varchar(item.itemName, ItemNameLength).None? then Some("value too long for type character varying(255)")
    else if item.season.Some? && Varchar(item.season.value, SeasonLength).None? then Some("value too long for type character varying(50)")
    else if item.fileName.Some? && Varchar(item.fileName.value, FileNameLength).None? then Some("value too long for type character varying(255)")
    else if item.fileSize.Some? && !(-0x8000_0000 <= item.fileSize.value < 0x8000_0000) then Some("integer out of range")
    else None
  }

  /** A row can be written exactly when no string holds a NUL, every
      `VARCHAR` value fits once its excess spaces are cut, and the size is a
      32-bit `INTEGER`; the timestamps play no part. */
  lemma ColumnErrorExactly(item: ClothingItem)
    ensures ColumnError(item).None? <==>
      && NulFree(item.itemName) && OptionalNulFree(item.season) && NulFree(item.imageUrl)
      && OptionalNulFree(item.originalImageUrl) && OptionalNulFree(item.fileName)
      && (|item.itemName| <= ItemNameLength || forall i :: ItemNameLength <= i < |item.itemName| ==> item.itemName[i] == ' ')
      && (item.season.Some? ==> Varchar(item.season.value, SeasonLength).Some?)
      && (item.fileName.Some? ==> Varchar(item.fileName.value, FileNameLength).Some?)
      && (item.fileSize.Some? ==> -0x8000_0000 <= item.fileSize.value < 0x8000_0000)
  {
    VarcharCuts(item.itemName, ItemNameLength);
  }

  /** Stamping a timestamp changes neither whether a row can be written nor
      what the table then holds besides that timestamp. */
  lemma ColumnErrorIgnoresTimestamps(item: ClothingItem, t: Option<Timestamps.DateTime>)
    ensures ColumnError(item.(updatedAt := t)) == ColumnError(item)
    ensures ColumnError(item.(createdAt := t)) == ColumnError(item)
    ensures ColumnError(item).None? ==> Stored(item.(updatedAt := t)) == Stored(item).(updatedAt := t)
  {
  }

  /** A row as the table holds it: it can be written, and every `VARCHAR`
      value is within its length. */
  predicate FitsColumns(item: ClothingItem) {
    && NulFree(item.itemName) && OptionalNulFree(item.season) && NulFree(item.imageUrl)
    && OptionalNulFree(item.originalImageUrl) && OptionalNulFree(item.fileName)
    && (item.fileSize.Some? ==> -0x8000_0000 <= item.fileSize.value < 0x8000_0000)
    && |item.itemName| <= ItemNameLength
    && (item.season.Some? ==> |item.season.value| <= SeasonLength)
    && (item.fileName.Some? ==> |item.fileName.value| <= FileNameLength)
  }

  /** A row the table holds can be written back as it is. */
  lemma FitsAreWritable(item: ClothingItem)
    ensures FitsColumns(item) ==> ColumnError(item).None?
  {
    VarcharCuts(item.itemName, ItemNameLength);
    if item.season.Some? { VarcharCuts(item.season.value, SeasonLength); }
    if item.fileName.Some? { VarcharCuts(item.fileName.value, FileNameLength); }
  }

  /** The row the table holds once `item` is written and read back: each
      `VARCHAR` value cut to its length. */
  function Stored(item: ClothingItem): ClothingItem
    requires ColumnError(item).None?
  {
    item.(itemName := Varchar(item.itemName, ItemNameLength).value,
          season := if item.season.Some? then Some(Varchar(item.season.value, SeasonLength).value) else None,
          fileName := if item.fileName.Some? then Some(Varchar(item.fileName.value, FileNameLength).value) else None)
  }

  /** What is written is what the table holds, up to excess spaces cut from
      the `VARCHAR` values; a row the table already holds comes back as it is. */
  lemma StoredFits(item: ClothingItem)
    requires ColumnError(item).None?
    ensures FitsColumns(Stored(item))
    ensures Stored(item).(itemName := item.itemName, season := item.season, fileName := item.fileName) == item
    ensures Some(Stored(item).itemName) == Varchar(item.itemName, ItemNameLength)
    ensures item.season.Some? ==> Stored(item).season == Varchar(item.season.value, SeasonLength)
    ensures item.fileName.Some? ==> Stored(item).fileName == Varchar(item.fileName.value, FileNameLength)
    ensures item.season.None? ==> Stored(item).season.None?
    ensures item.fileName.None? ==> Stored(item).fileName.None?
    ensures FitsColumns(item) ==> Stored(item) == item
  {
    FitsAreWritable(item);
    var row := Stored(item);
    VarcharCuts(item.itemName, ItemNameLength);
    NulFreePrefix(item.itemName, row.itemName);
    if item.season.Some? {
      VarcharCuts(item.season.value, SeasonLength);
      NulFreePrefix(item.season.value, row.season.value);
    }
    if item.fileName.Some? {
      VarcharCuts(item.fileName.value, FileNameLength);
      NulFreePrefix(item.fileName.value, row.fileName.value);
    }
  }

  lemma NulFreePrefix(s: string, t: string)
    requires NulFree(s) && t <= s
    ensures NulFree(t)
  {
  }

  /** A name of 300 characters whose last 295 are spaces is written as its
      first 255 characters; a name holding a NUL is refused. */
  lemma ColumnLimitsByExample(item: ClothingItem)
    requires item.season.None? && item.fileName.None? && item.fileSize.None?
    requires item.imageUrl == "" && item.originalImageUrl.None?
    ensures item.itemName == "Shirt" + seq(295, _ => ' ') ==>
              ColumnError(item).None? && Stored(item).itemName == "Shirt" + seq(250, _ => ' ')
    ensures item.itemName == "a\0b" ==> ColumnError(item).Some?
  {
    if item.itemName == "Shirt" + seq(295, _ => ' ') {
      var name := item.itemName;
      assert forall i :: ItemNameLength <= i < |name| ==> name[i] == ' ';
      VarcharCuts(name, ItemNameLength);
      assert forall i :: 0 <= i < |name| ==> name[i] != '\0';
      assert name[..255] == "Shirt" + seq(250, _ => ' ');
    }
    if item.itemName == "a\0b" {
      assert item.itemName[1] == '\0';
    }
  }

  /** What `to_dict` returns: the JSON object of one item. */
  datatype ItemDict = ItemDict(
    id: string,
    itemName: string,
    season: Option<string>,
    imageUrl: string,
    originalImageUrl: Option<string>,
    fileName: Option<string>,
    fileSize: Option<int>,
    createdAt: Option<string>,
    updatedAt: Option<string>)

  /** `t.isoformat() + "Z" if t else None`. */
  function RenderTimestamp(t: Option<Timestamps.DateTime>): (r: Option<string>)
    ensures r.None? <==> t.None?
    ensures t.Some? ==> |r.value| == (if t.value.microsecond == 0 then 20 else 27) && r.value[|r.value| - 1] == 'Z'
  {
    Timestamps.IsoformatLayout(if t.Some? then t.value else Timestamps.DateTime(1, 1, 1, 0, 0, 0, 0));
    match t
    case None => None
    case Some(d) => Some(Timestamps.Isoformat(d) + "Z")
  }

  /** `ClothingItem.to_dict`: the `id` in its 36-character canonical form,
      and a timestamp rendered exactly when it is set. */
  function ToDict(item: ClothingItem): (d: ItemDict)
    ensures |d.id| == 36
    ensures d.createdAt.None? <==> item.createdAt.None?
    ensures d.updatedAt.None? <==> item.updatedAt.None?
  {
    Uuids.FormatShape(item.id);
    ItemDict(Uuids.Format(item.id), item.itemName, item.season, item.imageUrl, item.originalImageUrl,
             item.fileName, item.fileSize, RenderTimestamp(item.createdAt), RenderTimestamp(item.updatedAt))
  }

  /** The `id` that `to_dict` prints parses back to the row's key. */
  lemma ToDictIdParses(item: ClothingItem)
    ensures Uuids.Parse(ToDict(item).id) == Some(item.id)
  {
    Uuids.ParseFormat(item.id);
  }

  lemma RenderTimestampInjective(a: Option<Timestamps.DateTime>, b: Option<Timestamps.DateTime>)
    requires RenderTimestamp(a) == RenderTimestamp(b)
    ensures a == b
  {
    if a.Some? && b.Some? {
      var sa, sb := Timestamps.Isoformat(a.value), Timestamps.Isoformat(b.value);
      assert sa == (sa + "Z")[..|sa|];
      assert sb == (sb + "Z")[..|sb|];
      Timestamps.IsoformatInjective(a.value, b.value);
    }
  }

  /** `to_dict` loses nothing: every field is copied or rendered injectively,
      so two rows with the same JSON are the same row. */
  lemma ToDictInjective(a: ClothingItem, b: ClothingItem)
    requires ToDict(a) == ToDict(b)
    ensures a == b
  {
    Uuids.FormatInjective(a.id, b.id);
    RenderTimestampInjective(a.createdAt, b.createdAt);
    RenderTimestampInjective(a.updatedAt, b.updatedAt);
  }
}
