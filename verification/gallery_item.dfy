/** One gallery entry (`GalleryItem` in gallary.py): the extension check,
    validated construction, and the flat record form written to the index
    file and returned by listing. */
module GalleryItem {
  import opened Outcomes
  import opened Text

  /** The suffixes `is_valid_image` accepts, already in lower case. */
  const Extensions: seq<string> := [".png", ".jpg", ".jpeg", ".gif"]

  /** An ISO-8601 creation time. The clock is outside the model, so the
      current time is always passed in by the caller. */
  type Timestamp = string

  /** The exceptions the gallery raises, by kind. */
  datatype GalleryError =
    | SourceNotFound          // FileNotFoundError for the source path of an add
    | DestinationNotFound     // FileNotFoundError from the copy when the storage directory is gone
    | InvalidFormat           // ValueError("Unsupported file format.")
    | MissingField(key: string)  // KeyError for a record lacking a field on load

  /** `is_valid_image`: the lower-cased name ends with a recognised suffix. */
  predicate IsValidImage(filename: string)
  {
    exists e :: e in Extensions && EndsWith(Lower(filename), e)
  }

  /** A name is accepted exactly when some suffix of it, read case-
      insensitively, is one of the recognised extensions. */
  lemma ValidIffRecognizedSuffix(filename: string)
    ensures IsValidImage(filename) <==>
            exists i :: 0 <= i <= |filename| && Lower(filename[i..]) in Extensions
  {
    if IsValidImage(filename) {
      var e :| e in Extensions && EndsWith(Lower(filename), e);
      var i := |filename| - |e|;
      LowerSuffix(filename, i);
      assert Lower(filename[i..]) in Extensions;
    }
    if exists i :: 0 <= i <= |filename| && Lower(filename[i..]) in Extensions {
      var i :| 0 <= i <= |filename| && Lower(filename[i..]) in Extensions;
      LowerSuffix(filename, i);
      assert EndsWith(Lower(filename), Lower(filename[i..]));
    }
  }

  /** Any stem followed by a recognised extension in any mix of upper and
      lower case is accepted. */
  lemma ValidWithAnyCaseExtension(stem: string, ext: string)
    requires Lower(ext) in Extensions
    ensures IsValidImage(stem + ext)
  {
    assert (stem + ext)[|stem|..] == ext;
    ValidIffRecognizedSuffix(stem + ext);
  }

  /** The extension check sees only the lower-cased name. */
  lemma ValidIgnoresCase(a: string, b: string)
    requires |a| == |b|
    requires forall i :: 0 <= i < |a| ==> LowerChar(a[i]) == LowerChar(b[i])
    ensures IsValidImage(a) <==> IsValidImage(b)
  {
    assert Lower(a) == Lower(b);
  }

  /** One immutable gallery entry. */
  datatype Item = Item(filename: string, title: string, description: string, createdAt: Timestamp)

  /** `GalleryItem(filename, title, description)` constructed at time `now`:
      an invalid name raises and yields no item. */
  function NewItem(filename: string, title: string, description: string, now: Timestamp)
    : (r: Result<Item, GalleryError>)
    ensures r.Success? <==> IsValidImage(filename)
    ensures r.Failure? ==> r.error == InvalidFormat
    ensures r.Success? ==> && r.value.filename == filename
                           && r.value.title == title
                           && r.value.description == description
                           && r.value.createdAt == now
  {
    if !IsValidImage(filename) then Failure(InvalidFormat)
    else Success(Item(filename, title, description, now))
  }

  /** The record form of an item: a JSON object with string fields. */
  type Record = map<string, string>

  const FilenameKey: string := "filename"
  const TitleKey: string := "title"
  const DescriptionKey: string := "description"
  const CreatedAtKey: string := "created_at"

  /** `to_dict`: exactly the four fields of the item, under their names. */
  function ToDict(item: Item): (d: Record)
    ensures d.Keys == {FilenameKey, TitleKey, DescriptionKey, CreatedAtKey}
    ensures && d[FilenameKey] == item.filename
            && d[TitleKey] == item.title
            && d[DescriptionKey] == item.description
            && d[CreatedAtKey] == item.createdAt
  {
    map[FilenameKey := item.filename, TitleKey := item.title,
        DescriptionKey := item.description, CreatedAtKey := item.createdAt]
  }

  /** Rebuilding one item from a record while loading the index file:
      the three fields are looked up in order (a missing one raises
      KeyError), then the item is constructed afresh at time `now`. The
      stored creation time is never read. */
  function FromRecord(d: Record, now: Timestamp): (r: Result<Item, GalleryError>)
    ensures FilenameKey !in d ==> r == Failure(MissingField(FilenameKey))
    ensures FilenameKey in d && TitleKey !in d ==> r == Failure(MissingField(TitleKey))
    ensures FilenameKey in d && TitleKey in d && DescriptionKey !in d ==>
              r == Failure(MissingField(DescriptionKey))
    ensures FilenameKey in d && TitleKey in d && DescriptionKey in d ==>
              r == NewItem(d[FilenameKey], d[TitleKey], d[DescriptionKey], now)
    ensures r.Success? ==> r.value.createdAt == now && IsValidImage(r.value.filename)
  {
    if FilenameKey !in d then Failure(MissingField(FilenameKey))
    else if TitleKey !in d then Failure(MissingField(TitleKey))
    else if DescriptionKey !in d then Failure(MissingField(DescriptionKey))
    else NewItem(d[FilenameKey], d[TitleKey], d[DescriptionKey], now)
  }

  /** Reading back the record of a valid item gives the same item, except
      that its creation time is the time of reading. */
  lemma FromRecordOfToDict(item: Item, now: Timestamp)
    requires IsValidImage(item.filename)
    ensures FromRecord(ToDict(item), now) == Success(item.(createdAt := now))
  {
  }

  /** Any name ending in ".png" passes the extension check. */
  lemma PngAccepted(stem: string)
    ensures IsValidImage(stem + ".png")
  {
    assert Lower(".png") == ".png";
    ValidWithAnyCaseExtension(stem, ".png");
  }

  /** An upper- and lower-case ".JPeG" is accepted. */
  lemma MixedCaseJpegAccepted()
    ensures IsValidImage("Holiday.JPeG")
  {
    assert Lower(".JPeG") == ".jpeg";
    ValidWithAnyCaseExtension("Holiday", ".JPeG");
    assert "Holiday" + ".JPeG" == "Holiday.JPeG";
  }

  /** Every accepted name has at least four characters and ends in 'g'
      or 'f', in either case: all four extensions do. */
  lemma AcceptedShape(filename: string)
    requires IsValidImage(filename)
    ensures |filename| >= 4
    ensures LowerChar(filename[|filename| - 1]) in {'g', 'f'}
  {
    var e :| e in Extensions && EndsWith(Lower(filename), e);
    var low := Lower(filename);
    assert |e| >= 4 && e[|e| - 1] in {'g', 'f'};
    assert low[|low| - |e|..][|e| - 1] == low[|low| - 1];
  }

  /** A text file, and a bare "png" without the dot, are refused. */
  lemma RejectedExamples()
    ensures !IsValidImage("notes.txt")
    ensures !IsValidImage("png")
  {
    if IsValidImage("notes.txt") {
      AcceptedShape("notes.txt");
      assert false;
    }
    if IsValidImage("png") {
      AcceptedShape("png");
      assert false;
    }
  }
}
