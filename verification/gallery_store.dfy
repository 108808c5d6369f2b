/** The gallery manager (`GalleryManager` in gallary.py) as pure
    transitions over its catalog and an abstract view of the disk. */
module GalleryStore {
  import opened Outcomes
  import opened Text
  import opened GalleryItem

  /** The content of a file; a copy carries it over unchanged. */
  type Bytes = seq<bv8>

  /** What reading the index file yields: text that does not parse as
      JSON, or a JSON array of objects with string fields. */
  datatype IndexFile = Malformed | Document(records: seq<Record>)

  /** The part of the filesystem the gallery touches: whether the storage
      directory exists, the files in it by name, and the index file
      (None when there is no such file). */
  datatype Disk = Disk(dirExists: bool, storage: map<string, Bytes>, index: Option<IndexFile>)

  /** A manager: its catalog in insertion order, together with the disk. */
  datatype Store = Store(items: seq<Item>, disk: Disk)

  /** The outcome of an operation together with the state after it. */
  datatype Step<+T> = Step(result: Result<T, GalleryError>, store: Store)

  /** Every catalog entry passed the extension check. */
  ghost predicate AllValid(items: seq<Item>)
  {
    forall i :: 0 <= i < |items| ==> IsValidImage(items[i].filename)
  }

  /** What holds of every constructed manager: a valid catalog and an
      existing storage directory. */
  ghost predicate Valid(s: Store)
  {
    AllValid(s.items) && s.disk.dirExists
  }

  /** Every catalog entry has its file in the storage directory. */
  ghost predicate Consistent(s: Store)
  {
    forall i :: 0 <= i < |s.items| ==> s.items[i].filename in s.disk.storage
  }

  /** `ensure_directories`: creates the storage directory when missing and
      touches nothing else. */
  function EnsureDirectories(disk: Disk): (d: Disk)
    ensures d.dirExists
    ensures d.storage == disk.storage && d.index == disk.index
  {
    if disk.dirExists then disk else disk.(dirExists := true)
  }

  /** Creating the directory a second time changes nothing. */
  lemma EnsureDirectoriesIdempotent(disk: Disk)
    ensures EnsureDirectories(EnsureDirectories(disk)) == EnsureDirectories(disk)
  {
  }

  /** The records of a catalog, one per item, in catalog order. */
  function Snapshot(items: seq<Item>): seq<Record>
  {
    seq(|items|, i requires 0 <= i < |items| => ToDict(items[i]))
  }

  /** `list_images`: a snapshot of the catalog; the manager is a value, so
      listing cannot change it. */
  function ListImages(s: Store): (records: seq<Record>)
    ensures |records| == |s.items|
    ensures forall i :: 0 <= i < |records| ==>
              && records[i].Keys == {FilenameKey, TitleKey, DescriptionKey, CreatedAtKey}
              && records[i][FilenameKey] == s.items[i].filename
              && records[i][TitleKey] == s.items[i].title
              && records[i][DescriptionKey] == s.items[i].description
              && records[i][CreatedAtKey] == s.items[i].createdAt
  {
    Snapshot(s.items)
  }

  /** `save_metadata`: the index file is replaced by the records of the
      whole catalog; nothing else changes. */
  function SaveMetadata(s: Store): (t: Store)
    ensures t.items == s.items
    ensures t.disk.dirExists == s.disk.dirExists && t.disk.storage == s.disk.storage
    ensures t.disk.index.Some? && t.disk.index.value.Document?
    ensures ListImages(s) == t.disk.index.value.records
  {
    s.(disk := s.disk.(index := Some(Document(Snapshot(s.items)))))
  }

  /** The list comprehension of `load_metadata`: items are rebuilt in file
      order, and the first record that fails stops the whole load with its
      error. */
  function DecodeRecords(records: seq<Record>, now: Timestamp): (r: Result<seq<Item>, GalleryError>)
    ensures r.Success? <==> forall i :: 0 <= i < |records| ==> FromRecord(records[i], now).Success?
    ensures r.Success? ==> |r.value| == |records|
    ensures r.Success? ==> forall i :: 0 <= i < |records| ==> FromRecord(records[i], now) == Success(r.value[i])
    ensures r.Failure? ==> exists k :: && 0 <= k < |records|
                                       && FromRecord(records[k], now) == Failure(r.error)
                                       && forall j :: 0 <= j < k ==> FromRecord(records[j], now).Success?
    decreases |records|
  {
    if |records| == 0 then Success([])
    else
      match FromRecord(records[0], now)
      case Failure(e) => Failure(e)
      case Success(item) =>
        var tail := DecodeRecords(records[1..], now);
        assert forall i :: 1 <= i < |records| ==> records[i] == records[1..][i - 1];
        match tail
        case Failure(e) =>
          var k :| && 0 <= k < |records| - 1
                   && FromRecord(records[1..][k], now) == Failure(e)
                   && forall j :: 0 <= j < k ==> FromRecord(records[1..][j], now).Success?;
          assert FromRecord(records[k + 1], now) == Failure(e);
          Failure(e)
        case Success(rest) => Success([item] + rest)
  }

  /** `load_metadata`. A missing index file (FileNotFoundError) or one that
      is not JSON (JSONDecodeError) is swallowed and leaves the catalog as
      it was, NOT emptied. A record with a missing field or an invalid
      name raises, and the catalog is again left as it was, because it is
      assigned only after every record is rebuilt. Otherwise the catalog
      becomes the rebuilt items, all stamped with `now`. */
  function LoadMetadata(s: Store, now: Timestamp): (r: Step<()>)
    ensures r.store.disk == s.disk
    ensures s.disk.index.None? || s.disk.index == Some(Malformed) ==> r == Step(Success(()), s)
    ensures r.result.Failure? <==>
              && s.disk.index.Some? && s.disk.index.value.Document?
              && exists i :: 0 <= i < |s.disk.index.value.records| &&
                             FromRecord(s.disk.index.value.records[i], now).Failure?
    ensures r.result.Failure? ==> r.store == s
    ensures r.result.Failure? ==> r.result.error == InvalidFormat || r.result.error.MissingField?
    ensures r.result.Success? && s.disk.index.Some? && s.disk.index.value.Document? ==>
              var records := s.disk.index.value.records;
              && |r.store.items| == |records|
              && forall i :: 0 <= i < |records| ==> FromRecord(records[i], now) == Success(r.store.items[i])
    ensures AllValid(s.items) ==> AllValid(r.store.items)
  {
    match s.disk.index
    case None => Step(Success(()), s)
    case Some(Malformed) => Step(Success(()), s)
    case Some(Document(records)) =>
      match DecodeRecords(records, now)
      case Failure(e) => Step(Failure(e), s)
      case Success(items) => Step(Success(()), s.(items := items))
  }

  /** `GalleryManager()`: start with an empty catalog, create the storage
      directory if needed, then load the index file. A failed load means
      the constructor raised and no manager exists; the directory has
      been created all the same. */
  function Init(disk: Disk, now: Timestamp): (r: Step<()>)
    ensures r.store.disk == EnsureDirectories(disk)
    ensures r.result.Success? ==> Valid(r.store)
    ensures disk.index.None? || disk.index == Some(Malformed) ==> r.result.Success? && r.store.items == []
    ensures r.result.Failure? <==>
              && disk.index.Some? && disk.index.value.Document?
              && exists i :: 0 <= i < |disk.index.value.records| &&
                             FromRecord(disk.index.value.records[i], now).Failure?
    ensures r.result.Success? && disk.index.Some? && disk.index.value.Document? ==>
              var records := disk.index.value.records;
              && |r.store.items| == |records|
              && forall i :: 0 <= i < |records| ==> FromRecord(records[i], now) == Success(r.store.items[i])
  {
    LoadMetadata(Store([], EnsureDirectories(disk)), now)
  }

  /** `os.path.exists(path)` for a source file: the path names a file,
      and a path with an empty base name (ending in '/') never names a
      regular file. */
  predicate SourceExists(sources: map<string, Bytes>, path: string)
  {
    path in sources && Basename(path) != ""
  }

  /** `add_image(source_path, title, description)` at time `now`. The
      source must exist; the file is then copied into the storage
      directory under its base name (overwriting a file of that name); only
      then is the name checked, so an invalid name fails AFTER the copy.
      On success the item is appended and the index file rewritten. */
  function AddImage(s: Store, sources: map<string, Bytes>, sourcePath: string,
                    title: string, description: string, now: Timestamp): (r: Step<()>)
    ensures r.result.Success? <==>
              SourceExists(sources, sourcePath) && s.disk.dirExists && IsValidImage(Basename(sourcePath))
    ensures !SourceExists(sources, sourcePath) ==> r == Step(Failure(SourceNotFound), s)
    ensures SourceExists(sources, sourcePath) && !s.disk.dirExists ==>
              r == Step(Failure(DestinationNotFound), s)
    ensures SourceExists(sources, sourcePath) && s.disk.dirExists ==>
              && r.store.disk.storage == s.disk.storage[Basename(sourcePath) := sources[sourcePath]]
              && r.store.disk.dirExists
    ensures r.result.Success? ==>
              && r.store.items == s.items + [Item(Basename(sourcePath), title, description, now)]
              && r.store.disk.index == Some(Document(ListImages(r.store)))
    ensures r.result.Failure? ==> r.store.items == s.items && r.store.disk.index == s.disk.index
    ensures r.result.Failure? && SourceExists(sources, sourcePath) && s.disk.dirExists ==>
              r.result.error == InvalidFormat
    ensures Valid(s) ==> Valid(r.store)
  {
    if !SourceExists(sources, sourcePath) then Step(Failure(SourceNotFound), s)
    else
      var filename := Basename(sourcePath);
      if !s.disk.dirExists then Step(Failure(DestinationNotFound), s)
      else
        var copied := s.(disk := s.disk.(storage := s.disk.storage[filename := sources[sourcePath]]));
        match NewItem(filename, title, description, now)
        case Failure(e) => Step(Failure(e), copied)
        case Success(item) => Step(Success(()), SaveMetadata(copied.(items := s.items + [item])))
  }

  /** The position of the first item with the given title, or the length
      of the catalog when there is none (`next(...)` returning None). */
  function FirstWithTitle(items: seq<Item>, title: string): (k: nat)
    ensures k <= |items|
    ensures k < |items| ==> items[k].title == title
    ensures forall j :: 0 <= j < k ==> items[j].title != title
    decreases |items|
  {
    if |items| == 0 then 0
    else if items[0].title == title then 0
    else
      var k := FirstWithTitle(items[1..], title);
      assert forall j :: 1 <= j < k + 1 ==> items[j] == items[1..][j - 1];
      1 + k
  }

  /** `delete_image(title)`: when some item has that title, the first such
      item is dropped, its file is removed from the storage directory
      (a file already gone is no error), the index file is rewritten and
      the answer is true; otherwise nothing changes and the answer is
      false. */
  function DeleteImage(s: Store, title: string): (r: Step<bool>)
    ensures r.result.Success?
    ensures r.result.value <==> exists i :: 0 <= i < |s.items| && s.items[i].title == title
    ensures !r.result.value ==> r.store == s
    ensures r.result.value ==>
              var k := FirstWithTitle(s.items, title);
              && k < |s.items|
              && r.store.items == s.items[..k] + s.items[k + 1..]
              && r.store.disk.storage == s.disk.storage - {s.items[k].filename}
              && r.store.disk.dirExists == s.disk.dirExists
              && r.store.disk.index == Some(Document(ListImages(r.store)))
    ensures Valid(s) ==> Valid(r.store)
  {
    var k := FirstWithTitle(s.items, title);
    if k == |s.items| then Step(Success(false), s)
    else
      var item := s.items[k];
      var kept := s.items[..k] + s.items[k + 1..];
      assert forall i :: 0 <= i < |kept| ==> kept[i] == s.items[if i < k then i else i + 1];
      var removed := s.(items := kept, disk := s.disk.(storage := s.disk.storage - {item.filename}));
      Step(Success(true), SaveMetadata(removed))
  }

  /** The items stamped with a new creation time, everything else kept. */
  function Restamp(items: seq<Item>, now: Timestamp): seq<Item>
  {
    seq(|items|, i requires 0 <= i < |items| => items[i].(createdAt := now))
  }

  /** Reading back the records of a valid catalog rebuilds it, re-stamped. */
  lemma DecodeSnapshot(items: seq<Item>, now: Timestamp)
    requires AllValid(items)
    ensures DecodeRecords(Snapshot(items), now) == Success(Restamp(items, now))
  {
    var records := Snapshot(items);
    forall i | 0 <= i < |items|
      ensures FromRecord(records[i], now) == Success(items[i].(createdAt := now))
    {
      FromRecordOfToDict(items[i], now);
    }
    var r := DecodeRecords(records, now);
    assert r.Success?;
    assert r.value == Restamp(items, now);
  }

  /** Saving and then loading gives back the catalog with the same file
      names, titles and descriptions in the same order; only the creation
      times are replaced by the time of loading. The disk is as saved. */
  lemma SaveLoadRoundTrip(s: Store, now: Timestamp)
    requires AllValid(s.items)
    ensures var r := LoadMetadata(SaveMetadata(s), now);
            && r.result.Success?
            && r.store.items == Restamp(s.items, now)
            && r.store.disk == SaveMetadata(s).disk
  {
    DecodeSnapshot(s.items, now);
  }

  /** A successful add shows up in the listing as exactly one new entry,
      at the end, for the base name of the source with the given title
      and description. */
  lemma AddAppendsOneListedEntry(s: Store, sources: map<string, Bytes>, sourcePath: string,
                                 title: string, description: string, now: Timestamp)
    requires AddImage(s, sources, sourcePath, title, description, now).result.Success?
    ensures var t := AddImage(s, sources, sourcePath, title, description, now).store;
            ListImages(t) == ListImages(s) + [ToDict(Item(Basename(sourcePath), title, description, now))]
  {
    var t := AddImage(s, sources, sourcePath, title, description, now).store;
    assert forall i :: 0 <= i < |s.items| ==> t.items[i] == s.items[i];
  }

  /** Deleting the title of an item appended last, when no earlier item
      has that title, drops exactly that item and its file. */
  lemma DeleteUndoesAppend(t: Store, before: seq<Item>, added: Item)
    requires t.items == before + [added]
    requires forall i :: 0 <= i < |before| ==> before[i].title != added.title
    ensures var d := DeleteImage(t, added.title);
            && d.result.value
            && d.store.items == before
            && d.store.disk.storage == t.disk.storage - {added.filename}
  {
    var n := |before|;
    assert forall j :: 0 <= j < n ==> t.items[j] == before[j];
    assert t.items[n] == added;
    assert FirstWithTitle(t.items, added.title) == n;
    assert t.items[..n] == before;
    assert t.items[n + 1..] == [];
  }

  /** Deleting the title just added, when no earlier item has it, gives
      back the catalog from before the add, and the copied file is gone. */
  lemma DeleteUndoesAdd(s: Store, sources: map<string, Bytes>, sourcePath: string,
                        title: string, description: string, now: Timestamp)
    requires AddImage(s, sources, sourcePath, title, description, now).result.Success?
    requires forall i :: 0 <= i < |s.items| ==> s.items[i].title != title
    ensures var t := AddImage(s, sources, sourcePath, title, description, now).store;
            var d := DeleteImage(t, title);
            && d.result.value
            && d.store.items == s.items
            && d.store.disk.storage == s.disk.storage - {Basename(sourcePath)}
  {
    var t := AddImage(s, sources, sourcePath, title, description, now).store;
    var name := Basename(sourcePath);
    DeleteUndoesAppend(t, s.items, Item(name, title, description, now));
    assert s.disk.storage[name := sources[sourcePath]] - {name} == s.disk.storage - {name};
  }

  /** Delete takes out exactly one item: the catalog shrinks by one and
      loses exactly one copy of the removed item. */
  lemma DeleteRemovesOneItem(s: Store, title: string)
    requires DeleteImage(s, title).result.value
    ensures var k := FirstWithTitle(s.items, title);
            && |DeleteImage(s, title).store.items| == |s.items| - 1
            && multiset(DeleteImage(s, title).store.items) + multiset{s.items[k]} == multiset(s.items)
  {
    var k := FirstWithTitle(s.items, title);
    var before, after := s.items[..k], s.items[k + 1..];
    var kept := DeleteImage(s, title).store.items;
    assert kept == before + after;
    assert s.items == before + [s.items[k]] + after;
    calc {
      multiset(s.items);
      multiset(before) + multiset{s.items[k]} + multiset(after);
      multiset(kept) + multiset{s.items[k]};
    }
  }

  /** A successful add keeps every catalog entry backed by a stored file. */
  lemma AddKeepsConsistent(s: Store, sources: map<string, Bytes>, sourcePath: string,
                           title: string, description: string, now: Timestamp)
    requires Consistent(s)
    ensures Consistent(AddImage(s, sources, sourcePath, title, description, now).store)
  {
    var r := AddImage(s, sources, sourcePath, title, description, now);
    if r.result.Success? {
      forall i | 0 <= i < |r.store.items| ensures r.store.items[i].filename in r.store.disk.storage {
        if i < |s.items| {
          assert r.store.items[i] == s.items[i];
        }
      }
    }
  }

  /** No two catalog entries share a stored file. */
  ghost predicate DistinctFilenames(items: seq<Item>)
  {
    forall i, j :: 0 <= i < j < |items| ==> items[i].filename != items[j].filename
  }

  /** Delete keeps every remaining entry backed by a stored file, provided
      no two entries share a file name. */
  lemma DeleteKeepsConsistent(s: Store, title: string)
    requires Consistent(s) && DistinctFilenames(s.items)
    ensures Consistent(DeleteImage(s, title).store)
  {
    var d := DeleteImage(s, title);
    if d.result.value {
      var k := FirstWithTitle(s.items, title);
      forall i | 0 <= i < |d.store.items| ensures d.store.items[i].filename in d.store.disk.storage {
        var j := if i < k then i else i + 1;
        assert d.store.items[i] == s.items[j];
      }
    }
  }

  /** When another entry names the same file as the one deleted (the same
      source added twice), the delete removes that file too, leaving the
      other entry without a stored file. */
  lemma DeleteOrphansSharedFile(s: Store, title: string, j: nat)
    requires DeleteImage(s, title).result.value
    requires j < |s.items| && j != FirstWithTitle(s.items, title)
    requires s.items[j].filename == s.items[FirstWithTitle(s.items, title)].filename
    ensures !Consistent(DeleteImage(s, title).store)
  {
    var k := FirstWithTitle(s.items, title);
    var t := DeleteImage(s, title).store;
    var j' := if j < k then j else j - 1;
    assert t.items[j'] == s.items[j];
    assert t.items[j'].filename !in t.disk.storage;
  }

  /** Adding "photo1.png" titled "Sunset" lists one entry; deleting
      "Sunset" then empties the catalog and removes the stored file. */
  lemma SunsetScenario(s: Store, content: Bytes, now: Timestamp)
    requires Valid(s) && s.items == []
    ensures var sources := map["photo1.png" := content];
            var added := AddImage(s, sources, "photo1.png", "Sunset", "evening", now);
            var deleted := DeleteImage(added.store, "Sunset");
            && added.result.Success?
            && ListImages(added.store) == [ToDict(Item("photo1.png", "Sunset", "evening", now))]
            && deleted.result.value
            && ListImages(deleted.store) == []
            && "photo1.png" !in deleted.store.disk.storage
  {
    var path := "photo1.png";
    BasenameOfSlashFree(path);
    PngAccepted("photo1");
    assert "photo1" + ".png" == path;
    var sources := map[path := content];
    assert SourceExists(sources, path);
    assert Basename(path) == path && IsValidImage(path);
    var added := AddImage(s, sources, path, "Sunset", "evening", now);
    assert added.result.Success?;
    var item := Item(path, "Sunset", "evening", now);
    assert added.store.items == [item];
    assert ListImages(added.store) == [ToDict(item)];
    assert FirstWithTitle(added.store.items, "Sunset") == 0;
    var deleted := DeleteImage(added.store, "Sunset");
    assert deleted.store.items == [];
  }

  /** Adding "notes.txt" fails with InvalidFormat and leaves the listing
      as it was, yet the file has already been copied into storage. */
  lemma TextFileScenario(s: Store, content: Bytes, now: Timestamp)
    requires Valid(s)
    ensures var sources := map["notes.txt" := content];
            var r := AddImage(s, sources, "notes.txt", "Notes", "", now);
            && r.result == Failure(InvalidFormat)
            && ListImages(r.store) == ListImages(s)
            && r.store.disk.storage == s.disk.storage["notes.txt" := content]
  {
    var path := "notes.txt";
    BasenameOfSlashFree(path);
    RejectedExamples();
    assert SourceExists(map[path := content], path);
  }
}
