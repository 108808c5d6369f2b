# Image gallery store and hotel room board, in Dafny

This project models the two programs of the repository.

- **The image gallery** (`gallary.py`). It has a catalog of gallery items. Each item has a file name, a title, a description and a creation time. The items are kept in insertion order. Each item's image file is copied into a storage directory, and the catalog is written to a JSON index file. The model covers:
  - the extension check;
  - item construction and the record form of an item;
  - the manager's add, delete, list, save and load operations;
  - the constructor, which creates the directory and then loads the index.

  The disk is abstract. It is a flag for the storage directory, a map from stored file name to content, and an optional index file. The index file is either unparseable or a sequence of string-valued records.
- **The hotel room board** (`hotel.py`). Ten rooms are each free or hold a guest with a check-in time. Check-in and check-out are guarded transitions on that map, and billing is a query. The GUI is not modelled: the selected room, the typed guest name and the current time are parameters.

Modules, one per concern:
- `Outcomes` (`outcomes.dfy`): `Option` and `Result`. An exception or a warning dialog becomes a `Failure`.
- `Text` (`text.dfy`): `str.lower`, `str.endswith`, POSIX `os.path.basename`, and `str()` of a natural number.
- `GalleryItem` (`gallery_item.dfy`): `is_valid_image`, `GalleryItem`, `to_dict`, and rebuilding an item from a loaded record.
- `GalleryStore` (`gallery_store.dfy`): `GalleryManager` as pure transitions on a `Store`, which is the catalog plus the disk.
- `Hotel` (`hotel.dfy`): the room map of `HotelManagementSystem`.

Behaviours modelled as the code does them, where one might expect otherwise:
- Loading with a missing or unparseable index file leaves the catalog as it was. It does not empty it. This gives an empty catalog only at start-up, when the catalog is still empty (`Init`).
- Loading stamps each rebuilt item with the time of loading. The stored `created_at` is never read, so a save/load round trip keeps file name, title and description only.
- A record lacking a field raises `KeyError`, which the load does not catch. This is modelled as `MissingField`, and the catalog is left as it was.
- Adding a file with a bad extension fails only after the file has been copied into storage.
- Deleting a title removes only the first item with that title. Its stored file is removed even when another entry names the same file (`DeleteOrphansSharedFile`).

`str.lower` is modelled on ASCII letters only. No other character lower-cases to a single character from ".pngjifeg" (U+212A becomes 'k', and U+0130 becomes two characters). So the extension verdict is the same as with full Unicode lower-casing.

## Model

| member | source | states |
|---|---|---|
| GalleryItem.ValidIffRecognizedSuffix | gallary.py:32-33 | a name is accepted exactly when some suffix of it, lower-cased, is ".png", ".jpg", ".jpeg" or ".gif" |
| GalleryItem.ValidWithAnyCaseExtension | gallary.py:32-33 | any stem followed by a recognised extension in any mix of case is accepted |
| GalleryItem.ValidIgnoresCase | gallary.py:32-33 | two names that agree up to letter case get the same verdict |
| GalleryItem.PngAccepted | gallary.py:32-33 | every name ending in ".png" is accepted, including ".png" itself |
| GalleryItem.MixedCaseJpegAccepted | gallary.py:32-33 | "Holiday.JPeG" is accepted |
| GalleryItem.AcceptedShape | gallary.py:32-33 | every accepted name has at least four characters and ends in 'g' or 'f' in either case |
| GalleryItem.RejectedExamples | gallary.py:32-33 | "notes.txt" and a bare "png" are refused |
| GalleryItem.NewItem | gallary.py:44-50 | construction succeeds exactly for a valid name, keeping filename, title and description and stamping the given time; otherwise it fails with InvalidFormat and yields no item |
| GalleryItem.ToDict | gallary.py:52-58 | the record has exactly the keys filename, title, description and created_at, holding the item's four fields |
| GalleryItem.FromRecord | gallary.py:119-122 | a record is rebuilt by looking up filename, title and description in that order (the first missing one fails with MissingField) and then constructing the item at the load time; a rebuilt item is always valid |
| GalleryItem.FromRecordOfToDict | gallary.py:119-122 | rebuilding the record of a valid item gives the item back with only its creation time replaced |
| GalleryStore.EnsureDirectories | gallary.py:27-30 | afterwards the storage directory exists, and the stored files and index file are untouched |
| GalleryStore.EnsureDirectoriesIdempotent | gallary.py:27-30 | creating the directory twice is the same as once |
| GalleryStore.Init | gallary.py:67-70 | the constructor leaves the directory created; it fails exactly when some record of the index file fails to rebuild; a successful construction gives a valid manager whose catalog is the rebuilt records in file order, or empty with no usable index file |
| GalleryStore.AddImage | gallary.py:72-82 | a missing source fails with SourceNotFound and changes nothing; otherwise the file is copied under its base name before the name is checked; success happens exactly for an existing source, an existing directory and a valid name, and appends one item and rewrites the index; every failure leaves catalog and index unchanged; validity is preserved |
| GalleryStore.AddAppendsOneListedEntry | gallary.py:75-80 | after a successful add the listing is the old listing plus exactly one entry, for the source's base name with the given title and description |
| GalleryStore.TextFileScenario | gallary.py:78-79 | adding "notes.txt" fails with InvalidFormat, the listing is unchanged, and the file is nevertheless in storage |
| GalleryStore.AddKeepsConsistent | gallary.py:72-82 | an add never leaves a catalog entry without a stored file |
| GalleryStore.FirstWithTitle | gallary.py:85 | the position found holds the title, no earlier item has it, and it is the catalog length when no item has it |
| GalleryStore.DeleteImage | gallary.py:84-96 | the answer is true exactly when some item has the title; then the first such item is removed, the others keep their order, its file leaves storage (absent or not), and the index is rewritten; otherwise nothing changes, index included |
| GalleryStore.DeleteRemovesOneItem | gallary.py:85-87 | a successful delete shortens the catalog by one and removes exactly one occurrence of the found item |
| GalleryStore.DeleteUndoesAppend | gallary.py:84-94 | deleting the title of the last item, when no earlier item has it, drops exactly that item and its file |
| GalleryStore.DeleteUndoesAdd | gallary.py:72-96 | deleting a title just added, when no earlier item had it, restores the catalog from before the add and removes the copied file |
| GalleryStore.DeleteKeepsConsistent | gallary.py:86-91 | when no two entries share a file name, a delete leaves every remaining entry with its stored file |
| GalleryStore.DeleteOrphansSharedFile | gallary.py:86-91 | when another entry names the deleted item's file, the delete leaves that entry without a stored file |
| GalleryStore.SunsetScenario | gallary.py:72-96 | adding "photo1.png" titled "Sunset" lists exactly that entry; deleting "Sunset" empties the listing and removes "photo1.png" from storage |
| GalleryStore.ListImages | gallary.py:98-99 | one record per catalog item, in catalog order, each with exactly the four keys and the item's fields |
| GalleryStore.SaveMetadata | gallary.py:110-112 | the index file becomes the listing of the catalog; catalog and stored files are untouched |
| GalleryStore.DecodeRecords | gallary.py:119-122 | rebuilding succeeds exactly when every record rebuilds, yielding one item per record in file order; otherwise it fails with the error of the first failing record |
| GalleryStore.LoadMetadata | gallary.py:115-125 | a missing or unparseable index file leaves the manager unchanged and succeeds; the load fails exactly when some record fails to rebuild, and then the catalog is unchanged; otherwise the catalog is the rebuilt records in order; the disk is never changed |
| GalleryStore.DecodeSnapshot | gallary.py:110-122 | the saved records of a valid catalog rebuild into the same catalog, re-stamped |
| GalleryStore.SaveLoadRoundTrip | gallary.py:110-125 | save followed by load succeeds and gives back the same items with the same filename, title and description, in order, with only created_at replaced |
| Text.BasenameIsLastComponent | gallary.py:75 | the base name holds no '/', ends the path, and is the whole path or is preceded by '/' |
| Text.BasenameAfterSlash | gallary.py:75 | the base name of "dir/name" is "name" |
| Text.BasenameIdempotent | gallary.py:75 | a base name is its own base name |
| Text.ParseDecimalOfDecimal | hotel.py:10 | reading back the decimal form of a number gives the number |
| Text.DecimalInjective | hotel.py:10 | different numbers have different decimal forms |
| Hotel.RoomNameInjective | hotel.py:10 | different room numbers give different labels |
| Hotel.RoomNamesUpToCount | hotel.py:10 | rooms 1 to n carry n distinct labels |
| Hotel.InitialRooms | hotel.py:10 | the rooms are exactly "Room 1" to "Room 10", all free |
| Hotel.InitialRoomsAreTenFreeRooms | hotel.py:10 | there are exactly ten rooms, none occupied, "Room 1" and "Room 10" included and "Room 0" and "Room 11" not |
| Hotel.CheckIn | hotel.py:34-44 | an empty name changes nothing; an occupied room changes nothing; otherwise the room holds the guest from now on; no other room changes and no room is added |
| Hotel.CheckInOccupiesRoom | hotel.py:40-43 | a successful check-in adds exactly the selected room to the occupied ones |
| Hotel.CheckOut | hotel.py:46-53 | a free room changes nothing; an occupied room becomes free; no other room changes |
| Hotel.CheckOutUndoesCheckIn | hotel.py:34-53 | checking out right after a check-in restores the room map |
| Hotel.CheckOutTwiceRefused | hotel.py:46-53 | a second check-out of a room is refused and changes nothing |
| Hotel.GenerateBill | hotel.py:55-63 | billing a free room is refused; for an occupied room the days are the whole days elapsed since check-in, rounded down, and the amount is days times 200; the room map is not changed |
| Hotel.BillExample | hotel.py:55-63 | a guest billed one day and one hour after check-in pays 200 |

## Left out

- Logging (the `logging` setup and every `logger` call): events with no effect on state.
- `get_file_size` and `display_gallery`: size formatting in KB as a float, and printing.
- The text menu and its loop, `print_menu` and `main`: console I/O that drives the manager through the modelled operations.
- `GalleryItem.__str__`: display only.
- Real file I/O:
  - the copy, the remove and the directory creation are map updates and a flag;
  - the index file is a sequence of records, not JSON text;
  - a write to the index file always succeeds, so a failed save is not modelled;
  - errors other than a missing file are not modelled, for example permissions, a directory as the source, or copying a file onto itself;
  - the copy's file metadata (timestamps) is not carried.
- Index documents that are valid JSON but not an array of objects with string values: the index type cannot express them. In the source they behave as follows.
  - An entry whose title or description is not a string (a number, `null`) loads without error, because the constructor never inspects those two fields.
  - An empty object or an empty string at the top level loads as an empty catalog, because the comprehension runs zero times.
  - A file name that is not a string raises `AttributeError` in the extension check.
  - An entry that is not an object, or a top level that is a non-empty object or string, a number or `null`, raises `TypeError`.
- Index text that is not valid UTF-8 raises `UnicodeDecodeError`, which the load does not catch: the index type cannot express it.
- GalleryStore.DeleteImage: file names read back from the index file are treated as flat keys of the storage map. The source joins them to the storage directory path, so a loaded name such as "../x.png" or "/tmp/x.png" would remove a file outside that directory.
- GalleryStore.LoadMetadata: every rebuilt item is stamped with one `now`. The source reads the clock once per item, so its stamps may differ by microseconds.
- GalleryStore.SourceExists: sources are regular files given as a map from path to content. Directories and symbolic links are not modelled, and Windows path separators are not either.
- The clock (`datetime.now()` in both programs) is a parameter. Gallery times are opaque ISO strings. Hotel times are integers in microseconds.
- Everything tkinter in `hotel.py` (widgets, `StringVar` reads, message boxes, `mainloop`): the room, the name and the time are parameters. The dialogs become the `Refusal` values and the returned `Bill`.
