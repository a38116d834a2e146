/**
 * The material store: an ordered list of study materials (uploaded files and
 * Drive links) kept in memory and written back, as a whole, to the persistent
 * key-value medium after every successful change.
 */
module Materials {
  import opened Wrappers
  import opened Seqs
  import opened Text
  import opened Order

  /** The medium key the material list is saved under. */
  const STORAGE_KEY := "upsc-portal-materials"

  /** Where a record came from: an upload held by the running page, or a Drive link. */
  datatype Source = LocalRuntime | Drive

  /**
   * One material record. `fileType` is the record's `type`; `driveLink` and
   * `description` are present on links only; `size` is the formatted size.
   */
  datatype Material = Material(
    id: int,
    name: string,
    fileType: string,
    size: string,
    uploaded: string,
    folder: string,
    courseId: Option<int>,
    url: string,
    driveLink: Option<string>,
    description: Option<string>,
    source: Source,
    uploadDate: string,
    lastModified: string)

  /** The parts of a browser file object the store reads. */
  datatype FileHandle = FileHandle(name: string, size: nat)

  /** What the medium holds under a key: a material list, or anything else. */
  datatype Value = MaterialList(items: seq<Material>) | OtherValue

  /** The `files` property of an import/export object. */
  datatype FilesField = Absent | NotAnArray | ArrayOf(items: seq<Material>)

  /** An import/export object, or `null`. */
  datatype DataObject = NullData | DataObject(files: FilesField, exportDate: Option<string>)

  /** The counts of getStats; `totalSize` is `None` where it is not modelled (see README). */
  datatype Stats = Stats(totalFiles: nat, totalSize: Option<string>, folders: nat, fileTypes: nat)

  /** Lower-case extension to material type. */
  const TYPE_TABLE: map<string, string> := map[
    "pdf" := "PDF", "doc" := "DOC", "docx" := "DOC", "txt" := "TXT",
    "zip" := "ZIP", "rar" := "RAR",
    "jpg" := "IMAGE", "jpeg" := "IMAGE", "png" := "IMAGE", "gif" := "IMAGE",
    "mp4" := "VIDEO", "avi" := "VIDEO", "mp3" := "AUDIO", "wav" := "AUDIO",
    "xlsx" := "EXCEL", "xls" := "EXCEL", "pptx" := "POWERPOINT", "ppt" := "POWERPOINT"]

  /** Material type to display icon. */
  const ICON_TABLE: map<string, string> := map[
    "PDF" := "\U{1F4DA}", "DOC" := "\U{1F4DD}", "TXT" := "\U{1F4C4}",
    "ZIP" := "\U{1F4E6}", "RAR" := "\U{1F4E6}", "IMAGE" := "\U{1F5BC}\U{FE0F}",
    "VIDEO" := "\U{1F3A5}", "AUDIO" := "\U{1F3B5}", "EXCEL" := "\U{1F4CA}",
    "POWERPOINT" := "\U{1F4C8}", "LINK" := "\U{1F517}", "FILE" := "\U{1F4C1}"]

  /** A course id as stored: a missing id and the falsy id 0 both become null. */
  function CourseRef(courseId: Option<int>): Option<int> {
    if courseId.Some? && courseId.value != 0 then courseId else None
  }

  /** The text after the last dot, or the whole name when it has none (the last piece of splitting at dots). */
  function Extension(filename: string): (r: string)
    ensures '.' !in r
    ensures |r| <= |filename|
  {
    if filename == [] then []
    else if filename[|filename| - 1] == '.' then []
    else Extension(filename[..|filename| - 1]) + [filename[|filename| - 1]]
  }

  /** The extension is the end of the name, and a dot precedes it unless it is the whole name. */
  lemma {:induction false} ExtensionIsLastSegment(filename: string)
    ensures Extension(filename) == filename[|filename| - |Extension(filename)|..]
    ensures |Extension(filename)| < |filename| ==> filename[|filename| - |Extension(filename)| - 1] == '.'
    decreases |filename|
  {
    if filename != [] && filename[|filename| - 1] != '.' {
      var init := filename[..|filename| - 1];
      ExtensionIsLastSegment(init);
      var e := Extension(init);
      assert Extension(filename) == e + [filename[|filename| - 1]];
      assert init[|init| - |e|..] + [filename[|filename| - 1]] == filename[|filename| - |e| - 1..];
    }
  }

  /** Whatever precedes the last dot, the extension is what follows it. */
  lemma {:induction false} ExtensionAfterLastDot(base: string, ext: string)
    requires '.' !in ext
    ensures Extension(base + "." + ext) == ext
    decreases |ext|
  {
    var name := base + "." + ext;
    if ext != [] {
      var init := ext[..|ext| - 1];
      assert name[..|name| - 1] == base + "." + init;
      assert name[|name| - 1] == ext[|ext| - 1];
      ExtensionAfterLastDot(base, init);
      assert init + [ext[|ext| - 1]] == ext;
    }
  }

  /** A name without any dot is its own extension. */
  lemma {:induction false} ExtensionWithoutDot(name: string)
    requires '.' !in name
    ensures Extension(name) == name
    decreases |name|
  {
    if name != [] {
      var init := name[..|name| - 1];
      PrefixMembers(name, init);
      assert name[|name| - 1] in name;
      ExtensionWithoutDot(init);
      assert init + [name[|name| - 1]] == name;
    }
  }

  /** `getFileType`: the table entry of the lower-cased extension, "PDF" when there is none. */
  function GetFileType(filename: string): (r: string)
    ensures r in TYPE_TABLE.Values
  {
    var ext := Lower(Extension(filename));
    if ext in TYPE_TABLE then TYPE_TABLE[ext] else assert TYPE_TABLE["pdf"] == "PDF"; "PDF"
  }

  /** A name with a dot is typed by the table entry of its lower-cased last segment, or "PDF". */
  lemma FileTypeLookup(base: string, ext: string)
    requires '.' !in ext
    ensures GetFileType(base + "." + ext) == if Lower(ext) in TYPE_TABLE then TYPE_TABLE[Lower(ext)] else "PDF"
  {
    ExtensionAfterLastDot(base, ext);
  }

  /** A name without a dot is typed by the table entry of the whole lower-cased name, or "PDF". */
  lemma FileTypeWithoutDot(name: string)
    requires '.' !in name
    ensures GetFileType(name) == if Lower(name) in TYPE_TABLE then TYPE_TABLE[Lower(name)] else "PDF"
  {
    ExtensionWithoutDot(name);
  }

  /** The type of `base.ext` depends on `ext` alone and ignores its letter case. */
  lemma FileTypeOfExtension(base: string, ext: string, base': string, ext': string)
    requires '.' !in ext && '.' !in ext' && Lower(ext) == Lower(ext')
    ensures GetFileType(base + "." + ext) == GetFileType(base' + "." + ext')
  {
    ExtensionAfterLastDot(base, ext);
    ExtensionAfterLastDot(base', ext');
  }

  /** `getFileIcon`: the table entry of the type, the book icon when there is none. */
  function GetFileIcon(fileType: string): (r: string)
    ensures r in ICON_TABLE.Values
    ensures fileType in ICON_TABLE ==> r == ICON_TABLE[fileType]
    ensures fileType !in ICON_TABLE ==> r == "\U{1F4DA}"
  {
    if fileType in ICON_TABLE then ICON_TABLE[fileType] else assert ICON_TABLE["PDF"] == "\U{1F4DA}"; "\U{1F4DA}"
  }

  /** Every type the store assigns, LINK included, has an icon of its own. */
  lemma EveryTypeHasIcon()
    ensures forall t :: t in TYPE_TABLE.Values ==> t in ICON_TABLE
    ensures "LINK" in ICON_TABLE
  {
    forall t | t in TYPE_TABLE.Values
      ensures t in ICON_TABLE
    {
      var k :| k in TYPE_TABLE && TYPE_TABLE[k] == t;
    }
  }

  /**
   * The property names a plain object literal inherits from Object.prototype.
   * Indexing a table built as an object literal with one of them yields the
   * inherited member (a function, or the prototype for `__proto__`).
   * Only "constructor" and "__proto__" have no capital letter, so only those
   * two can equal a lower-cased extension.
   */
  const OBJECT_PROTOTYPE_KEYS: set<string> := {
    "constructor", "__proto__", "hasOwnProperty", "isPrototypeOf",
    "propertyIsEnumerable", "toLocaleString", "toString", "valueOf",
    "__defineGetter__", "__defineSetter__", "__lookupGetter__", "__lookupSetter__"}

  /** A JavaScript value as far as the type lookup can produce one. */
  datatype JsValue = Str(text: string) | Inherited(key: string)

  /** Every extension in the type table is at most four letters long. */
  lemma ShortTypeKeys()
    ensures forall k :: k in TYPE_TABLE ==> |k| <= 4
  {
  }

  /** Every inherited property name is at least seven letters long. */
  lemma LongPrototypeKeys()
    ensures forall k :: k in OBJECT_PROTOTYPE_KEYS ==> |k| >= 7
  {
  }

  /**
   * getFileType as written: the extension indexes a table built as an object literal,
   * so an extension naming an inherited member returns that member.
   */
  function GetFileTypeAsWritten(filename: string): (r: JsValue)
    ensures r.Inherited? <==> Lower(Extension(filename)) in OBJECT_PROTOTYPE_KEYS
  {
    var ext := Lower(Extension(filename));
    ShortTypeKeys();
    LongPrototypeKeys();
    if ext in TYPE_TABLE then Str(TYPE_TABLE[ext])
    else if ext in OBJECT_PROTOTYPE_KEYS then Inherited(ext)
    else Str("PDF")
  }

  /** Of the inherited names, a lower-cased extension can only be "constructor" or "__proto__". */
  lemma ReachablePrototypeKeys(e: string)
    ensures Lower(e) in OBJECT_PROTOTYPE_KEYS ==> Lower(e) == "constructor" || Lower(e) == "__proto__"
  {
    LowerDiffers(e, "hasOwnProperty", 3);
    LowerDiffers(e, "isPrototypeOf", 2);
    LowerDiffers(e, "propertyIsEnumerable", 8);
    LowerDiffers(e, "toLocaleString", 2);
    LowerDiffers(e, "toString", 2);
    LowerDiffers(e, "valueOf", 5);
    LowerDiffers(e, "__defineGetter__", 8);
    LowerDiffers(e, "__defineSetter__", 8);
    LowerDiffers(e, "__lookupGetter__", 8);
    LowerDiffers(e, "__lookupSetter__", 8);
  }

  /** A name with a capital letter is never the lower-case form of a string. */
  lemma LowerDiffers(e: string, k: string, i: nat)
    requires i < |k| && 'A' <= k[i] <= 'Z'
    ensures Lower(e) != k
  {
  }

  /** Away from the inherited names, the code as written and GetFileType agree. */
  lemma FileTypeAsWrittenAgrees(filename: string)
    requires Lower(Extension(filename)) !in OBJECT_PROTOTYPE_KEYS
    ensures GetFileTypeAsWritten(filename) == Str(GetFileType(filename))
  {
  }

  /** "notes.constructor" is typed as the Object constructor instead of "PDF". */
  lemma ConstructorExtensionCounterexample()
    ensures GetFileTypeAsWritten("notes.constructor") == Inherited("constructor")
    ensures GetFileType("notes.constructor") == "PDF"
  {
    assert "notes.constructor" == "notes" + "." + "constructor";
    ExtensionAfterLastDot("notes", "constructor");
    LowerOfLower("constructor");
  }

  /** The record has the given id. */
  function HasId(id: int): Material -> bool {
    (m: Material) => m.id == id
  }

  /** Index `i` holds the first record with id `id`. */
  predicate FirstWithId(files: seq<Material>, id: int, i: int) {
    0 <= i < |files| && files[i].id == id && forall j :: 0 <= j < i ==> files[j].id != id
  }

  /** No two records share an id. */
  predicate UniqueIds(files: seq<Material>) {
    forall i, j :: 0 <= i < j < |files| ==> files[i].id != files[j].id
  }

  /** Removing one record keeps ids unique, and its id no longer occurs. */
  lemma RemoveKeepsUniqueIds(files: seq<Material>, i: int)
    requires UniqueIds(files) && 0 <= i < |files|
    ensures UniqueIds(files[..i] + files[i + 1..])
    ensures forall m :: m in files[..i] + files[i + 1..] ==> m.id != files[i].id
  {
    var r := files[..i] + files[i + 1..];
    assert forall k :: 0 <= k < |r| ==> r[k] == files[if k < i then k else k + 1];
    forall m | m in r
      ensures m.id != files[i].id
    {
      var k :| 0 <= k < |r| && r[k] == m;
    }
  }

  /** Appending a record with a fresh id keeps ids unique. */
  lemma AppendKeepsUniqueIds(files: seq<Material>, m: Material)
    requires UniqueIds(files) && forall r :: r in files ==> r.id != m.id
    ensures UniqueIds(files + [m])
  {
    var s := files + [m];
    forall i, j | 0 <= i < j < |s|
      ensures s[i].id != s[j].id
    {
      if j == |files| {
        assert s[i] in files;
      }
    }
  }

  /** The `folder` of every record, in order. */
  function FolderNames(files: seq<Material>): (r: seq<string>)
    ensures forall f :: f in r <==> exists m :: m in files && m.folder == f
  {
    if files == [] then []
    else
      assert forall m :: m in files <==> m == files[0] || m in files[1..];
      [files[0].folder] + FolderNames(files[1..])
  }

  /** The record matches the query: lower-cased name, folder or type contains the lower-cased query. */
  predicate Matches(m: Material, query: string) {
    var q := Lower(query);
    Contains(Lower(m.name), q) || Contains(Lower(m.folder), q) || Contains(Lower(m.fileType), q)
  }

  /** importData's guard: the object is present and its `files` property is an array; a null object throws and is caught. */
  function ImportedFiles(data: DataObject): (r: Option<seq<Material>>)
    ensures r.Some? <==> data.DataObject? && data.files.ArrayOf?
    ensures r.Some? ==> r.value == data.files.items
  {
    match data
    case NullData => None
    case DataObject(files, _) => if files.ArrayOf? then Some(files.items) else None
  }

  class FileStorage {
    /** The materials, in insertion order. */
    var files: seq<Material>
    /** The persistent medium the store writes through. */
    var medium: map<string, Value>

    /** Loads the saved list; a missing entry (or one that is not a list) gives an empty store. */
    constructor (stored: map<string, Value>)
      ensures medium == stored
      ensures STORAGE_KEY in stored && stored[STORAGE_KEY].MaterialList? ==> files == stored[STORAGE_KEY].items
      ensures !(STORAGE_KEY in stored && stored[STORAGE_KEY].MaterialList?) ==> files == []
    {
      medium := stored;
      if STORAGE_KEY in stored && stored[STORAGE_KEY].MaterialList? {
        files := stored[STORAGE_KEY].items;
      } else {
        files := [];
      }
    }

    /** The medium holds exactly the current list. */
    ghost predicate Saved()
      reads this
    {
      STORAGE_KEY in medium && medium[STORAGE_KEY] == MaterialList(files)
    }

    /** `saveFiles`: writes the whole list under STORAGE_KEY. */
    method SaveFiles()
      modifies this
      ensures files == old(files) && Saved()
      ensures medium == old(medium)[STORAGE_KEY := MaterialList(files)]
    {
      medium := medium[STORAGE_KEY := MaterialList(files)];
    }

    /** `addLocalFile`: appends a record for an uploaded file and returns it. */
    method AddLocalFile(file: FileHandle, courseId: Option<int>, folder: Option<string>,
                        id: int, sizeLabel: string, objectUrl: string, now: string)
      returns (m: Material)
      modifies this
      ensures files == old(files) + [m]
      ensures m.id == id && m.name == file.name && m.fileType == GetFileType(file.name)
      ensures m.size == if file.size == 0 then "0 Bytes" else sizeLabel
      ensures m.uploaded == "Just now" && m.folder == folder.GetOr("General")
      ensures m.courseId == CourseRef(courseId) && m.url == objectUrl
      ensures m.driveLink == None && m.description == None && m.source == LocalRuntime
      ensures m.uploadDate == now && m.lastModified == now
      ensures medium == old(medium)[STORAGE_KEY := MaterialList(files)]
      ensures UniqueIds(old(files)) && (forall r :: r in old(files) ==> r.id != id) ==> UniqueIds(files)
    {
      var size := if file.size == 0 then "0 Bytes" else sizeLabel;
      m := Material(id, file.name, GetFileType(file.name), size, "Just now", folder.GetOr("General"),
                    CourseRef(courseId), objectUrl, None, None, LocalRuntime, now, now);
      if UniqueIds(files) && forall r :: r in files ==> r.id != id {
        AppendKeepsUniqueIds(files, m);
      }
      files := files + [m];
      assert medium == old(medium);
      SaveFiles();
    }

    /** `addDriveLink`: appends a LINK record for a Drive URL and returns it. */
    method AddDriveLink(name: Option<string>, driveLink: string, courseId: Option<int>,
                        folder: Option<string>, description: Option<string>, id: int, now: string)
      returns (m: Material)
      modifies this
      ensures files == old(files) + [m]
      ensures m.id == id && m.name == (if Truthy(name) then name.value else "Material")
      ensures m.fileType == "LINK" && m.size == "0 Bytes" && m.uploaded == "Just now"
      ensures m.folder == folder.GetOr("General") && m.courseId == CourseRef(courseId)
      ensures m.url == driveLink && m.driveLink == Some(driveLink)
      ensures m.description == Some(description.GetOr("")) && m.source == Drive
      ensures m.uploadDate == now && m.lastModified == now
      ensures medium == old(medium)[STORAGE_KEY := MaterialList(files)]
      ensures UniqueIds(old(files)) && (forall r :: r in old(files) ==> r.id != id) ==> UniqueIds(files)
    {
      m := Material(id, if Truthy(name) then name.value else "Material", "LINK", "0 Bytes", "Just now",
                    folder.GetOr("General"), CourseRef(courseId), driveLink, Some(driveLink),
                    Some(description.GetOr("")), Drive, now, now);
      if UniqueIds(files) && forall r :: r in files ==> r.id != id {
        AppendKeepsUniqueIds(files, m);
      }
      files := files + [m];
      assert medium == old(medium);
      SaveFiles();
    }

    /** `getAllFiles`: the live list. */
    function GetAllFiles(): seq<Material>
      reads this
    {
      files
    }

    /** `getFilesByFolder`: exactly the records in `folder`, in their original order. */
    function GetFilesByFolder(folder: string): (r: seq<Material>)
      reads this
      ensures forall m :: m in r <==> m in files && m.folder == folder
      ensures forall m :: multiset(r)[m] == if m.folder == folder then multiset(files)[m] else 0
      ensures Subsequence(r, files)
    {
      var inFolder := (m: Material) => m.folder == folder;
      KeepCount(files, inFolder);
      KeepOrdered(files, inFolder);
      Keep(files, inFolder)
    }

    /** `getFilesByCourse`: exactly the records whose courseId equals `courseId`, in order. */
    function GetFilesByCourse(courseId: Option<int>): (r: seq<Material>)
      reads this
      ensures forall m :: m in r <==> m in files && m.courseId == courseId
      ensures forall m :: multiset(r)[m] == if m.courseId == courseId then multiset(files)[m] else 0
      ensures Subsequence(r, files)
    {
      var inCourse := (m: Material) => m.courseId == courseId;
      KeepCount(files, inCourse);
      KeepOrdered(files, inCourse);
      Keep(files, inCourse)
    }

    /** `getFileById`: the first record with this id, or nothing. */
    function GetFileById(id: int): (r: Option<Material>)
      reads this
      ensures r.None? <==> forall m :: m in files ==> m.id != id
      ensures r.Some? ==> exists i :: FirstWithId(files, id, i) && files[i] == r.value
    {
      var i := FindIndex(files, HasId(id));
      if i < 0 then None else Some(files[i])
    }

    /** `deleteFile`: removes the first record with this id; false, and nothing changes, when none has it. */
    method DeleteFile(id: int) returns (deleted: bool)
      modifies this
      ensures deleted <==> exists m :: m in old(files) && m.id == id
      ensures deleted ==> exists i :: FirstWithId(old(files), id, i) && files == old(files)[..i] + old(files)[i + 1..]
      ensures deleted ==> medium == old(medium)[STORAGE_KEY := MaterialList(files)]
      ensures !deleted ==> files == old(files) && medium == old(medium)
      ensures UniqueIds(old(files)) ==> UniqueIds(files) && forall m :: m in files ==> m.id != id
    {
      var i := FindIndex(files, HasId(id));
      if i > -1 {
        assert FirstWithId(files, id, i);
        if UniqueIds(files) {
          RemoveKeepsUniqueIds(files, i);
        }
        files := files[..i] + files[i + 1..];
        SaveFiles();
        deleted := true;
      } else {
        deleted := false;
      }
    }

    /** `renameFile`: renames the first record with this id and stamps `lastModified`. */
    method RenameFile(id: int, newName: string, now: string) returns (renamed: bool)
      modifies this
      ensures renamed <==> exists m :: m in old(files) && m.id == id
      ensures renamed ==> exists i :: (FirstWithId(old(files), id, i) &&
        files == old(files)[i := old(files)[i].(name := newName, lastModified := now)])
      ensures renamed ==> medium == old(medium)[STORAGE_KEY := MaterialList(files)]
      ensures renamed ==> GetFileById(id) == Some(old(GetFileById(id)).value.(name := newName, lastModified := now))
      ensures !renamed ==> files == old(files) && medium == old(medium)
    {
      var i := FindIndex(files, HasId(id));
      if i > -1 {
        assert FirstWithId(files, id, i);
        files := files[i := files[i].(name := newName, lastModified := now)];
        assert FirstWithId(files, id, i);
        SaveFiles();
        renamed := true;
      } else {
        renamed := false;
      }
    }

    /** `moveFile`: moves the first record with this id to `newFolder` and stamps `lastModified`. */
    method MoveFile(id: int, newFolder: string, now: string) returns (moved: bool)
      modifies this
      ensures moved <==> exists m :: m in old(files) && m.id == id
      ensures moved ==> exists i :: (FirstWithId(old(files), id, i) &&
        files == old(files)[i := old(files)[i].(folder := newFolder, lastModified := now)])
      ensures moved ==> medium == old(medium)[STORAGE_KEY := MaterialList(files)]
      ensures moved ==> GetFileById(id) == Some(old(GetFileById(id)).value.(folder := newFolder, lastModified := now))
      ensures !moved ==> files == old(files) && medium == old(medium)
    {
      var i := FindIndex(files, HasId(id));
      if i > -1 {
        assert FirstWithId(files, id, i);
        files := files[i := files[i].(folder := newFolder, lastModified := now)];
        assert FirstWithId(files, id, i);
        SaveFiles();
        moved := true;
      } else {
        moved := false;
      }
    }

    /** `searchFiles`: exactly the records whose name, folder or type contains the query, ignoring case, in order. */
    function SearchFiles(query: string): (r: seq<Material>)
      reads this
      ensures forall m :: m in r <==> m in files && Matches(m, query)
      ensures forall m :: multiset(r)[m] == if Matches(m, query) then multiset(files)[m] else 0
      ensures Subsequence(r, files)
    {
      var hit := (m: Material) => Matches(m, query);
      KeepCount(files, hit);
      KeepOrdered(files, hit);
      Keep(files, hit)
    }

    /** `getFolders`: the distinct folders of the records, sorted, each once. */
    function GetFolders(): (r: seq<string>)
      reads this
      ensures StrictlySorted(r)
      ensures forall f :: f in r <==> exists m :: m in files && m.folder == f
    {
      SortedDistinct(FolderNames(files))
    }

    /** `getStats`: record count, distinct folder and type counts, and the total size where modelled. */
    function GetStats(): (s: Stats)
      reads this
      ensures s.totalFiles == |files|
      ensures s.folders == |set m | m in files :: m.folder|
      ensures s.fileTypes == |set m | m in files :: m.fileType|
      ensures (forall m :: m in files ==> m.size == "0 Bytes") ==> s.totalSize == Some("0 Bytes")
      ensures files == [] ==> s == Stats(0, Some("0 Bytes"), 0, 0)
    {
      var names := FolderNames(files);
      DistinctCount(names);
      assert (set y | y in names) == (set m | m in files :: m.folder);
      var types := set m | m in files :: m.fileType;
      assert files == [] ==> types == {};
      var total := if forall m :: m in files ==> m.size == "0 Bytes" then Some("0 Bytes") else None;
      Stats(|files|, total, |GetFolders()|, |types|)
    }

    /** `exportData`: every record, plus the export time. */
    function ExportData(now: string): (d: DataObject)
      reads this
      ensures ImportedFiles(d) == Some(files)
      ensures d.DataObject? && d.exportDate == Some(now)
    {
      DataObject(ArrayOf(files), Some(now))
    }

    /** `importData`: replaces the whole list when `data.files` is an array; otherwise false and nothing changes. */
    method ImportData(data: DataObject) returns (ok: bool)
      modifies this
      ensures ok <==> data.DataObject? && data.files.ArrayOf?
      ensures ok ==> files == data.files.items && medium == old(medium)[STORAGE_KEY := MaterialList(files)]
      ensures !ok ==> files == old(files) && medium == old(medium)
    {
      var incoming := ImportedFiles(data);
      if incoming.Some? {
        files := incoming.value;
        SaveFiles();
        ok := true;
      } else {
        ok := false;
      }
    }
  }

  /** Searching is case-insensitive substring search over name, folder and type. */
  lemma SearchFindsSubstrings(store: FileStorage, query: string, m: Material)
    ensures m in store.SearchFiles(query) <==>
      m in store.files &&
      ((exists i :: OccursAt(Lower(m.name), Lower(query), i)) ||
       (exists i :: OccursAt(Lower(m.folder), Lower(query), i)) ||
       (exists i :: OccursAt(Lower(m.fileType), Lower(query), i)))
  {
    ContainsAt(Lower(m.name), Lower(query));
    ContainsAt(Lower(m.folder), Lower(query));
    ContainsAt(Lower(m.fileType), Lower(query));
  }

  /** The empty query matches every record. */
  lemma SearchEmptyQuery(store: FileStorage)
    ensures store.SearchFiles("") == store.files
  {
    KeepAll(store.files, (m: Material) => Matches(m, ""));
  }
}
