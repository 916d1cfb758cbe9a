/** Page-addressable readers over one comic unit: a zip or rar archive, or a flat
    directory of images (be/comicfile.py). */
module ComicFile {
  import opened PyText
  import opened Lists

  /** `allowImgs`: the image extensions a page may have. */
  const AllowImgs: seq<string> := [".jpg", ".jpeg", ".png", ".webp", ".bmp", ".gif"]

  // ---------------------------------------------------------------- dispatch

  /** What the filesystem says about a path: `exists()` and `is_dir()`. */
  datatype PathKind = Missing | Directory | RegularFile

  /** The reader variants `create` chooses between. */
  datatype ComicKind = DirectoryComic | ZipComic | RarComic

  /** `create`: no reader for a missing path, the directory reader for a directory,
      and for a file a zip or rar reader chosen by its lower-cased suffix. */
  function Create(path: string, kind: PathKind): Option<ComicKind>
  {
    match kind
    case Missing => None
    case Directory => Some(DirectoryComic)
    case RegularFile =>
      var ext := Lower(Suffix(path));
      if ext == ".zip" then Some(ZipComic)
      else if ext == ".rar" then Some(RarComic)
      else None
  }

  /** Which reader `create` gives: none exactly for a missing path or a file whose
      lower-cased suffix is neither `.zip` nor `.rar`. */
  lemma CreateDispatch(path: string, kind: PathKind)
    ensures Create(path, kind) == Some(DirectoryComic) <==> kind == Directory
    ensures Create(path, kind) == Some(ZipComic) <==> kind == RegularFile && Lower(Suffix(path)) == ".zip"
    ensures Create(path, kind) == Some(RarComic) <==> kind == RegularFile && Lower(Suffix(path)) == ".rar"
    ensures Create(path, kind) == None <==>
      kind == Missing || (kind == RegularFile && Lower(Suffix(path)) != ".zip" && Lower(Suffix(path)) != ".rar")
  {
  }

  /** The creation test, first case: an existing `test.zip` gets the zip reader, and
      so does `Test.ZIP`, since the suffix is compared lower-cased. */
  lemma CreateZip()
    ensures Create("test" + ".zip", RegularFile) == Some(ZipComic)
    ensures Create("Test" + ".ZIP", RegularFile) == Some(ZipComic)
  {
    SuffixPlain("test", ".zip");
    SuffixPlain("Test", ".ZIP");
  }

  /** The creation test, second case: an existing `test.rar` gets the rar reader. */
  lemma CreateRar()
    ensures Create("test" + ".rar", RegularFile) == Some(RarComic)
  {
    SuffixPlain("test", ".rar");
  }

  /** The creation test, last cases: a directory gets the directory reader, an image
      file gets none, and a path that does not exist gets none whatever its name. */
  lemma CreateOther()
    ensures Create("test", Directory) == Some(DirectoryComic)
    ensures Create("test" + ".jpg", RegularFile) == None
    ensures Create("test" + ".zip", Missing) == None
  {
    SuffixPlain("test", ".jpg");
  }

  // ---------------------------------------------------------------- page order

  /** The archive readers keep an entry when its extension, lower-cased, is allowed. */
  predicate IsArchiveImage(name: string)
  {
    Lower(Ext(name)) in AllowImgs
  }

  /** The directory reader and the scanner compare the extension as it is. */
  predicate IsImageFile(name: string)
  {
    Ext(name) in AllowImgs
  }

  /** The archive entries that are pages, in archive order. */
  function ImageEntries(names: seq<string>): seq<string>
  {
    Filter(names, IsArchiveImage)
  }

  /** `str.isdigit()` holds for the name's part before the extension. */
  predicate NumericStem(name: string)
  {
    IsDigits(Stem(name))
  }

  /** `int()` reads the name's part before the extension: it is all decimal digits. */
  predicate IntStem(name: string)
  {
    IsDecimals(Stem(name))
  }

  /** `int(os.path.splitext(name)[0])` for a name with `IntStem`. */
  function NumberKey(name: string): nat
  {
    DigitsValue(Stem(name))
  }

  predicate NumberLe(a: string, b: string)
  {
    NumberKey(a) <= NumberKey(b)
  }

  /** What `int()` raises on a stem it cannot read. */
  function IntError(name: string): Exc
  {
    Exc(ValueError, "invalid literal for int() with base 10: '" + Stem(name) + "'")
  }

  /** The index of the first name whose stem `int()` cannot read, `|listed|` when
      there is none, searching from `i` on. */
  function FirstNonInt(listed: seq<string>, i: nat): (k: nat)
    requires i <= |listed| && All(listed[..i], IntStem)
    ensures i <= k <= |listed| && All(listed[..k], IntStem)
    ensures k < |listed| ==> !IntStem(listed[k])
    decreases |listed| - i
  {
    if i == |listed| || !IntStem(listed[i]) then i
    else
      assert listed[..i + 1] == listed[..i] + [listed[i]];
      FirstNonInt(listed, i + 1)
  }

  /** `sorted(key=...)` computes the keys front to back before it compares any: the
      first stem `int()` cannot read ends the sort with its exception. */
  function FirstKeyError(listed: seq<string>): (e: Option<Exc>)
    ensures e.None? <==> All(listed, IntStem)
    ensures e.Some? ==> e.value == IntError(listed[FirstNonInt(listed, 0)])
  {
    var k := FirstNonInt(listed, 0);
    assert listed[..|listed|] == listed;
    if k < |listed| then Some(IntError(listed[k])) else None
  }

  /** The image entries in string order, the list `open` stores first. */
  function Listed(names: seq<string>): seq<string>
  {
    InsertionSort(ImageEntries(names), LexLe)
  }

  /** The page list `open` leaves behind: the image entries sorted as strings, then
      sorted again (stably) by numeric value when every stem passes `isdigit` and
      `int()` reads every one of them. */
  function PageOrder(names: seq<string>): seq<string>
  {
    var listed := Listed(names);
    if All(listed, NumericStem) && FirstKeyError(listed).None? then InsertionSort(listed, NumberLe) else listed
  }

  /** The exception that stops `open` while it orders the pages: every stem passes
      `isdigit` but one of them is not all decimal digits (a superscript or a circled
      digit), so `int()` fails on it. */
  function OrderError(names: seq<string>): Option<Exc>
  {
    var listed := Listed(names);
    if All(listed, NumericStem) then FirstKeyError(listed) else None
  }

  lemma LexLeTotalPreorder()
    ensures TotalPreorder(LexLe)
  {
    forall a, b ensures LexLe(a, b) || LexLe(b, a) {
      LexLeTotal(a, b);
    }
    forall a, b, c | LexLe(a, b) && LexLe(b, c) ensures LexLe(a, c) {
      LexLeTrans(a, b, c);
    }
  }

  lemma NumberLeTotalPreorder()
    ensures TotalPreorder(NumberLe)
  {
  }

  /** The pages are exactly the image entries, each as often as the archive lists it. */
  lemma PageOrderMembers(names: seq<string>)
    ensures multiset(PageOrder(names)) == multiset(ImageEntries(names))
    ensures forall n :: n in PageOrder(names) <==> n in names && IsArchiveImage(n)
  {
    var entries := ImageEntries(names);
    var pages := PageOrder(names);
    assert multiset(pages) == multiset(entries);
    forall n ensures n in pages <==> n in names && IsArchiveImage(n) {
      assert n in pages <==> n in multiset(pages);
      assert n in entries <==> n in multiset(entries);
      if n in names && IsArchiveImage(n) {
        var k :| 0 <= k < |names| && names[k] == n;
      }
    }
  }

  /** A decimal stem is also an `isdigit` stem. */
  lemma IntStemNumeric(s: seq<string>)
    requires All(s, IntStem)
    ensures All(s, NumericStem)
  {
  }

  /** Names that are not all numeric come out in string order, and `open` succeeds. */
  lemma PageOrderLexicographic(names: seq<string>)
    requires !All(ImageEntries(names), NumericStem)
    ensures SortedBy(PageOrder(names), LexLe)
    ensures OrderError(names) == None
  {
    AllPermutation(Listed(names), ImageEntries(names), NumericStem);
    LexLeTotalPreorder();
    SortSorted(ImageEntries(names), LexLe);
  }

  /** Names whose stems are all decimal digits, in any script (`2.jpg`, or U+FF12 FULLWIDTH DIGIT TWO before `.jpg`),
      come out in ascending numeric order; names of equal value (`1.jpg` and `1.png`,
      `01.jpg` and `1.jpg`) keep their string order; and `open` succeeds. */
  lemma PageOrderNumeric(names: seq<string>)
    requires All(ImageEntries(names), IntStem)
    ensures SortedThen(PageOrder(names), NumberLe, LexLe)
    ensures OrderError(names) == None
  {
    var listed := Listed(names);
    AllPermutation(listed, ImageEntries(names), IntStem);
    IntStemNumeric(listed);
    LexLeTotalPreorder();
    NumberLeTotalPreorder();
    SortSorted(ImageEntries(names), LexLe);
    SortStable(listed, NumberLe, LexLe);
  }

  /** Names whose stems all pass `isdigit` while one is not decimal make `open` raise
      the `ValueError` of the first such name in string order; the list it leaves
      behind is the string-ordered one. */
  lemma PageOrderRaises(names: seq<string>)
    requires All(ImageEntries(names), NumericStem)
    requires !All(ImageEntries(names), IntStem)
    ensures SortedBy(PageOrder(names), LexLe)
    ensures FirstNonInt(PageOrder(names), 0) < |PageOrder(names)|
    ensures OrderError(names) == Some(IntError(PageOrder(names)[FirstNonInt(PageOrder(names), 0)]))
  {
    var listed := Listed(names);
    AllPermutation(listed, ImageEntries(names), NumericStem);
    AllPermutation(listed, ImageEntries(names), IntStem);
    LexLeTotalPreorder();
    SortSorted(ImageEntries(names), LexLe);
  }

  /** The stem of a name made of a digit and `.jpg` is that digit. */
  lemma DigitJpg(d: char)
    requires d != '.' && d != '/'
    ensures Stem([d] + ".jpg") == [d]
  {
    SplitExtPlain([d], ".jpg");
  }

  /** Full-width digits are decimal: full-width two before `.jpg` counts as page 2
      and full-width one zero as page 10, so the two are ordered by value, the
      reverse of their string order. */
  lemma FullWidthStems()
    ensures IntStem("\U{FF12}.jpg") && NumberKey("\U{FF12}.jpg") == 2
    ensures IntStem("\U{FF11}\U{FF10}.jpg") && NumberKey("\U{FF11}\U{FF10}.jpg") == 10
    ensures NumberLe("\U{FF12}.jpg", "\U{FF11}\U{FF10}.jpg") && !NumberLe("\U{FF11}\U{FF10}.jpg", "\U{FF12}.jpg")
    ensures LexLe("\U{FF11}\U{FF10}.jpg", "\U{FF12}.jpg") && !LexLe("\U{FF12}.jpg", "\U{FF11}\U{FF10}.jpg")
  {
    assert "\U{FF12}.jpg" == ['\U{FF12}'] + ".jpg";
    DigitJpg('\U{FF12}');
    assert IsDecimal('\U{FF12}') && DecimalDigit('\U{FF12}') == 2;
    assert DigitsValue("\U{FF12}") == 2 by {
      assert "\U{FF12}"[..0] == [];
    }
    var t := "\U{FF11}\U{FF10}";
    assert "\U{FF11}\U{FF10}.jpg" == t + ".jpg";
    SplitExtPlain(t, ".jpg");
    assert IsDecimal('\U{FF11}') && DecimalDigit('\U{FF11}') == 1;
    assert IsDecimal('\U{FF10}') && DecimalDigit('\U{FF10}') == 0;
    assert DigitsValue(t) == 10 by {
      assert t[..1] == "\U{FF11}" && t[..1][..0] == [];
    }
  }

  /** A superscript two (U+00B2) passes `isdigit` but not `int()`. */
  lemma SuperscriptStem()
    ensures NumericStem("\U{00B2}.jpg") && !IntStem("\U{00B2}.jpg")
    ensures IntError("\U{00B2}.jpg") == Exc(ValueError, "invalid literal for int() with base 10: '\U{00B2}'")
  {
    assert "\U{00B2}.jpg" == ['\U{00B2}'] + ".jpg";
    DigitJpg('\U{00B2}');
    assert IsOtherDigit('\U{00B2}') && !IsDecimal('\U{00B2}');
  }

  // ---------------------------------------------------------------- archives

  /** One archive member: its bytes and whether reading it needs a password. */
  datatype Member = Member(data: Bytes, encrypted: bool)

  /** What zipfile/rarfile see in an archive file: the entry names in archive order
      (`namelist()`) and the member each name reads. */
  datatype Archive = Archive(names: seq<string>, members: map<string, Member>)

  datatype ArchiveKind = Zip | Rar

  /** The outcome of `read(page)`: `(True, bytes)`, `(False, None)`, or an exception. */
  datatype PageRead = Page(data: Bytes) | NoPage | Raised(exc: Exc)

  /** `read` on a reader never opened compares the index with `None`. */
  const NotOpened := Exc(TypeError, "'>=' not supported between instances of 'int' and 'NoneType'")

  /** A negative index below minus the page count. */
  const OutOfRange := Exc(IndexError, "list index out of range")

  /** What zipfile raises (as a `RuntimeError`) on reading an encrypted member without
      a password. */
  function EncryptedMessage(name: string): string
  {
    "File '" + name + "' is encrypted, " + "password required for extraction"
  }

  /** `archive.read(name)` on a zipfile or rarfile handle: a closed zipfile, a name not
      in the archive and an encrypted member raise; otherwise the member's bytes. A
      rarfile handle keeps nothing open between reads, so closing it changes nothing. */
  function ReadMember(kind: ArchiveKind, a: Archive, closed: bool, name: string): PageRead
  {
    if closed && kind == Zip then Raised(Exc(ValueError, "Attempt to use ZIP archive that was already closed"))
    else if name !in a.members then Raised(Exc(KeyError, name))
    else if a.members[name].encrypted then
      (if kind == Zip then Raised(Exc(RuntimeError, EncryptedMessage(name)))
       else Raised(Exc(PasswordRequired, "File " + name + " requires password")))
    else Page(a.members[name].data)
  }

  /** `ZipRarComicfile` with its `ZipComicfile`/`RarComicfile` `open`. */
  class ArchiveReader {
    const path: string
    const kind: ArchiveKind
    /** `_archive`: the handle of the last successful open; unassigned before it. */
    var handle: Option<Archive>
    var handleClosed: bool
    var isOpen: bool
    var namelist: Option<seq<string>>
    var page: Option<int>

    /** A page count is kept only beside a page list and a handle. It counts the list,
        or is 0: a failed `open` replaces the list and keeps the old count. */
    ghost predicate Valid()
      reads this
    {
      && (namelist.Some? ==> handle.Some?)
      && (page.Some? ==> namelist.Some? && (page.value == 0 || page.value == |namelist.value|))
    }

    constructor (path: string, kind: ArchiveKind)
      ensures Valid() && this.path == path && this.kind == kind
      ensures handle == None && !handleClosed && !isOpen
      ensures namelist == None && page == None
    {
      this.path := path;
      this.kind := kind;
      handle := None;
      handleClosed := false;
      isOpen := false;
      namelist := None;
      page := None;
    }

    /** Whether `open` reuses the page list: a non-empty list and a non-zero count. */
    predicate HasPages()
      reads this
    {
      namelist.Some? && namelist.value != [] && page.Some? && page.value != 0
    }

    /** Every call opens the archive file again. The page list is then computed only
        on the first open after construction or close, and only when no page list
        with pages is cached. Ordering the pages can raise (`OrderError`): the string
        order is stored by then and the count is left as it was. `file` is the
        archive on disk, `None` when the library cannot open it (missing or not an
        archive). */
    method Open(file: Option<Archive>) returns (err: Option<Exc>)
      requires Valid()
      modifies this
      ensures Valid()
      ensures file.None? ==> err == Some(Exc(BadArchive, path)) && unchanged(this)
      ensures file.Some? ==> handle == file && !handleClosed && isOpen
      ensures file.Some? && (old(isOpen) || old(HasPages())) ==>
        err == None && namelist == old(namelist) && page == old(page)
      ensures file.Some? && !old(isOpen) && !old(HasPages()) ==>
        && err == OrderError(file.value.names)
        && namelist == Some(PageOrder(file.value.names))
        && (err.None? ==> page == Some(|PageOrder(file.value.names)|))
        && (err.Some? ==> page == old(page))
    {
      if file.None? {
        return Some(Exc(BadArchive, path));
      }
      handle := file;
      handleClosed := false;
      err := None;
      if isOpen {
        return;
      }
      isOpen := true;
      if namelist.None? || namelist.value == [] || page.None? || page.value == 0 {
        var names := PageOrder(file.value.names);
        namelist := Some(names);
        err := OrderError(file.value.names);
        if err.Some? {
          return;
        }
        page := Some(|names|);
      }
    }

    /** What the handle gives for one entry name. */
    function Fetch(name: string): (r: PageRead)
      reads this
      requires handle.Some?
      ensures r.Page? ==> name in handle.value.members && r.data == handle.value.members[name].data
    {
      ReadMember(kind, handle.value, handleClosed, name)
    }

    /** `read(page)`: only the upper bound is checked, so a negative index counts from
        the end of the page list as Python indexing does. */
    method Read(i: int) returns (r: PageRead)
      requires Valid()
      ensures page.None? ==> r == Raised(NotOpened)
      ensures page.Some? && i >= page.value ==> r == NoPage
      ensures page.Some? && 0 <= i < page.value ==> r == Fetch(namelist.value[i])
      ensures page.Some? && i < 0 && i < -|namelist.value| ==> r == Raised(OutOfRange)
      ensures page.Some? && i < 0 && -|namelist.value| <= i ==> r == Fetch(namelist.value[|namelist.value| + i])
    {
      if page.None? {
        return Raised(NotOpened);
      }
      if i >= page.value {
        return NoPage;
      }
      var n := |namelist.value|;
      if i < -n {
        return Raised(OutOfRange);
      }
      var name := namelist.value[if i < 0 then n + i else i];
      r := Fetch(name);
    }

    /** `close`: always marks the reader closed and keeps the cached page list. */
    method Close() returns (err: Option<Exc>)
      requires Valid()
      modifies this
      ensures Valid() && !isOpen
      ensures namelist == old(namelist) && page == old(page) && handle == old(handle)
      ensures old(handle).None? ==> err == Some(Exc(AttributeError, "_archive")) && handleClosed == old(handleClosed)
      ensures old(handle).Some? ==> err == None && handleClosed
    {
      isOpen := false;
      if handle.None? {
        return Some(Exc(AttributeError, "_archive"));
      }
      handleClosed := true;
      err := None;
    }
  }

  /** The zip test, for any entry names that are all images, all holding the same
      bytes: `open` on entering the `with` block fails only when ordering the pages
      does (`0.jpg` and `1.jpg` do not); otherwise the reader counts one page per
      entry, a second `open` inside the block changes nothing, and page 0 reads
      successfully. */
  method ZipRoundTrip(path: string, names: seq<string>, data: Bytes) returns (err: Option<Exc>, pages: int, first: PageRead)
    requires |names| > 0
    requires forall i :: 0 <= i < |names| ==> IsArchiveImage(names[i])
    ensures err == OrderError(names)
    ensures err.None? ==> pages == |names| && first == Page(data)
  {
    var archive := Archive(names, map n | n in names :: Member(data, false));
    var reader := new ArchiveReader(path, Zip);
    err := reader.Open(Some(archive));
    if err.Some? {
      pages, first := 0, NoPage;
      var _ := reader.Close();
      return;
    }
    FilterAll(names, IsArchiveImage);
    PageOrderMembers(names);
    pages := reader.page.value;
    var _ := reader.Open(Some(archive));
    assert reader.namelist.value[0] in PageOrder(names);
    first := reader.Read(0);
    var _ := reader.Close();
  }

  /** The test's own names: `0.jpg` and `1.jpg` order without error. */
  lemma TestNamesOrder()
    ensures OrderError(["0.jpg", "1.jpg"]) == None
  {
    var names := ["0.jpg", "1.jpg"];
    assert All(names, IntStem) by {
      assert "0.jpg" == ['0'] + ".jpg" && "1.jpg" == ['1'] + ".jpg";
      DigitJpg('0');
      DigitJpg('1');
    }
    var entries := ImageEntries(names);
    assert All(entries, IntStem) by {
      forall i | 0 <= i < |entries| ensures IntStem(entries[i]) {
        assert entries[i] in names;
      }
    }
    AllPermutation(Listed(names), entries, IntStem);
  }

  // ---------------------------------------------------------------- directories

  /** One `os.DirEntry` from `os.scandir`: its name and whether it is a regular file. */
  datatype DirItem = DirItem(name: string, isFile: bool)

  /** A directory entry the directory reader keeps as a page: a regular file whose
      extension, compared as it is, is an allowed image extension. */
  predicate IsDirPage(e: DirItem)
  {
    e.isFile && IsImageFile(e.name)
  }

  /** The pages of a directory listing, in scandir order. */
  function DirPages(listing: seq<DirItem>): seq<DirItem>
  {
    Filter(listing, IsDirPage)
  }

  /** The path a page is read from: `DirEntry.path`, the directory joined with the
      entry's name. */
  function EntryPath(dir: string, name: string): (r: string)
    ensures |name| > 0 && name[0] == '/' ==> r == name
    ensures |name| > 0 && name[0] != '/' ==>
      |r| >= |dir| + |name| && r[..|dir|] == dir && r[|r| - |name|..] == name
  {
    Join(dir, name)
  }

  /** `read` as written joins the directory with the entry's own path a second time. */
  function ReadPathAsWritten(dir: string, name: string): string
  {
    Join(dir, EntryPath(dir, name))
  }

  /** For an absolute directory the double join is harmless: the entry's path is itself
      absolute and wins the join. */
  lemma ReadPathAbsolute(dir: string, name: string)
    requires |dir| > 0 && dir[0] == '/'
    ensures ReadPathAsWritten(dir, name) == EntryPath(dir, name)
  {
  }

  /** For a relative directory it names another file: `comics/a` and `1.jpg` give
      `comics/a/comics/a/1.jpg`, longer than the entry's path by the directory's length. */
  lemma ReadPathRelative(dir: string, name: string)
    requires |dir| > 0 && dir[0] != '/'
    requires |name| > 0 && name[0] != '/'
    ensures |ReadPathAsWritten(dir, name)| >= |EntryPath(dir, name)| + |dir|
    ensures ReadPathAsWritten(dir, name) != EntryPath(dir, name)
  {
  }

  /** `DirectoryComicfile`, reading pages through `EntryPath`. */
  class DirectoryReader {
    const path: string
    var isOpen: bool
    var namelist: Option<seq<DirItem>>
    var page: Option<int>

    ghost predicate Valid()
      reads this
    {
      && (namelist.Some? <==> page.Some?)
      && (page.Some? ==> page.value == |namelist.value|)
    }

    constructor (path: string)
      ensures Valid() && this.path == path
      ensures !isOpen && namelist == None && page == None
    {
      this.path := path;
      isOpen := false;
      namelist := None;
      page := None;
    }

    /** `open`: marks the reader open before listing the directory, so a listing that
        fails (`None`: the directory is gone) leaves it open with no page list, and
        every later `open` returns at once. Each successful first open lists again. */
    method Open(listing: Option<seq<DirItem>>) returns (err: Option<Exc>)
      requires Valid()
      modifies this
      ensures Valid() && isOpen
      ensures old(isOpen) ==> err == None && namelist == old(namelist) && page == old(page)
      ensures !old(isOpen) && listing.None? ==>
        err == Some(Exc(FileNotFoundError, path)) && namelist == old(namelist) && page == old(page)
      ensures !old(isOpen) && listing.Some? ==>
        err == None && namelist == Some(DirPages(listing.value)) && page == Some(|DirPages(listing.value)|)
    {
      if isOpen {
        return None;
      }
      isOpen := true;
      if listing.None? {
        return Some(Exc(FileNotFoundError, path));
      }
      var pages := DirPages(listing.value);
      namelist := Some(pages);
      page := Some(|pages|);
      err := None;
    }

    /** `read(page)` against the files on disk, `files` mapping each path to its bytes:
        the same bounds as the archive reader, then the page's file read whole. */
    method Read(i: int, files: map<string, Bytes>) returns (r: PageRead)
      requires Valid()
      ensures page.None? ==> r == Raised(NotOpened)
      ensures page.Some? && i >= page.value ==> r == NoPage
      ensures page.Some? && i < -page.value ==> r == Raised(OutOfRange)
      ensures page.Some? && -page.value <= i < page.value ==>
        var e := namelist.value[if i < 0 then page.value + i else i];
        var full := EntryPath(path, e.name);
        r == if full in files then Page(files[full]) else Raised(Exc(FileNotFoundError, full))
    {
      if page.None? {
        return Raised(NotOpened);
      }
      if i >= page.value {
        return NoPage;
      }
      if i < -page.value {
        return Raised(OutOfRange);
      }
      var e := namelist.value[if i < 0 then page.value + i else i];
      var full := EntryPath(path, e.name);
      if full in files {
        r := Page(files[full]);
      } else {
        r := Raised(Exc(FileNotFoundError, full));
      }
    }

    /** `close`: only marks the reader closed; the page list stays. */
    method Close()
      requires Valid()
      modifies this
      ensures Valid() && !isOpen && namelist == old(namelist) && page == old(page)
    {
      isOpen := false;
    }
  }

  /** The directory test, for any directory listing made of image files that exist on
      disk: the reader counts one page per listed file and page 0 reads that file. */
  method DirectoryRoundTrip(path: string, listing: seq<DirItem>, files: map<string, Bytes>)
    returns (pages: int, first: PageRead)
    requires |listing| > 0
    requires forall k :: 0 <= k < |listing| ==> IsDirPage(listing[k])
    requires forall k :: 0 <= k < |listing| ==> EntryPath(path, listing[k].name) in files
    ensures pages == |listing|
    ensures first == Page(files[EntryPath(path, listing[0].name)])
  {
    var reader := new DirectoryReader(path);
    var _ := reader.Open(Some(listing));
    FilterAll(listing, IsDirPage);
    pages := reader.page.value;
    var _ := reader.Open(Some(listing));
    first := reader.Read(0, files);
    reader.Close();
  }
}
