/** The image store of routes/efs.js: the choice of storage directory, the
    listing of stored images (extension filter, one record per file, newest
    first) and the upload handler's guard and generated file name. */
module Efs {
  import opened Results
  import opened Js

  const EfsMountPoint := "/data/efs"
  const ImageRoute := "/efs/image/"
  const NoFileUploaded := "No file uploaded"
  const UploadedMessage := "Image uploaded successfully"

  // ---------------------------------------------------------------------
  // Storage directory

  /** What the file system would answer to ensureStorageDir's calls. */
  datatype FsState = FsState(efsAccessible: bool, fallbackExists: bool, mkdirError: Option<string>)

  /** ensureStorageDir: the EFS mount point when it is accessible, otherwise
      the fallback directory, created first when missing. A failing mkdir
      rejects with its error. */
  function StorageDir(fs: FsState, fallbackDir: string): (dir: Result<string, string>)
    ensures dir.Success? ==> dir.value == EfsMountPoint || dir.value == fallbackDir
    ensures dir == Success(EfsMountPoint) <== fs.efsAccessible
    ensures !fs.efsAccessible ==> (dir.Success? <==> fs.fallbackExists || fs.mkdirError == None)
    ensures !fs.efsAccessible && dir.Success? ==> dir.value == fallbackDir
  {
    if fs.efsAccessible then Success(EfsMountPoint)
    else if !fs.fallbackExists && fs.mkdirError.Some? then Failure(fs.mkdirError.value)
    else Success(fallbackDir)
  }

  /** Whether ensureStorageDir tries to create the fallback directory: never
      while the EFS mount is reachable, and whenever it fails. */
  function CreatesFallback(fs: FsState): (b: bool)
    ensures b ==> !fs.efsAccessible
    ensures forall d :: StorageDir(fs, d).Failure? ==> b
  {
    !fs.efsAccessible && !fs.fallbackExists
  }

  // ---------------------------------------------------------------------
  // Image file names: /\.(jpg|jpeg|png|gif|webp)$/i

  const ImageExtensions: set<string> := {"jpg", "jpeg", "png", "gif", "webp"}

  /** A `.` followed by one of the alternatives, at the very end. */
  predicate HasImageExtension(s: string) {
    exists ext :: ext in ImageExtensions && EndsWith(s, "." + ext)
  }

  /** The `i` flag folds ASCII letters, so the pattern is tested against the
      lower-cased name: a file is listed exactly when it has a `.` and the
      text after its last `.` is one of the five extensions in any letter
      case. */
  function IsImageName(name: string): (b: bool)
    ensures b <==> |AfterLast(name, '.')| < |name| && Lower(AfterLast(name, '.')) in ImageExtensions
  {
    ImageExtensionByTail(Lower(name));
    LowerAfterLast(name);
    HasImageExtension(Lower(name))
  }

  lemma ImageExtensionByTail(s: string)
    ensures HasImageExtension(s) <==> |AfterLast(s, '.')| < |s| && AfterLast(s, '.') in ImageExtensions
  {
    var tail := AfterLast(s, '.');
    if HasImageExtension(s) {
      var ext :| ext in ImageExtensions && EndsWith(s, "." + ext);
      EndsWithDotExt(s, ext);
    }
    if |tail| < |s| && tail in ImageExtensions {
      EndsWithDotExt(s, tail);
    }
  }

  // ---------------------------------------------------------------------
  // Listing

  /** `uploadDate` is the file's mtime, or null when stat failed. */
  datatype ImageRecord = ImageRecord(name: string, url: string, uploadDate: Option<int>)

  /** The files readdir returned, keeping only image names, in order. */
  function ImageFiles(files: seq<string>): (r: seq<string>)
    ensures forall f :: f in r <==> f in files && IsImageName(f)
    ensures forall f :: multiset(r)[f] == if IsImageName(f) then multiset(files)[f] else 0
  {
    if files == [] then []
    else
      var init, last := files[..|files| - 1], files[|files| - 1];
      assert files == init + [last];
      ImageFiles(init) + if IsImageName(last) then [last] else []
  }

  /** Filtering keeps readdir's order: the kept names of a listing are the
      kept names of its first part followed by those of the rest. */
  lemma {:induction false} ImageFilesAppend(a: seq<string>, b: seq<string>)
    ensures ImageFiles(a + b) == ImageFiles(a) + ImageFiles(b)
  {
    if b == [] {
      assert a + b == a;
    } else {
      var init, last := b[..|b| - 1], b[|b| - 1];
      var kept := if IsImageName(last) then [last] else [];
      SplitLast(b);
      assert ImageFiles(a + b) == ImageFiles(a + init) + kept by {
        Assoc(a, init, [last]);
        ImageFilesSnoc(a + init, last);
      }
      assert ImageFiles(b) == ImageFiles(init) + kept by {
        ImageFilesSnoc(init, last);
      }
      ImageFilesAppend(a, init);
      Assoc(ImageFiles(a), ImageFiles(init), kept);
    }
  }

  lemma SplitLast<T>(s: seq<T>)
    requires s != []
    ensures s == s[..|s| - 1] + [s[|s| - 1]]
  {
  }

  lemma ImageFilesSnoc(files: seq<string>, f: string)
    ensures ImageFiles(files + [f]) == ImageFiles(files) + if IsImageName(f) then [f] else []
  {
    var s := files + [f];
    assert s[..|s| - 1] == files && s[|s| - 1] == f;
  }

  /** The record for one file; `mtimes` holds the files whose stat succeeds. */
  function Record(file: string, mtimes: map<string, int>): (r: ImageRecord)
    ensures r.name == file && r.url == ImageRoute + file
    ensures r.uploadDate.Some? <==> file in mtimes
    ensures file in mtimes ==> r.uploadDate.value == mtimes[file]
  {
    ImageRecord(file, ImageRoute + file, if file in mtimes then Some(mtimes[file]) else None)
  }

  function Records(files: seq<string>, mtimes: map<string, int>): (rs: seq<ImageRecord>)
    ensures |rs| == |files|
    ensures forall i :: 0 <= i < |files| ==> rs[i] == Record(files[i], mtimes)
  {
    seq(|files|, i requires 0 <= i < |files| => Record(files[i], mtimes))
  }

  /** The sort key: `new Date(uploadDate)`, with null read as time 0. */
  function DateKey(r: ImageRecord): (k: int)
    ensures r.uploadDate.Some? ==> k == r.uploadDate.value
    ensures r.uploadDate == None ==> k == 0
  {
    match r.uploadDate
    case None => 0
    case Some(t) => t
  }

  /** Each record is at least as new as the one after it. */
  predicate NewestFirst(rs: seq<ImageRecord>) {
    |rs| <= 1 || (DateKey(rs[1]) <= DateKey(rs[0]) && NewestFirst(rs[1..]))
  }

  /** A newest-first list is ordered between any two of its positions. */
  lemma {:induction false} NewestFirstOrdered(rs: seq<ImageRecord>, i: nat, j: nat)
    requires NewestFirst(rs) && i < j < |rs|
    ensures DateKey(rs[j]) <= DateKey(rs[i])
  {
    if i == 0 {
      if j > 1 {
        NewestFirstOrdered(rs[1..], 0, j - 1);
      }
    } else {
      NewestFirstOrdered(rs[1..], i - 1, j - 1);
    }
  }

  /** The records carrying sort key `k`, in their order. */
  function WithKey(rs: seq<ImageRecord>, k: int): seq<ImageRecord> {
    if rs == [] then []
    else if DateKey(rs[0]) == k then [rs[0]] + WithKey(rs[1..], k)
    else WithKey(rs[1..], k)
  }

  lemma {:induction false} WithKeyAppend(a: seq<ImageRecord>, b: seq<ImageRecord>, k: int)
    ensures WithKey(a + b, k) == WithKey(a, k) + WithKey(b, k)
  {
    if a != [] {
      assert (a + b)[0] == a[0];
      assert (a + b)[1..] == a[1..] + b;
      WithKeyAppend(a[1..], b, k);
      if DateKey(a[0]) == k {
        assert [a[0]] + (WithKey(a[1..], k) + WithKey(b, k)) == ([a[0]] + WithKey(a[1..], k)) + WithKey(b, k);
      }
    } else {
      assert a + b == b;
    }
  }

  lemma {:induction false} WithKeyNone(rs: seq<ImageRecord>, k: int)
    requires NewestFirst(rs) && rs != [] && DateKey(rs[0]) < k
    ensures WithKey(rs, k) == []
  {
    if |rs| > 1 {
      WithKeyNone(rs[1..], k);
    }
  }

  /** A record no older than the head of a newest-first list may go in
      front of it. */
  lemma ConsNewestFirst(a: ImageRecord, rs: seq<ImageRecord>)
    requires NewestFirst(rs)
    requires rs == [] || DateKey(rs[0]) <= DateKey(a)
    ensures NewestFirst([a] + rs)
  {
    assert ([a] + rs)[1..] == rs;
  }

  /** Puts `x` after every record at least as new and before the first
      older one. */
  function Insert(rs: seq<ImageRecord>, x: ImageRecord): (r: seq<ImageRecord>)
    requires NewestFirst(rs)
    ensures NewestFirst(r)
    ensures |r| == |rs| + 1
    ensures r[0] == if rs == [] || DateKey(rs[0]) < DateKey(x) then x else rs[0]
  {
    if rs == [] then [x]
    else if DateKey(rs[0]) >= DateKey(x) then
      var rest := Insert(rs[1..], x);
      assert rs == [rs[0]] + rs[1..];
      ConsNewestFirst(rs[0], rest);
      [rs[0]] + rest
    else
      ConsNewestFirst(x, rs);
      [x] + rs
  }

  lemma {:induction false} InsertPermutes(rs: seq<ImageRecord>, x: ImageRecord)
    requires NewestFirst(rs)
    ensures multiset(Insert(rs, x)) == multiset(rs) + multiset{x}
  {
    if rs != [] && DateKey(rs[0]) >= DateKey(x) {
      InsertPermutes(rs[1..], x);
      assert rs == [rs[0]] + rs[1..];
      assert Insert(rs, x) == [rs[0]] + Insert(rs[1..], x);
    }
  }

  /** `x` lands after the records of its own date that were already there. */
  lemma {:induction false} InsertAfterEqual(rs: seq<ImageRecord>, x: ImageRecord, k: int)
    requires NewestFirst(rs)
    ensures WithKey(Insert(rs, x), k) == WithKey(rs, k) + WithKey([x], k)
  {
    if rs == [] {
      assert rs + [x] == [x];
    } else if DateKey(rs[0]) >= DateKey(x) {
      InsertAfterEqual(rs[1..], x, k);
      InsertBehindHead(rs, x, k);
    } else {
      InsertInFront(rs, x, k);
    }
  }

  lemma InsertBehindHead(rs: seq<ImageRecord>, x: ImageRecord, k: int)
    requires NewestFirst(rs) && rs != [] && DateKey(rs[0]) >= DateKey(x)
    requires WithKey(Insert(rs[1..], x), k) == WithKey(rs[1..], k) + WithKey([x], k)
    ensures WithKey(Insert(rs, x), k) == WithKey(rs, k) + WithKey([x], k)
  {
    var head, tail := [rs[0]], rs[1..];
    assert Insert(rs, x) == head + Insert(tail, x);
    assert rs == head + tail;
    WithKeyPrepend(head, tail, Insert(tail, x), WithKey([x], k), k);
  }

  lemma Assoc<T>(a: seq<T>, b: seq<T>, c: seq<T>)
    ensures a + (b + c) == (a + b) + c
  {
  }

  /** The same records in front of two lists keep a relation between the
      lists' `k`-records. */
  lemma WithKeyPrepend(head: seq<ImageRecord>, a: seq<ImageRecord>, b: seq<ImageRecord>,
                       extra: seq<ImageRecord>, k: int)
    requires WithKey(b, k) == WithKey(a, k) + extra
    ensures WithKey(head + b, k) == WithKey(head + a, k) + extra
  {
    var H, A, B := WithKey(head, k), WithKey(a, k), WithKey(b, k);
    assert WithKey(head + a, k) == H + A by { WithKeyAppend(head, a, k); }
    assert WithKey(head + b, k) == H + B by { WithKeyAppend(head, b, k); }
    Assoc(H, A, extra);
  }

  lemma InsertInFront(rs: seq<ImageRecord>, x: ImageRecord, k: int)
    requires NewestFirst(rs) && rs != [] && DateKey(rs[0]) < DateKey(x)
    ensures WithKey(Insert(rs, x), k) == WithKey(rs, k) + WithKey([x], k)
  {
    assert Insert(rs, x) == [x] + rs;
    WithKeyAppend([x], rs, k);
    if k == DateKey(x) {
      WithKeyNone(rs, k);
      assert WithKey(rs, k) + WithKey([x], k) == WithKey([x], k);
    } else {
      assert WithKey([x], k) == [];
      assert WithKey(rs, k) + [] == WithKey(rs, k);
    }
  }

  /** The JavaScript sort with comparator `new Date(b.uploadDate) - new
      Date(a.uploadDate)`: newest first, a permutation of its input. */
  function SortNewestFirst(rs: seq<ImageRecord>): (r: seq<ImageRecord>)
    ensures NewestFirst(r)
    ensures multiset(r) == multiset(rs)
  {
    if rs == [] then []
    else
      var init, last := rs[..|rs| - 1], rs[|rs| - 1];
      assert rs == init + [last];
      InsertPermutes(SortNewestFirst(init), last);
      Insert(SortNewestFirst(init), last)
  }

  /** The sort is stable: records with the same date keep their order. */
  lemma {:induction false} SortIsStable(rs: seq<ImageRecord>, k: int)
    ensures WithKey(SortNewestFirst(rs), k) == WithKey(rs, k)
  {
    if rs != [] {
      var init, last := rs[..|rs| - 1], rs[|rs| - 1];
      assert rs == init + [last];
      SortIsStable(init, k);
      InsertAfterEqual(SortNewestFirst(init), last, k);
      WithKeyAppend(init, [last], k);
    }
  }

  datatype ListReply = Images(images: seq<ImageRecord>) | ListError(status: nat, error: string)

  /** GET / : `listing` is what readdir gives for the chosen directory. */
  function ListImages(fs: FsState, fallbackDir: string, listing: Result<seq<string>, string>,
                      mtimes: map<string, int>): (r: ListReply)
    ensures r.ListError? ==> r.status == 500
    ensures r.Images? <==> StorageDir(fs, fallbackDir).Success? && listing.Success?
    ensures r.Images? ==> NewestFirst(r.images)
  {
    match StorageDir(fs, fallbackDir)
    case Failure(e) => ListError(500, e)
    case Success(_) =>
      match listing
      case Failure(e) => ListError(500, e)
      case Success(files) => Images(SortNewestFirst(Records(ImageFiles(files), mtimes)))
  }

  /** A successful listing holds exactly one record per image file, carrying
      its name, its url and its stat date (null when stat failed), and no
      record for any other file. */
  lemma ListingContents(fs: FsState, fallbackDir: string, files: seq<string>, mtimes: map<string, int>)
    requires StorageDir(fs, fallbackDir).Success?
    ensures var r := ListImages(fs, fallbackDir, Success(files), mtimes);
            r.Images? &&
            (forall x :: x in r.images ==> x == Record(x.name, mtimes) && x.name in files && IsImageName(x.name)) &&
            (forall f :: multiset(files)[f] > 0 && IsImageName(f) ==>
                multiset(r.images)[Record(f, mtimes)] == multiset(files)[f])
  {
    var kept := ImageFiles(files);
    var recs := Records(kept, mtimes);
    var r := ListImages(fs, fallbackDir, Success(files), mtimes);
    assert r.images == SortNewestFirst(recs);
    forall x | x in r.images
      ensures x == Record(x.name, mtimes) && x.name in files && IsImageName(x.name)
    {
      assert x in multiset(recs);
      var i :| 0 <= i < |recs| && recs[i] == x;
      assert kept[i] in kept;
    }
    forall f | multiset(files)[f] > 0 && IsImageName(f)
      ensures multiset(r.images)[Record(f, mtimes)] == multiset(files)[f]
    {
      RecordsCount(kept, mtimes, f);
    }
  }

  /** Records are one-to-one with file names. */
  lemma {:induction false} RecordsCount(files: seq<string>, mtimes: map<string, int>, f: string)
    ensures multiset(Records(files, mtimes))[Record(f, mtimes)] == multiset(files)[f]
  {
    if files != [] {
      var init := files[..|files| - 1];
      RecordsCount(init, mtimes, f);
      assert files == init + [files[|files| - 1]];
      assert Records(files, mtimes) == Records(init, mtimes) + [Record(files[|files| - 1], mtimes)];
    }
  }

  // ---------------------------------------------------------------------
  // Upload

  datatype UploadedFile = UploadedFile(originalname: string, path: string)

  /** File-system operations the upload handler performs, in order. */
  datatype FsOp = MakeDirectory(dir: string) | CopyFile(from: string, to: string) | Unlink(file: string)

  datatype UploadReply =
    | Uploaded(message: string, filename: string, url: string)
    | UploadError(status: nat, error: string)

  datatype UploadOutcome = UploadOutcome(ops: seq<FsOp>, reply: UploadReply)

  /** `${Date.now()}-${Math.random().toString(36).substring(7)}${ext}`:
      `random36` is the base-36 rendering of the random number. */
  function StoredFilename(now: nat, random36: string, originalname: string): (name: string)
    ensures var stamp := DecimalString(now) + "-";
            |stamp| <= |name| && name[..|stamp|] == stamp
    ensures EndsWith(name, Extname(originalname))
    ensures var stamp, ext := DecimalString(now) + "-", Extname(originalname);
            |stamp| + |ext| <= |name| && name[|stamp|..|name| - |ext|] == Substring(random36, 7)
  {
    var stamp, ext := DecimalString(now) + "-", Extname(originalname);
    ConcatEnds(stamp, Substring(random36, 7), ext);
    stamp + Substring(random36, 7) + ext
  }

  /** The three parts of `a + b + c` can be read back by position. */
  lemma ConcatEnds(a: string, b: string, c: string)
    ensures (a + b + c)[..|a|] == a && EndsWith(a + b + c, c)
    ensures |a| + |c| <= |a + b + c| && (a + b + c)[|a|..|a + b + c| - |c|] == b
  {
    assert (a + b + c)[|a + b|..] == c;
    assert (a + b + c)[|a|..|a| + |b|] == b;
  }

  /** `path.join(dir, name)` for a normalised directory and a plain name. */
  function JoinPath(dir: string, name: string): (path: string)
    ensures |dir| < |path| && path[..|dir|] == dir
    ensures '/' !in name ==> AfterLast(path, '/') == name
  {
    var path := dir + "/" + name;
    assert path[|dir| + 1..] == name;
    assert '/' !in name ==> AfterLast(path, '/') == name by {
      if '/' !in name {
        AfterLastAt(path, '/', |dir|);
      }
    }
    path
  }

  /** What `Math.random().toString(36)` produces: "0." and base-36 digits. */
  predicate IsBase36Fraction(s: string) {
    |s| >= 2 && s[..2] == "0." &&
    forall i :: 2 <= i < |s| ==> '0' <= s[i] <= '9' || 'a' <= s[i] <= 'z'
  }

  /** The stored name keeps the original's extension: its own extension is
      the original's, so an upload is listed exactly when that extension is
      an image extension. */
  lemma StoredFilenameExtension(now: nat, random36: string, originalname: string)
    requires IsBase36Fraction(random36)
    ensures Extname(StoredFilename(now, random36, originalname)) == Extname(originalname)
    ensures IsImageName(StoredFilename(now, random36, originalname)) <==> IsImageName(Extname(originalname))
  {
    var head := DecimalString(now) + "-" + Substring(random36, 7);
    GeneratedPrefixPlain(now, random36);
    ExtnameAfterPlainPrefix(head, Extname(originalname));
    ImageNameAfterPlainPrefix(head, Extname(originalname));
  }

  /** The timestamp, the dash and the random tag contain no `.` and no `/`. */
  lemma GeneratedPrefixPlain(now: nat, random36: string)
    requires IsBase36Fraction(random36)
    ensures var head := DecimalString(now) + "-" + Substring(random36, 7);
            |head| > 0 && '.' !in head && '/' !in head
  {
    var digits, tag := DecimalString(now), Substring(random36, 7);
    assert forall i :: 0 <= i < |digits| ==> IsDigit(digits[i]);
    assert forall i :: 0 <= i < |tag| ==> tag[i] == random36[i + 7];
  }

  /** Prefixing a name without `.` keeps the verdict of the image test. */
  lemma ImageNameAfterPlainPrefix(head: string, ext: string)
    requires |head| > 0 && '.' !in head
    requires ext == [] || ext[0] == '.'
    ensures IsImageName(head + ext) <==> IsImageName(ext)
  {
    if ext == [] {
      assert head + ext == head;
      AfterLastNone(head, '.');
    } else {
      var t := AfterLast(ext, '.');
      assert AfterLast(head + ext, '.') == t by { AfterLastConcat(head, ext, '.'); }
      assert |t| < |ext| by { assert ext[0] == '.'; }
      assert IsImageName(ext) <==> Lower(t) in ImageExtensions;
    }
  }

  /** POST /upload. `copyError` and `unlinkError` are the outcomes of moving
      the temporary file into the storage directory; any failure replies 500
      after the catch block has tried to remove the temporary file, so once
      multer has stored a temporary file with a path, the last step removes
      it whether the upload succeeds or fails. */
  function Upload(file: Option<UploadedFile>, fs: FsState, fallbackDir: string, now: nat, random36: string,
                  copyError: Option<string>, unlinkError: Option<string>): (r: UploadOutcome)
    ensures file == None ==> r == UploadOutcome([], UploadError(400, NoFileUploaded))
    ensures file.Some? && r.reply.UploadError? ==> r.reply.status == 500
    ensures r.reply.Uploaded? <==>
              file.Some? && StorageDir(fs, fallbackDir).Success? && copyError == None && unlinkError == None
    ensures file.Some? && file.value.path != "" ==> r.ops != [] && r.ops[|r.ops| - 1] == Unlink(file.value.path)
  {
    match file
    case None => UploadOutcome([], UploadError(400, NoFileUploaded))
    case Some(f) =>
      Store(f, fs, fallbackDir, StoredFilename(now, random36, f.originalname), copyError, unlinkError)
  }

  /** The handler's work once multer has produced a temporary file, which
      is to be stored under `filename`. */
  function Store(f: UploadedFile, fs: FsState, fallbackDir: string, filename: string,
                 copyError: Option<string>, unlinkError: Option<string>): (r: UploadOutcome)
    ensures r.reply.UploadError? ==> r.reply.status == 500
    ensures r.reply.Uploaded? <==> StorageDir(fs, fallbackDir).Success? && copyError == None && unlinkError == None
    ensures f.path != "" ==> r.ops != [] && r.ops[|r.ops| - 1] == Unlink(f.path)
  {
    var mkdir := if CreatesFallback(fs) then [MakeDirectory(fallbackDir)] else [];
    var cleanup := if f.path != "" then [Unlink(f.path)] else [];
    match StorageDir(fs, fallbackDir)
    case Failure(e) => UploadOutcome(mkdir + cleanup, UploadError(500, e))
    case Success(dir) =>
      var copy := [CopyFile(f.path, JoinPath(dir, filename))];
      match copyError
      case Some(e) => UploadOutcome(mkdir + copy + cleanup, UploadError(500, e))
      case None =>
        match unlinkError
        case Some(e) => UploadOutcome(mkdir + copy + [Unlink(f.path)] + cleanup, UploadError(500, e))
        case None =>
          UploadOutcome(mkdir + copy + [Unlink(f.path)], Uploaded(UploadedMessage, filename, ImageRoute + filename))
  }

  /** A successful store replies with the name and its url, and its last two
      steps copy the temporary file to that name in the storage directory
      and then remove it; the fallback directory is created only when it was
      missing and EFS was not reachable. */
  lemma StoreSucceeds(f: UploadedFile, fs: FsState, fallbackDir: string, filename: string)
    requires StorageDir(fs, fallbackDir).Success?
    ensures var r := Store(f, fs, fallbackDir, filename, None, None);
            var dest := JoinPath(StorageDir(fs, fallbackDir).value, filename);
            r.reply == Uploaded(UploadedMessage, filename, ImageRoute + filename) &&
            |r.ops| >= 2 &&
            r.ops[|r.ops| - 2] == CopyFile(f.path, dest) &&
            r.ops[|r.ops| - 1] == Unlink(f.path) &&
            (MakeDirectory(fallbackDir) in r.ops <==> CreatesFallback(fs))
  {
    var dest := JoinPath(StorageDir(fs, fallbackDir).value, filename);
    var mkdir := if CreatesFallback(fs) then [MakeDirectory(fallbackDir)] else [];
    var r := Store(f, fs, fallbackDir, filename, None, None);
    assert r.ops == mkdir + [CopyFile(f.path, dest)] + [Unlink(f.path)];
  }

  /** A successful upload replies with the generated name (see
      StoredFilenameExtension for its extension) and moves the temporary
      file there as its last two steps. */
  lemma UploadSucceeds(f: UploadedFile, fs: FsState, fallbackDir: string, now: nat, random36: string)
    requires StorageDir(fs, fallbackDir).Success?
    ensures var r := Upload(Some(f), fs, fallbackDir, now, random36, None, None);
            var name := StoredFilename(now, random36, f.originalname);
            r.reply == Uploaded(UploadedMessage, name, ImageRoute + name) &&
            |r.ops| >= 2 &&
            r.ops[|r.ops| - 2] == CopyFile(f.path, JoinPath(StorageDir(fs, fallbackDir).value, name)) &&
            r.ops[|r.ops| - 1] == Unlink(f.path)
  {
    var name := StoredFilename(now, random36, f.originalname);
    StoreSucceeds(f, fs, fallbackDir, name);
  }
}
