/** `examine_films`: one record per folder directly under the root, in
    case-insensitive name order, with its files, videos, size, video
    format and subfolders, and the number of folders that have subfolders. */
module Films {
  import opened Text
  import opened Seqs
  import opened FileTree
  import opened HumanSize

  datatype Option<T> = None | Some(value: T)

  datatype Result<T, E> = Success(value: T) | Failure(error: E)

  /** The root is missing or is not a directory (`FileNotFoundError`). */
  datatype ScanError = NotFound

  /** `VIDEO_EXTS`: the recognised video suffixes, dot included. */
  const VideoExts: set<string> :=
    {".mp4", ".mkv", ".avi", ".mov", ".wmv", ".flv", ".webm",
     ".mpg", ".mpeg", ".m4v", ".3gp", ".ts", ".rmvb"}

  /** One row of the report. */
  datatype FolderRecord = FolderRecord(
    name: string,
    documentCount: nat,
    documentNames: seq<string>,
    videoCount: nat,
    videoNames: seq<string>,
    sizeBytes: nat,
    sizeReadable: Readable,
    videoFormat: string,
    subfolderCount: nat,
    subfolderNames: seq<string>)

  /** What `examine_films` returns. */
  datatype Scan = Scan(records: seq<FolderRecord>, foldersWithSubfolders: nat)

  /** A regular file whose lower-cased suffix is a video suffix. */
  predicate IsVideo(f: Entry)
  {
    f.File? && Lower(Suffix(f.name)) in VideoExts
  }

  /** The sort key of the root's children. */
  function LowerName(e: Entry): string
  {
    Lower(e.name)
  }

  /** A folder named `video_ts` in any letter case. */
  predicate IsVideoTs(d: Entry)
  {
    Lower(d.name) == "video_ts"
  }

  /** `f.suffix.lower().lstrip('.')`. */
  function Extension(f: Entry): string
  {
    LStripDots(Lower(Suffix(f.name)))
  }

  function Extensions(fs: seq<Entry>): (r: seq<string>)
    ensures |r| == |fs|
  {
    seq(|fs|, i requires 0 <= i < |fs| => Extension(fs[i]))
  }

  function Names(es: seq<Entry>): (r: seq<string>)
    ensures |r| == |es|
  {
    seq(|es|, i requires 0 <= i < |es| => es[i].name)
  }

  /** Position of the first `video_ts` folder in `subs`, if any. */
  function FirstVideoTs(subs: seq<Entry>): (r: Option<nat>)
    ensures r.Some? ==> r.value < |subs| && IsVideoTs(subs[r.value])
    ensures r.Some? ==> forall j :: 0 <= j < r.value ==> !IsVideoTs(subs[j])
    ensures r.None? ==> forall j :: 0 <= j < |subs| ==> !IsVideoTs(subs[j])
  {
    if subs == [] then None
    else if IsVideoTs(subs[0]) then Some(0)
    else match FirstVideoTs(subs[1..])
      case None => None
      case Some(i) => Some(i + 1)
  }

  /** The format field when there is no `video_ts` folder. */
  function FormatOf(videos: seq<Entry>): string
  {
    var formats := SortedSet(Extensions(videos));
    if formats == [] then "" else Join(formats, "; ")
  }

  /** The folder's regular files (`archivos`). */
  function Files(folder: Entry): seq<Entry>
    requires folder.Dir?
  {
    Filter(IsFile, folder.children)
  }

  /** The folder's direct subfolders (`subcarpetas`). */
  function Subfolders(folder: Entry): (r: seq<Entry>)
    requires folder.Dir?
    ensures forall i :: 0 <= i < |r| ==> r[i].Dir?
  {
    Filter(IsDir, folder.children)
  }

  /** The folder's video files (`video_files`). */
  function Videos(folder: Entry): seq<Entry>
    requires folder.Dir?
  {
    Filter(IsVideo, Files(folder))
  }

  /** The size column: everything under the first `video_ts` folder, or
      else the direct video files. */
  function SizeOf(folder: Entry): nat
    requires folder.Dir?
  {
    var subs := Subfolders(folder);
    match FirstVideoTs(subs)
    case Some(i) => TreeSize(subs[i].children)
    case None => SizeSum(Videos(folder))
  }

  /** The format column. */
  function FormatField(folder: Entry): string
    requires folder.Dir?
  {
    if FirstVideoTs(Subfolders(folder)).Some? then "DVD" else FormatOf(Videos(folder))
  }

  /** The record the loop body of `examine_films` builds for `folder`. */
  function FolderRecordOf(folder: Entry): FolderRecord
    requires folder.Dir?
  {
    FolderRecord(folder.name, |Files(folder)|, Names(Files(folder)),
                 |Videos(folder)|, Names(Videos(folder)),
                 SizeOf(folder), ReadableAsWritten(SizeOf(folder)), FormatField(folder),
                 |Subfolders(folder)|, Names(Subfolders(folder)))
  }

  /** The folders `examine_films` visits: the root's directories, sorted
      by lower-cased name. */
  function ScanFolders(children: seq<Entry>): (r: seq<Entry>)
    ensures forall i :: 0 <= i < |r| ==> r[i].Dir?
  {
    Filter(IsDir, SortByKey(children, LowerName))
  }

  function RecordsOf(folders: seq<Entry>): (r: seq<FolderRecord>)
    requires forall i :: 0 <= i < |folders| ==> folders[i].Dir?
    ensures |r| == |folders|
  {
    seq(|folders|, i requires 0 <= i < |folders| => FolderRecordOf(folders[i]))
  }

  /** One more entry of the sorted listing extends the records by the
      record of that entry when it is a directory. */
  lemma RecordsStep(entries: seq<Entry>, i: nat)
    requires i < |entries|
    ensures var dirs := Filter(IsDir, entries[..i]);
      Filter(IsDir, entries[..i + 1]) == dirs + (if entries[i].Dir? then [entries[i]] else [])
      && RecordsOf(Filter(IsDir, entries[..i + 1]))
         == RecordsOf(dirs) + (if entries[i].Dir? then [FolderRecordOf(entries[i])] else [])
  {
    assert entries[..i + 1][..i] == entries[..i];
  }

  lemma CountStep(results: seq<FolderRecord>, rec: FolderRecord)
    ensures |Filter(HasSubfolders, results + [rec])|
            == |Filter(HasSubfolders, results)| + (if rec.subfolderCount > 0 then 1 else 0)
  {
    assert (results + [rec])[..|results|] == results;
  }

  predicate HasSubfolders(r: FolderRecord)
  {
    r.subfolderCount > 0
  }

  /** The whole result of `examine_films` on a root directory's children. */
  function ScanOf(children: seq<Entry>): Scan
  {
    var records := RecordsOf(ScanFolders(children));
    Scan(records, |Filter(HasSubfolders, records)|)
  }

  /** The `video_ts` search loop: stops at the first match. */
  method FindVideoTs(subs: seq<Entry>) returns (found: Option<nat>)
    ensures found == FirstVideoTs(subs)
  {
    found := None;
    for i := 0 to |subs|
      invariant forall j :: 0 <= j < i ==> !IsVideoTs(subs[j])
    {
      if Lower(subs[i].name) == "video_ts" {
        found := Some(i);
        break;
      }
    }
  }

  /** The body of the folder loop in `examine_films`. */
  method ExamineFolder(folder: Entry) returns (rec: FolderRecord)
    requires folder.Dir?
    ensures rec == FolderRecordOf(folder)
  {
    var files := Filter(IsFile, folder.children);
    var subs := Filter(IsDir, folder.children);
    var videos := Filter(IsVideo, files);
    var videoTs := FindVideoTs(subs);
    var size: nat;
    var format: string;
    if videoTs.Some? {
      format := "DVD";
      assert subs == Subfolders(folder);
      size := GetFolderSize(subs[videoTs.value]);
    } else {
      size := SizeSum(videos);
      format := FormatOf(videos);
    }
    var readable := HumanReadableSize(size);
    rec := FolderRecord(folder.name, |files|, Names(files), |videos|, Names(videos),
                        size, readable, format, |subs|, Names(subs));
  }

  /** `examine_films`: `NotFound` unless the root exists and is a
      directory; otherwise the records of its directories in sorted
      order and the number of them that have a subfolder. */
  method ExamineFilms(root: Option<Entry>) returns (res: Result<Scan, ScanError>)
    ensures res.Failure? <==> root.None? || !root.value.Dir?
    ensures res.Success? ==> res.value == ScanOf(root.value.children)
  {
    if root.None? || !root.value.Dir? {
      return Failure(NotFound);
    }
    var entries := SortByKey(root.value.children, LowerName);
    var results: seq<FolderRecord> := [];
    var foldersWithSubfolders := 0;
    for i := 0 to |entries|
      invariant results == RecordsOf(Filter(IsDir, entries[..i]))
      invariant foldersWithSubfolders == |Filter(HasSubfolders, results)|
    {
      RecordsStep(entries, i);
      var entry := entries[i];
      if !entry.Dir? {
        continue;
      }
      var rec := ExamineFolder(entry);
      CountStep(results, rec);
      results := results + [rec];
      if rec.subfolderCount > 0 {
        foldersWithSubfolders := foldersWithSubfolders + 1;
      }
    }
    assert entries[..|entries|] == entries;
    return Success(Scan(results, foldersWithSubfolders));
  }

  // ----- Properties of one record -----

  lemma {:induction false} FilesAndFoldersPartition(es: seq<Entry>)
    ensures |Filter(IsFile, es)| + |Filter(IsDir, es)| == |es|
    decreases |es|
  {
    if es != [] {
      FilesAndFoldersPartition(es[..|es| - 1]);
    }
  }

  /** The counts agree with the name lists, a folder's direct children
      are split into its files and its subfolders, and a file is listed
      exactly as often as it occurs among them. */
  lemma RecordCounts(folder: Entry)
    requires folder.Dir?
    ensures var r := FolderRecordOf(folder);
      && r.documentCount == |r.documentNames|
      && r.videoCount == |r.videoNames| <= r.documentCount
      && r.subfolderCount == |r.subfolderNames|
      && r.documentCount + r.subfolderCount == |folder.children|
    ensures forall e :: multiset(Files(folder))[e] == if e.File? then multiset(folder.children)[e] else 0
    ensures forall e :: multiset(Subfolders(folder))[e] == if e.Dir? then multiset(folder.children)[e] else 0
  {
    FilesAndFoldersPartition(folder.children);
    forall e ensures multiset(Files(folder))[e] == if e.File? then multiset(folder.children)[e] else 0 {
      FilterMultiset(IsFile, folder.children, e);
    }
    forall e ensures multiset(Subfolders(folder))[e] == if e.Dir? then multiset(folder.children)[e] else 0 {
      FilterMultiset(IsDir, folder.children, e);
    }
  }

  /** The video names are the names of the files at increasing positions
      of the file list, and a position is taken exactly when that file's
      lower-cased suffix is one of `VIDEO_EXTS`. */
  lemma VideoClassification(folder: Entry)
    requires folder.Dir?
    ensures var r, files := FolderRecordOf(folder), Files(folder);
      var idx := KeptIndices(IsVideo, files);
      && |idx| == r.videoCount
      && StrictlyIncreasing(idx)
      && (forall k :: 0 <= k < |idx| ==> idx[k] < r.documentCount && r.videoNames[k] == r.documentNames[idx[k]])
      && (forall j :: 0 <= j < |files| ==> (Lower(Suffix(files[j].name)) in VideoExts <==> j in idx))
  {
    FilterKeepsOrder(IsVideo, Files(folder));
  }

  /** Every recognised suffix is a dot followed by a lower-case letter or
      a digit. */
  lemma VideoExtsShape()
    ensures forall x :: x in VideoExts ==>
      |x| >= 2 && x[0] == '.' && ('a' <= x[1] <= 'z' || '0' <= x[1] <= '9')
  {
  }

  /** The format entry of a video file, put back behind a dot, is its
      recognised suffix, so it is non-empty and starts with a lower-case
      letter or a digit. */
  lemma VideoExtension(f: Entry)
    requires IsVideo(f)
    ensures "." + Extension(f) == Lower(Suffix(f.name))
    ensures "." + Extension(f) in VideoExts
    ensures |Extension(f)| >= 1
    ensures 'a' <= Extension(f)[0] <= 'z' || '0' <= Extension(f)[0] <= '9'
  {
    var x := Lower(Suffix(f.name));
    VideoExtsShape();
    assert |x| >= 2 && x[0] == '.' && ('a' <= x[1] <= 'z' || '0' <= x[1] <= '9');
    StripOneDot(x);
  }

  /** A folder with a `video_ts` subfolder: the format is "DVD" and the
      size is that of every file at any depth under the first one. */
  lemma DvdFolder(folder: Entry, i: nat)
    requires folder.Dir?
    requires i < |Subfolders(folder)| && IsVideoTs(Subfolders(folder)[i])
    requires forall j :: 0 <= j < i ==> !IsVideoTs(Subfolders(folder)[j])
    ensures FolderRecordOf(folder).videoFormat == "DVD"
    ensures FolderRecordOf(folder).sizeBytes == TreeSize(Subfolders(folder)[i].children)
    ensures FolderRecordOf(folder).sizeBytes == SizeSum(RGlob(Subfolders(folder)[i]))
  {
    var subs := Subfolders(folder);
    assert FirstVideoTs(subs) == Some(i);
    DescendantsSize(subs[i].children);
  }

  /** The size text of a record is the written rendering of its size:
      the exact count below 1024 bytes, and below 1024^5 bytes the same
      unit and magnitude as the corrected rendering. */
  lemma RecordSizeText(folder: Entry)
    requires folder.Dir?
    ensures var rec := FolderRecordOf(folder);
      && (rec.sizeReadable.Bytes? <==> rec.sizeBytes < 1024)
      && (rec.sizeBytes < Pow1024(5) ==> rec.sizeReadable == ReadableFor(rec.sizeBytes))
      && (rec.sizeBytes >= Pow1024(5) ==> rec.sizeReadable.unit == PB && rec.sizeReadable.magnitude >= 1024.0)
  {
    PetabyteMagnitude(SizeOf(folder));
  }

  lemma {:induction false} SizeSumFilter(p: Entry -> bool, es: seq<Entry>)
    ensures SizeSum(Filter(p, es)) <= SizeSum(es)
    decreases |es|
  {
    if es != [] {
      SizeSumFilter(p, es[..|es| - 1]);
      SizeSumAppend(Filter(p, es[..|es| - 1]), if p(es[|es| - 1]) then [es[|es| - 1]] else []);
    }
  }

  /** The formats present among some video files. */
  function FormatSet(videos: seq<Entry>): set<string>
  {
    set v | v in videos :: Extension(v)
  }

  lemma ExtensionsElems(videos: seq<Entry>)
    ensures Elems(Extensions(videos)) == FormatSet(videos)
  {
    forall x ensures x in Elems(Extensions(videos)) <==> x in FormatSet(videos) {
      if x in FormatSet(videos) {
        var v :| v in videos && Extension(v) == x;
        var k :| 0 <= k < |videos| && videos[k] == v;
        assert Extensions(videos)[k] == x;
      }
    }
  }

  /** A folder without a `video_ts` subfolder is as large as its direct
      video files together, which is at most as large as all its files. */
  lemma PlainFolderSize(folder: Entry)
    requires folder.Dir?
    requires forall j :: 0 <= j < |Subfolders(folder)| ==> !IsVideoTs(Subfolders(folder)[j])
    ensures FolderRecordOf(folder).sizeBytes == SizeSum(Videos(folder)) <= SizeSum(Files(folder))
  {
    SizeSumFilter(IsVideo, Files(folder));
  }

  /** No format entry of a video file is empty. */
  lemma FormatEntriesNonEmpty(videos: seq<Entry>)
    requires forall k :: 0 <= k < |videos| ==> IsVideo(videos[k])
    ensures forall x :: x in FormatSet(videos) ==> x != ""
  {
    forall x | x in FormatSet(videos) ensures x != "" {
      var v :| v in videos && Extension(v) == x;
      VideoExtension(v);
      VideoExtsShape();
    }
  }

  /** The format of some video files joins the ascending listing of
      their formats with "; ", and is empty exactly when there are none. */
  lemma FormatOfListing(videos: seq<Entry>, formats: seq<string>)
    requires forall k :: 0 <= k < |videos| ==> IsVideo(videos[k])
    requires StrictlyAscending(formats) && Elems(formats) == FormatSet(videos)
    ensures FormatOf(videos) == Join(formats, "; ")
    ensures FormatOf(videos) == "" <==> videos == []
  {
    SortedSetSpec(Extensions(videos));
    ExtensionsElems(videos);
    StrictlyAscendingUnique(SortedSet(Extensions(videos)), formats);
    JoinStartsWithFirst(formats, "; ");
    if videos != [] {
      FormatEntriesNonEmpty(videos);
      assert Extension(videos[0]) in Elems(formats);
      assert formats[0] in Elems(formats);
    }
  }

  /** A folder without a `video_ts` subfolder: the format joins the
      ascending listing of its video formats with "; ", and is empty
      exactly when there are no videos. */
  lemma PlainFolderFormat(folder: Entry, formats: seq<string>)
    requires folder.Dir?
    requires forall j :: 0 <= j < |Subfolders(folder)| ==> !IsVideoTs(Subfolders(folder)[j])
    requires StrictlyAscending(formats) && Elems(formats) == FormatSet(Videos(folder))
    ensures FolderRecordOf(folder).videoFormat == Join(formats, "; ")
    ensures FolderRecordOf(folder).videoFormat == "" <==> FolderRecordOf(folder).videoCount == 0
  {
    assert FirstVideoTs(Subfolders(folder)).None?;
    FormatOfListing(Videos(folder), formats);
  }

  /** The format column reads "DVD" exactly when the folder has a
      subfolder named `video_ts` in some letter case. */
  lemma FormatIsDvdIff(folder: Entry)
    requires folder.Dir?
    ensures FolderRecordOf(folder).videoFormat == "DVD" <==>
      exists j :: 0 <= j < |Subfolders(folder)| && IsVideoTs(Subfolders(folder)[j])
  {
    var subs := Subfolders(folder);
    if FirstVideoTs(subs).None? {
      var videos := Videos(folder);
      var formats := SortedSet(Extensions(videos));
      JoinStartsWithFirst(formats, "; ");
      if formats != [] {
        SortedSetSpec(Extensions(videos));
        assert formats[0] in Elems(Extensions(videos));
        var k :| 0 <= k < |videos| && Extensions(videos)[k] == formats[0];
        VideoExtension(videos[k]);
      }
    }
  }

  // ----- Properties of the whole scan -----

  /** A record is produced for each directory directly under the root, as
      many times as it occurs there, and for nothing else; the records
      follow the lower-cased folder names. */
  lemma ScanRecords(children: seq<Entry>)
    ensures var folders, records := ScanFolders(children), ScanOf(children).records;
      && |records| == |folders| == |Filter(IsDir, children)|
      && multiset(folders) == multiset(Filter(IsDir, children))
      && (forall i :: 0 <= i < |folders| ==> folders[i].Dir? && records[i] == FolderRecordOf(folders[i]))
      && (forall i, j :: 0 <= i < j < |records| ==> !Less(Lower(records[j].name), Lower(records[i].name)))
  {
    var sorted := SortByKey(children, LowerName);
    SortSortedPermutation(children, LowerName);
    FilterPermutation(IsDir, sorted, children);
    FilterSorted(IsDir, sorted, LowerName);
    assert |multiset(ScanFolders(children))| == |multiset(Filter(IsDir, children))|;
  }

  lemma {:induction false} WithKeyFilter(p: Entry -> bool, s: seq<Entry>, key: Entry -> string, k: string)
    ensures WithKey(Filter(p, s), key, k) == Filter(p, WithKey(s, key, k))
    decreases |s|
  {
    if s != [] {
      var s', x := s[..|s| - 1], s[|s| - 1];
      WithKeyFilter(p, s', key, k);
      var f := Filter(p, s');
      if p(x) {
        assert (f + [x])[..|f|] == f;
      } else {
        assert f + [] == f;
      }
      var w := WithKey(s', key, k);
      if key(x) == k {
        assert (w + [x])[..|w|] == w;
      } else {
        assert w + [] == w;
      }
    }
  }

  /** Folders whose names differ only in letter case keep the order in
      which the root lists them. */
  lemma ScanTiesKeepOrder(children: seq<Entry>, k: string)
    ensures WithKey(ScanFolders(children), LowerName, k) == WithKey(Filter(IsDir, children), LowerName, k)
  {
    var sorted := SortByKey(children, LowerName);
    WithKeyFilter(IsDir, sorted, LowerName, k);
    SortStable(children, LowerName, k);
    WithKeyFilter(IsDir, children, LowerName, k);
  }

  /** A directory with at least one directory among its children. */
  predicate HasSubdirectory(e: Entry)
  {
    e.Dir? && exists c :: c in e.children && c.Dir?
  }

  /** A folder's record has a subfolder exactly when the folder has a
      directory child. */
  lemma RecordHasSubfolders(e: Entry)
    requires e.Dir?
    ensures HasSubfolders(FolderRecordOf(e)) <==> HasSubdirectory(e)
  {
    if HasSubdirectory(e) {
      var c :| c in e.children && c.Dir?;
      FilterMultiset(IsDir, e.children, c);
      assert c in multiset(Subfolders(e));
    }
  }

  lemma CountSubfolderRecords(folders: seq<Entry>)
    requires forall i :: 0 <= i < |folders| ==> folders[i].Dir?
    ensures |Filter(HasSubfolders, RecordsOf(folders))| == |Filter(HasSubdirectory, folders)|
  {
    var rs := RecordsOf(folders);
    forall i | 0 <= i < |folders| ensures HasSubfolders(rs[i]) <==> HasSubdirectory(folders[i]) {
      RecordHasSubfolders(folders[i]);
    }
    FilterCountCorrespond(HasSubfolders, HasSubdirectory, rs, folders);
  }

  /** The counter is the number of root directories that have a
      subfolder, whatever the order of the root's listing. */
  lemma FoldersWithSubfoldersCount(children: seq<Entry>)
    ensures ScanOf(children).foldersWithSubfolders == |Filter(HasSubdirectory, Filter(IsDir, children))|
  {
    var folders := ScanFolders(children);
    ScanRecords(children);
    CountSubfolderRecords(folders);
    FilterPermutation(HasSubdirectory, folders, Filter(IsDir, children));
    assert |multiset(Filter(HasSubdirectory, folders))| == |multiset(Filter(HasSubdirectory, Filter(IsDir, children)))|;
  }

  lemma ExampleOrder(alpha: Entry, beta: Entry)
    requires alpha.Dir? && alpha.name == "Alpha" && beta.Dir? && beta.name == "Beta"
    ensures ScanFolders([beta, alpha]) == [alpha, beta]
  {
    assert Lower("Alpha")[0] == 'a' && Lower("Beta")[0] == 'b';
    assert Less(LowerName(alpha), LowerName(beta));
    assert [beta, alpha][..1] == [beta];
    assert SortByKey([beta], LowerName) == [beta];
    assert SortByKey([beta, alpha], LowerName) == [alpha, beta];
    assert [alpha, beta][..1] == [alpha] && [alpha][..0] == [];
    assert Filter(IsDir, [alpha]) == [alpha];
  }

  lemma ExampleAlpha(alpha: Entry)
    requires alpha == Dir("Alpha", [])
    ensures FolderRecordOf(alpha) == FolderRecord("Alpha", 0, [], 0, [], 0, Bytes("0 B"), "", 0, [])
  {
    assert Files(alpha) == [] && Subfolders(alpha) == [] && Videos(alpha) == [];
    assert SortedSet(Extensions([])) == [];
    assert ReadableAsWritten(0) == Bytes("0 B");
  }

  lemma ExampleSuffix()
    ensures Suffix("movie.mp4") == ".mp4"
  {
    var name := "movie.mp4";
    assert name[..8] == "movie.mp" && name[..8][..7] == "movie.m";
    assert LastIndexOf(name, '.') == LastIndexOf("movie.mp", '.');
    assert LastIndexOf("movie.mp", '.') == LastIndexOf("movie.m", '.');
    assert "movie.m"[..6] == "movie.";
    assert LastIndexOf("movie.m", '.') == LastIndexOf("movie.", '.') == 5;
  }

  lemma ExampleMovie(movie: Entry)
    requires movie.File? && movie.name == "movie.mp4"
    ensures IsVideo(movie) && Extension(movie) == "mp4"
  {
    ExampleSuffix();
    ExampleMp4();
  }

  lemma ExampleMp4()
    ensures Lower(".mp4") == ".mp4" && LStripDots(".mp4") == "mp4"
  {
    var s := ".mp4";
    assert Lower(s)[0] == '.' && Lower(s)[1] == 'm' && Lower(s)[2] == 'p' && Lower(s)[3] == '4';
    assert s[1..] == "mp4";
  }

  lemma ExampleKilobytes()
    ensures ReadableAsWritten(2048) == Scaled(2.0, KB)
  {
    assert UnitFor(2048) == KB;
    assert Divisions(KB) == 1 && Pow1024(1) == 1024;
  }

  lemma ExampleExtras(extras: Entry)
    requires extras.name == "extras"
    ensures !IsVideoTs(extras)
  {
    assert Lower("extras")[0] == 'e';
  }

  lemma ExampleSplit(movie: Entry, extras: Entry)
    requires movie.File? && extras.Dir?
    ensures Filter(IsFile, [movie, extras]) == [movie] && Filter(IsDir, [movie, extras]) == [extras]
  {
    assert [movie, extras][..1] == [movie] && [movie][..0] == [];
  }

  lemma ExampleBetaLists(beta: Entry, movie: Entry, extras: Entry)
    requires movie.File? && IsVideo(movie) && extras.Dir? && !IsVideoTs(extras)
    requires beta.Dir? && beta.children == [movie, extras]
    ensures Files(beta) == [movie] && Subfolders(beta) == [extras]
    ensures Videos(beta) == [movie] && FirstVideoTs(Subfolders(beta)) == None
  {
    ExampleSplit(movie, extras);
    assert [movie][..0] == [];
    assert [extras][1..] == [];
  }

  lemma ExampleBetaColumns(beta: Entry, movie: Entry, extras: Entry)
    requires movie.File? && movie.size == 2048 && IsVideo(movie) && Extension(movie) == "mp4"
    requires extras.Dir? && !IsVideoTs(extras)
    requires beta.Dir? && beta.children == [movie, extras]
    ensures SizeOf(beta) == 2048 && FormatField(beta) == "mp4"
  {
    ExampleBetaLists(beta, movie, extras);
    assert Extensions([movie]) == ["mp4"];
    assert InsertUnique("mp4", []) == ["mp4"];
    assert SortedSet(["mp4"]) == ["mp4"];
    assert [movie][..0] == [];
    assert SizeSum([movie]) == 2048;
  }

  lemma ExampleBeta(beta: Entry, movie: Entry, extras: Entry)
    requires movie == File("movie.mp4", 2048) && extras == Dir("extras", [])
    requires beta.Dir? && beta.name == "Beta" && beta.children == [movie, extras]
    ensures FolderRecordOf(beta)
      == FolderRecord("Beta", 1, ["movie.mp4"], 1, ["movie.mp4"], 2048, Scaled(2.0, KB), "mp4", 1, ["extras"])
  {
    ExampleMovie(movie);
    ExampleExtras(extras);
    ExampleBetaLists(beta, movie, extras);
    ExampleBetaColumns(beta, movie, extras);
    ExampleKilobytes();
    ExampleNames(movie, extras);
  }

  lemma ExampleNames(movie: Entry, extras: Entry)
    requires movie.name == "movie.mp4" && extras.name == "extras"
    ensures Names([movie]) == ["movie.mp4"] && Names([extras]) == ["extras"]
  {
  }

  lemma ExampleCount(rs: seq<FolderRecord>)
    requires |rs| == 2 && rs[0].subfolderCount == 0 && rs[1].subfolderCount == 1
    ensures |Filter(HasSubfolders, rs)| == 1
  {
    assert rs[..1][..0] == [];
  }

  /** A root listing "Beta" (holding movie.mp4 of 2048 bytes and an
      empty "extras" folder) before an empty "Alpha": two records, Alpha
      first, and one folder with subfolders. */
  lemma TwoFolderExample(alpha: Entry, beta: Entry)
    requires alpha == Dir("Alpha", [])
    requires beta == Dir("Beta", [File("movie.mp4", 2048), Dir("extras", [])])
    ensures var records := ScanOf([beta, alpha]).records;
      && |records| == 2
      && records[0] == FolderRecord("Alpha", 0, [], 0, [], 0, Bytes("0 B"), "", 0, [])
      && records[1] == FolderRecord("Beta", 1, ["movie.mp4"], 1, ["movie.mp4"], 2048, Scaled(2.0, KB), "mp4", 1, ["extras"])
    ensures ScanOf([beta, alpha]).foldersWithSubfolders == 1
  {
    ExampleOrder(alpha, beta);
    ExampleAlpha(alpha);
    ExampleBeta(beta, beta.children[0], beta.children[1]);
    var records := ScanOf([beta, alpha]).records;
    assert records == RecordsOf([alpha, beta]);
    assert records[0] == FolderRecordOf(alpha) && records[1] == FolderRecordOf(beta);
    ExampleCount(records);
  }
}
