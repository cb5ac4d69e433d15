/**
 * Synchronisation of the local content folder with the WebDAV share.
 *
 * The remote share is a tree of listings (a listing can fail); the local
 * content folder is a map from relative path (with `/` separators) to file
 * size; which local files another process holds open is a parameter.  One
 * sync removes leftover deletion markers, flattens the remote tree into a
 * map from relative path to size, downloads every file that is missing or
 * has another size locally, and removes every local file the share no
 * longer has, telling the catalog first.
 */
module Sync {
  import opened Wrappers
  import opened Text
  import opened Sorting
  import opened Settings
  import opened Content

  // ---------------------------------------------------------------------
  // Names

  /** A file the sync handles: its lower-cased suffix is a video, image or
      audio format. */
  predicate IsSupportedMediaFile(name: string) {
    IsVideoName(name) || IsImageName(name) || IsAudioName(name)
  }

  /** The file a download is written to before it is moved into place. */
  function TempPath(path: string): string {
    path + ".tmp"
  }

  /** The name a locked file is renamed to, to be removed by a later sync. */
  function MarkerPath(path: string): string {
    path + ".delete"
  }

  /** A tag the sync appends to a file name: a dot, then lower-case
      characters that are neither a dot nor a slash, naming no media
      format. */
  predicate IsPlainTag(tag: string) {
    |tag| >= 2 && tag[0] == '.' && '.' !in tag[1..] && '/' !in tag
    && (forall i :: 0 <= i < |tag| ==> !('A' <= tag[i] <= 'Z'))
    && tag !in VideoFormats && tag !in ImageFormats && tag !in AudioFormats
  }

  lemma TmpIsPlainTag()
    ensures IsPlainTag(".tmp")
  {
    assert ".tmp"[1..] == "tmp";
  }

  lemma DeleteIsPlainTag()
    ensures IsPlainTag(".delete")
  {
    assert ".delete"[1..] == "delete";
  }

  lemma NoFormatIsUnsupported(name: string)
    requires Extension(name) == [] || IsPlainTag(Extension(name))
    ensures !IsSupportedMediaFile(name)
  {
  }

  /** The extension of a name ending in a plain tag is that tag, or empty
      when the tag is the whole name. */
  lemma {:induction false} TagExtension(x: string, tag: string)
    requires IsPlainTag(tag)
    ensures Extension(x + tag) == [] || Extension(x + tag) == tag
  {
    SuffixOfTagged(x, tag);
    if x != [] {
      assert Lower(tag) == tag;
    }
  }

  /** A name ending in a plain tag is never a media file. */
  lemma {:induction false} TaggedIsUnsupported(path: string, tag: string)
    requires IsPlainTag(tag)
    ensures !IsSupportedMediaFile(LastComponent(path + tag))
  {
    var name := LastComponent(path + tag);
    LastComponentOfTagged(path, tag);
    assert name == LastComponent(path) + tag;
    TagExtension(LastComponent(path), tag);
    assert Extension(name) == [] || Extension(name) == tag;
    NoFormatIsUnsupported(name);
  }

  /** Temporary files and deletion markers are never supported, so they
      never take part in a sync as content. */
  lemma OwnFilesAreUnsupported(path: string)
    ensures !IsSupportedMediaFile(LastComponent(TempPath(path)))
    ensures !IsSupportedMediaFile(LastComponent(MarkerPath(path)))
  {
    TmpIsPlainTag();
    DeleteIsPlainTag();
    TaggedIsUnsupported(path, ".tmp");
    TaggedIsUnsupported(path, ".delete");
  }

  /** A supported path is no other path's temporary file or marker. */
  lemma SupportedIsNotOwnFile(p: string, q: string)
    requires IsSupportedMediaFile(LastComponent(p))
    ensures p != TempPath(q) && p != MarkerPath(q)
  {
    OwnFilesAreUnsupported(q);
  }

  /** `parent/name`, or just `name` at the root of the share. */
  function RelativePath(parent: string, name: string): (r: string)
    requires '/' !in name
    ensures LastComponent(r) == name
    ensures parent == [] ==> r == name
    ensures parent != [] ==> StartsWith(r, parent + "/")
  {
    if parent == [] then name
    else
      LastComponentAfterSlash(parent, name);
      assert (parent + "/" + name)[..|parent| + 1] == parent + "/";
      parent + "/" + name
  }

  /** The name of a listed item: its last component once trailing slashes
      are stripped. */
  function BaseName(itemName: string): (r: string)
    ensures '/' !in r
  {
    LastComponent(RStripSlash(itemName))
  }

  /** The address a file is fetched from: the root and the name joined by
      `/`, every `//` (left to right) replaced by `/`, and a leading `/`
      added when missing. */
  function RemotePath(root: string, name: string): (r: string)
    ensures |r| > 0 && r[0] == '/'
  {
    var joined := CollapseDoubleSlash(root + "/" + name);
    if StartsWith(joined, "/") then joined else "/" + joined
  }

  predicate NoDoubleSlash(s: string) {
    forall i :: 0 <= i < |s| - 1 ==> !(s[i] == '/' && s[i + 1] == '/')
  }

  /** With a root that starts with `/` and does not end with one, and a
      relative name, the address is just `root/name`. */
  lemma RemotePathOfPlainNames(root: string, name: string)
    requires |root| > 0 && root[0] == '/' && root[|root| - 1] != '/' && NoDoubleSlash(root)
    requires |name| > 0 && name[0] != '/' && NoDoubleSlash(name)
    ensures RemotePath(root, name) == root + "/" + name
  {
    var s := root + "/" + name;
    forall i | 0 <= i < |s| - 1 ensures !(s[i] == '/' && s[i + 1] == '/') {
      if i < |root| - 1 {
        assert s[i] == root[i] && s[i + 1] == root[i + 1];
      } else if i == |root| - 1 {
        assert s[i] == root[|root| - 1];
      } else if i == |root| {
        assert s[i + 1] == name[0];
      } else {
        assert s[i] == name[i - |root| - 1] && s[i + 1] == name[i - |root|];
      }
    }
    CollapseUnchanged(s);
  }

  // ---------------------------------------------------------------------
  // The remote listing

  /** What listing a remote directory gave: its items, or an error. */
  datatype Listing = Listed(items: seq<Item>) | ListFailed

  /** A listed item; a size the server does not report reads as 0. */
  datatype Item = File(name: string, size: nat) | Directory(name: string, contents: Listing)

  /** The relative-path map after scanning listing `l` found under `rel`
      into `info`: supported files are recorded under their relative path
      (a later one of the same path wins), directories are scanned in turn,
      nameless items are skipped, and a failed listing adds nothing. */
  function ScanListing(l: Listing, rel: string, info: map<string, nat>): (r: map<string, nat>)
    ensures info.Keys <= r.Keys
    ensures forall k :: k in r && k !in info ==> IsSupportedMediaFile(LastComponent(k))
    ensures rel != [] ==> forall k :: k in r && k !in info ==> StartsWith(k, rel + "/")
    decreases l
  {
    match l
    case ListFailed => info
    case Listed(items) => ScanItems(items, rel, info)
  }

  function ScanItems(items: seq<Item>, rel: string, info: map<string, nat>): (r: map<string, nat>)
    ensures info.Keys <= r.Keys
    ensures forall k :: k in r && k !in info ==> IsSupportedMediaFile(LastComponent(k))
    ensures rel != [] ==> forall k :: k in r && k !in info ==> StartsWith(k, rel + "/")
    decreases items
  {
    if items == [] then info
    else ScanItems(items[1..], rel, ScanItem(items[0], rel, info))
  }

  function ScanItem(item: Item, rel: string, info: map<string, nat>): (r: map<string, nat>)
    ensures info.Keys <= r.Keys
    ensures forall k :: k in r && k !in info ==> IsSupportedMediaFile(LastComponent(k))
    ensures rel != [] ==> forall k :: k in r && k !in info ==> StartsWith(k, rel + "/")
    decreases item
  {
    if item.name == [] then info
    else
      var base := BaseName(item.name);
      var path := RelativePath(rel, base);
      match item
      case Directory(_, contents) =>
        var r := ScanListing(contents, path, info);
        NestedKeysUnderParent(r, info, path, rel);
        r
      case File(_, size) =>
        if IsSupportedMediaFile(base) then info[path := size] else info
  }

  lemma PrefixOfPrefix(s: string, p: string, q: string)
    requires StartsWith(s, p) && StartsWith(p, q)
    ensures StartsWith(s, q)
  {
    assert s[..|q|] == s[..|p|][..|q|];
  }

  lemma NestedKeysUnderParent(r: map<string, nat>, info: map<string, nat>, path: string, rel: string)
    requires rel != [] ==> StartsWith(path, rel + "/")
    requires path != [] ==> forall k :: k in r && k !in info ==> StartsWith(k, path + "/")
    ensures rel != [] ==> forall k :: k in r && k !in info ==> StartsWith(k, rel + "/")
  {
    if rel != [] {
      forall k | k in r && k !in info ensures StartsWith(k, rel + "/") {
        PrefixOfPrefix(k, path, rel + "/");
      }
    }
  }

  /** The relative paths a listing found under `rel` records: those of its
      supported files, and those its subdirectories record under their own
      relative path; nameless items and failed listings record none. */
  function ListedPaths(l: Listing, rel: string): set<string>
    decreases l
  {
    match l
    case ListFailed => {}
    case Listed(items) => ItemsPaths(items, rel)
  }

  function ItemsPaths(items: seq<Item>, rel: string): set<string>
    decreases items
  {
    if items == [] then {} else ItemPaths(items[0], rel) + ItemsPaths(items[1..], rel)
  }

  function ItemPaths(item: Item, rel: string): set<string>
    decreases item
  {
    if item.name == [] then {}
    else
      var base := BaseName(item.name);
      var path := RelativePath(rel, base);
      match item
      case Directory(_, contents) => ListedPaths(contents, path)
      case File(_, _) => if IsSupportedMediaFile(base) then {path} else {}
  }

  /** The scan records exactly the listed paths, on top of what `info`
      already held. */
  lemma {:induction false} ScanListingKeys(l: Listing, rel: string, info: map<string, nat>)
    ensures ScanListing(l, rel, info).Keys == info.Keys + ListedPaths(l, rel)
    decreases l
  {
    if l.Listed? {
      ScanItemsKeys(l.items, rel, info);
    }
  }

  lemma {:induction false} ScanItemsKeys(items: seq<Item>, rel: string, info: map<string, nat>)
    ensures ScanItems(items, rel, info).Keys == info.Keys + ItemsPaths(items, rel)
    decreases items
  {
    if items != [] {
      ScanItemKeys(items[0], rel, info);
      ScanItemsKeys(items[1..], rel, ScanItem(items[0], rel, info));
    }
  }

  lemma {:induction false} ScanItemKeys(item: Item, rel: string, info: map<string, nat>)
    ensures ScanItem(item, rel, info).Keys == info.Keys + ItemPaths(item, rel)
    decreases item
  {
    if item.name != [] && item.Directory? {
      ScanListingKeys(item.contents, RelativePath(rel, BaseName(item.name)), info);
    }
  }

  /** A path the listing does not record keeps the value `info` gave it. */
  lemma {:induction false} ScanListingKeeps(l: Listing, rel: string, info: map<string, nat>, k: string)
    requires k in info && k !in ListedPaths(l, rel)
    ensures k in ScanListing(l, rel, info) && ScanListing(l, rel, info)[k] == info[k]
    decreases l
  {
    if l.Listed? {
      ScanItemsKeeps(l.items, rel, info, k);
    }
  }

  lemma {:induction false} ScanItemsKeeps(items: seq<Item>, rel: string, info: map<string, nat>, k: string)
    requires k in info && k !in ItemsPaths(items, rel)
    ensures k in ScanItems(items, rel, info) && ScanItems(items, rel, info)[k] == info[k]
    decreases items
  {
    if items != [] {
      ScanItemKeeps(items[0], rel, info, k);
      ScanItemsKeeps(items[1..], rel, ScanItem(items[0], rel, info), k);
    }
  }

  lemma {:induction false} ScanItemKeeps(item: Item, rel: string, info: map<string, nat>, k: string)
    requires k in info && k !in ItemPaths(item, rel)
    ensures k in ScanItem(item, rel, info) && ScanItem(item, rel, info)[k] == info[k]
    decreases item
  {
    if item.name != [] && item.Directory? {
      ScanListingKeeps(item.contents, RelativePath(rel, BaseName(item.name)), info, k);
    }
  }

  /** Every path the later items of a listing record is recorded by the
      whole listing. */
  lemma {:induction false} ItemsPathsSuffix(items: seq<Item>, rel: string, i: nat)
    requires i <= |items|
    ensures ItemsPaths(items[i..], rel) <= ItemsPaths(items, rel)
    decreases i
  {
    if i > 0 {
      ItemsPathsSuffix(items[1..], rel, i - 1);
      assert items[1..][i - 1..] == items[i..];
    }
  }

  /** A supported file of a listing is recorded under its relative path
      with its size, unless a later item of the listing records the same
      path (the later one wins). */
  lemma {:induction false} ScannedFileLands(items: seq<Item>, rel: string, info: map<string, nat>, i: nat)
    requires i < |items| && items[i].File? && items[i].name != [] && IsSupportedMediaFile(BaseName(items[i].name))
    requires RelativePath(rel, BaseName(items[i].name)) !in ItemsPaths(items[i + 1..], rel)
    ensures var path := RelativePath(rel, BaseName(items[i].name));
      path in ScanItems(items, rel, info) && ScanItems(items, rel, info)[path] == items[i].size
    decreases i
  {
    var next := ScanItem(items[0], rel, info);
    if i == 0 {
      ScanItemsKeeps(items[1..], rel, next, RelativePath(rel, BaseName(items[0].name)));
    } else {
      assert items[1..][i - 1] == items[i] && items[1..][i..] == items[i + 1..];
      ScannedFileLands(items[1..], rel, next, i - 1);
    }
  }

  /** What a subdirectory of a listing records, the whole listing records. */
  lemma {:induction false} ScannedDirectoryLands(items: seq<Item>, rel: string, info: map<string, nat>, i: nat)
    requires i < |items| && items[i].Directory? && items[i].name != []
    ensures ListedPaths(items[i].contents, RelativePath(rel, BaseName(items[i].name))) <= ScanItems(items, rel, info).Keys
  {
    ScanItemsKeys(items, rel, info);
    ItemsPathsSuffix(items, rel, i);
    assert items[i..][0] == items[i];
  }

  /** Files at the root of the share are recorded under their own name. */
  lemma {:induction false} RootFilesUnderOwnName(name: string, size: nat)
    requires name != [] && '/' !in name && IsSupportedMediaFile(name)
    ensures ScanListing(Listed([File(name, size)]), "", map[]) == map[name := size]
  {
    var item := File(name, size);
    assert name[|name| - 1] != '/' by {
      assert name[|name| - 1] in name;
    }
    assert BaseName(name) == name;
    var m := ScanItem(item, "", map[]);
    assert m == map[name := size];
    assert [item][1..] == [];
    assert ScanItems([item], "", map[]) == ScanItems([], "", m);
  }

  /** Walks a listing and its subdirectories, filling `info`. */
  method ScanRemoteDirectory(l: Listing, rel: string, info: map<string, nat>) returns (r: map<string, nat>)
    ensures r == ScanListing(l, rel, info)
    decreases l
  {
    r := info;
    if l.ListFailed? {
      return;
    }
    var items := l.items;
    for i := 0 to |items|
      invariant ScanItems(items, rel, info) == ScanItems(items[i..], rel, r)
    {
      var item := items[i];
      assert items[i..][1..] == items[i + 1..];
      if item.name != [] {
        var base := BaseName(item.name);
        var path := RelativePath(rel, base);
        match item
        case Directory(_, contents) =>
          r := ScanRemoteDirectory(contents, path, r);
        case File(_, size) =>
          if IsSupportedMediaFile(base) {
            r := r[path := size];
          }
      }
    }
    assert items[|items|..] == [];
  }

  // ---------------------------------------------------------------------
  // The local folder

  /** The supported files of the local folder, by relative path. */
  function LocalFileList(files: map<string, nat>): set<string> {
    set p | p in files && IsSupportedMediaFile(LastComponent(p))
  }

  /** Temporary files and deletion markers never appear among the local files. */
  lemma OwnFilesNotListed(files: map<string, nat>, p: string)
    ensures TempPath(p) !in LocalFileList(files) && MarkerPath(p) !in LocalFileList(files)
  {
    OwnFilesAreUnsupported(p);
  }

  /** What a `stat` of the local copy gave. */
  datatype LocalStat = Missing | Present(size: nat) | StatFailed

  function StatOf(files: map<string, nat>, path: string): LocalStat {
    if path in files then Present(files[path]) else Missing
  }

  /** A file is fetched unless a local copy of the same size is there; an
      error while looking counts as "fetch". */
  function ShouldDownload(local: LocalStat, remoteSize: nat): (r: bool)
    ensures r <==> local != Present(remoteSize)
  {
    match local
    case Missing => true
    case Present(size) => size != remoteSize
    case StatFailed => true
  }

  /** What the transfer left in the temporary file: some bytes, or an
      exception. */
  datatype Transfer = Wrote(size: nat) | TransferFailed

  /** The local folder after fetching `path`, and whether it succeeded.
      A non-empty temporary file replaces the local copy (removing the old
      copy first, which fails when it is locked); an empty one is removed. */
  function Commit(files: map<string, nat>, locked: set<string>, path: string, t: Transfer): (r: (map<string, nat>, bool))
    ensures r.1 <==> t.Wrote? && t.size > 0 && !(path in files && path in locked)
    ensures r.1 ==> path in r.0 && r.0[path] == t.size && TempPath(path) !in r.0
    ensures !r.1 ==> (path in r.0 <==> path in files) && (path in files ==> r.0[path] == files[path])
    ensures forall q :: q != path && q != TempPath(path) ==>
      (q in r.0 <==> q in files) && (q in files ==> r.0[q] == files[q])
    // the temporary file after a failure: kept, with the new bytes, exactly
    // when the old copy was locked
    ensures !r.1 && t.Wrote? ==> (TempPath(path) in r.0 <==> t.size > 0)
    ensures t.TransferFailed? ==> r.0 == files
    ensures t.Wrote? && t.size == 0 ==> r.0 == files - {TempPath(path)}
    ensures t.Wrote? && t.size > 0 && path in files && path in locked ==>
      r.0 == files[TempPath(path) := t.size]
  {
    var temp := TempPath(path);
    match t
    case TransferFailed => (files, false)
    case Wrote(size) =>
      if size == 0 then (files - {temp}, false)
      else if path in files && path in locked then (files[temp := size], false)
      else ((files - {temp})[path := size], true)
  }

  // ---------------------------------------------------------------------
  // One sync, step by step

  /** What the sync did to the local folder and told the catalog. */
  datatype Event =
    | Notified(path: string)
    | Unlinked(path: string)
    | UnlinkRefused(path: string)
    | UnlinkFailed(path: string)
    | Renamed(from: string, to: string)

  predicate IsUnlinkAttempt(e: Event, path: string) {
    (e.Unlinked? || e.UnlinkRefused? || e.UnlinkFailed?) && e.path == path
  }

  /** The local folder, whether something changed, and what happened. */
  datatype Outcome = Outcome(files: map<string, nat>, changed: bool, events: seq<Event>)

  /** Removing one local file: a locked file is renamed to its marker
      unless the marker is already there; either way it counts as a
      change.  A file that is gone makes the removal fail. */
  function Removal(files: map<string, nat>, locked: set<string>, path: string): (r: Outcome)
    ensures |r.events| >= 1 && IsUnlinkAttempt(r.events[0], path)
    ensures r.changed <==> path in files
    ensures path !in locked ==> path !in r.files
    ensures path in files && path in locked ==> MarkerPath(path) in r.files
    ensures forall q :: q in r.files && q !in files ==> q == MarkerPath(path)
    ensures forall q :: q in files && q !in r.files ==> q == path
    ensures forall q :: q in files && q in r.files ==> r.files[q] == files[q]
    ensures path !in files ==> r.files == files && r.events == [UnlinkFailed(path)]
    ensures path in files && path !in locked ==> r.files == files - {path} && r.events == [Unlinked(path)]
    ensures path in files && path in locked && MarkerPath(path) !in files ==>
      path !in r.files && MarkerPath(path) in r.files && r.files[MarkerPath(path)] == files[path]
      && r.events == [UnlinkRefused(path), Renamed(path, MarkerPath(path))]
    ensures path in files && path in locked && MarkerPath(path) in files ==>
      r.files == files && r.events == [UnlinkRefused(path)]
  {
    if path !in files then Outcome(files, false, [UnlinkFailed(path)])
    else if path !in locked then Outcome(files - {path}, true, [Unlinked(path)])
    else if MarkerPath(path) !in files then
      Outcome((files - {path})[MarkerPath(path) := files[path]], true, [UnlinkRefused(path), Renamed(path, MarkerPath(path))])
    else Outcome(files, true, [UnlinkRefused(path)])
  }

  /** One local file during the deletion pass: kept when the share still
      has it; otherwise the catalog (if any) is told, then the file is
      removed. */
  function DeletionStep(files: map<string, nat>, locked: set<string>, p: string, remote: set<string>, notify: bool): (r: Outcome)
    ensures p in remote ==> r == Outcome(files, false, [])
    ensures p !in remote ==> r.files == Removal(files, locked, p).files && r.changed == Removal(files, locked, p).changed
    ensures p !in remote && notify ==> r.events == [Notified(p)] + Removal(files, locked, p).events
    ensures p !in remote && !notify ==> r.events == Removal(files, locked, p).events
  {
    if p in remote then Outcome(files, false, [])
    else
      var o := Removal(files, locked, p);
      Outcome(o.files, o.changed, (if notify then [Notified(p)] else []) + o.events)
  }

  /** Removing the local files the share no longer has, in the given order;
      with a catalog to tell, it is told of each file just before the file
      is removed. */
  function Deletions(files: map<string, nat>, locked: set<string>, paths: seq<string>, remote: set<string>, notify: bool): Outcome
    decreases paths
  {
    if paths == [] then Outcome(files, false, [])
    else
      var first := DeletionStep(files, locked, paths[0], remote, notify);
      var rest := Deletions(first.files, locked, paths[1..], remote, notify);
      Outcome(rest.files, first.changed || rest.changed, first.events + rest.events)
  }

  /** Fetching the files of the share, in the given order. */
  function Downloads(files: map<string, nat>, locked: set<string>, keys: seq<string>, remote: map<string, nat>, transfer: string -> Transfer): (r: (map<string, nat>, bool))
    decreases keys
  {
    if keys == [] then (files, false)
    else
      var k := keys[0];
      var first :=
        if k in remote && ShouldDownload(StatOf(files, k), remote[k]) then Commit(files, locked, k, transfer(k))
        else (files, false);
      var rest := Downloads(first.0, locked, keys[1..], remote, transfer);
      (rest.0, first.1 || rest.1)
  }

  /** A deletion marker the next sync removes: `*.delete` at the top of the
      folder (the search does not descend into subfolders). */
  predicate IsMarker(path: string) {
    '/' !in path && EndsWith(path, ".delete")
  }

  /** The local folder after removing its markers; a locked marker stays. */
  function WithoutMarkers(files: map<string, nat>, locked: set<string>): map<string, nat> {
    map p | p in files && !(IsMarker(p) && p !in locked) :: files[p]
  }

  /** A marker left in a subfolder is never removed. */
  lemma NestedMarkersStay(files: map<string, nat>, locked: set<string>, p: string)
    requires p in files && '/' in p
    ensures p in WithoutMarkers(files, locked)
  {
  }

  // ---------------------------------------------------------------------
  // Properties of one sync

  /** When every file of the share is present locally with the same size,
      nothing is fetched and nothing changes. */
  lemma {:induction false} InSyncFetchesNothing(files: map<string, nat>, locked: set<string>, keys: seq<string>, remote: map<string, nat>, transfer: string -> Transfer)
    requires forall k :: k in remote ==> k in files && files[k] == remote[k]
    ensures Downloads(files, locked, keys, remote, transfer) == (files, false)
    decreases keys
  {
    if keys != [] {
      InSyncFetchesNothing(files, locked, keys[1..], remote, transfer);
    }
  }

  /** Fetching never touches a supported file the share does not name. */
  lemma {:induction false} DownloadsKeepOthers(files: map<string, nat>, locked: set<string>, keys: seq<string>, remote: map<string, nat>, transfer: string -> Transfer, q: string)
    requires q !in keys && IsSupportedMediaFile(LastComponent(q))
    ensures var r := Downloads(files, locked, keys, remote, transfer).0;
      (q in r <==> q in files) && (q in files ==> r[q] == files[q])
    decreases keys
  {
    if keys != [] {
      var k := keys[0];
      SupportedIsNotOwnFile(q, k);
      var first :=
        if k in remote && ShouldDownload(StatOf(files, k), remote[k]) then Commit(files, locked, k, transfer(k))
        else (files, false);
      DownloadsKeepOthers(first.0, locked, keys[1..], remote, transfer, q);
    }
  }

  /** A file the share has that is missing or differs locally, whose
      transfer wrote some bytes and whose old copy is not locked, ends up
      locally with the fetched size; each file is fetched once. */
  lemma {:induction false} FetchedFileLands(files: map<string, nat>, locked: set<string>, keys: seq<string>, remote: map<string, nat>, transfer: string -> Transfer, k: string)
    requires k in keys && k in remote && IsSupportedMediaFile(LastComponent(k))
    requires forall i, j :: 0 <= i < j < |keys| ==> keys[i] != keys[j]
    requires forall q :: q in keys ==> IsSupportedMediaFile(LastComponent(q))
    requires ShouldDownload(StatOf(files, k), remote[k])
    requires transfer(k).Wrote? && transfer(k).size > 0 && !(k in files && k in locked)
    ensures var r := Downloads(files, locked, keys, remote, transfer);
      k in r.0 && r.0[k] == transfer(k).size && r.1
    decreases keys
  {
    var k0 := keys[0];
    var first :=
      if k0 in remote && ShouldDownload(StatOf(files, k0), remote[k0]) then Commit(files, locked, k0, transfer(k0))
      else (files, false);
    if k0 == k {
      assert k !in keys[1..] by {
        forall j | 0 <= j < |keys[1..]| ensures keys[1..][j] != k {
          assert keys[1..][j] == keys[j + 1];
        }
      }
      DownloadsKeepOthers(first.0, locked, keys[1..], remote, transfer, k);
    } else {
      SupportedIsNotOwnFile(k, k0);
      assert k in keys[1..];
      FetchedFileLands(first.0, locked, keys[1..], remote, transfer, k);
    }
  }

  /** A supported file the share no longer has and nobody holds open is
      gone after the sync. */
  lemma {:induction false} DeletedFileIsGone(files: map<string, nat>, locked: set<string>, paths: seq<string>, remote: set<string>, notify: bool, p: string)
    requires p in paths && p !in remote && p !in locked && IsSupportedMediaFile(LastComponent(p))
    ensures p !in Deletions(files, locked, paths, remote, notify).files
    decreases paths
  {
    var p0 := paths[0];
    var first := DeletionStep(files, locked, p0, remote, notify);
    var r := Deletions(first.files, locked, paths[1..], remote, notify);
    if p0 == p {
      assert p !in first.files;
      DeletionsFootprint(first.files, locked, paths[1..], remote, notify);
      if p in r.files {
        var x :| x in paths[1..] && p == MarkerPath(x);
        SupportedIsNotOwnFile(p, x);
      }
    } else {
      DeletedFileIsGone(first.files, locked, paths[1..], remote, notify, p);
    }
  }

  /** A file the share no longer has that is present locally makes the
      sync report a change. */
  lemma {:induction false} DeletionIsAChange(files: map<string, nat>, locked: set<string>, paths: seq<string>, remote: set<string>, notify: bool, p: string)
    requires p in paths && p !in remote && p in files
    ensures Deletions(files, locked, paths, remote, notify).changed
    decreases paths
  {
    var p0 := paths[0];
    if p0 != p {
      var first := DeletionStep(files, locked, p0, remote, notify);
      assert p in paths[1..];
      DeletionIsAChange(first.files, locked, paths[1..], remote, notify, p);
    }
  }

  lemma DeletionsUnfold(files: map<string, nat>, locked: set<string>, paths: seq<string>, remote: set<string>, notify: bool)
    requires paths != []
    ensures var step := DeletionStep(files, locked, paths[0], remote, notify);
      var rest := Deletions(step.files, locked, paths[1..], remote, notify);
      Deletions(files, locked, paths, remote, notify) == Outcome(rest.files, step.changed || rest.changed, step.events + rest.events)
  {
  }

  /** The deletion pass only removes listed files the share no longer has,
      and only adds markers of listed files. */
  lemma {:induction false} DeletionsFootprint(files: map<string, nat>, locked: set<string>, paths: seq<string>, remote: set<string>, notify: bool)
    ensures var r := Deletions(files, locked, paths, remote, notify);
      (forall q :: q in r.files && q !in files ==> exists p :: p in paths && q == MarkerPath(p))
      && (forall q :: q in files && q !in r.files ==> q in paths && q !in remote)
    decreases paths
  {
    if paths != [] {
      var first := DeletionStep(files, locked, paths[0], remote, notify);
      DeletionsFootprint(first.files, locked, paths[1..], remote, notify);
      var r := Deletions(files, locked, paths, remote, notify);
      forall q | q in r.files && q !in files ensures exists p :: p in paths && q == MarkerPath(p) {
        if q in first.files {
          assert q == MarkerPath(paths[0]);
        } else {
          var p :| p in paths[1..] && q == MarkerPath(p);
          assert p in paths;
        }
      }
    }
  }

  /** The deletion pass never alters a supported file it leaves in place. */
  lemma {:induction false} DeletionsKeepContents(files: map<string, nat>, locked: set<string>, paths: seq<string>, remote: set<string>, notify: bool, q: string)
    requires q in files && IsSupportedMediaFile(LastComponent(q))
    requires q in Deletions(files, locked, paths, remote, notify).files
    ensures Deletions(files, locked, paths, remote, notify).files[q] == files[q]
    decreases paths
  {
    if paths != [] {
      var first := DeletionStep(files, locked, paths[0], remote, notify);
      var rest := Deletions(first.files, locked, paths[1..], remote, notify);
      assert Deletions(files, locked, paths, remote, notify).files == rest.files;
      if q !in first.files {
        DeletionsFootprint(first.files, locked, paths[1..], remote, notify);
        var p :| p in paths[1..] && q == MarkerPath(p);
        SupportedIsNotOwnFile(q, p);
      } else {
        assert first.files[q] == files[q];
        DeletionsKeepContents(first.files, locked, paths[1..], remote, notify, q);
      }
    }
  }

  /** With a catalog to tell, every file the share no longer has is
      announced, and the very next thing is the attempt to remove it. */
  lemma {:induction false} NotifiedBeforeRemoval(files: map<string, nat>, locked: set<string>, paths: seq<string>, remote: set<string>, p: string)
    requires p in paths && p !in remote
    ensures var es := Deletions(files, locked, paths, remote, true).events;
      exists i :: 0 <= i < |es| - 1 && es[i] == Notified(p) && IsUnlinkAttempt(es[i + 1], p)
    decreases paths
  {
    var p0 := paths[0];
    var first := DeletionStep(files, locked, p0, remote, true);
    var rest := Deletions(first.files, locked, paths[1..], remote, true);
    var es := first.events + rest.events;
    assert Deletions(files, locked, paths, remote, true).events == es;
    if p0 == p {
      assert es[0] == Notified(p) && es[1] == first.events[1];
    } else {
      assert p in paths[1..];
      NotifiedBeforeRemoval(first.files, locked, paths[1..], remote, p);
      var i :| 0 <= i < |rest.events| - 1 && rest.events[i] == Notified(p) && IsUnlinkAttempt(rest.events[i + 1], p);
      assert es[|first.events| + i] == Notified(p) && es[|first.events| + i + 1] == rest.events[i + 1];
    }
  }

  /** Two files have two markers. */
  lemma MarkerPathInjective(p: string, q: string)
    requires MarkerPath(p) == MarkerPath(q)
    ensures p == q
  {
    assert p == MarkerPath(p)[..|p|] && q == MarkerPath(q)[..|q|];
  }

  /** A marker already in place survives the removal of other files,
      holding what it held, and its file does not come back. */
  lemma {:induction false} MarkerKept(files: map<string, nat>, locked: set<string>, paths: seq<string>, remote: set<string>, notify: bool, p: string)
    requires p !in paths && p !in files && MarkerPath(p) in files && IsSupportedMediaFile(LastComponent(p))
    requires forall q :: q in paths ==> IsSupportedMediaFile(LastComponent(q))
    ensures var r := Deletions(files, locked, paths, remote, notify).files;
      p !in r && MarkerPath(p) in r && r[MarkerPath(p)] == files[MarkerPath(p)]
    decreases paths
  {
    if paths != [] {
      var p0 := paths[0];
      var first := DeletionStep(files, locked, p0, remote, notify);
      SupportedIsNotOwnFile(p0, p);
      SupportedIsNotOwnFile(p, p0);
      if MarkerPath(p0) == MarkerPath(p) {
        MarkerPathInjective(p0, p);
      }
      assert MarkerPath(p) in first.files && first.files[MarkerPath(p)] == files[MarkerPath(p)];
      MarkerKept(first.files, locked, paths[1..], remote, notify, p);
    }
  }

  /** Removing another file leaves `p` as it was and puts no marker of
      `p` in place. */
  lemma StepKeepsOther(files: map<string, nat>, locked: set<string>, p0: string, remote: set<string>, notify: bool, p: string)
    requires p0 != p && p in files && MarkerPath(p) !in files && IsSupportedMediaFile(LastComponent(p))
    ensures var r := DeletionStep(files, locked, p0, remote, notify).files;
      p in r && r[p] == files[p] && MarkerPath(p) !in r
  {
    SupportedIsNotOwnFile(p, p0);
    if MarkerPath(p0) == MarkerPath(p) {
      MarkerPathInjective(p0, p);
    }
  }

  /** The tail of a list without repeats has none either, and lacks its head. */
  lemma DistinctTail(paths: seq<string>)
    requires paths != [] && forall i, j :: 0 <= i < j < |paths| ==> paths[i] != paths[j]
    ensures forall i, j :: 0 <= i < j < |paths[1..]| ==> paths[1..][i] != paths[1..][j]
    ensures paths[0] !in paths[1..]
  {
    forall i, j | 0 <= i < j < |paths[1..]| ensures paths[1..][i] != paths[1..][j] {
      assert paths[1..][i] == paths[i + 1] && paths[1..][j] == paths[j + 1];
    }
    forall j | 0 <= j < |paths[1..]| ensures paths[1..][j] != paths[0] {
      assert paths[1..][j] == paths[j + 1];
    }
  }

  /** A locked local file the share no longer has, whose marker is not yet
      there, is renamed to its marker: afterwards the file is gone and the
      marker holds its size, for a later sync to remove. */
  lemma {:induction false} LockedFileIsMarked(files: map<string, nat>, locked: set<string>, paths: seq<string>, remote: set<string>, notify: bool, p: string)
    requires p in paths && p !in remote && p in locked && p in files && MarkerPath(p) !in files
    requires forall i, j :: 0 <= i < j < |paths| ==> paths[i] != paths[j]
    requires forall q :: q in paths ==> IsSupportedMediaFile(LastComponent(q))
    ensures var r := Deletions(files, locked, paths, remote, notify).files;
      p !in r && MarkerPath(p) in r && r[MarkerPath(p)] == files[p]
    decreases paths
  {
    var p0, rest := paths[0], paths[1..];
    var first := DeletionStep(files, locked, p0, remote, notify).files;
    DistinctTail(paths);
    assert forall q :: q in rest ==> q in paths;
    if p0 == p {
      assert first == Removal(files, locked, p).files;
      MarkerKept(first, locked, rest, remote, notify, p);
    } else {
      StepKeepsOther(files, locked, p0, remote, notify, p);
      assert p in rest;
      LockedFileIsMarked(first, locked, rest, remote, notify, p);
    }
  }

  /** When the share cannot be listed it looks empty, so a sync removes
      (or marks) every supported local file. */
  lemma UnreachableShareEmptiesFolder(files: map<string, nat>, locked: set<string>, paths: seq<string>, notify: bool, p: string)
    requires p in paths && p !in locked && IsSupportedMediaFile(LastComponent(p))
    ensures p !in Deletions(files, locked, paths, ScanListing(ListFailed, "", map[]).Keys, notify).files
  {
    DeletedFileIsGone(files, locked, paths, ScanListing(ListFailed, "", map[]).Keys, notify, p);
  }

  /** The local folder after one whole sync: markers removed, files
      fetched in `fetchOrder`, then stale files removed in `removeOrder`. */
  function AfterSync(files: map<string, nat>, locked: set<string>, share: Listing, transfer: string -> Transfer,
                     fetchOrder: seq<string>, removeOrder: seq<string>, notify: bool): Outcome
  {
    var cleaned := WithoutMarkers(files, locked);
    var remote := ScanListing(share, "", map[]);
    var fetched := Downloads(cleaned, locked, fetchOrder, remote, transfer);
    var removed := Deletions(fetched.0, locked, removeOrder, remote.Keys, notify);
    Outcome(removed.files, fetched.1 || removed.changed, removed.events)
  }

  /** A file of the share that was missing or different locally, whose
      transfer wrote some bytes and whose old copy was not locked, is
      present afterwards with the fetched size, and the sync reports a
      change. */
  lemma SyncFetchesChangedFiles(files: map<string, nat>, locked: set<string>, share: Listing, transfer: string -> Transfer,
                                fetchOrder: seq<string>, removeOrder: seq<string>, notify: bool, k: string)
    requires var remote := ScanListing(share, "", map[]);
      (forall q :: q in fetchOrder <==> q in remote)
      && (forall i, j :: 0 <= i < j < |fetchOrder| ==> fetchOrder[i] != fetchOrder[j])
    requires var cleaned := WithoutMarkers(files, locked);
      k in ScanListing(share, "", map[]) && ShouldDownload(StatOf(cleaned, k), ScanListing(share, "", map[])[k])
      && transfer(k).Wrote? && transfer(k).size > 0 && !(k in cleaned && k in locked)
    ensures var r := AfterSync(files, locked, share, transfer, fetchOrder, removeOrder, notify);
      k in r.files && r.files[k] == transfer(k).size && r.changed
  {
    var cleaned := WithoutMarkers(files, locked);
    var remote := ScanListing(share, "", map[]);
    FetchedFileLands(cleaned, locked, fetchOrder, remote, transfer, k);
    var fetched := Downloads(cleaned, locked, fetchOrder, remote, transfer);
    var removed := Deletions(fetched.0, locked, removeOrder, remote.Keys, notify);
    DeletionsFootprint(fetched.0, locked, removeOrder, remote.Keys, notify);
    assert k in removed.files;
    DeletionsKeepContents(fetched.0, locked, removeOrder, remote.Keys, notify, k);
  }

  /** A supported local file the share no longer has and nobody holds open
      is gone after the sync, and the sync reports a change. */
  lemma SyncRemovesStaleFiles(files: map<string, nat>, locked: set<string>, share: Listing, transfer: string -> Transfer,
                              fetchOrder: seq<string>, removeOrder: seq<string>, notify: bool, p: string)
    requires forall q :: q in fetchOrder ==> q in ScanListing(share, "", map[])
    requires forall q :: q in removeOrder <==> q in LocalFileList(WithoutMarkers(files, locked))
    requires p in LocalFileList(WithoutMarkers(files, locked)) && p !in ScanListing(share, "", map[]) && p !in locked
    ensures var r := AfterSync(files, locked, share, transfer, fetchOrder, removeOrder, notify);
      p !in r.files && r.changed
  {
    var cleaned := WithoutMarkers(files, locked);
    var remote := ScanListing(share, "", map[]);
    var fetched := Downloads(cleaned, locked, fetchOrder, remote, transfer);
    DownloadsKeepOthers(cleaned, locked, fetchOrder, remote, transfer, p);
    DeletedFileIsGone(fetched.0, locked, removeOrder, remote.Keys, notify, p);
    DeletionIsAChange(fetched.0, locked, removeOrder, remote.Keys, notify, p);
  }

  /** The paths of `paths` the share no longer has. */
  function Gone(paths: seq<string>, remote: set<string>): set<string> {
    set q | q in paths && q !in remote
  }

  /** Taking one more path into account. */
  lemma GoneStep(paths: seq<string>, i: nat, remote: set<string>)
    requires i < |paths|
    ensures Gone(paths[..i + 1], remote) == Gone(paths[..i], remote) + (if paths[i] in remote then {} else {paths[i]})
  {
    assert paths[..i + 1] == paths[..i] + [paths[i]];
  }

  /** Fetching files never touches a deletion marker. */
  lemma {:induction false} DownloadsKeepMarkers(files: map<string, nat>, locked: set<string>, keys: seq<string>, remote: map<string, nat>, transfer: string -> Transfer, p: string)
    requires forall k :: k in keys ==> IsSupportedMediaFile(LastComponent(k))
    ensures var r := Downloads(files, locked, keys, remote, transfer).0;
      (MarkerPath(p) in r <==> MarkerPath(p) in files) && (MarkerPath(p) in files ==> r[MarkerPath(p)] == files[MarkerPath(p)])
    decreases keys
  {
    if keys != [] {
      var k := keys[0];
      SupportedIsNotOwnFile(k, p);
      assert MarkerPath(p) != TempPath(k) by {
        assert MarkerPath(p)[|MarkerPath(p)| - 1] == 'e' && TempPath(k)[|TempPath(k)| - 1] == 'p';
      }
      var first :=
        if k in remote && ShouldDownload(StatOf(files, k), remote[k]) then Commit(files, locked, k, transfer(k))
        else (files, false);
      assert forall q :: q in keys[1..] ==> q in keys;
      DownloadsKeepMarkers(first.0, locked, keys[1..], remote, transfer, p);
    }
  }

  /** A supported local file the share no longer has but another process
      holds open, with no marker of it left after the clean-up, is renamed
      to its marker by the sync: the file is gone and the marker holds its
      size. */
  lemma SyncMarksLockedStaleFiles(files: map<string, nat>, locked: set<string>, share: Listing, transfer: string -> Transfer,
                                  fetchOrder: seq<string>, removeOrder: seq<string>, notify: bool, p: string)
    requires forall q :: q in fetchOrder ==> q in ScanListing(share, "", map[])
    requires forall q :: q in removeOrder <==> q in LocalFileList(WithoutMarkers(files, locked))
    requires forall i, j :: 0 <= i < j < |removeOrder| ==> removeOrder[i] != removeOrder[j]
    requires p in LocalFileList(WithoutMarkers(files, locked)) && p !in ScanListing(share, "", map[]) && p in locked
    requires MarkerPath(p) !in WithoutMarkers(files, locked)
    ensures var r := AfterSync(files, locked, share, transfer, fetchOrder, removeOrder, notify);
      p !in r.files && MarkerPath(p) in r.files && r.files[MarkerPath(p)] == files[p]
  {
    var cleaned := WithoutMarkers(files, locked);
    var remote := ScanListing(share, "", map[]);
    var fetched := Downloads(cleaned, locked, fetchOrder, remote, transfer);
    DownloadsKeepOthers(cleaned, locked, fetchOrder, remote, transfer, p);
    DownloadsKeepMarkers(cleaned, locked, fetchOrder, remote, transfer, p);
    LockedFileIsMarked(fetched.0, locked, removeOrder, remote.Keys, notify, p);
  }

  // ---------------------------------------------------------------------
  // The client

  class SyncClient {
    /** The catalog told of each deleted file, if any. */
    const callback: Option<ContentManager>
    /** The local content folder: relative path to size. */
    var files: map<string, nat>
    /** The remote map of the last sync. */
    var remoteFileCache: map<string, nat>
    var lastSyncTime: real
    /** What the syncs did, in order. */
    ghost var events: seq<Event>

    constructor (callback: Option<ContentManager>, files: map<string, nat>)
      ensures this.callback == callback && this.files == files
      ensures remoteFileCache == map[] && lastSyncTime == 0.0 && events == []
    {
      this.callback := callback;
      this.files := files;
      remoteFileCache := map[];
      lastSyncTime := 0.0;
      events := [];
    }

    /** Removes the markers left by an earlier sync; one that is still
        locked stays. */
    method CleanupDeletionMarkers(locked: set<string>)
      modifies this`files
      ensures files == WithoutMarkers(old(files), locked)
    {
      var paths := ListOf(files.Keys);
      for i := 0 to |paths|
        invariant forall p :: p in files <==> p in old(files) && !(p in paths[..i] && IsMarker(p) && p !in locked)
        invariant forall p :: p in files ==> files[p] == old(files)[p]
      {
        var p := paths[i];
        assert paths[..i + 1] == paths[..i] + [p];
        if IsMarker(p) && p !in locked {
          files := files - {p};
        }
      }
      assert paths[..|paths|] == paths;
    }

    /** The supported files of the local folder. */
    method GetLocalFileList() returns (local: set<string>)
      ensures local == LocalFileList(files)
    {
      local := {};
      var paths := ListOf(files.Keys);
      for i := 0 to |paths|
        invariant forall q :: q in local <==> q in paths[..i] && IsSupportedMediaFile(LastComponent(q))
      {
        var p := paths[i];
        assert paths[..i + 1] == paths[..i] + [p];
        if IsSupportedMediaFile(LastComponent(p)) {
          local := local + {p};
        }
      }
      assert paths[..|paths|] == paths;
    }

    /** Fetches one file into place through its temporary file. */
    method DownloadFile(path: string, locked: set<string>, t: Transfer) returns (ok: bool)
      modifies this`files
      ensures (files, ok) == Commit(old(files), locked, path, t)
    {
      ok := false;
      if t.TransferFailed? {
        return;
      }
      var temp := TempPath(path);
      files := files[temp := t.size];
      assert files - {temp} == old(files) - {temp};
      if t.size > 0 {
        if path in files && path in locked {
          return;
        }
        files := (files - {temp})[path := t.size];
        ok := true;
      } else {
        files := files - {temp};
      }
    }

    /** Fetches every file of `remote` that is missing or differs locally. */
    method DownloadChanged(remote: map<string, nat>, locked: set<string>, transfer: string -> Transfer)
      returns (changed: bool, ghost order: seq<string>)
      modifies this`files
      ensures forall k :: k in order <==> k in remote
      ensures forall i, j :: 0 <= i < j < |order| ==> order[i] != order[j]
      ensures (files, changed) == Downloads(old(files), locked, order, remote, transfer)
    {
      var keys := ListOf(remote.Keys);
      order := keys;
      changed := false;
      for i := 0 to |keys|
        invariant Downloads(old(files), locked, keys, remote, transfer).0 == Downloads(files, locked, keys[i..], remote, transfer).0
        invariant Downloads(old(files), locked, keys, remote, transfer).1 == (changed || Downloads(files, locked, keys[i..], remote, transfer).1)
      {
        var k := keys[i];
        assert keys[i..][1..] == keys[i + 1..];
        if ShouldDownload(StatOf(files, k), remote[k]) {
          var ok := DownloadFile(k, locked, transfer(k));
          changed := changed || ok;
        }
      }
      assert keys[|keys|..] == [];
    }

    /** Tells the catalog, if there is one, that `p` is going away. */
    method Notify(p: string, now: real)
      requires callback.Some? ==> callback.value.Valid()
      modifies this`events, if callback.Some? then {callback.value, callback.value.obs} else {}
      ensures events == old(events) + if callback.Some? then [Notified(p)] else []
      ensures callback.Some? ==> callback.value.Valid()
      ensures callback.Some? ==> callback.value.State() == Forget(old(callback.value.State()), p)
    {
      if callback.Some? {
        callback.value.OnFileDeleted(p, now);
        events := events + [Notified(p)];
      }
    }

    /** Removes one local file, renaming it to its marker when it is locked. */
    method Unlink(p: string, locked: set<string>) returns (changed: bool)
      modifies this`files, this`events
      ensures var o := Removal(old(files), locked, p);
        files == o.files && changed == o.changed && events == old(events) + o.events
    {
      changed := false;
      if p !in files {
        events := events + [UnlinkFailed(p)];
      } else if p !in locked {
        files := files - {p};
        events := events + [Unlinked(p)];
        changed := true;
      } else {
        events := events + [UnlinkRefused(p)];
        var marker := MarkerPath(p);
        if marker !in files {
          files := (files - {p})[marker := files[p]];
          events := events + [Renamed(p, marker)];
        }
        changed := true;
      }
    }

    /** The deletion pass for one local file. */
    method RemoveIfGone(p: string, remote: set<string>, locked: set<string>, now: real) returns (changed: bool)
      requires callback.Some? ==> callback.value.Valid()
      modifies this`files, this`events, if callback.Some? then {callback.value, callback.value.obs} else {}
      ensures var o := DeletionStep(old(files), locked, p, remote, callback.Some?);
        files == o.files && changed == o.changed && events == old(events) + o.events
      ensures callback.Some? ==> callback.value.Valid()
      ensures callback.Some? && p in remote ==> callback.value.State() == old(callback.value.State())
      ensures callback.Some? && p !in remote ==> callback.value.State() == Forget(old(callback.value.State()), p)
    {
      changed := false;
      if p !in remote {
        Notify(p, now);
        ghost var told := events;
        changed := Unlink(p, locked);
        assert events == old(events) + DeletionStep(old(files), locked, p, remote, callback.Some?).events by {
          assert events == told + Removal(old(files), locked, p).events;
        }
      }
    }

    /** Removes the local files the share no longer has, telling the
        catalog of each one first. */
    method RemoveDeleted(local: set<string>, remote: set<string>, locked: set<string>, now: real)
      returns (changed: bool, ghost order: seq<string>)
      requires callback.Some? ==> callback.value.Valid()
      modifies this`files, this`events, if callback.Some? then {callback.value, callback.value.obs} else {}
      ensures forall p :: p in order <==> p in local
      ensures forall i, j :: 0 <= i < j < |order| ==> order[i] != order[j]
      ensures var r := Deletions(old(files), locked, order, remote, callback.Some?);
        files == r.files && changed == r.changed && events == old(events) + r.events
      ensures callback.Some? ==> callback.value.Valid()
      ensures callback.Some? ==> callback.value.State() == Forgotten(old(callback.value.State()), local - remote)
    {
      var paths := ListOf(local);
      order := paths;
      changed := false;
      ghost var whole := Deletions(files, locked, paths, remote, callback.Some?);
      ghost var events0 := events;
      ghost var st0 := if callback.Some? then callback.value.State() else CatalogState([], {}, {}, {}, {});
      if callback.Some? {
        ForgetNothing(st0);
        assert Gone(paths[..0], remote) == {};
      }
      for i := 0 to |paths|
        invariant callback.Some? ==> callback.value.Valid()
        invariant callback.Some? ==>
          callback.value.State() == Forgotten(st0, Gone(paths[..i], remote))
        invariant var rest := Deletions(files, locked, paths[i..], remote, callback.Some?);
          whole.files == rest.files && whole.changed == (changed || rest.changed)
          && events0 + whole.events == events + rest.events
      {
        var p := paths[i];
        assert paths[i..][0] == p && paths[i..][1..] == paths[i + 1..];
        ghost var before := events;
        ghost var step := DeletionStep(files, locked, p, remote, callback.Some?);
        ghost var after := Deletions(step.files, locked, paths[i + 1..], remote, callback.Some?);
        DeletionsUnfold(files, locked, paths[i..], remote, callback.Some?);
        ghost var gone := Gone(paths[..i], remote);
        ghost var pre := if callback.Some? then callback.value.State() else st0;
        GoneStep(paths, i, remote);
        var c := RemoveIfGone(p, remote, locked, now);
        changed := changed || c;
        AppendAssociative(before, step.events, after.events);
        if callback.Some? {
          assert pre == Forgotten(st0, gone);
          if p !in remote {
            assert callback.value.State() == Forget(pre, p);
            ForgetStep(st0, gone, p);
            assert callback.value.State() == Forgotten(st0, gone + {p});
            assert Gone(paths[..i + 1], remote) == gone + {p};
          } else {
            assert callback.value.State() == pre;
            assert Gone(paths[..i + 1], remote) == gone;
          }
          assert callback.value.State() == Forgotten(st0, Gone(paths[..i + 1], remote));
        }
      }
      assert paths[|paths|..] == [];
      assert paths[..|paths|] == paths;
      assert Gone(paths, remote) == local - remote;
    }

    /** One sync: removes old markers, lists the share, fetches what is
        new or changed, removes what the share no longer has (telling the
        catalog first), and records the time.  Returns whether any file
        was fetched or removed. */
    method SyncContent(share: Listing, locked: set<string>, transfer: string -> Transfer, now: real)
      returns (changed: bool, ghost fetchOrder: seq<string>, ghost removeOrder: seq<string>)
      requires callback.Some? ==> callback.value.Valid()
      modifies this`files, this`events, this`remoteFileCache, this`lastSyncTime
      modifies if callback.Some? then {callback.value, callback.value.obs} else {}
      ensures remoteFileCache == ScanListing(share, "", map[]) && lastSyncTime == now
      ensures forall k :: k in fetchOrder <==> k in remoteFileCache
      ensures forall i, j :: 0 <= i < j < |fetchOrder| ==> fetchOrder[i] != fetchOrder[j]
      ensures forall p :: p in removeOrder <==> p in LocalFileList(WithoutMarkers(old(files), locked))
      ensures forall i, j :: 0 <= i < j < |removeOrder| ==> removeOrder[i] != removeOrder[j]
      ensures var r := AfterSync(old(files), locked, share, transfer, fetchOrder, removeOrder, callback.Some?);
        files == r.files && changed == r.changed && events == old(events) + r.events
      ensures callback.Some? ==> callback.value.Valid()
      ensures callback.Some? ==>
        callback.value.State() == Forgotten(old(callback.value.State()),
                                            LocalFileList(WithoutMarkers(old(files), locked)) - ScanListing(share, "", map[]).Keys)
    {
      CleanupDeletionMarkers(locked);
      ghost var cleaned := files;
      var remote := ScanRemoteDirectory(share, "", map[]);
      remoteFileCache := remote;
      var local := GetLocalFileList();
      var fetchedAny;
      fetchedAny, fetchOrder := DownloadChanged(remote, locked, transfer);
      var removedAny;
      removedAny, removeOrder := RemoveDeleted(local, remote.Keys, locked, now);
      changed := fetchedAny || removedAny;
      lastSyncTime := now;
    }
  }
}
