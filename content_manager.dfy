/**
 * The signage catalog and its rotation: which files of the content
 * directory are shown, how long each one stays on screen, which compositor
 * scenes and inputs stand for them, and how the show advances.
 *
 * The compositor is the abstract `Compositor` object; the clock (`now`, in
 * seconds) and the duration probe are parameters; the directory listing is
 * a sequence of entries with their `stat` results.
 */
module Content {
  import opened Wrappers
  import opened Text
  import opened Sorting
  import opened Settings
  import opened Compositing

  /** The scene shown while there is nothing to play,
      `waiting_for_content_scene`. */
  const WaitingScene: string := SceneName("waiting_for_content")

  /** The name of a directory entry: never contains a `/`. */
  type FileName = s: string | '/' !in s

  /** A catalog item.  Whether it is a video or an image is decided from
      its name when the item is made; `mtime` is the text the modification
      time prints as. */
  datatype MediaFile = MediaFile(
    path: string,
    filename: FileName,
    isVideo: bool,
    isImage: bool,
    size: nat,
    mtime: string,
    duration: real)

  // ---------------------------------------------------------------------
  // Scene and input naming

  function SceneName(filename: string): string {
    filename + "_scene"
  }

  function SourceName(filename: string): string {
    filename + "_source"
  }

  /** Different files get different scenes. */
  lemma SceneNameInjective(a: string, b: string)
    ensures SceneName(a) == SceneName(b) <==> a == b
  {
    if SceneName(a) == SceneName(b) {
      assert a == SceneName(a)[..|a|] && b == SceneName(b)[..|b|];
    }
  }

  /** Different files get different inputs. */
  lemma SourceNameInjective(a: string, b: string)
    ensures SourceName(a) == SourceName(b) <==> a == b
  {
    if SourceName(a) == SourceName(b) {
      assert a == SourceName(a)[..|a|] && b == SourceName(b)[..|b|];
    }
  }

  /** No scene name is also an input name. */
  lemma SceneIsNeverSource(a: string, b: string)
    ensures SceneName(a) != SourceName(b)
  {
    if |SceneName(a)| == |SourceName(b)| {
      assert SceneName(a)[|a|] == '_' && SourceName(b)[|a|] == 's';
    }
  }

  lemma NoSuffixIsNoMedia(name: string)
    requires '.' !in name
    ensures !IsVideoName(name) && !IsImageName(name)
  {
    assert Suffix(name) == "";
  }

  /** The waiting scene never stands for a media file: its name would need
      a file called `waiting_for_content`, which has no media suffix. */
  lemma WaitingSceneIsNoMediaScene(name: string)
    requires IsVideoName(name) || IsImageName(name)
    ensures SceneName(name) != WaitingScene
  {
    NoSuffixIsNoMedia("waiting_for_content");
    assert name != "waiting_for_content";
    SceneNameInjective(name, "waiting_for_content");
  }

  /** The scenes the catalog stands for. */
  function SceneNames(files: seq<MediaFile>): set<string> {
    set m | m in files :: SceneName(m.filename)
  }

  /** The inputs the catalog stands for: one per video or image. */
  function InputNames(files: seq<MediaFile>): set<string> {
    set m | m in files && (m.isVideo || m.isImage) :: SourceName(m.filename)
  }

  // ---------------------------------------------------------------------
  // Directory scan

  datatype Stat = Stat(size: nat, mtime: string)

  /** One entry of the content directory; `stat` is `None` when it fails. */
  datatype DirEntry = DirEntry(path: string, name: FileName, isFile: bool, stat: Option<Stat>)

  /** The item built for an entry; a failed `stat` reads as size 0, mtime 0. */
  function MediaFileOf(e: DirEntry): MediaFile {
    var isVideo, isImage := IsVideoName(e.name), IsImageName(e.name);
    match e.stat
    case Some(st) => MediaFile(e.path, e.name, isVideo, isImage, st.size, st.mtime, 0.0)
    case None => MediaFile(e.path, e.name, isVideo, isImage, 0, "0", 0.0)
  }

  /** An entry enters the catalog when it is a regular file, a video or an
      image, and its size can be read and is not zero. */
  predicate Admitted(e: DirEntry) {
    e.isFile && (IsVideoName(e.name) || IsImageName(e.name)) && e.stat.Some? && e.stat.value.size != 0
  }

  /** The admitted entries, in directory order. */
  function Scanned(entries: seq<DirEntry>): (r: seq<MediaFile>)
    ensures |r| <= |entries|
    ensures forall m :: m in r ==> (m.isVideo || m.isImage) && m.size > 0 && m.duration == 0.0
  {
    if entries == [] then []
    else
      var init, e := entries[..|entries| - 1], entries[|entries| - 1];
      Scanned(init) + (if Admitted(e) then [MediaFileOf(e)] else [])
  }

  /** The scan keeps exactly the admitted entries. */
  lemma {:induction false} ScannedAdmitsExactly(entries: seq<DirEntry>)
    ensures forall e :: e in entries && Admitted(e) ==> MediaFileOf(e) in Scanned(entries)
    ensures forall m :: m in Scanned(entries) ==> exists e :: e in entries && Admitted(e) && m == MediaFileOf(e)
  {
    if entries != [] {
      var init, e := entries[..|entries| - 1], entries[|entries| - 1];
      ScannedAdmitsExactly(init);
      assert entries == init + [e];
    }
  }

  /** Walks the directory listing and keeps the playable files. */
  method ScanContentDirectory(entries: seq<DirEntry>) returns (files: seq<MediaFile>)
    ensures files == Scanned(entries)
  {
    files := [];
    for i := 0 to |entries|
      invariant files == Scanned(entries[..i])
    {
      assert entries[..i + 1][..i] == entries[..i];
      var e := entries[i];
      if e.isFile {
        var m := MediaFileOf(e);
        if m.isVideo || m.isImage {
          if e.stat.Some? && e.stat.value.size != 0 {
            files := files + [m];
          }
        }
      }
    }
    assert entries[..|entries|] == entries;
  }

  // ---------------------------------------------------------------------
  // Change key

  /** `name:size:mtime` of one item. */
  function EntryText(m: MediaFile): string {
    m.filename + ":" + NatToString(m.size) + ":" + m.mtime
  }

  /** The sorted item texts joined by `|`. */
  function ContentKey(files: seq<MediaFile>): string {
    Join("|", SortStrings(MapSeq(EntryText, files)))
  }

  /** The key depends only on which items there are, not on their order. */
  lemma ContentKeyIgnoresOrder(a: seq<MediaFile>, b: seq<MediaFile>)
    requires multiset(a) == multiset(b)
    ensures ContentKey(a) == ContentKey(b)
  {
    MapSeqPermutation(EntryText, a, b);
    SortedUnique(SortStrings(MapSeq(EntryText, a)), SortStrings(MapSeq(EntryText, b)));
  }

  // ---------------------------------------------------------------------
  // Durations

  /** What working out a file's length gave: a measured length, no length,
      or an exception while handling the file. */
  datatype Probe = Measured(seconds: real) | NoDuration | Raised

  /** The display length of an item, images first: an image gets the
      slide time; a video its measured length capped at the maximum, or 10
      seconds when there is none; an exception while handling the item
      leaves 8 seconds for an image and 10 for a video; anything else keeps
      its length. */
  function DurationFor(m: MediaFile, s: MediaSettings, p: Probe): (r: real)
    ensures m.isImage && !p.Raised? ==> r == s.slideTransitionSeconds as real
    ensures m.isImage && p.Raised? ==> r == 8.0
    ensures !m.isImage && m.isVideo && p.Measured? ==>
      r <= s.maxVideoDuration as real && r <= p.seconds && (r == p.seconds || r == s.maxVideoDuration as real)
    ensures !m.isImage && m.isVideo && !p.Measured? ==> r == 10.0
    ensures !m.isImage && !m.isVideo ==> r == m.duration
  {
    if m.isImage then (if p.Raised? then 8.0 else s.slideTransitionSeconds as real)
    else if m.isVideo then
      match p
      case Measured(d) => if d > s.maxVideoDuration as real then s.maxVideoDuration as real else d
      case _ => 10.0
    else m.duration
  }

  /** An item with its display length worked out. */
  function WithDuration(m: MediaFile, s: MediaSettings, probe: string -> Probe): MediaFile {
    m.(duration := DurationFor(m, s, probe(m.path)))
  }

  /** Every item with its display length; none is dropped or reordered. */
  function WithDurations(files: seq<MediaFile>, s: MediaSettings, probe: string -> Probe): (r: seq<MediaFile>)
    ensures |r| == |files|
    ensures forall i :: 0 <= i < |files| ==> r[i] == WithDuration(files[i], s, probe)
  {
    if files == [] then [] else [WithDuration(files[0], s, probe)] + WithDurations(files[1..], s, probe)
  }

  /** The catalog order key: the lower-cased file name. */
  function LowerName(m: MediaFile): string {
    Lower(m.filename)
  }

  /** The catalog a rescan builds from a listing: the playable files sorted
      by lower-cased name, each with its display length. */
  function Catalog(entries: seq<DirEntry>, s: MediaSettings, probe: string -> Probe): seq<MediaFile> {
    WithDurations(SortBy(Scanned(entries), LowerName), s, probe)
  }

  /** A listing with no playable file gives an empty catalog. */
  lemma EmptyCatalog(entries: seq<DirEntry>, s: MediaSettings, probe: string -> Probe)
    requires Scanned(entries) == []
    ensures Catalog(entries, s, probe) == []
  {
    assert SortBy(Scanned(entries), LowerName) == [];
  }

  /** Working out durations keeps the order by name. */
  lemma WithDurationsKeepsOrder(files: seq<MediaFile>, s: MediaSettings, probe: string -> Probe)
    requires SortedBy(files, LowerName)
    ensures SortedBy(WithDurations(files, s, probe), LowerName)
  {
    var r := WithDurations(files, s, probe);
    forall i, j | 0 <= i < j < |r| ensures LexLe(LowerName(r[i]), LowerName(r[j])) {
      assert LowerName(r[i]) == LowerName(files[i]) && LowerName(r[j]) == LowerName(files[j]);
    }
  }

  /** The catalog is sorted by lower-cased name, has one item per playable
      file of the listing, and every playable file appears in it with its
      display length. */
  lemma CatalogIsSortedScan(entries: seq<DirEntry>, s: MediaSettings, probe: string -> Probe)
    ensures SortedBy(Catalog(entries, s, probe), LowerName)
    ensures |Catalog(entries, s, probe)| == |Scanned(entries)|
    ensures forall m :: m in Scanned(entries) ==> WithDuration(m, s, probe) in Catalog(entries, s, probe)
  {
    var scanned := Scanned(entries);
    var sorted := SortBy(scanned, LowerName);
    var c := Catalog(entries, s, probe);
    WithDurationsKeepsOrder(sorted, s, probe);
    assert |sorted| == |scanned| by {
      assert |multiset(sorted)| == |multiset(scanned)|;
    }
    forall m | m in scanned ensures WithDuration(m, s, probe) in c {
      assert m in multiset(sorted) by { assert m in multiset(scanned); }
      var k :| 0 <= k < |sorted| && sorted[k] == m;
      assert c[k] == WithDuration(m, s, probe);
    }
  }

  /** Every item of the catalog is a video or an image. */
  lemma CatalogIsPlayable(entries: seq<DirEntry>, s: MediaSettings, probe: string -> Probe)
    ensures forall c :: c in Catalog(entries, s, probe) ==> c.isVideo || c.isImage
  {
    var scanned := Scanned(entries);
    var sorted := SortBy(scanned, LowerName);
    var c := Catalog(entries, s, probe);
    forall x | x in c ensures x.isVideo || x.isImage {
      var k :| 0 <= k < |c| && c[k] == x;
      assert sorted[k] in scanned by {
        assert sorted[k] in multiset(sorted);
      }
      assert x.filename == sorted[k].filename;
    }
  }

  // ---------------------------------------------------------------------
  // Rotation

  /** How long an item stays before the show moves on: a video is cut
      `offset` seconds before its end, never below zero; an image stays for
      its whole display length. */
  function SwitchTime(m: MediaFile, offset: real): (r: real)
    ensures m.isVideo ==> r >= 0.0 && r >= m.duration - offset
    ensures m.isVideo ==> r == m.duration - offset || r == 0.0
    ensures !m.isVideo ==> r == m.duration
  {
    if m.isVideo then (if m.duration - offset < 0.0 then 0.0 else m.duration - offset)
    else m.duration
  }

  /** Images ignore the transition offset. */
  lemma ImagesIgnoreOffset(m: MediaFile, o1: real, o2: real)
    requires !m.isVideo
    ensures SwitchTime(m, o1) == SwitchTime(m, o2)
  {
  }

  /** A video with a non-negative offset is cut no later than its end. */
  lemma VideoCutNoLater(m: MediaFile, offset: real)
    requires m.isVideo && offset >= 0.0 && m.duration >= 0.0
    ensures SwitchTime(m, offset) <= m.duration
  {
  }

  /** The position after `i` in a list of `n` items: the next one, or the
      first after the last. */
  function NextIndex(i: nat, n: nat): (r: nat)
    requires n > 0
    ensures r < n
    ensures i + 1 < n ==> r == i + 1
    ensures i + 1 == n ==> r == 0
  {
    (i + 1) % n
  }

  /** The position after `k` switches starting from `i`. */
  function Advance(i: nat, k: nat, n: nat): (r: nat)
    requires i < n
    ensures r < n
  {
    if k == 0 then i else NextIndex(Advance(i, k - 1, n), n)
  }

  /** From the first item, `j` switches reach item `j`, and `n` switches
      come back to the first: the show visits every item once per round. */
  lemma {:induction false} RotationVisitsEveryItem(n: nat, j: nat)
    requires 0 < n && j <= n
    ensures j < n ==> Advance(0, j, n) == j
    ensures j == n ==> Advance(0, j, n) == 0
  {
    if j > 0 {
      RotationVisitsEveryItem(n, j - 1);
    }
  }

  // ---------------------------------------------------------------------
  // Deletion

  /** The catalog without the items of one file name. */
  function Without(files: seq<MediaFile>, filename: string): (r: seq<MediaFile>)
    ensures |r| <= |files|
    ensures forall m :: m in r <==> m in files && m.filename != filename
  {
    if files == [] then []
    else (if files[0].filename == filename then [] else [files[0]]) + Without(files[1..], filename)
  }

  /** Dropping a file's items keeps the others in their order: it works
      on each part of a catalog separately. */
  lemma {:induction false} WithoutAppend(a: seq<MediaFile>, b: seq<MediaFile>, filename: string)
    ensures Without(a + b, filename) == Without(a, filename) + Without(b, filename)
  {
    if a == [] {
      assert a + b == b;
    } else {
      assert (a + b)[0] == a[0] && (a + b)[1..] == a[1..] + b;
      WithoutAppend(a[1..], b, filename);
    }
  }

  /** The catalog without the items of any of `names`. */
  function WithoutAll(files: seq<MediaFile>, names: set<string>): (r: seq<MediaFile>)
    ensures |r| <= |files|
    ensures forall m :: m in r <==> m in files && m.filename !in names
  {
    if files == [] then []
    else (if files[0].filename in names then [] else [files[0]]) + WithoutAll(files[1..], names)
  }

  /** Dropping the files of `names` one by one, in any order, drops them
      all at once. */
  lemma {:induction false} WithoutStep(files: seq<MediaFile>, names: set<string>, filename: string)
    ensures Without(WithoutAll(files, names), filename) == WithoutAll(files, names + {filename})
  {
    if files != [] {
      WithoutStep(files[1..], names, filename);
      var head := if files[0].filename in names then [] else [files[0]];
      WithoutAppend(head, WithoutAll(files[1..], names), filename);
    }
  }

  /** Names with a `/` in them (paths below the content root) drop no item. */
  lemma {:induction false} NestedPathsMatchNothing(files: seq<MediaFile>, names: set<string>)
    requires forall n :: n in names ==> '/' in n
    ensures WithoutAll(files, names) == files
  {
    if files != [] {
      NestedPathsMatchNothing(files[1..], names);
      assert files[0].filename !in names;
      assert files == [files[0]] + files[1..];
    }
  }

  /** The scenes of a set of file names. */
  function ScenesOf(names: set<string>): set<string> {
    set n | n in names :: SceneName(n)
  }

  /** The inputs of a set of file names. */
  function InputsOf(names: set<string>): set<string> {
    set n | n in names :: SourceName(n)
  }

  /** Removing a file's items removes exactly its scene. */
  lemma SceneNamesWithout(files: seq<MediaFile>, filename: string)
    ensures SceneNames(Without(files, filename)) == SceneNames(files) - {SceneName(filename)}
  {
    forall m | m in files ensures SceneName(m.filename) == SceneName(filename) <==> m.filename == filename {
      SceneNameInjective(m.filename, filename);
    }
  }

  /** Removing a file's items removes exactly its input. */
  lemma InputNamesWithout(files: seq<MediaFile>, filename: string)
    ensures InputNames(Without(files, filename)) == InputNames(files) - {SourceName(filename)}
  {
    forall m | m in files ensures SourceName(m.filename) == SourceName(filename) <==> m.filename == filename {
      SourceNameInjective(m.filename, filename);
    }
  }

  /** A name with a `/` in it (a path below the content root) matches no
      item: its scene and input are not the catalog's, and no item goes. */
  lemma {:induction false} NestedPathMatchesNothing(files: seq<MediaFile>, path: string)
    requires '/' in path
    ensures Without(files, path) == files
    ensures SceneName(path) !in SceneNames(files) && SourceName(path) !in InputNames(files)
  {
    if files != [] {
      NestedPathMatchesNothing(files[1..], path);
      assert files[0].filename != path;
      assert files == [files[0]] + files[1..];
    }
    forall m | m in files ensures SceneName(m.filename) != SceneName(path) && SourceName(m.filename) != SourceName(path) {
      SceneNameInjective(m.filename, path);
      SourceNameInjective(m.filename, path);
    }
  }

  /** What deleting a file asks of the compositor: its scene goes first,
      then its input, each only when the catalog manages it. */
  function DeletionRequests(filename: string, scenes: set<string>, inputs: set<string>): seq<Request> {
    (if SceneName(filename) in scenes then [RemoveScene(SceneName(filename))] else [])
    + (if SourceName(filename) in inputs then [RemoveInput(SourceName(filename))] else [])
  }

  // ---------------------------------------------------------------------
  // Scene creation

  /** What creating an item's scene asks of the compositor: the scene, then
      an image input (or, for a video, a media input) in it, then muting
      it when it is a video. */
  function CreationRequests(m: MediaFile): (r: seq<Request>)
    ensures |r| >= 1 && r[0] == CreateScene(SceneName(m.filename))
    ensures m.isImage || m.isVideo ==> |r| >= 2 && r[1].CreateInput? && r[1].scene == SceneName(m.filename) && r[1].input == SourceName(m.filename)
    ensures !m.isImage && !m.isVideo ==> |r| == 1
    ensures r[|r| - 1] == SetInputMute(SourceName(m.filename), true) <==> m.isVideo
  {
    [CreateScene(SceneName(m.filename))]
    + (if m.isImage then [CreateInput(SceneName(m.filename), SourceName(m.filename), "image_source")]
       else if m.isVideo then [CreateInput(SceneName(m.filename), SourceName(m.filename), "ffmpeg_source")]
       else [])
    + (if m.isVideo then [SetInputMute(SourceName(m.filename), true)] else [])
  }

  /** The creation requests of a whole catalog, item by item. */
  function AllCreationRequests(files: seq<MediaFile>): seq<Request> {
    if files == [] then []
    else AllCreationRequests(files[..|files| - 1]) + CreationRequests(files[|files| - 1])
  }

  lemma AppendAssociative<T>(a: seq<T>, b: seq<T>, c: seq<T>)
    ensures (a + b) + c == a + (b + c)
  {
  }

  lemma UnionStep<T>(base: set<T>, done: set<T>, next: set<T>, added: set<T>)
    requires next == done + added
    ensures base + next == (base + done) + added
  {
  }

  /** Creating one more item's scene adds its requests at the end. */
  lemma AllCreationRequestsAppend(files: seq<MediaFile>, m: MediaFile)
    ensures AllCreationRequests(files + [m]) == AllCreationRequests(files) + CreationRequests(m)
  {
    assert (files + [m])[..|files|] == files;
  }

  /** One more item adds its scene, and its input when it is playable. */
  lemma NamesAppend(files: seq<MediaFile>, m: MediaFile)
    ensures SceneNames(files + [m]) == SceneNames(files) + {SceneName(m.filename)}
    ensures InputNames(files + [m]) == InputNames(files) + (if m.isVideo || m.isImage then {SourceName(m.filename)} else {})
  {
  }

  /** An input left over from an earlier run of the signage system. */
  predicate SignageInput(name: string) {
    EndsWith(name, "_source")
  }

  /** A scene left over from an earlier run of the signage system. */
  predicate SignageScene(name: string) {
    EndsWith(name, "_scene") || name == WaitingScene
    || Contains(Lower(name), "slideshow") || Contains(Lower(name), "digital_signage")
  }

  /** The scenes left by the clean-up step of a rescan: on a fresh start
      (nothing managed) every signage scene goes, otherwise the managed ones. */
  function CleanedScenes(scenes: set<string>, managedScenes: set<string>, managedInputs: set<string>): set<string> {
    if managedScenes == {} && managedInputs == {} then set n | n in scenes && !SignageScene(n)
    else scenes - managedScenes
  }

  /** The inputs left by the clean-up step of a rescan: on a fresh start
      every `_source` input goes, otherwise the managed ones. */
  function CleanedInputs(inputs: set<string>, managedScenes: set<string>, managedInputs: set<string>): set<string> {
    if managedScenes == {} && managedInputs == {} then set n | n in inputs && !SignageInput(n)
    else inputs - managedInputs
  }

  /** The names the clean-up step removes, listed in `inputOrder` and
      `sceneOrder`. */
  ghost predicate CleanupOrders(scenes: set<string>, inputs: set<string>, managedScenes: set<string>, managedInputs: set<string>,
                          inputOrder: seq<string>, sceneOrder: seq<string>) {
    if managedScenes == {} && managedInputs == {} then
      (forall n :: n in inputOrder <==> n in inputs && SignageInput(n))
      && (forall n :: n in sceneOrder <==> n in scenes && SignageScene(n))
    else
      (forall n :: n in sceneOrder <==> n in managedScenes)
      && (forall n :: n in inputOrder <==> n in managedInputs)
  }

  /** The requests of the clean-up step: on a fresh start inputs go before
      scenes, otherwise scenes before inputs. */
  function CleanupRequests(managedScenes: set<string>, managedInputs: set<string>,
                           inputOrder: seq<string>, sceneOrder: seq<string>): seq<Request> {
    if managedScenes == {} && managedInputs == {} then InputRemovals(inputOrder) + SceneRemovals(sceneOrder)
    else SceneRemovals(sceneOrder) + InputRemovals(inputOrder)
  }

  /** The clean-up of a fresh start removes the waiting scene too, so when
      the rescan then activates it the compositor does not have it. */
  lemma FreshCleanupDropsWaitingScene(scenes: set<string>)
    ensures WaitingScene !in CleanedScenes(scenes, {}, {})
  {
    assert SignageScene(WaitingScene) by {
      assert EndsWith(WaitingScene, "_scene");
    }
  }

  /** The part of the manager a file deletion touches: the catalog, the
      managed names, and the compositor's scenes and inputs. */
  datatype CatalogState = CatalogState(mediaFiles: seq<MediaFile>, managedScenes: set<string>, managedInputs: set<string>,
                                       scenes: set<string>, inputs: set<string>)

  /** The state after `OnFileDeleted(filename)`: the file's items leave the
      catalog, its scene and input leave the managed sets, and the
      compositor drops each of them that was managed. */
  function Forget(st: CatalogState, filename: string): CatalogState {
    CatalogState(Without(st.mediaFiles, filename),
                 st.managedScenes - {SceneName(filename)}, st.managedInputs - {SourceName(filename)},
                 st.scenes - (st.managedScenes * {SceneName(filename)}),
                 st.inputs - (st.managedInputs * {SourceName(filename)}))
  }

  /** The state after the catalog was told that every file of `names` is
      gone, all at once. */
  function Forgotten(st: CatalogState, names: set<string>): CatalogState {
    CatalogState(WithoutAll(st.mediaFiles, names),
                 st.managedScenes - ScenesOf(names), st.managedInputs - InputsOf(names),
                 st.scenes - (st.managedScenes * ScenesOf(names)),
                 st.inputs - (st.managedInputs * InputsOf(names)))
  }

  /** Telling the catalog of no file changes nothing. */
  lemma ForgetNothing(st: CatalogState)
    ensures Forgotten(st, {}) == st
  {
    NestedPathsMatchNothing(st.mediaFiles, {});
  }

  /** Telling the catalog of deleted files one at a time, in any order,
      comes to telling it of all of them at once. */
  lemma ForgetStep(st: CatalogState, names: set<string>, filename: string)
    ensures Forget(Forgotten(st, names), filename) == Forgotten(st, names + {filename})
  {
    WithoutStep(st.mediaFiles, names, filename);
    var scenes, inputs := ScenesOf(names), InputsOf(names);
    assert ScenesOf(names + {filename}) == scenes + {SceneName(filename)};
    assert InputsOf(names + {filename}) == inputs + {SourceName(filename)};
    DropManagedStep(st.scenes, st.managedScenes, scenes, SceneName(filename));
    DropManagedStep(st.inputs, st.managedInputs, inputs, SourceName(filename));
  }

  /** Dropping the managed members of `a`, then the managed `x`, drops the
      managed members of `a + {x}`. */
  lemma DropManagedStep(present: set<string>, managed: set<string>, a: set<string>, x: string)
    ensures present - (managed * a) - ((managed - a) * {x}) == present - (managed * (a + {x}))
    ensures managed - a - {x} == managed - (a + {x})
  {
  }

  // ---------------------------------------------------------------------
  // The manager

  class ContentManager {
    const obs: Compositor
    const settings: MediaSettings
    var mediaFiles: seq<MediaFile>
    var currentIndex: nat
    var playbackStartTime: real
    var currentScene: Option<string>
    var rotationActive: bool
    var managedScenes: set<string>
    var managedInputs: set<string>
    var contentHash: string

    /** The managed sets are exactly the catalog's scenes and inputs, and
        the compositor holds all of them. */
    predicate Valid()
      reads this, obs
    {
      (forall m :: m in mediaFiles ==> m.isVideo || m.isImage)
      && managedScenes == SceneNames(mediaFiles)
      && managedInputs == InputNames(mediaFiles)
      && managedScenes <= obs.scenes
      && managedInputs <= obs.inputs
    }

    /** The part of the state a file deletion touches. */
    function State(): CatalogState
      reads this, obs
    {
      CatalogState(mediaFiles, managedScenes, managedInputs, obs.scenes, obs.inputs)
    }

    constructor (settings: MediaSettings, obs: Compositor)
      ensures this.settings == settings && this.obs == obs
      ensures mediaFiles == [] && currentIndex == 0 && playbackStartTime == 0.0
      ensures currentScene == None && !rotationActive && contentHash == ""
      ensures managedScenes == {} && managedInputs == {}
      ensures Valid()
    {
      this.settings := settings;
      this.obs := obs;
      mediaFiles := [];
      currentIndex := 0;
      playbackStartTime := 0.0;
      currentScene := None;
      rotationActive := false;
      managedScenes := {};
      managedInputs := {};
      contentHash := "";
    }

    /** Creates the waiting scene unless the compositor already has it. */
    method CreateWaitingScene()
      modifies obs
      ensures obs.scenes == old(obs.scenes) + {WaitingScene} && obs.inputs == old(obs.inputs)
      ensures obs.trace == old(obs.trace) + (if WaitingScene in old(obs.scenes) then [] else [CreateScene(WaitingScene)])
    {
      var existing := obs.GetSceneList();
      if WaitingScene in existing {
        return;
      }
      obs.CreateScene(WaitingScene);
    }

    /** Shows the waiting scene and stops the rotation. */
    method ActivateWaitingScene()
      modifies this`currentScene, this`rotationActive, obs
      ensures currentScene == Some(WaitingScene) && !rotationActive
      ensures obs.trace == old(obs.trace) + [SetProgramScene(WaitingScene)]
      ensures obs.scenes == old(obs.scenes) && obs.inputs == old(obs.inputs)
    {
      obs.SetProgramScene(WaitingScene);
      currentScene := Some(WaitingScene);
      rotationActive := false;
    }

    /** Shows the item at `index`; an index past the end does nothing. */
    method SwitchToMedia(index: nat)
      modifies this`currentScene, obs
      ensures index < |mediaFiles| ==>
        currentScene == Some(SceneName(mediaFiles[index].filename))
        && obs.trace == old(obs.trace) + [SetProgramScene(SceneName(mediaFiles[index].filename))]
      ensures index >= |mediaFiles| ==> currentScene == old(currentScene) && obs.trace == old(obs.trace)
      ensures obs.scenes == old(obs.scenes) && obs.inputs == old(obs.inputs)
    {
      if index >= |mediaFiles| {
        return;
      }
      var scene := SceneName(mediaFiles[index].filename);
      obs.SetProgramScene(scene);
      currentScene := Some(scene);
    }

    /** One tick of the show: when the current item's time is up, move to
        the next item (wrapping round) and restart the clock. */
    method ProcessContentRotation(now: real)
      requires Valid()
      modifies this`currentIndex, this`playbackStartTime, this`currentScene, obs
      ensures Valid()
      ensures obs.scenes == old(obs.scenes) && obs.inputs == old(obs.inputs)
      ensures !old(rotationActive) || old(mediaFiles) == [] ==>
        currentIndex == old(currentIndex) && playbackStartTime == old(playbackStartTime)
        && currentScene == old(currentScene) && obs.trace == old(obs.trace)
      ensures old(rotationActive) && old(mediaFiles) != [] ==>
        var n := |mediaFiles|;
        var i := if old(currentIndex) >= n then 0 else old(currentIndex);
        if now - old(playbackStartTime) >= SwitchTime(mediaFiles[i], settings.transitionStartOffset) then
          currentIndex == NextIndex(i, n) && playbackStartTime == now
          && currentScene == Some(SceneName(mediaFiles[currentIndex].filename))
          && obs.trace == old(obs.trace) + [SetProgramScene(SceneName(mediaFiles[currentIndex].filename))]
        else
          currentIndex == i && playbackStartTime == old(playbackStartTime)
          && currentScene == old(currentScene) && obs.trace == old(obs.trace)
      ensures old(rotationActive) && old(mediaFiles) != [] ==> currentIndex < |mediaFiles|
    {
      if !rotationActive || mediaFiles == [] {
        return;
      }
      var elapsed := now - playbackStartTime;
      if currentIndex >= |mediaFiles| {
        currentIndex := 0;
      }
      var current := mediaFiles[currentIndex];
      var switchTime := SwitchTime(current, settings.transitionStartOffset);
      if elapsed >= switchTime {
        var next := NextIndex(currentIndex, |mediaFiles|);
        SwitchToMedia(next);
        currentIndex := next;
        playbackStartTime := now;
      }
    }

    /** Handles a file removed from the server: drops its scene, then its
        input, then its items; if its scene was on screen, restarts the show
        from the first item. */
    method OnFileDeleted(filename: string, now: real)
      requires Valid()
      modifies this`mediaFiles, this`managedScenes, this`managedInputs, this`currentIndex, this`currentScene, this`playbackStartTime, obs
      ensures Valid()
      ensures State() == Forget(old(State()), filename)
      ensures mediaFiles == Without(old(mediaFiles), filename)
      ensures managedScenes == old(managedScenes) - {SceneName(filename)}
      ensures managedInputs == old(managedInputs) - {SourceName(filename)}
      ensures obs.scenes == old(obs.scenes) - (old(managedScenes) * {SceneName(filename)})
      ensures obs.inputs == old(obs.inputs) - (old(managedInputs) * {SourceName(filename)})
      ensures old(currentScene) == Some(SceneName(filename)) && mediaFiles != [] ==>
        currentIndex == 0 && playbackStartTime == now
        && currentScene == Some(SceneName(mediaFiles[0].filename))
        && obs.trace == old(obs.trace) + DeletionRequests(filename, old(managedScenes), old(managedInputs))
                        + [SetProgramScene(SceneName(mediaFiles[0].filename))]
      ensures !(old(currentScene) == Some(SceneName(filename)) && mediaFiles != []) ==>
        currentIndex == old(currentIndex) && playbackStartTime == old(playbackStartTime)
        && currentScene == old(currentScene)
        && obs.trace == old(obs.trace) + DeletionRequests(filename, old(managedScenes), old(managedInputs))
    {
      ForgetFile(filename);
      if currentScene == Some(SceneName(filename)) && mediaFiles != [] {
        currentIndex := 0;
        SwitchToMedia(0);
        playbackStartTime := now;
      }
    }

    /** The removal part of `OnFileDeleted`: the file's scene and input go
        (each only when managed) and its items leave the catalog. */
    method ForgetFile(filename: string)
      requires Valid()
      modifies this`mediaFiles, this`managedScenes, this`managedInputs, obs
      ensures Valid()
      ensures mediaFiles == Without(old(mediaFiles), filename)
      ensures managedScenes == old(managedScenes) - {SceneName(filename)}
      ensures managedInputs == old(managedInputs) - {SourceName(filename)}
      ensures obs.scenes == old(obs.scenes) - (old(managedScenes) * {SceneName(filename)})
      ensures obs.inputs == old(obs.inputs) - (old(managedInputs) * {SourceName(filename)})
      ensures obs.trace == old(obs.trace) + DeletionRequests(filename, old(managedScenes), old(managedInputs))
    {
      var scene, source := SceneName(filename), SourceName(filename);
      ghost var sceneStep := if scene in managedScenes then [RemoveScene(scene)] else [];
      ghost var inputStep := if source in managedInputs then [RemoveInput(source)] else [];
      if scene in managedScenes {
        obs.RemoveScene(scene);
        managedScenes := managedScenes - {scene};
      }
      if source in managedInputs {
        obs.RemoveInput(source);
        managedInputs := managedInputs - {source};
      }
      AppendAssociative(old(obs.trace), sceneStep, inputStep);
      SceneNamesWithout(mediaFiles, filename);
      InputNamesWithout(mediaFiles, filename);
      mediaFiles := Without(mediaFiles, filename);
    }

    /** Removes every managed scene, then every managed input. */
    method CleanupOldContent() returns (ghost sceneOrder: seq<string>, ghost inputOrder: seq<string>)
      modifies this`managedScenes, this`managedInputs, obs
      ensures managedScenes == {} && managedInputs == {}
      ensures obs.scenes == old(obs.scenes) - old(managedScenes)
      ensures obs.inputs == old(obs.inputs) - old(managedInputs)
      ensures forall n :: n in sceneOrder <==> n in old(managedScenes)
      ensures forall n :: n in inputOrder <==> n in old(managedInputs)
      ensures obs.trace == old(obs.trace) + SceneRemovals(sceneOrder) + InputRemovals(inputOrder)
    {
      sceneOrder := RemoveManagedScenes();
      inputOrder := RemoveManagedInputs();
    }

    /** The scene half of `CleanupOldContent`. */
    method RemoveManagedScenes() returns (ghost order: seq<string>)
      modifies this`managedScenes, obs
      ensures managedScenes == {}
      ensures obs.scenes == old(obs.scenes) - old(managedScenes) && obs.inputs == old(obs.inputs)
      ensures forall n :: n in order <==> n in old(managedScenes)
      ensures obs.trace == old(obs.trace) + SceneRemovals(order)
    {
      order := [];
      while managedScenes != {}
        invariant managedScenes <= old(managedScenes)
        invariant forall n :: n in order <==> n in old(managedScenes) - managedScenes
        invariant obs.scenes == old(obs.scenes) - (old(managedScenes) - managedScenes)
        invariant obs.inputs == old(obs.inputs)
        invariant obs.trace == old(obs.trace) + SceneRemovals(order)
        decreases |managedScenes|
      {
        var name :| name in managedScenes;
        obs.RemoveScene(name);
        managedScenes := managedScenes - {name};
        assert (order + [name])[..|order|] == order;
        order := order + [name];
      }
    }

    /** The input half of `CleanupOldContent`. */
    method RemoveManagedInputs() returns (ghost order: seq<string>)
      modifies this`managedInputs, obs
      ensures managedInputs == {}
      ensures obs.inputs == old(obs.inputs) - old(managedInputs) && obs.scenes == old(obs.scenes)
      ensures forall n :: n in order <==> n in old(managedInputs)
      ensures obs.trace == old(obs.trace) + InputRemovals(order)
    {
      order := [];
      while managedInputs != {}
        invariant managedInputs <= old(managedInputs)
        invariant forall n :: n in order <==> n in old(managedInputs) - managedInputs
        invariant obs.inputs == old(obs.inputs) - (old(managedInputs) - managedInputs)
        invariant obs.scenes == old(obs.scenes)
        invariant obs.trace == old(obs.trace) + InputRemovals(order)
        decreases |managedInputs|
      {
        var name :| name in managedInputs;
        obs.RemoveInput(name);
        managedInputs := managedInputs - {name};
        assert (order + [name])[..|order|] == order;
        order := order + [name];
      }
    }

    /** First-run cleanup: removes every input named like an item input,
        then every scene that looks like one of an earlier run. */
    method CleanupAllDigitalSignageContent() returns (ghost removedInputs: seq<string>, ghost removedScenes: seq<string>)
      modifies obs
      ensures obs.inputs == set n | n in old(obs.inputs) && !SignageInput(n)
      ensures obs.scenes == set n | n in old(obs.scenes) && !SignageScene(n)
      ensures forall n :: n in removedInputs <==> n in old(obs.inputs) && SignageInput(n)
      ensures forall n :: n in removedScenes <==> n in old(obs.scenes) && SignageScene(n)
      ensures obs.trace == old(obs.trace) + InputRemovals(removedInputs) + SceneRemovals(removedScenes)
    {
      removedInputs := RemoveSourceInputs();
      removedScenes := RemoveSignageScenes();
    }

    /** The input half of `CleanupAllDigitalSignageContent`. */
    method RemoveSourceInputs() returns (ghost removed: seq<string>)
      modifies obs
      ensures obs.inputs == set n | n in old(obs.inputs) && !SignageInput(n)
      ensures obs.scenes == old(obs.scenes)
      ensures forall n :: n in removed <==> n in old(obs.inputs) && SignageInput(n)
      ensures obs.trace == old(obs.trace) + InputRemovals(removed)
    {
      var allInputs := obs.GetInputList();
      removed := [];
      for i := 0 to |allInputs|
        invariant obs.scenes == old(obs.scenes)
        invariant forall n :: n in removed <==> n in allInputs[..i] && SignageInput(n)
        invariant forall n :: n in obs.inputs <==> n in old(obs.inputs) && !(n in allInputs[..i] && SignageInput(n))
        invariant obs.trace == old(obs.trace) + InputRemovals(removed)
      {
        assert allInputs[..i + 1] == allInputs[..i] + [allInputs[i]];
        if SignageInput(allInputs[i]) {
          obs.RemoveInput(allInputs[i]);
          assert (removed + [allInputs[i]])[..|removed|] == removed;
          removed := removed + [allInputs[i]];
        }
      }
      assert allInputs[..|allInputs|] == allInputs;
    }

    /** The scene half of `CleanupAllDigitalSignageContent`. */
    method RemoveSignageScenes() returns (ghost removed: seq<string>)
      modifies obs
      ensures obs.scenes == set n | n in old(obs.scenes) && !SignageScene(n)
      ensures obs.inputs == old(obs.inputs)
      ensures forall n :: n in removed <==> n in old(obs.scenes) && SignageScene(n)
      ensures obs.trace == old(obs.trace) + SceneRemovals(removed)
    {
      var allScenes := obs.GetSceneList();
      removed := [];
      for i := 0 to |allScenes|
        invariant obs.inputs == old(obs.inputs)
        invariant forall n :: n in removed <==> n in allScenes[..i] && SignageScene(n)
        invariant forall n :: n in obs.scenes <==> n in old(obs.scenes) && !(n in allScenes[..i] && SignageScene(n))
        invariant obs.trace == old(obs.trace) + SceneRemovals(removed)
      {
        assert allScenes[..i + 1] == allScenes[..i] + [allScenes[i]];
        if SignageScene(allScenes[i]) {
          obs.RemoveScene(allScenes[i]);
          assert (removed + [allScenes[i]])[..|removed|] == removed;
          removed := removed + [allScenes[i]];
        }
      }
      assert allScenes[..|allScenes|] == allScenes;
    }

    /** Removes every scene that is neither managed nor the waiting scene. */
    method CleanupOrphanedScenes() returns (ghost removed: seq<string>)
      modifies obs
      ensures obs.scenes == old(obs.scenes) * (managedScenes + {WaitingScene})
      ensures obs.inputs == old(obs.inputs)
      ensures forall n :: n in removed <==> n in old(obs.scenes) && n !in managedScenes && n != WaitingScene
      ensures obs.trace == old(obs.trace) + SceneRemovals(removed)
    {
      var allScenes := obs.GetSceneList();
      var keep := managedScenes + {WaitingScene};
      removed := [];
      for i := 0 to |allScenes|
        invariant obs.inputs == old(obs.inputs)
        invariant forall n :: n in removed <==> n in allScenes[..i] && n !in keep
        invariant forall n :: n in obs.scenes <==> n in old(obs.scenes) && !(n in allScenes[..i] && n !in keep)
        invariant obs.trace == old(obs.trace) + SceneRemovals(removed)
      {
        assert allScenes[..i + 1] == allScenes[..i] + [allScenes[i]];
        if allScenes[i] !in keep {
          obs.RemoveScene(allScenes[i]);
          assert (removed + [allScenes[i]])[..|removed|] == removed;
          removed := removed + [allScenes[i]];
        }
      }
      assert allScenes[..|allScenes|] == allScenes;
    }

    /** Creates the scene and input of one item and records them. */
    method CreateSceneForMedia(m: MediaFile)
      modifies this`managedScenes, this`managedInputs, obs
      ensures managedScenes == old(managedScenes) + {SceneName(m.filename)}
      ensures managedInputs == old(managedInputs) + (if m.isVideo || m.isImage then {SourceName(m.filename)} else {})
      ensures obs.scenes == old(obs.scenes) + {SceneName(m.filename)}
      ensures obs.inputs == old(obs.inputs) + (if m.isVideo || m.isImage then {SourceName(m.filename)} else {})
      ensures obs.trace == old(obs.trace) + CreationRequests(m)
    {
      var scene, source := SceneName(m.filename), SourceName(m.filename);
      obs.CreateScene(scene);
      managedScenes := managedScenes + {scene};
      var kind;
      if m.isImage {
        kind := "image_source";
      } else if m.isVideo {
        kind := "ffmpeg_source";
      } else {
        return;
      }
      obs.CreateInput(scene, source, kind);
      managedInputs := managedInputs + {source};
      if m.isVideo {
        obs.SetInputMute(source, true);
      }
    }

    /** Creates the scenes of every item of the catalog, in order. */
    method CreateScenesForMedia()
      modifies this`managedScenes, this`managedInputs, obs
      ensures managedScenes == old(managedScenes) + SceneNames(mediaFiles)
      ensures managedInputs == old(managedInputs) + InputNames(mediaFiles)
      ensures obs.scenes == old(obs.scenes) + SceneNames(mediaFiles)
      ensures obs.inputs == old(obs.inputs) + InputNames(mediaFiles)
      ensures obs.trace == old(obs.trace) + AllCreationRequests(mediaFiles)
    {
      var files := mediaFiles;
      for i := 0 to |files|
        invariant managedScenes == old(managedScenes) + SceneNames(files[..i])
        invariant managedInputs == old(managedInputs) + InputNames(files[..i])
        invariant obs.scenes == old(obs.scenes) + SceneNames(files[..i])
        invariant obs.inputs == old(obs.inputs) + InputNames(files[..i])
        invariant obs.trace == old(obs.trace) + AllCreationRequests(files[..i])
      {
        var m := files[i];
        ghost var done, next := files[..i], files[..i + 1];
        assert next == done + [m];
        CreateSceneForMedia(m);
        NamesAppend(done, m);
        ghost var newInputs := if m.isVideo || m.isImage then {SourceName(m.filename)} else {};
        UnionStep(old(managedScenes), SceneNames(done), SceneNames(next), {SceneName(m.filename)});
        UnionStep(old(obs.scenes), SceneNames(done), SceneNames(next), {SceneName(m.filename)});
        UnionStep(old(managedInputs), InputNames(done), InputNames(next), newInputs);
        UnionStep(old(obs.inputs), InputNames(done), InputNames(next), newInputs);
        AllCreationRequestsAppend(done, m);
        assert obs.trace == old(obs.trace) + AllCreationRequests(next) by {
          AppendAssociative(old(obs.trace), AllCreationRequests(done), CreationRequests(m));
        }
      }
      assert files[..|files|] == files;
    }

    /** Works out the display length of every item. */
    method CalculateMediaDurations(probe: string -> Probe)
      modifies this`mediaFiles
      ensures mediaFiles == WithDurations(old(mediaFiles), settings, probe)
    {
      for i := 0 to |mediaFiles|
        invariant |mediaFiles| == |old(mediaFiles)|
        invariant forall j :: 0 <= j < i ==> mediaFiles[j] == WithDuration(old(mediaFiles)[j], settings, probe)
        invariant forall j :: i <= j < |mediaFiles| ==> mediaFiles[j] == old(mediaFiles)[j]
      {
        var m := mediaFiles[i];
        var p := probe(m.path);
        mediaFiles := mediaFiles[i := m.(duration := DurationFor(m, settings, p))];
      }
    }

    /** Rescans the content directory.  When its key is unchanged and there
        is a catalog, nothing happens.  Otherwise the old scenes are cleaned
        up (everything that looks like signage content when nothing is
        managed yet, else just the managed scenes and inputs) and the catalog
        is rebuilt: its scenes and inputs are created in catalog order, every
        other scene but the waiting one is removed, and the first item is
        shown.  With no playable file the waiting scene is shown instead. */
    method ScanAndUpdateContent(entries: seq<DirEntry>, probe: string -> Probe, now: real)
      returns (ghost inputOrder: seq<string>, ghost sceneOrder: seq<string>, ghost orphans: seq<string>)
      requires Valid()
      modifies this, obs
      ensures Valid()
      ensures ContentKey(Scanned(entries)) == old(contentHash) && old(mediaFiles) != [] ==>
        unchanged(this) && unchanged(obs)
      ensures !(ContentKey(Scanned(entries)) == old(contentHash) && old(mediaFiles) != []) ==>
        contentHash == ContentKey(Scanned(entries)) && mediaFiles == Catalog(entries, settings, probe)
        && CleanupOrders(old(obs.scenes), old(obs.inputs), old(managedScenes), old(managedInputs), inputOrder, sceneOrder)
      ensures !(ContentKey(Scanned(entries)) == old(contentHash) && old(mediaFiles) != []) && mediaFiles == [] ==>
        !rotationActive && currentScene == Some(WaitingScene) && managedScenes == {} && managedInputs == {}
        && currentIndex == old(currentIndex) && playbackStartTime == old(playbackStartTime)
        && obs.scenes == CleanedScenes(old(obs.scenes), old(managedScenes), old(managedInputs))
        && obs.inputs == CleanedInputs(old(obs.inputs), old(managedScenes), old(managedInputs))
        && obs.trace == old(obs.trace) + CleanupRequests(old(managedScenes), old(managedInputs), inputOrder, sceneOrder)
                        + [SetProgramScene(WaitingScene)]
      ensures !(ContentKey(Scanned(entries)) == old(contentHash) && old(mediaFiles) != []) && mediaFiles != [] ==>
        var cleaned := CleanedScenes(old(obs.scenes), old(managedScenes), old(managedInputs));
        rotationActive && currentIndex == 0 && playbackStartTime == now
        && currentScene == Some(SceneName(mediaFiles[0].filename))
        && obs.scenes == SceneNames(mediaFiles) + (cleaned * {WaitingScene})
        && obs.inputs == CleanedInputs(old(obs.inputs), old(managedScenes), old(managedInputs)) + InputNames(mediaFiles)
        && (forall n :: n in orphans <==> n in cleaned && n !in SceneNames(mediaFiles) && n != WaitingScene)
        && obs.trace == old(obs.trace) + CleanupRequests(old(managedScenes), old(managedInputs), inputOrder, sceneOrder)
                        + AllCreationRequests(mediaFiles) + SceneRemovals(orphans)
                        + [SetProgramScene(SceneName(mediaFiles[0].filename))]
      ensures (!(ContentKey(Scanned(entries)) == old(contentHash) && old(mediaFiles) != []) && mediaFiles == []
               && old(managedScenes) == {} && old(managedInputs) == {}) ==> WaitingScene !in obs.scenes
    {
      inputOrder, sceneOrder, orphans := [], [], [];
      var scanned := ScanContentDirectory(entries);
      var key := ContentKey(scanned);
      if key == contentHash && mediaFiles != [] {
        return;
      }
      inputOrder, sceneOrder, orphans := Rebuild(entries, scanned, key, probe, now);
    }

    /** The changed-content branch of `ScanAndUpdateContent`. */
    method Rebuild(ghost entries: seq<DirEntry>, scanned: seq<MediaFile>, key: string, probe: string -> Probe, now: real)
      returns (ghost inputOrder: seq<string>, ghost sceneOrder: seq<string>, ghost orphans: seq<string>)
      requires scanned == Scanned(entries)
      modifies this, obs
      ensures Valid()
      ensures contentHash == key && mediaFiles == Catalog(entries, settings, probe)
      ensures CleanupOrders(old(obs.scenes), old(obs.inputs), old(managedScenes), old(managedInputs), inputOrder, sceneOrder)
      ensures mediaFiles == [] ==>
        !rotationActive && currentScene == Some(WaitingScene) && managedScenes == {} && managedInputs == {}
        && currentIndex == old(currentIndex) && playbackStartTime == old(playbackStartTime)
        && obs.scenes == CleanedScenes(old(obs.scenes), old(managedScenes), old(managedInputs))
        && obs.inputs == CleanedInputs(old(obs.inputs), old(managedScenes), old(managedInputs))
        && obs.trace == old(obs.trace) + CleanupRequests(old(managedScenes), old(managedInputs), inputOrder, sceneOrder)
                        + [SetProgramScene(WaitingScene)]
      ensures mediaFiles != [] ==>
        var cleaned := CleanedScenes(old(obs.scenes), old(managedScenes), old(managedInputs));
        rotationActive && currentIndex == 0 && playbackStartTime == now
        && currentScene == Some(SceneName(mediaFiles[0].filename))
        && obs.scenes == SceneNames(mediaFiles) + (cleaned * {WaitingScene})
        && obs.inputs == CleanedInputs(old(obs.inputs), old(managedScenes), old(managedInputs)) + InputNames(mediaFiles)
        && (forall n :: n in orphans <==> n in cleaned && n !in SceneNames(mediaFiles) && n != WaitingScene)
        && obs.trace == old(obs.trace) + CleanupRequests(old(managedScenes), old(managedInputs), inputOrder, sceneOrder)
                        + AllCreationRequests(mediaFiles) + SceneRemovals(orphans)
                        + [SetProgramScene(SceneName(mediaFiles[0].filename))]
      ensures mediaFiles == [] && old(managedScenes) == {} && old(managedInputs) == {} ==> WaitingScene !in obs.scenes
    {
      ghost var before, ms, mi := obs.scenes, managedScenes, managedInputs;
      contentHash := key;
      inputOrder, sceneOrder := ClearManaged();
      ghost var cleaned, cleanedInputs, cleanedTrace := obs.scenes, obs.inputs, obs.trace;
      if ms == {} && mi == {} {
        FreshCleanupDropsWaitingScene(before);
      }
      orphans := Install(entries, scanned, probe, now);
      assert mediaFiles != [] ==> obs.scenes == SceneNames(mediaFiles) + (cleaned * {WaitingScene});
    }

    /** Installs a rescanned catalog once the old content is cleared: an
        empty one leaves the waiting scene on the program, any other is
        started from its first item. */
    method Install(ghost entries: seq<DirEntry>, scanned: seq<MediaFile>, probe: string -> Probe, now: real)
      returns (ghost orphans: seq<string>)
      requires scanned == Scanned(entries) && managedScenes == {} && managedInputs == {}
      modifies this`mediaFiles, this`managedScenes, this`managedInputs, this`currentIndex, this`rotationActive, this`currentScene, this`playbackStartTime, obs
      ensures Valid()
      ensures mediaFiles == Catalog(entries, settings, probe)
      ensures mediaFiles == [] ==>
        !rotationActive && currentScene == Some(WaitingScene) && managedScenes == {} && managedInputs == {}
        && currentIndex == old(currentIndex) && playbackStartTime == old(playbackStartTime)
        && obs.scenes == old(obs.scenes) && obs.inputs == old(obs.inputs)
        && obs.trace == old(obs.trace) + [SetProgramScene(WaitingScene)]
      ensures mediaFiles != [] ==>
        rotationActive && currentIndex == 0 && playbackStartTime == now
        && currentScene == Some(SceneName(mediaFiles[0].filename))
        && obs.scenes == SceneNames(mediaFiles) + (old(obs.scenes) * {WaitingScene})
        && obs.inputs == old(obs.inputs) + InputNames(mediaFiles)
        && (forall n :: n in orphans <==> n in old(obs.scenes) && n !in SceneNames(mediaFiles) && n != WaitingScene)
        && obs.trace == old(obs.trace) + AllCreationRequests(mediaFiles) + SceneRemovals(orphans)
                        + [SetProgramScene(SceneName(mediaFiles[0].filename))]
    {
      mediaFiles := scanned;
      orphans := [];
      if mediaFiles == [] {
        EmptyCatalog(entries, settings, probe);
        ActivateWaitingScene();
        return;
      }
      orphans := StartCatalog(entries, probe, now);
    }

    /** The clean-up step of `ScanAndUpdateContent`: with nothing managed
        (a fresh start), every signage scene and input left in the
        compositor goes; otherwise the managed ones do. */
    method ClearManaged() returns (ghost inputOrder: seq<string>, ghost sceneOrder: seq<string>)
      modifies this`managedScenes, this`managedInputs, obs
      ensures managedScenes == {} && managedInputs == {}
      ensures obs.scenes == CleanedScenes(old(obs.scenes), old(managedScenes), old(managedInputs))
      ensures obs.inputs == CleanedInputs(old(obs.inputs), old(managedScenes), old(managedInputs))
      ensures CleanupOrders(old(obs.scenes), old(obs.inputs), old(managedScenes), old(managedInputs), inputOrder, sceneOrder)
      ensures obs.trace == old(obs.trace) + CleanupRequests(old(managedScenes), old(managedInputs), inputOrder, sceneOrder)
    {
      ghost var scenes, inputs, ms, mi := obs.scenes, obs.inputs, managedScenes, managedInputs;
      if managedScenes == {} && managedInputs == {} {
        inputOrder, sceneOrder := CleanupAllDigitalSignageContent();
        assert CleanupRequests(ms, mi, inputOrder, sceneOrder) == InputRemovals(inputOrder) + SceneRemovals(sceneOrder);
        assert CleanupOrders(scenes, inputs, ms, mi, inputOrder, sceneOrder);
      } else {
        sceneOrder, inputOrder := CleanupOldContent();
        assert CleanupRequests(ms, mi, inputOrder, sceneOrder) == SceneRemovals(sceneOrder) + InputRemovals(inputOrder);
        assert CleanupOrders(scenes, inputs, ms, mi, inputOrder, sceneOrder);
      }
    }

    /** The rebuilding part of `ScanAndUpdateContent`: orders and times the
        scanned files, creates their scenes, removes every other scene but
        the waiting one, and starts the show at the first item. */
    method StartCatalog(ghost entries: seq<DirEntry>, probe: string -> Probe, now: real) returns (ghost orphans: seq<string>)
      requires mediaFiles == Scanned(entries) && mediaFiles != []
      requires managedScenes == {} && managedInputs == {}
      modifies this`mediaFiles, this`managedScenes, this`managedInputs, this`currentIndex, this`rotationActive, this`currentScene, this`playbackStartTime, obs
      ensures Valid()
      ensures mediaFiles == Catalog(entries, settings, probe) && mediaFiles != []
      ensures rotationActive && currentIndex == 0 && playbackStartTime == now
      ensures currentScene == Some(SceneName(mediaFiles[0].filename))
      ensures obs.scenes == SceneNames(mediaFiles) + (old(obs.scenes) * {WaitingScene})
      ensures obs.inputs == old(obs.inputs) + InputNames(mediaFiles)
      ensures forall n :: n in orphans <==> n in old(obs.scenes) && n !in SceneNames(mediaFiles) && n != WaitingScene
      ensures obs.trace == old(obs.trace) + AllCreationRequests(mediaFiles) + SceneRemovals(orphans)
                           + [SetProgramScene(SceneName(mediaFiles[0].filename))]
    {
      PrepareCatalog(entries, probe);
      orphans := Launch(now);
    }

    /** Creates the scenes of a fresh catalog, clears out the others and
        starts the show at its first item. */
    method Launch(now: real) returns (ghost orphans: seq<string>)
      requires mediaFiles != [] && managedScenes == {} && managedInputs == {}
      requires forall m :: m in mediaFiles ==> m.isVideo || m.isImage
      modifies this`managedScenes, this`managedInputs, this`currentIndex, this`rotationActive, this`currentScene, this`playbackStartTime, obs
      ensures Valid()
      ensures rotationActive && currentIndex == 0 && playbackStartTime == now
      ensures currentScene == Some(SceneName(mediaFiles[0].filename))
      ensures obs.scenes == SceneNames(mediaFiles) + (old(obs.scenes) * {WaitingScene})
      ensures obs.inputs == old(obs.inputs) + InputNames(mediaFiles)
      ensures forall n :: n in orphans <==> n in old(obs.scenes) && n !in SceneNames(mediaFiles) && n != WaitingScene
      ensures obs.trace == old(obs.trace) + AllCreationRequests(mediaFiles) + SceneRemovals(orphans)
                           + [SetProgramScene(SceneName(mediaFiles[0].filename))]
    {
      orphans := CreateCatalogScenes();
      currentIndex := 0;
      rotationActive := true;
      SwitchToMedia(0);
      playbackStartTime := now;
    }

    /** Creates the scenes of a fresh catalog and removes every scene that
        is neither one of them nor the waiting scene. */
    method CreateCatalogScenes() returns (ghost orphans: seq<string>)
      requires managedScenes == {} && managedInputs == {}
      requires forall m :: m in mediaFiles ==> m.isVideo || m.isImage
      modifies this`managedScenes, this`managedInputs, obs
      ensures Valid()
      ensures obs.scenes == SceneNames(mediaFiles) + (old(obs.scenes) * {WaitingScene})
      ensures obs.inputs == old(obs.inputs) + InputNames(mediaFiles)
      ensures forall n :: n in orphans <==> n in old(obs.scenes) && n !in SceneNames(mediaFiles) && n != WaitingScene
      ensures obs.trace == old(obs.trace) + AllCreationRequests(mediaFiles) + SceneRemovals(orphans)
    {
      CreateScenesForMedia();
      ghost var created := obs.scenes;
      orphans := CleanupOrphanedScenes();
      assert obs.scenes == created * (SceneNames(mediaFiles) + {WaitingScene});
    }

    /** Sorts the scanned files by lower-cased name and works out their
        display lengths. */
    method PrepareCatalog(ghost entries: seq<DirEntry>, probe: string -> Probe)
      requires mediaFiles == Scanned(entries) && mediaFiles != []
      modifies this`mediaFiles
      ensures mediaFiles == Catalog(entries, settings, probe) && mediaFiles != []
      ensures forall m :: m in mediaFiles ==> m.isVideo || m.isImage
    {
      mediaFiles := SortBy(mediaFiles, LowerName);
      CalculateMediaDurations(probe);
      CatalogIsPlayable(entries, settings, probe);
    }
  }
}
