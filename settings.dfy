/**
 * The configuration pieces the core depends on: the supported-format
 * tables, the media timing settings, which `.env` file is read, and how
 * one `.env` file is loaded into the process environment.
 */
module Settings {
  import opened Wrappers
  import opened Text

  const VideoFormats: set<string> := {".mp4", ".mov", ".avi", ".mkv", ".wmv", ".webm", ".m4v"}
  const ImageFormats: set<string> := {".jpg", ".jpeg", ".png", ".bmp", ".gif", ".tiff", ".webp"}
  const AudioFormats: set<string> := {".mp3", ".wav", ".ogg", ".flac", ".m4a"}

  /** The three format tables share no extension. */
  lemma FormatTablesDisjoint()
    ensures VideoFormats !! ImageFormats
    ensures VideoFormats !! AudioFormats
    ensures ImageFormats !! AudioFormats
  {
  }

  /** `Path(name).suffix.lower()`, the key every format check uses. */
  function Extension(name: string): string {
    Lower(Suffix(name))
  }

  predicate IsVideoName(name: string) {
    Extension(name) in VideoFormats
  }

  predicate IsImageName(name: string) {
    Extension(name) in ImageFormats
  }

  predicate IsAudioName(name: string) {
    Extension(name) in AudioFormats
  }

  /** A file name is of at most one kind. */
  lemma AtMostOneKind(name: string)
    ensures !(IsVideoName(name) && IsImageName(name))
    ensures !(IsVideoName(name) && IsAudioName(name))
    ensures !(IsImageName(name) && IsAudioName(name))
  {
    FormatTablesDisjoint();
  }

  /** The media timing settings the catalog uses. */
  datatype MediaSettings = MediaSettings(
    slideTransitionSeconds: int,  // SLIDE_TRANSITION_SECONDS: display time of an image
    maxVideoDuration: int,        // MAX_VIDEO_DURATION: cap on a probed video length
    transitionStartOffset: real   // TRANSITION_START_OFFSET: how early a video is cut
  )

  /** The values used when the environment sets none of the three. */
  const DefaultMediaSettings := MediaSettings(8, 900, 2.0)

  /** `os.getenv("ENVIRONMENT", "development")`. */
  function EnvironmentName(environ: map<string, string>): (r: string)
    ensures "ENVIRONMENT" !in environ ==> r == "development"
    ensures "ENVIRONMENT" in environ ==> r == environ["ENVIRONMENT"]
  {
    if "ENVIRONMENT" in environ then environ["ENVIRONMENT"] else "development"
  }

  /** The `.env` file chosen for an environment name (its file name inside
      the repository's `config` directory). */
  function EnvFileName(environment: string): (r: string)
    ensures r == "ubuntu_prod.env" <==> environment == "production"
    ensures r == "windows_test.env" <==> environment != "production"
  {
    if environment == "production" then "ubuntu_prod.env" else "windows_test.env"
  }

  /** A development machine with no ENVIRONMENT variable reads the test file. */
  lemma UnsetEnvironmentReadsTestFile(environ: map<string, string>)
    requires "ENVIRONMENT" !in environ
    ensures EnvFileName(EnvironmentName(environ)) == "windows_test.env"
  {
  }

  /** What one line of a `.env` file asks for: nothing, or `key = value`.
      The line is stripped; blank lines and `#` comments are ignored. */
  function ParseEnvLine(raw: string): (r: Option<(string, string)>)
    ensures Strip(raw) == [] || Strip(raw)[0] == '#' ==> r.None?
    ensures r.Some? ==> '=' !in r.value.0 && '#' !in r.value.1
    ensures r.Some? ==> Trimmed(r.value.0) && Trimmed(r.value.1)
  {
    var line := Strip(raw);
    if line != [] && line[0] != '#' then ParseAssignment(line) else None
  }

  /** A non-comment line: a line without `=` is ignored; otherwise the split
      is at the first `=`, and from the first `#` of the value on the rest
      is an inline comment; key and value are stripped. */
  function ParseAssignment(line: string): (r: Option<(string, string)>)
    ensures r.None? <==> '=' !in line
    ensures r.Some? ==> '=' !in r.value.0 && '#' !in r.value.1
    ensures r.Some? ==> Trimmed(r.value.0) && Trimmed(r.value.1)
  {
    if '=' in line then
      var i := FirstIndex(line, '=');
      var key, value := line[..i], line[i + 1..];
      var value' := if '#' in value then value[..FirstIndex(value, '#')] else value;
      StripNoNewChars(key, '=');
      StripNoNewChars(value', '#');
      Some((Strip(key), Strip(value')))
    else None
  }

  lemma {:induction false} StripNoNewChars(s: string, c: char)
    requires c !in s
    ensures c !in Strip(s)
  {
    LStripSlice(s);
    var l := LStrip(s);
    assert Strip(s) == l[..|Strip(s)|];
  }

  lemma {:induction false} LStripSlice(s: string)
    ensures forall x :: x in LStrip(s) ==> x in s
  {
    assert LStrip(s) == s[|s| - |LStrip(s)|..];
  }

  /** `os.environ[key] = value` raises for an empty name or an embedded NUL. */
  predicate Settable(key: string, value: string) {
    key != [] && '\0' !in key && '\0' !in value
  }

  /** A parsed line whose assignment the environment refuses; the error ends the load. */
  predicate Refused(entry: Option<(string, string)>) {
    entry.Some? && !Settable(entry.value.0, entry.value.1)
  }

  /** The environment after applying the parsed lines of a file to
      `environ`: every accepted assignment in order; a refused one ends the
      load, and the exception is swallowed with the assignments made so far
      kept. */
  function Loaded(environ: map<string, string>, entries: seq<Option<(string, string)>>): map<string, string>
    decreases entries
  {
    if entries == [] then environ
    else match entries[0]
      case None => Loaded(environ, entries[1..])
      case Some((key, value)) =>
        if Settable(key, value) then Loaded(environ[key := value], entries[1..]) else environ
  }

  /** The parsed lines of a file, in order. */
  function ParsedLines(lines: seq<string>): (r: seq<Option<(string, string)>>)
    ensures |r| == |lines|
    ensures forall i :: 0 <= i < |lines| ==> r[i] == ParseEnvLine(lines[i])
  {
    if lines == [] then [] else [ParseEnvLine(lines[0])] + ParsedLines(lines[1..])
  }

  /** Reads the lines of a `.env` file into the environment. */
  method LoadEnvFile(environ: map<string, string>, lines: seq<string>)
    returns (result: map<string, string>)
    ensures result == Loaded(environ, ParsedLines(lines))
    ensures environ.Keys <= result.Keys
    ensures forall k :: k in result && (k !in environ || result[k] != environ[k]) ==>
      Some((k, result[k])) in ParsedLines(lines)
  {
    ghost var entries := ParsedLines(lines);
    LoadedProvenance(environ, entries);
    result := environ;
    for i := 0 to |lines|
      invariant Loaded(environ, entries) == Loaded(result, entries[i..])
    {
      LoadedStep(result, entries[i..]);
      assert entries[i..][1..] == entries[i + 1..];
      var parsed := ParseEnvLine(lines[i]);
      if parsed.Some? {
        if !Settable(parsed.value.0, parsed.value.1) {
          return;
        }
        result := result[parsed.value.0 := parsed.value.1];
      }
    }
    assert entries[|lines|..] == [];
  }

  /** A load keeps every existing variable, and every variable it adds or
      changes holds a value assigned to it in the file. */
  lemma {:induction false} LoadedProvenance(environ: map<string, string>, entries: seq<Option<(string, string)>>)
    ensures var r := Loaded(environ, entries);
      environ.Keys <= r.Keys
      && forall k :: k in r && (k !in environ || r[k] != environ[k]) ==> Some((k, r[k])) in entries
    decreases entries
  {
    if entries != [] {
      assert entries == [entries[0]] + entries[1..];
      match entries[0]
      case None => LoadedProvenance(environ, entries[1..]);
      case Some((key, value)) =>
        if Settable(key, value) {
          LoadedProvenance(environ[key := value], entries[1..]);
        }
    }
  }

  /** The first entry's effect on a load. */
  lemma LoadedStep(environ: map<string, string>, entries: seq<Option<(string, string)>>)
    requires entries != []
    ensures entries[0].None? ==> Loaded(environ, entries) == Loaded(environ, entries[1..])
    ensures entries[0].Some? && Settable(entries[0].value.0, entries[0].value.1) ==>
      Loaded(environ, entries) == Loaded(environ[entries[0].value.0 := entries[0].value.1], entries[1..])
    ensures Refused(entries[0]) ==> Loaded(environ, entries) == environ
  {
  }

  /** Applying one more entry after a prefix with no refused entry. */
  lemma {:induction false} LoadAppend(environ: map<string, string>, entries: seq<Option<(string, string)>>, e: Option<(string, string)>)
    requires forall j :: 0 <= j < |entries| ==> !Refused(entries[j])
    ensures Loaded(environ, entries + [e]) ==
      match e
      case None => Loaded(environ, entries)
      case Some((key, value)) =>
        if Settable(key, value) then Loaded(environ, entries)[key := value]
        else Loaded(environ, entries)
    decreases entries
  {
    if entries == [] {
      assert [e][1..] == [];
    } else {
      assert (entries + [e])[1..] == entries[1..] + [e];
      assert !Refused(entries[0]);
      match entries[0]
      case None => LoadAppend(environ, entries[1..], e);
      case Some((key, value)) => LoadAppend(environ[key := value], entries[1..], e);
    }
  }

  /** When a later line of the file assigns a key again, the later value
      wins. */
  lemma LaterLineWins(environ: map<string, string>, entries: seq<Option<(string, string)>>, key: string, value: string)
    requires forall j :: 0 <= j < |entries| ==> !Refused(entries[j])
    requires Settable(key, value)
    ensures key in Loaded(environ, entries + [Some((key, value))])
    ensures Loaded(environ, entries + [Some((key, value))])[key] == value
  {
    LoadAppend(environ, entries, Some((key, value)));
  }

  /** A refused line ends the load: nothing after it is applied, and
      everything before it stays. */
  lemma {:induction false} ErrorKeepsEarlierAssignments(environ: map<string, string>, entries: seq<Option<(string, string)>>, i: nat)
    requires i < |entries| && Refused(entries[i])
    ensures Loaded(environ, entries) == Loaded(environ, entries[..i])
    decreases i
  {
    if i == 0 {
      assert entries[..0] == [];
    } else {
      assert entries[1..][..i - 1] == entries[..i][1..];
      match entries[0]
      case None => ErrorKeepsEarlierAssignments(environ, entries[1..], i - 1);
      case Some((key, value)) =>
        if Settable(key, value) {
          ErrorKeepsEarlierAssignments(environ[key := value], entries[1..], i - 1);
        }
    }
  }

  /** `KEY=VALUE` written without padding reads back as exactly that pair;
      the value may itself contain `=`. */
  lemma EnvLineRoundTrip(key: string, value: string)
    requires key != [] && key[0] != '#' && Trimmed(key) && Trimmed(value)
    requires '=' !in key && '#' !in value
    ensures ParseEnvLine(key + "=" + value) == Some((key, value))
  {
    var line := key + "=" + value;
    StripUnchanged(line);
    PlainSplit(key, value);
    StripUnchanged(key);
    StripUnchanged(value);
  }

  lemma PlainSplit(key: string, value: string)
    requires '=' !in key && '#' !in value
    ensures ParseAssignment(key + "=" + value) == Some((Strip(key), Strip(value)))
  {
    var line := key + "=" + value;
    SplitAtFirst(key, '=', value);
    assert line[..|key|] == key && line[|key| + 1..] == value;
  }

  /** The first `c` of `head + [c] + tail` is the one after `head`. */
  lemma SplitAtFirst(head: string, c: char, tail: string)
    requires c !in head
    ensures c in head + [c] + tail
    ensures FirstIndex(head + [c] + tail, c) == |head|
  {
    var s := head + [c] + tail;
    assert s[|head|] == c;
  }

  /** An inline comment is cut off at its `#` and the value re-stripped. */
  lemma InlineCommentDropped(key: string, value: string, comment: string)
    requires key != [] && key[0] != '#' && Trimmed(key)
    requires '=' !in key && '#' !in value
    requires comment == [] || !IsSpace(comment[|comment| - 1])
    ensures ParseEnvLine(key + "=" + value + "#" + comment) == Some((key, Strip(value)))
  {
    var line := key + "=" + value + "#" + comment;
    StripUnchanged(line);
    CommentSplit(key, value, comment);
    StripUnchanged(key);
  }

  lemma CommentSplit(key: string, value: string, comment: string)
    requires '=' !in key && '#' !in value
    ensures ParseAssignment(key + "=" + value + "#" + comment) == Some((Strip(key), Strip(value)))
  {
    var line := key + "=" + value + "#" + comment;
    var rest := value + "#" + comment;
    assert line == key + "=" + rest;
    SplitAtFirst(key, '=', rest);
    assert line[..|key|] == key && line[|key| + 1..] == rest;
    SplitAtFirst(value, '#', comment);
    assert rest[..|value|] == value;
  }
}
