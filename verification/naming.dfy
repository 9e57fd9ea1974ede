/**
 Names and paths the handlers derive from the generated unique id and the
 sanitized upload name: the stored input name, the converter's output names,
 the separator's candidate output directories, and the stem map it returns.
 The sanitizer and the id generator are not part of this model; their
 results arrive as plain strings. Whether a directory or file exists is a
 parameter of the lookups.
 */
module Naming {
  import opened Wrappers
  import opened Text

  /** Folder the uploads are saved in. */
  const UploadFolder: string := "static/uploads"

  /** Text form of a version-4 UUID: 36 characters, lower-case hex digits and hyphens. */
  predicate IsUuidText(u: string) {
    |u| == 36 && forall i :: 0 <= i < |u| ==> u[i] in "0123456789abcdef-"
  }

  /** The name an upload is saved under: `{uuid}_{sanitized}`. */
  function StoredName(uuid: string, sanitized: string): (r: string)
    ensures StartsWith(r, uuid + "_")
    ensures EndsWith(r, sanitized)
    ensures |r| == |uuid| + 1 + |sanitized|
  {
    assert (uuid + "_" + sanitized)[..|uuid| + 1] == uuid + "_";
    uuid + "_" + sanitized
  }

  /** The path an upload is saved at: the stored name inside the upload folder. */
  function InputPath(uuid: string, sanitized: string): (r: string)
    ensures StartsWith(r, UploadFolder + "/")
    ensures r[|UploadFolder| + 1..] == StoredName(uuid, sanitized)
  {
    UploadFolder + "/" + StoredName(uuid, sanitized)
  }

  /**
   Stored names never collide across ids: two stored names are equal only
   when both the id and the sanitized name are.
   */
  lemma StoredNameInjective(u1: string, n1: string, u2: string, n2: string)
    requires IsUuidText(u1) && IsUuidText(u2)
    requires StoredName(u1, n1) == StoredName(u2, n2)
    ensures u1 == u2 && n1 == n2
  {
    var s := StoredName(u1, n1);
    assert u1 == s[..36] == u2;
    assert n1 == s[37..] == n2;
  }

  /** The stem of the sanitized name, `os.path.splitext(name)[0]`. */
  function Stem(sanitized: string): (r: string)
    ensures StartsWith(sanitized, r)
  {
    assert sanitized[..|SplitExt(sanitized).0|] == SplitExt(sanitized).0;
    SplitExt(sanitized).0
  }

  /** The converted file's user-facing name: the stem with the target format as extension. */
  function OutputName(sanitized: string, format: string): (r: string)
    ensures EndsWith(r, "." + format)
    ensures StartsWith(r, Stem(sanitized))
    ensures |r| == |Stem(sanitized)| + 1 + |format|
  {
    var r := Stem(sanitized) + "." + format;
    assert r[..|Stem(sanitized)|] == Stem(sanitized);
    assert r[|r| - |"." + format|..] == "." + format;
    r
  }

  /** The converted file's name on the server: the id, an underscore, then the user-facing name. */
  function ServerOutputName(uuid: string, sanitized: string, format: string): (r: string)
    ensures StartsWith(r, uuid + "_")
    ensures EndsWith(r, "." + format)
    ensures EndsWith(r, OutputName(sanitized, format))
    ensures |r| == |uuid| + 1 + |OutputName(sanitized, format)|
  {
    var out := OutputName(sanitized, format);
    var r := StoredName(uuid, out);
    assert r[|r| - |"." + format|..] == out[|out| - |"." + format|..];
    r
  }

  /**
   When the stem has a non-dot character and the format no dot, the
   user-facing output name splits back into the original stem and the
   chosen format.
   */
  lemma OutputNameSplitsBack(sanitized: string, format: string)
    requires exists j :: 0 <= j < |Stem(sanitized)| && Stem(sanitized)[j] != '.'
    requires '.' !in format
    ensures SplitExt(OutputName(sanitized, format)) == (Stem(sanitized), "." + format)
  {
    SplitExtAppend(Stem(sanitized), format);
  }

  /**
   An empty stem (a sanitized name with no non-dot character before its last
   dot, the empty name included) gives the output name `.<format>`, which
   splitting reads as a name with no extension at all.
   */
  lemma EmptyStemOutputName(sanitized: string, format: string)
    requires Stem(sanitized) == ""
    requires '.' !in format
    ensures OutputName(sanitized, format) == "." + format
    ensures SplitExt("." + format) == ("." + format, "")
  {
    var p := "." + format;
    forall i | 1 <= i < |p| ensures p[i] != '.' {
      assert p[i] == format[i - 1];
    }
  }

  /** The separator's output-directory names, in the order they are tried. */
  function OutputDirCandidates(uuid: string, sanitized: string): seq<string>
  {
    [uuid + "_" + Stem(sanitized), uuid, Stem(sanitized)]
  }

  /** Position of the first name that exists, or None when none does. */
  function FirstExisting(names: seq<string>, present: string -> bool): (r: Option<nat>)
    ensures r.Some? ==> r.value < |names| && present(names[r.value])
    ensures r.Some? ==> forall j :: 0 <= j < r.value ==> !present(names[j])
    ensures r.None? ==> forall j :: 0 <= j < |names| ==> !present(names[j])
    decreases |names|
  {
    if |names| == 0 then None
    else if present(names[0]) then Some(0)
    else match FirstExisting(names[1..], present)
      case None => None
      case Some(i) => Some(i + 1)
  }

  /**
   The separator's output directory: the first candidate that exists under
   `static/converted/htdemucs`. An empty name there is that folder itself
   and is refused like a missing one, since `app.py` tests the found name
   for truth.
   */
  function FindOutputDir(uuid: string, sanitized: string, dirExists: string -> bool): Option<string>
  {
    var names := OutputDirCandidates(uuid, sanitized);
    match FirstExisting(names, dirExists)
    case None => None
    case Some(i) => if names[i] == "" then None else Some(names[i])
  }

  /**
   The lookup succeeds with the first existing candidate, which is never
   empty; it fails exactly when no candidate exists, or when the only
   existing one is the empty stem (the id itself is never empty).
   */
  lemma FindOutputDirSpec(uuid: string, sanitized: string, dirExists: string -> bool)
    requires uuid != ""
    ensures var names := OutputDirCandidates(uuid, sanitized);
      match FindOutputDir(uuid, sanitized, dirExists)
      case Some(d) =>
        && d != "" && dirExists(d)
        && exists i :: 0 <= i < 3 && names[i] == d && forall j :: 0 <= j < i ==> !dirExists(names[j])
      case None =>
        && !dirExists(names[0]) && !dirExists(names[1])
        && (dirExists(names[2]) ==> Stem(sanitized) == "")
  {
    var names := OutputDirCandidates(uuid, sanitized);
    match FirstExisting(names, dirExists)
    case None =>
    case Some(i) =>
      if names[i] != "" {
        assert names[i] == FindOutputDir(uuid, sanitized, dirExists).value;
      }
  }

  /** Demucs' source stems, paired with the names the separator reports them under. */
  const StemPairs: seq<(string, string)> :=
    [("drums", "drums"), ("bass", "bass"), ("vocals", "vocals"), ("other", "melody")]

  /** Names the separator reports stems under. */
  const DisplayStems: set<string> := {"drums", "bass", "vocals", "melody"}

  /** Static-folder path of a stem file, the `filename` handed to the URL builder. */
  function StemStaticPath(dir: string, source: string): string
  {
    "converted/htdemucs/" + dir + "/" + source + ".mp3"
  }

  /**
   The stem map built in order over `pairs`: a display name is bound to the
   path of its source's `.mp3` when that file exists in `dir`.
   */
  function CollectStems(dir: string, pairs: seq<(string, string)>, fileExists: (string, string) -> bool): (m: map<string, string>)
    ensures forall k :: k in m ==> exists i :: 0 <= i < |pairs| && pairs[i].1 == k
    decreases |pairs|
  {
    if |pairs| == 0 then map[]
    else
      var init := pairs[..|pairs| - 1];
      var last := pairs[|pairs| - 1];
      var m := CollectStems(dir, init, fileExists);
      assert forall i :: 0 <= i < |init| ==> init[i] == pairs[i];
      if fileExists(dir, last.0 + ".mp3") then m[last.1 := StemStaticPath(dir, last.0)] else m
  }

  /** The display names of `pairs` are pairwise different. */
  ghost predicate DistinctDisplays(pairs: seq<(string, string)>) {
    forall i, j :: 0 <= i < j < |pairs| ==> pairs[i].1 != pairs[j].1
  }

  /**
   With distinct display names, the display name of pair `i` is present
   exactly when its source file exists, and is bound to that file's path.
   */
  lemma {:induction false} CollectStemsSpec(dir: string, pairs: seq<(string, string)>,
                                            fileExists: (string, string) -> bool, i: nat)
    requires DistinctDisplays(pairs)
    requires i < |pairs|
    ensures pairs[i].1 in CollectStems(dir, pairs, fileExists) <==> fileExists(dir, pairs[i].0 + ".mp3")
    ensures pairs[i].1 in CollectStems(dir, pairs, fileExists) ==>
      CollectStems(dir, pairs, fileExists)[pairs[i].1] == StemStaticPath(dir, pairs[i].0)
    decreases |pairs|
  {
    var init := pairs[..|pairs| - 1];
    var last := pairs[|pairs| - 1];
    var m := CollectStems(dir, init, fileExists);
    assert forall j :: 0 <= j < |init| ==> init[j] == pairs[j];
    if i == |pairs| - 1 {
      // every key of `m` is the display name of an earlier pair
      assert last.1 !in m;
    } else {
      assert DistinctDisplays(init);
      CollectStemsSpec(dir, init, fileExists, i);
      assert pairs[i].1 != last.1;
    }
  }

  lemma StemPairsDistinct()
    ensures DistinctDisplays(StemPairs)
    ensures forall i :: 0 <= i < |StemPairs| ==> StemPairs[i].1 in DisplayStems
  {
  }

  /** The separator's stem map for the output directory `dir`. */
  function StemMap(dir: string, fileExists: (string, string) -> bool): (m: map<string, string>)
    ensures m.Keys <= DisplayStems
    ensures forall i :: 0 <= i < |StemPairs| ==>
      && (StemPairs[i].1 in m <==> fileExists(dir, StemPairs[i].0 + ".mp3"))
      && (StemPairs[i].1 in m ==> m[StemPairs[i].1] == StemStaticPath(dir, StemPairs[i].0))
  {
    StemPairsDistinct();
    forall i | 0 <= i < |StemPairs|
      ensures StemPairs[i].1 in CollectStems(dir, StemPairs, fileExists) <==> fileExists(dir, StemPairs[i].0 + ".mp3")
      ensures StemPairs[i].1 in CollectStems(dir, StemPairs, fileExists) ==>
        CollectStems(dir, StemPairs, fileExists)[StemPairs[i].1] == StemStaticPath(dir, StemPairs[i].0)
    {
      CollectStemsSpec(dir, StemPairs, fileExists, i);
    }
    CollectStems(dir, StemPairs, fileExists)
  }

  /** In particular the source stem `other` is reported as `melody`, and nothing is reported as `other`. */
  lemma OtherReportedAsMelody(dir: string, fileExists: (string, string) -> bool)
    ensures "melody" in StemMap(dir, fileExists) <==> fileExists(dir, "other.mp3")
    ensures "melody" in StemMap(dir, fileExists) ==> StemMap(dir, fileExists)["melody"] == "converted/htdemucs/" + dir + "/other.mp3"
    ensures "other" !in StemMap(dir, fileExists)
  {
    assert StemPairs[3] == ("other", "melody");
    assert StemPairs[3].0 + ".mp3" == "other.mp3";
    assert StemStaticPath(dir, "other") == "converted/htdemucs/" + dir + "/other.mp3";
  }
}
