/**
 Acceptance rules for the `audio_file` upload of the three processing
 routes. Each route runs its checks in a fixed order and stops at the first
 that fails: file field missing, then empty file name, then type or target
 format (separator and converter only), then size (analyzer and separator
 only). Any failing check ends the request with status 400 before the file
 is saved.
 */
module Uploads {
  import opened Wrappers
  import opened Text

  /** The uploaded file as the handlers see it: its client-side name and its byte size. */
  datatype Upload = Upload(filename: string, size: nat)

  /** Outcome of the checks: accepted, or the first check that failed. */
  datatype Verdict = Accept | NoFile | InvalidType | InvalidFormat | TooLarge

  const MiB: nat := 1024 * 1024
  /** The analyzer refuses files larger than 10 MiB. */
  const AnalyzeLimit: nat := 10 * MiB
  /** The separator refuses files larger than 15 MiB. */
  const SeparateLimit: nat := 15 * MiB
  /** Suffixes the separator accepts, compared against the lower-cased name. */
  const AudioExtensions: seq<string> := [".mp3", ".wav", ".m4a", ".flac"]
  /** Target formats the converter offers. */
  const TargetFormats: seq<string> := ["mp3", "wav", "flac"]

  /** `s.endswith(suffixes)` for a tuple of suffixes: any one of them. */
  predicate EndsWithAny(s: string, suffixes: seq<string>)
    decreases |suffixes|
  {
    |suffixes| > 0 && (EndsWith(s, suffixes[0]) || EndsWithAny(s, suffixes[1..]))
  }

  lemma {:induction false} EndsWithAnyMeansSome(s: string, suffixes: seq<string>)
    ensures EndsWithAny(s, suffixes) <==> exists e :: e in suffixes && EndsWith(s, e)
    decreases |suffixes|
  {
    if |suffixes| > 0 {
      EndsWithAnyMeansSome(s, suffixes[1..]);
      assert suffixes == [suffixes[0]] + suffixes[1..];
    }
  }

  /** The separator's type test: the lower-cased name ends in an accepted suffix. */
  predicate IsAudioName(name: string) {
    EndsWithAny(Lower(name), AudioExtensions)
  }

  /** A file was sent and it has a name. */
  predicate Named(file: Option<Upload>) {
    file.Some? && file.value.filename != ""
  }

  /** Checks of the analyzer: presence, name, then the 10 MiB limit. */
  function CheckAnalyze(file: Option<Upload>): (v: Verdict)
    ensures v == Accept <==> Named(file) && file.value.size <= AnalyzeLimit
    ensures v == NoFile <==> !Named(file)
    ensures v == TooLarge <==> Named(file) && file.value.size > AnalyzeLimit
    ensures v != InvalidType && v != InvalidFormat
  {
    if file.None? then NoFile
    else if file.value.filename == "" then NoFile
    else if file.value.size > AnalyzeLimit then TooLarge
    else Accept
  }

  /** Checks of the separator: presence, name, type, then the 15 MiB limit. */
  function CheckSeparate(file: Option<Upload>): (v: Verdict)
    ensures v == Accept <==> Named(file) && IsAudioName(file.value.filename) && file.value.size <= SeparateLimit
    ensures v == NoFile <==> !Named(file)
    ensures v == InvalidType <==> Named(file) && !IsAudioName(file.value.filename)
    ensures v == TooLarge <==> Named(file) && IsAudioName(file.value.filename) && file.value.size > SeparateLimit
    ensures v != InvalidFormat
  {
    if file.None? then NoFile
    else if file.value.filename == "" then NoFile
    else if !IsAudioName(file.value.filename) then InvalidType
    else if file.value.size > SeparateLimit then TooLarge
    else Accept
  }

  /** Checks of the converter: presence, name, then the target format; no size limit. */
  function CheckConvert(file: Option<Upload>, target: Option<string>): (v: Verdict)
    ensures v == Accept <==> Named(file) && target.Some? && target.value in TargetFormats
    ensures v == NoFile <==> !Named(file)
    ensures v == InvalidFormat <==> Named(file) && (target.None? || target.value !in TargetFormats)
    ensures v != InvalidType && v != TooLarge
  {
    if file.None? then NoFile
    else if file.value.filename == "" then NoFile
    else if target.None? || target.value !in TargetFormats then InvalidFormat
    else Accept
  }

  /** The separator accepts exactly the names ending in one of its suffixes, in any letter case. */
  lemma AudioNameIsSuffixMatch(name: string)
    ensures IsAudioName(name) <==> exists e :: e in AudioExtensions && EndsWith(Lower(name), e)
  {
    EndsWithAnyMeansSome(Lower(name), AudioExtensions);
  }

  /** The analyzer's limit is inclusive: a file of exactly 10 MiB passes, one byte more does not. */
  lemma AnalyzeLimitInclusive(name: string)
    requires name != ""
    ensures CheckAnalyze(Some(Upload(name, 10_485_760))) == Accept
    ensures CheckAnalyze(Some(Upload(name, 10_485_761))) == TooLarge
  {
  }

  /** The separator's limit is inclusive: an audio file of exactly 15 MiB passes, one byte more does not. */
  lemma SeparateLimitInclusive(name: string)
    requires name != "" && IsAudioName(name)
    ensures CheckSeparate(Some(Upload(name, 15_728_640))) == Accept
    ensures CheckSeparate(Some(Upload(name, 15_728_641))) == TooLarge
  {
  }

  /** The checks run in order: a wrongly typed file is reported as such whatever its size. */
  lemma TypeCheckedBeforeSize(name: string, size: nat)
    requires name != "" && !IsAudioName(name)
    ensures CheckSeparate(Some(Upload(name, size))) == InvalidType
  {
  }

  /** The separator's verdict depends on the name only up to ASCII letter case. */
  lemma SeparateIgnoresCase(a: string, b: string, size: nat)
    requires Lower(a) == Lower(b)
    ensures CheckSeparate(Some(Upload(a, size))) == CheckSeparate(Some(Upload(b, size)))
  {
    assert |a| == |Lower(a)| == |Lower(b)| == |b|;
  }

  /** A name is an audio name exactly when its lower-cased form is. */
  lemma AudioNameOfLower(name: string)
    ensures IsAudioName(Lower(name)) == IsAudioName(name)
  {
    LowerIdempotent(name);
  }
}
