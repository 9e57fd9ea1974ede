/**
 The POST branches of the three processing routes (`/analyze`,
 `/separator`, `/converter`) as pure functions. What the external tools
 produce arrives as parameters: the rounded tempo estimates and the detected
 key for the analyzer, which output directories and stem files demucs left
 behind for the separator, and whether ffmpeg succeeded for the converter.
 The sanitizer is a function parameter and the generated id a string.
 Each handler yields its JSON response together with the path the upload
 was saved at, if it got that far.
 */
module Routes {
  import opened Wrappers
  import opened Text
  import opened Uploads
  import opened TempoVote
  import opened Naming

  /** The JSON body and status a handler returns. */
  datatype Response =
    | Analysis(tempo: int, key: string)
    | Stems(stems: map<string, string>, sessionId: string)
    | Converted(downloadPath: string, filename: string)
    | Failure(status: nat, error: string)

  /**
   A handler's response and the path it saves the upload at once the checks
   pass; None when a check refused the upload before it was saved.
   */
  datatype Handled = Handled(response: Response, saved: Option<string>)

  const NoFileMessage: string := "No file selected"
  const AnalyzeTooLargeMessage: string := "File size too large. Please upload a file smaller than 10MB"
  const SeparateTooLargeMessage: string := "File too large. Please upload a file smaller than 15MB"
  const InvalidTypeMessage: string := "Invalid file type. Please upload an MP3, WAV, M4A, or FLAC file."
  const InvalidFormatMessage: string := "Invalid format selected"
  /** Text of the `IndexError` raised by `[0]` on an empty list, returned by the analyzer as its error. */
  const EmptyListMessage: string := "list index out of range"
  const SeparationFailedMessage: string := "Failed to process audio file. Please try again with a different file."
  const ConversionFailedMessage: string := "Conversion failed"
  /** The converter's answer to any exception its handler lets through. */
  const ServerErrorMessage: string := "Server error occurred"

  /** The 400 response for a failed check; the two size limits have their own wording. */
  function Rejection(v: Verdict, tooLargeMessage: string): Response
    requires v != Accept
  {
    match v
    case NoFile => Failure(400, NoFileMessage)
    case InvalidType => Failure(400, InvalidTypeMessage)
    case InvalidFormat => Failure(400, InvalidFormatMessage)
    case TooLarge => Failure(400, tooLargeMessage)
  }

  /** POST `/analyze`. */
  function Analyze(file: Option<Upload>, uuid: string, sanitize: string -> string,
                   tempos: seq<nat>, key: string): (h: Handled)
    ensures h.saved.None? <==> CheckAnalyze(file) != Accept
    ensures h.response.Failure? && h.response.status == 400 <==> CheckAnalyze(file) != Accept
    ensures h.saved.Some? ==> h.saved.value == InputPath(uuid, sanitize(file.value.filename))
    ensures h.response.Analysis? <==> CheckAnalyze(file) == Accept && |tempos| > 0
    ensures h.response.Analysis? ==>
      && h.response.tempo >= 0
      && SmallestTopVote(tempos, h.response.tempo as nat)
      && h.response.key == key
    ensures CheckAnalyze(file) == Accept && |tempos| == 0 ==> h.response == Failure(500, EmptyListMessage)
    ensures CheckAnalyze(file) == NoFile ==> h.response == Failure(400, NoFileMessage)
    ensures CheckAnalyze(file) == TooLarge ==> h.response == Failure(400, AnalyzeTooLargeMessage)
  {
    var v := CheckAnalyze(file);
    if v != Accept then Handled(Rejection(v, AnalyzeTooLargeMessage), None)
    else
      var saved := Some(InputPath(uuid, sanitize(file.value.filename)));
      BestTempoNoneIffEmpty(tempos);
      match BestTempo(tempos)
      case None => Handled(Failure(500, EmptyListMessage), saved)
      case Some(t) =>
        BestTempoIsSmallestTopVote(tempos);
        // the reported tempo is `int(round(float(t)))`, which is `t` for an integer `t`
        Handled(Analysis(t, key), saved)
  }

  /**
   POST `/separator`; `separated` is false when saving the upload or running
   demucs raised, both of which end in the same generic 500 answer.
   */
  function Separate(file: Option<Upload>, uuid: string, sanitize: string -> string, separated: bool,
                    dirExists: string -> bool, fileExists: (string, string) -> bool): (h: Handled)
    ensures h.saved.None? <==> CheckSeparate(file) != Accept
    ensures h.response.Failure? && h.response.status == 400 <==> CheckSeparate(file) != Accept
    ensures h.saved.Some? ==> h.saved.value == InputPath(uuid, sanitize(file.value.filename))
    ensures h.response.Stems? <==>
      CheckSeparate(file) == Accept && separated && FindOutputDir(uuid, sanitize(file.value.filename), dirExists).Some?
    ensures h.response.Stems? ==>
      && h.response.sessionId == FindOutputDir(uuid, sanitize(file.value.filename), dirExists).value
      && h.response.sessionId in OutputDirCandidates(uuid, sanitize(file.value.filename))
      && h.response.stems == StemMap(h.response.sessionId, fileExists)
      && h.response.stems.Keys <= DisplayStems
    ensures CheckSeparate(file) == NoFile ==> h.response == Failure(400, NoFileMessage)
    ensures CheckSeparate(file) == InvalidType ==> h.response == Failure(400, InvalidTypeMessage)
    ensures CheckSeparate(file) == TooLarge ==> h.response == Failure(400, SeparateTooLargeMessage)
    ensures CheckSeparate(file) == Accept && !h.response.Stems? ==> h.response == Failure(500, SeparationFailedMessage)
  {
    var v := CheckSeparate(file);
    if v != Accept then Handled(Rejection(v, SeparateTooLargeMessage), None)
    else
      var sanitized := sanitize(file.value.filename);
      var saved := Some(InputPath(uuid, sanitized));
      if !separated then Handled(Failure(500, SeparationFailedMessage), saved)
      else
        match FindOutputDir(uuid, sanitized, dirExists)
        case None => Handled(Failure(500, SeparationFailedMessage), saved)
        case Some(dir) => Handled(Stems(StemMap(dir, fileExists), dir), saved)
  }

  /** The converter's download path is `converted/`, the id, an underscore, then the user-facing name. */
  lemma DownloadPathOf(uuid: string, sanitized: string, format: string)
    ensures "converted/" + ServerOutputName(uuid, sanitized, format)
         == "converted/" + uuid + "_" + OutputName(sanitized, format)
  {
    assert ServerOutputName(uuid, sanitized, format) == uuid + "_" + OutputName(sanitized, format);
  }

  /**
   POST `/converter`; `raised` is true when saving the upload, building the
   download URL or starting the cleanup thread raised, and otherwise
   `converted` is what `convert_audio` (ffmpeg) returned; `convert_audio`
   catches its own exceptions and returns false instead.
   */
  function Convert(file: Option<Upload>, target: Option<string>, uuid: string,
                   sanitize: string -> string, raised: bool, converted: bool): (h: Handled)
    ensures h.saved.None? <==> CheckConvert(file, target) != Accept
    ensures h.response.Failure? && h.response.status == 400 <==> CheckConvert(file, target) != Accept
    ensures h.saved.Some? ==> h.saved.value == InputPath(uuid, sanitize(file.value.filename))
    ensures h.response.Converted? <==> CheckConvert(file, target) == Accept && !raised && converted
    ensures h.response.Converted? ==>
      && target.value in TargetFormats
      && h.response.filename == OutputName(sanitize(file.value.filename), target.value)
      && EndsWith(h.response.filename, "." + target.value)
      && StartsWith(h.response.filename, Stem(sanitize(file.value.filename)))
      && h.response.downloadPath == "converted/" + uuid + "_" + h.response.filename
    ensures CheckConvert(file, target) == NoFile ==> h.response == Failure(400, NoFileMessage)
    ensures CheckConvert(file, target) == InvalidFormat ==> h.response == Failure(400, InvalidFormatMessage)
    ensures CheckConvert(file, target) == Accept && raised ==> h.response == Failure(500, ServerErrorMessage)
    ensures CheckConvert(file, target) == Accept && !raised && !converted ==> h.response == Failure(500, ConversionFailedMessage)
  {
    var v := CheckConvert(file, target);
    // the converter has no size limit, so its checks fail only on the file or the format
    if v == NoFile then Handled(Failure(400, NoFileMessage), None)
    else if v != Accept then Handled(Failure(400, InvalidFormatMessage), None)
    else
      var sanitized := sanitize(file.value.filename);
      var saved := Some(InputPath(uuid, sanitized));
      if raised then Handled(Failure(500, ServerErrorMessage), saved)
      else if converted then
        var name := OutputName(sanitized, target.value);
        DownloadPathOf(uuid, sanitized, target.value);
        Handled(Converted("converted/" + ServerOutputName(uuid, sanitized, target.value), name), saved)
      else Handled(Failure(500, ConversionFailedMessage), saved)
  }
}
