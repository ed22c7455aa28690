/** The `/speak` path of main.py: the handler normalises and validates the
    text, and `text_to_speech` truncates it and names the audio file. The
    speech engine is a collaborator: the model returns the job it is given
    (the text to speak and the file to write) instead of running it. */
module Speech {
  import opened Wrappers
  import opened TextNormalizer
  import opened Artifacts

  /** `text[:5000]`: the bound on what reaches the speech engine. */
  const MaxSpeechChars := 5000

  /** `text[:5000]`. */
  function Truncate(text: string): (spoken: string)
    ensures spoken <= text
    ensures |spoken| == if |text| < MaxSpeechChars then |text| else MaxSpeechChars
  {
    if |text| <= MaxSpeechChars then text else text[..MaxSpeechChars]
  }

  /** What `engine.save_to_file(text, filename)` is asked to do. */
  datatype SpeechJob = SpeechJob(text: string, path: string)

  /** `text_to_speech` (main.py:30-36) for the timestamp `ts`: the engine
      speaks the first `min(|text|, 5000)` characters of `text` into
      `static/audio/<ts>.mp3`, and that path is returned. */
  function TextToSpeech(text: string, ts: int): (job: SpeechJob)
    ensures job.text <= text
    ensures |job.text| == if |text| < MaxSpeechChars then |text| else MaxSpeechChars
    ensures job.path == AudioPath(ts)
    ensures ParseArtifactPath(AudioDir, ".mp3", job.path) == Some(ts)
  {
    SpeechJob(Truncate(text), AudioPath(ts))
  }

  const NoTextError := "No text provided"

  /** The answer of `/speak`: a 400 with an error message, or the URL of the
      audio file together with the job handed to the speech engine. */
  datatype SpeakResponse =
    | Rejected(status: nat, error: string)
    | Spoken(audioUrl: string, job: SpeechJob)

  /** The `/speak` handler after request parsing (main.py:246-252); `text` is
      the request's `text` field, "" when it is absent. Text with nothing
      visible is refused before any speech job exists. */
  function Speak(text: string, ts: int): (r: SpeakResponse)
    ensures r.Rejected? <==> AllBlank(text)
    ensures r.Rejected? ==> r.status == 400 && r.error == NoTextError
    ensures r.Spoken? ==>
      && r.job.text != [] && '*' !in r.job.text
      && r.job.text <= CleanText(text)
      && |r.job.text| == (if |CleanText(text)| < MaxSpeechChars then |CleanText(text)| else MaxSpeechChars)
      && r.audioUrl == "/" + r.job.path
      && r.job.path == AudioPath(ts)
      && ParseArtifactPath(AudioDir, ".mp3", r.job.path) == Some(ts)
  {
    var cleaned := CleanText(text);
    CleanTextEmpty(text);
    NoStarInCleanText(text);
    if cleaned == [] then Rejected(400, NoTextError)
    else
      var job := TextToSpeech(cleaned, ts);
      assert job.text[0] == cleaned[0];
      Spoken("/" + job.path, job)
  }
}
