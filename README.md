# MyChatbot core, modelled in Dafny

MyChatbot is a single Flask application (`main.py`) that serves a chat page
backed by Gemini, reads text aloud with pyttsx3, draws images with Stable
Diffusion, and turns a drawing into a short looping GIF. This project models
the deterministic logic inside that glue and proves what it guarantees:

- **`clean_text`** (module `TextNormalizer`): deletes every `*`, collapses
  each run of whitespace into one space and trims both ends, written as three
  functions, one per pass. Its result contains no star, has no whitespace at
  either end, never has two whitespace characters side by side, and has ' '
  as its only whitespace character. It is idempotent, it is empty exactly
  when the input holds only stars and whitespace, and it keeps every other
  character in order. Module `CleanTextReference` gives an independent
  definition, `" ".join(s.replace("*", "").split())`, and proves that
  `clean_text` equals it on every string.
  `IsSpace` is the set of code points for which Python's `str.isspace()`
  holds. Both the `\s` class of a `str` regular expression and `str.strip()`
  use this set.
- **`ask_gemini` and `/chat`** (module `Chat`): a language-model outcome
  becomes either the cleaned reply text or the literal
  `"⚠️ Error fetching response: " + detail`. The class `ChatLog` holds the
  global `chat_history`. `Chat` refuses a message that is empty after
  `strip()` with "Please type something." and leaves the history alone.
  Any other message appends a user entry and then a bot entry holding the
  returned reply. The class invariant says that user and bot entries
  alternate, that each user entry is a stripped non-empty message, and that
  each bot entry is a reply `ask_gemini` can give.
- **`/speak` and `text_to_speech`** (module `Speech`): the text is cleaned.
  Text with nothing visible gets a 400 "No text provided" and no speech job.
  Other text is truncated to its first `min(n, 5000)` characters and spoken
  into `static/audio/<ts>.mp3`.
- **File names** (module `Artifacts`): `dir + str(ts) + ext`, with Python's
  decimal rendering of an `int`. A parser reads the timestamp back and
  accepts exactly those renderings, so each timestamp has one name and two
  files of one kind share a name exactly when they share a timestamp. Audio
  and image names never collide.
- **`load_sd_model`, `/generate_image`, `/generate_gif`** (module
  `ImageSynthesis`, class `ImageService`): the global `pipe` is built on the
  first load only and reused afterwards. A ghost counter shows at most one
  build ever happens. A ghost log of drawings shows that an empty prompt to
  `/generate_image` is refused before the pipeline is loaded or called.
- **`make_gif`** (module `GifComposer`): a loop builds exactly 8 frame
  records. Frame `i` is rotated by `3*i` degrees, scaled by `100 + 7*i`
  hundredths and cropped with the box `(0, 0, width, height)`, so it is
  `width` × `height`. The frames are handed to PIL's `save` in index order,
  first frame then the other seven, with `duration=200` and `loop=0`.

Collaborators are inputs to the model:

- the outcome of the Gemini call, as a function from prompt to outcome;
- the pipeline handle a build would produce;
- the timestamps read from the clock.

Strings are sequences of Unicode scalar values.

## Model

| member | source | states |
|---|---|---|
| TextNormalizer.IsSpace | main.py:27 | the characters `\s` matches in a `str` pattern and `strip()` removes: those for which `str.isspace()` holds |
| TextNormalizer.DeleteStars | main.py:26 | the result holds no `*` and is never longer than the input |
| TextNormalizer.DeleteStarsConcat | main.py:26 | star deletion works character by character, so the kept characters stay in order |
| TextNormalizer.DeleteStarsCounts | main.py:26 | every `*` is removed and every other character occurs as often as in the input |
| TextNormalizer.Collapse | main.py:27 | `re.sub(r"\s+", " ", ...)` is never longer than its input, is empty exactly when its input is, and begins with ' ' exactly when its input begins with whitespace, otherwise with the same character |
| TextNormalizer.SkipSpaces | main.py:27 | the left half of `strip()`: never longer than its input, and it does not begin with whitespace |
| TextNormalizer.StripRight | main.py:27 | the right half of `strip()`: never longer than its input, and it does not end with whitespace |
| TextNormalizer.Strip | main.py:239 | `str.strip()` is never longer than its input and never ends with whitespace |
| TextNormalizer.CleanText | main.py:25-28 | `clean_text` never lengthens its input; the lemmas below give its shape |
| TextNormalizer.CollapseSingleSpaced | main.py:27 | after `re.sub(r"\s+", " ", ...)` the only whitespace is ' ' and no two whitespace characters are adjacent |
| TextNormalizer.StripSlice | main.py:27 | `strip()` keeps a contiguous slice, removes only whitespace, and leaves no whitespace at either end |
| TextNormalizer.StripEmpty | main.py:239-240 | `strip()` yields "" exactly when the input is all whitespace |
| TextNormalizer.StripIdempotent | main.py:27 | stripping twice is stripping once |
| TextNormalizer.NoStarInCleanText | main.py:26 | `clean_text` never returns a `*` |
| TextNormalizer.CleanTextIsClean | main.py:25-28 | the result has no edge whitespace, no adjacent whitespace, ' ' as only whitespace, and no `*` |
| TextNormalizer.CleanFixpoint | main.py:25-28 | a string of that shape is returned unchanged |
| TextNormalizer.CleanTextIdempotent | main.py:25-28 | `clean_text(clean_text(s)) == clean_text(s)` for every `s` |
| TextNormalizer.VisibleKept | main.py:26-27 | deleting the spaces from the result gives the input with its stars and whitespace deleted, in order |
| TextNormalizer.CleanTextEmpty | main.py:25-28 | the result is "" if and only if the input consists of stars and whitespace only (the empty input included) |
| CleanTextReference.CleanTextIsJoinedWords | main.py:25-28 | `clean_text(s)` equals the words of `s` without stars joined by single spaces, for every `s` |
| Chat.AskGemini | main.py:38-44 | a failure gives `"⚠️ Error fetching response: " + detail`; a response gives its text (or "" when absent) as words joined by single spaces, clean, and empty exactly when nothing visible came back |
| Chat.AppendExchange | main.py:241-243 | appending a user entry then a bot entry keeps the alternating shape of the history |
| Chat.ExchangeKeepsAlternating | main.py:241-243 | one exchange on a non-empty stripped message, with any outcome, keeps that shape |
| Chat.ChatLog.constructor | main.py:22 | the history starts empty |
| Chat.ChatLog.Chat | main.py:236-244 | a message empty after `strip()` gets "Please type something." and the history is unchanged; otherwise exactly a user entry with the stripped text and then a bot entry with the returned reply are appended, earlier entries unchanged, and the reply is `ask_gemini` of the stripped text |
| Speech.Truncate | main.py:31 | the result is the prefix of the text of length `min(n, 5000)` |
| Speech.TextToSpeech | main.py:30-36 | the engine speaks exactly that prefix, into `static/audio/<ts>.mp3`, a name that reads back as the timestamp |
| Speech.Speak | main.py:246-252 | a 400 "No text provided" exactly when the text holds only stars and whitespace; otherwise the spoken text is non-empty, star-free, and the 5000-character prefix of the cleaned text, the audio path is `static/audio/<ts>.mp3`, and the URL is "/" + that path |
| Artifacts.Decimal | main.py:32 | `str(n)`: a '-' exactly for a negative number, then digits without a leading zero, never "-0" |
| Artifacts.DecimalRoundTrip | main.py:32 | parsing the decimal rendering of any integer gives it back |
| Artifacts.ParseDecimalExact | main.py:32 | a string reads back as `n` if and only if it is `str(n)` |
| Artifacts.ArtifactPathRoundTrip | main.py:32 | the timestamp can be read back from every file name |
| Artifacts.ArtifactPathParseExact | main.py:32 | a name reads back as `ts` if and only if it is `dir + str(ts) + ext` |
| Artifacts.ArtifactPath | main.py:32 | `f"{dir}{ts}{ext}"`; ArtifactPathRoundTrip and ArtifactPathParseExact state what it means |
| Artifacts.AudioPath | main.py:32 | `f"static/audio/{ts}.mp3"`, the audio name that reads back as `ts` |
| Artifacts.ImagePath | main.py:261 | `f"static/images/{ts}.png"`, the image name that reads back as `ts` |
| Artifacts.ArtifactPathInjective | main.py:32 | two names of one kind are equal if and only if their timestamps are |
| Artifacts.AudioAndImagePathsDiffer | main.py:261 | an image name never equals an audio name |
| GifComposer.MakeGif | main.py:66-86 | exactly 8 frames in index order; frame `i` comes from the source image, is rotated `3*i` degrees, scaled `100 + 7*i` hundredths, cropped with `(0, 0, width, height)`, and is `width` × `height`; duration 200, loop 0 |
| ImageSynthesis.ImageService.constructor | main.py:47 | no pipeline exists at start |
| ImageSynthesis.ImageService.LoadSdModel | main.py:48-57 | builds the pipeline only when none is cached and otherwise returns the cached handle unchanged; at most one build ever happens |
| ImageSynthesis.ImageService.Render | main.py:62 | one drawing with the cached handle is recorded |
| ImageSynthesis.ImageService.GenerateSdImage | main.py:60-64 | loads the pipeline, draws once, and returns the drawing with the requested size |
| ImageSynthesis.ImageService.GenerateImage | main.py:254-263 | a prompt empty after `strip()` gets a 400 "No prompt" with no load and no drawing; otherwise the stripped prompt is drawn once and saved as `static/images/<ts>.png` with URL "/" + that path |
| ImageSynthesis.ImageService.GenerateGif | main.py:265-271 | the prompt defaults to "A cute Pikachu" and the size to 512; one drawing gives 8 frames of size × size at 200 ms each, looping forever |

## Left out

- HTTP routing, JSON and form parsing, `jsonify`/`send_file`, and the embedded HTML, CSS and JavaScript page (main.py:88-234). The handlers are modelled from the parsed field values on. An absent `message` or `text` field is modelled as "". A non-string field, where `.strip()` or `clean_text` would raise, is not modelled.
- The Gemini client and its configuration (main.py:13-15, 40-41). Only the outcome of the call is modelled: a response text or an exception detail.
- The pyttsx3 engine (main.py:33-35). The model returns the text and path the engine is given. An engine failure, which propagates, is not modelled.
- The diffusers and torch pipeline (main.py:52-56, 62): dtype and device selection and the drawing itself. A build is the handle it would produce, and a drawing is the record of its handle and prompt. Backend failures are not modelled.
- PIL pixel work: `rotate`, `resize`, `crop` contents and the GIF bytes (main.py:71-85). The model states what is handed to `save`. How the GIF writer encodes it is not modelled, for example whether it merges a frame identical to the one before it.
- GifComposer.MakeGif: the resized size `int(width * (1 + i * 0.07))` is not modelled. Float rounding makes it unreliable. The frame records the intended scale in hundredths instead. The final frame size comes from the crop box alone.
- ImageSynthesis.ImageService.GenerateGif: the `size` field is taken as an already-parsed natural number. The `int()` parse, and the imaging library's reaction to a zero or negative size, are not modelled.
- `datetime.utcnow()` and the filesystem (main.py:18-19, 32, 261-262). Timestamps are opaque integers. A chat entry's ISO timestamp string is an opaque integer too. `makedirs` and the file writes are not modelled.
- Concurrent requests: interleaved appends to `chat_history` and the unguarded `pipe is None` check. Only sequential calls are modelled.
- Python strings may hold lone surrogate code points. Dafny strings cannot, so such strings are not modelled.
