/** The Stable Diffusion side of main.py: the lazily built pipeline
    `load_sd_model` keeps in the global `pipe`, and the `/generate_image` and
    `/generate_gif` handlers that use it. Building the pipeline and drawing
    with it are collaborators: the handle a build would produce is a
    parameter, and each drawing is recorded by what it was asked. */
module ImageSynthesis {
  import opened Wrappers
  import opened TextNormalizer
  import opened Artifacts
  import opened Imaging
  import opened GifComposer

  const NoPromptError := "No prompt"
  /** `request.form.get("prompt", "A cute Pikachu")`. */
  const DefaultGifPrompt := "A cute Pikachu"
  /** `request.form.get("size", "512")`. */
  const DefaultGifSize := 512

  /** The answer of `/generate_image`: a 400 with an error message, or the
      saved file of one rendering and its URL. */
  datatype ImageResponse =
    | Rejected(status: nat, error: string)
    | Saved(rendering: Rendering, path: string, url: string)

  class ImageService {
    /** The global `pipe`: None until the first load. */
    var pipe: Option<Pipeline>
    /** How many times a pipeline was built. */
    ghost var loads: nat
    /** Every call `pipe(prompt)`, in order. */
    ghost var rendered: seq<Rendering>

    /** At most one pipeline is ever built, and every drawing used it. */
    ghost predicate Valid()
      reads this
    {
      && loads == (if pipe.Some? then 1 else 0)
      && forall k :: 0 <= k < |rendered| ==> pipe.Some? && rendered[k].pipeline == pipe.value
    }

    /** `pipe = None` at process start. */
    constructor ()
      ensures Valid() && pipe == None && loads == 0 && rendered == []
    {
      pipe := None;
      loads := 0;
      rendered := [];
    }

    /** `load_sd_model` (main.py:47-57): builds the pipeline on the first call
        only (`built` is what `from_pretrained(...).to(device)` would give)
        and returns the cached handle from then on. */
    method LoadSdModel(built: Pipeline) returns (handle: Pipeline)
      requires Valid()
      modifies this
      ensures Valid() && pipe == Some(handle) && rendered == old(rendered)
      ensures old(pipe).Some? ==> handle == old(pipe).value && loads == old(loads)
      ensures old(pipe).None? ==> handle == built && loads == 1
    {
      if pipe.None? {
        pipe := Some(built);
        loads := loads + 1;
      }
      handle := pipe.value;
    }

    /** `pipe(prompt).images[0]`: records the call and returns what it drew. */
    method Render(handle: Pipeline, prompt: string) returns (r: Rendering)
      requires Valid() && pipe == Some(handle)
      modifies this`rendered
      ensures Valid() && r == Rendering(handle, prompt)
      ensures rendered == old(rendered) + [r]
    {
      r := Rendering(handle, prompt);
      rendered := rendered + [r];
    }

    /** `generate_sd_image` (main.py:60-64): one drawing of `prompt`, resized
        to `width` × `height`. */
    method GenerateSdImage(prompt: string, width: nat, height: nat, built: Pipeline) returns (img: Image)
      requires Valid()
      modifies this
      ensures Valid() && pipe.Some?
      ensures old(pipe).Some? ==> pipe == old(pipe) && loads == old(loads)
      ensures old(pipe).None? ==> pipe == Some(built) && loads == 1
      ensures rendered == old(rendered) + [Rendering(pipe.value, prompt)]
      ensures img == Image(Rendering(pipe.value, prompt), width, height)
    {
      var handle := LoadSdModel(built);
      var r := Render(handle, prompt);
      img := Image(r, width, height);
    }

    /** The `/generate_image` handler after request parsing (main.py:254-263):
        a prompt that is empty after `strip()` is refused before the pipeline
        is loaded or called; otherwise the stripped prompt is drawn once and
        saved as `static/images/<ts>.png`. */
    method GenerateImage(prompt: string, built: Pipeline, ts: int) returns (r: ImageResponse)
      requires Valid()
      modifies this
      ensures Valid()
      ensures Strip(prompt) == [] ==>
        && r == Rejected(400, NoPromptError)
        && pipe == old(pipe) && loads == old(loads) && rendered == old(rendered)
      ensures Strip(prompt) != [] ==>
        && pipe.Some?
        && (old(pipe).Some? ==> pipe == old(pipe) && loads == old(loads))
        && (old(pipe).None? ==> pipe == Some(built) && loads == 1)
        && r == Saved(Rendering(pipe.value, Strip(prompt)), ImagePath(ts), "/" + ImagePath(ts))
        && rendered == old(rendered) + [r.rendering]
    {
      var text := Strip(prompt);
      if text == [] {
        return Rejected(400, NoPromptError);
      }
      var handle := LoadSdModel(built);
      var drawn := Render(handle, text);
      var filename := ImagePath(ts);
      r := Saved(drawn, filename, "/" + filename);
    }

    /** The `/generate_gif` handler after form parsing (main.py:265-271): the
        prompt field (used as given, not stripped or checked) defaults to
        "A cute Pikachu" and the size field to 512; one drawing, resized to
        size × size, is turned into a GIF of size × size frames. */
    method GenerateGif(promptField: Option<string>, sizeField: Option<nat>, built: Pipeline) returns (gif: Gif)
      requires Valid()
      modifies this
      ensures Valid() && pipe.Some?
      ensures old(pipe).Some? ==> pipe == old(pipe) && loads == old(loads)
      ensures old(pipe).None? ==> pipe == Some(built) && loads == 1
      ensures rendered == old(rendered) + [Rendering(pipe.value, promptField.GetOr(DefaultGifPrompt))]
      ensures |Frames(gif)| == FrameCount
      ensures forall i :: 0 <= i < |Frames(gif)| ==>
        && Frames(gif)[i].source.origin == Rendering(pipe.value, promptField.GetOr(DefaultGifPrompt))
        && Frames(gif)[i].width == sizeField.GetOr(DefaultGifSize)
        && Frames(gif)[i].height == sizeField.GetOr(DefaultGifSize)
        && Frames(gif)[i].rotation == DegreesPerFrame * i
      ensures gif.durationMs == FrameDurationMs && gif.loop == LoopForever
    {
      var prompt := promptField.GetOr(DefaultGifPrompt);
      var size := sizeField.GetOr(DefaultGifSize);
      var img := GenerateSdImage(prompt, size, size, built);
      gif := MakeGif(img);
    }
  }
}
