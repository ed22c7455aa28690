/** The images main.py handles, without their pixels: which pipeline drew an
    image from which prompt, and the image's size. */
module Imaging {

  /** A handle to the loaded Stable Diffusion pipeline; `id` tells apart
      handles that were built separately. */
  datatype Pipeline = Pipeline(id: nat)

  /** One call `pipe(prompt)`: the pipeline and the prompt it was given. */
  datatype Rendering = Rendering(pipeline: Pipeline, prompt: string)

  /** A PIL image: the rendering its pixels come from, and its size. */
  datatype Image = Image(origin: Rendering, width: nat, height: nat)
}
