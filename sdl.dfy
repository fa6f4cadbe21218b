/** The parts of SDL2 and SDL2_ttf that the glyph cache consumes. Their
    internals (font parsing, rasterisation, GPU upload, pixel contents) are
    not modelled: each capability is a function supplied by the caller, and
    the model only follows what it returns. */
module Sdl {

  newtype u8 = x: int | 0 <= x < 0x100
  newtype u32 = x: int | 0 <= x < 0x1_0000_0000
  newtype i32 = x: int | -0x8000_0000 <= x < 0x8000_0000

  /** Error values are the library's message strings, passed through unchanged. */
  type Message = string

  datatype Result<+T> = Ok(value: T) | Err(error: Message)

  datatype Outcome = Pass | Fail(error: Message)

  datatype Color = RGBA(r: u8, g: u8, b: u8, a: u8)

  /** A loaded TTF font; what it holds is opaque. */
  datatype TtfFont = TtfFont(handle: nat)

  /** A rendered surface; only its reported size is visible to the model. */
  datatype Surface = Surface(width: u32, height: u32)

  /** `sdl2::rect::Rect`: a position and a size on the canvas. */
  datatype Rect = Rect(x: i32, y: i32, width: u32, height: u32)

  /** The (width, height) pair that `Texture::query` reports. */
  type Extent = (u32, u32)

  /** The external capabilities:
      - `loadFont(path, pointSize)` is `Sdl2TtfContext::load_font`;
      - `renderBlended(font, text, color)` is `font.render(text).blended(color)`;
      - `createTexture(surface)` is `TextureCreator::create_texture_from_surface`,
        yielding the extent the new texture reports. */
  datatype Backend = Backend(
    loadFont: (string, nat) -> Result<TtfFont>,
    renderBlended: (TtfFont, string, Color) -> Result<Surface>,
    createTexture: Surface -> Result<Extent>)

  /** A GPU texture. Its size is fixed when it is created; its colour
      modulation is the only state a caller can change. */
  class Texture {
    const width: u32
    const height: u32
    var colorMod: (u8, u8, u8)

    /** A new texture starts with the neutral (white) colour modulation. */
    constructor (extent: Extent)
      ensures (width, height) == extent
      ensures colorMod == (255, 255, 255)
    {
      width, height := extent.0, extent.1;
      colorMod := (255, 255, 255);
    }

    /** `Texture::set_color_mod`: changes the tint and nothing else. */
    method SetColorMod(r: u8, g: u8, b: u8)
      modifies this
      ensures colorMod == (r, g, b)
    {
      colorMod := (r, g, b);
    }
  }
}
