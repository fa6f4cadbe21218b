/** The one part of src/view/mod.rs that touches the glyph cache:
    `View::draw_glyph`. Window creation, event polling, `clear` and
    `present` are thin SDL calls and are not part of this model. */
module View {
  import opened Sdl
  import opened Font

  /** `Canvas::copy` of a whole texture into a target rectangle. The pixels
      are not modelled: the canvas sees the texture's size and tint and the
      rectangle, and reports success or SDL's message. */
  type CanvasCopy = (Extent, (u8, u8, u8), Rect) -> Outcome

  /** `View::draw_glyph`: looks the glyph up (a character outside the cache
      is a caller error, as with `FontCache::glyph`), tints that one texture
      with the colour's red, green and blue, and copies it into `target`.
      The table, every size and every other glyph's tint stay as they were. */
  method DrawGlyph(font: FontCache, glyph: char, color: Color, target: Rect, copy: CanvasCopy)
    returns (r: Outcome)
    requires glyph in font.glyphMap
    requires font.Valid()
    modifies font.glyphMap[glyph]
    ensures font.glyphMap == old(font.glyphMap)
    ensures font.Extents() == old(font.Extents())
    ensures font.glyphMap[glyph].colorMod == (color.r, color.g, color.b)
    ensures forall ch :: ch in font.glyphMap && ch != glyph ==>
      font.glyphMap[ch].colorMod == old(font.glyphMap[ch].colorMod)
    ensures r == copy(font.Size(glyph), (color.r, color.g, color.b), target)
  {
    var texture := font.Glyph(glyph);
    texture.SetColorMod(color.r, color.g, color.b);
    r := copy((texture.width, texture.height), texture.colorMod, target);
  }
}
