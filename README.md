# Glyph cache of wavebreaker_sdl2, modelled in Dafny

The program draws text with SDL2. At start-up `FontManager::load` opens a
TrueType font at point size 128. It then renders every character of a fixed
repertoire, white and fully opaque, and uploads each rendering as a texture.
The repertoire is ASCII `0x20..=0x7F` (space through DEL) plus the Unicode Block
Elements `0x2580..=0x259F`. The textures go into a `FontCache`, a map from
character to texture. `FontCache::glyph` and `FontCache::size` look one
character up; both unwrap the lookup, so a missing character is a panic.
`View::draw_glyph` tints a cached texture and copies it onto the canvas.

The model:

- `sdl.dfy`, module `Sdl`: the SDL capabilities the cache consumes. A
  `Backend` value holds them as functions: `loadFont`, `renderBlended` and
  `createTexture`. `Texture` is a class. Its `width` and `height` are fixed
  at creation, and `colorMod` is the only state a caller changes.
- `font.dfy`, module `Font`: the repertoire; `FromU32` (`char::from_u32`);
  the specification `Build` / `LoadSpec` of what `load` computes, stated on
  the extents of the textures; the classes `FontCache` (`Glyph`, `Size`) and
  `FontManager` (`Load`, with its two `for` loops over the inclusive ranges).
  `Load`'s postconditions tie its result to `LoadSpec`.
- `font_properties.dfy`, module `FontProperties`: lemmas about `Build` and
  `LoadSpec`. They cover the exact key set (128 entries), the inclusive
  boundaries, all-or-nothing failure, which failure is reported, the stored
  sizes, and lookups on a loaded cache.
- `view.dfy`, module `View`: `DrawGlyph`.

Errors are SDL's message strings, passed through unchanged. So "the first
failure ends the load" can be observed: a failed load reports the message
of the first step that failed, in visiting order.

Lookups outside the repertoire panic (`unwrap`). They are modelled as a
`requires`. `draw_glyph` sets the colour modulation and copies the texture;
it does nothing else.

## Model

| member | source | states |
|---|---|---|
| Font.FromU32 | src/font/mod.rs:64 | `from_u32` gives a character exactly when the code is a Unicode scalar value (not a surrogate, at most 0x10FFFF), and that character has the given code |
| Font.FontCache.constructor | src/font/mod.rs:84-86 | the cache holds exactly the map it was built from; that map gives each character its own texture, so the new cache is valid (unaliased) |
| Font.FontCache.Glyph | src/font/mod.rs:27-29 | defined only for a character in the table; returns the texture stored for it and changes nothing |
| Font.FontCache.Size | src/font/mod.rs:31-37 | defined only for a character in the table; returns the width and height its texture reports; reads the cache only |
| Font.FontManager.constructor | src/font/mod.rs:46-54 | the manager holds the given TTF context and texture creator |
| Font.Rasterize | src/font/mod.rs:65-68 | one glyph: render the one-character string blended in opaque white, then upload the surface; the first of the two failures is the result, otherwise the uploaded texture's extent |
| Font.Build | src/font/mod.rs:60-82 | the fill loop over a list of codes: stop with the first failure's message, otherwise insert each code's extent under its character, in visiting order |
| Font.LoadSpec | src/font/mod.rs:56-87 | the whole of `load`: the font's error if it does not open at point size 128, otherwise the fill walk over the two ranges |
| Font.FontManager.Load | src/font/mod.rs:56-87 | on `Ok`: a fresh cache whose textures are fresh, pairwise distinct and carry the neutral white tint, with sizes equal to `LoadSpec`; on `Err`: the message `LoadSpec` gives; the loop invariants state that the table holds exactly the codes visited so far and that no insert overwrites |
| Font.FontManager.AddGlyph | src/font/mod.rs:64-70 | one loop pass: a success adds exactly the new character, with a fresh texture, and keeps the earlier entries; it extends the specification's walk by that code; a render or upload failure gives the failed walk's message |
| Font.BuildErrPrefix | src/font/mod.rs:66-68 | a failure on a prefix of the codes is the result of the whole walk (the early `?` return) |
| FontProperties.BuildKeys | src/font/mod.rs:60-82 | a successful walk holds exactly the characters of the visited codes |
| FontProperties.BuildSize | src/font/mod.rs:70 | over ascending codes no insert overwrites: one entry per code |
| FontProperties.BuildValues | src/font/mod.rs:65-70 | over ascending codes each entry is what that code's render and upload produced |
| FontProperties.BuildOk | src/font/mod.rs:65-68 | the walk succeeds exactly when every code renders and uploads |
| FontProperties.BuildFirstFailure | src/font/mod.rs:66-68 | a failed walk carries the message of the first code that failed, every earlier code having succeeded |
| FontProperties.RepertoireShape | src/font/mod.rs:63-75 | the two ranges give 96 + 32 = 128 ascending codes; they are disjoint; each is a scalar value, so the `from_u32` unwrap never panics; they are exactly the repertoire |
| FontProperties.LoadKeys | src/font/mod.rs:56-87 | after a successful load the key set is exactly {0x20..0x7F} ∪ {0x2580..0x259F}, 128 entries |
| FontProperties.LoadBoundaries | src/font/mod.rs:63-74 | 0x20, 0x7F, 0x2580 and 0x259F are keys; 0x1F, 0x80, 0x257F and 0x25A0 are not |
| FontProperties.LoadAllOrNothing | src/font/mod.rs:57-86 | load succeeds if and only if the font opens and every repertoire character renders and uploads |
| FontProperties.LoadFirstFailure | src/font/mod.rs:57-79 | a failed load reports the font's error, or the error of the first repertoire code that failed, all earlier codes having succeeded |
| FontProperties.LoadExtents | src/font/mod.rs:65-81 | each cached size is the extent its own character's render and upload produced |
| FontProperties.LoadedCacheLookups | src/font/mod.rs:27-37 | on a cache a load produced, `glyph` and `size` are defined for exactly the repertoire, and `size` reports that character's rendered extent |
| FontProperties.LoadTwice | src/font/mod.rs:56-87 | loading the same font twice gives the same outcome, and the same size for every character |
| Sdl.Texture.constructor | src/font/mod.rs:67-68 | a new texture has the extent the upload reported and a neutral (white) colour modulation |
| Sdl.Texture.SetColorMod | src/view/mod.rs:52 | sets the tint and nothing else |
| View.DrawGlyph | src/view/mod.rs:50-57 | defined only for a cached character; tints that texture alone; leaves the table, every size and every other tint unchanged; returns the canvas copy's outcome for that size, tint and target |

## Left out

- SDL and SDL_ttf internals are not modelled: font parsing, rasterisation, anti-aliased blending, GPU upload and pixel contents. They are the `Backend` functions, which the caller supplies.
- `font.set_style(NORMAL)` (src/font/mod.rs:58) is not modelled. The style is font state that only the rasteriser sees.
- `FontManager::init` (`ttf::init`, src/font/mod.rs:46-54) is library start-up. The constructor takes the backend and cannot fail.
- The texture creator's lifetime ties and the release of textures when the cache is dropped are not modelled. They are memory management.
- src/main.rs is not modelled: the event loop, the frame pacing `sleep` and the demo draw are I/O. Its `View::init()` passes no arguments, against a three-argument signature in src/view/mod.rs.
- `View::init`, `event_pump`, `clear` and `present` (src/view/mod.rs) are not modelled. They are thin SDL calls.
- View.DrawGlyph: the canvas pixels that `copy` changes are not modelled. The copy is a caller-supplied function of the texture's size, its tint and the target.
- FontProperties.LoadTwice: rests on the backend being deterministic. The `Backend` capabilities are pure functions, so the same path and arguments always give the same font, surface and texture outcome. A font file that changes or disappears between the two calls, or texture memory that runs out on the second load, is not modelled.
- Font.Rasterize, Font.Build, Font.LoadSpec: these are the specification functions that `Load` and the lemmas are stated through. They have no postconditions of their own; what they promise is stated by the lemmas in `FontProperties`.
