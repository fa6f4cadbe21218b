/** The glyph cache of src/font/mod.rs: `FontManager::load` fills a map from
    character to texture for a fixed repertoire, and `FontCache` looks
    glyphs up in it. */
module Font {
  import opened Sdl

  /** The point size `load` asks SDL_ttf for. */
  const PointSize: nat := 128

  /** Glyphs are rasterised white and opaque; colour comes from tinting later. */
  const White: Color := RGBA(255, 255, 255, 255)

  // The repertoire: two inclusive ranges of code points.
  const AsciiFirst: int := 0x0020
  const AsciiLast: int := 0x007F
  const BlockFirst: int := 0x2580
  const BlockLast: int := 0x259F

  datatype Option<+T> = None | Some(value: T)

  /** A Unicode scalar value: a code point that is not a surrogate. */
  predicate IsScalarValue(code: int) {
    0 <= code <= 0x10FFFF && !(0xD800 <= code <= 0xDFFF)
  }

  /** `std::char::from_u32`: a character exactly when the code is a scalar value. */
  function FromU32(code: u32): (r: Option<char>)
    ensures r.Some? <==> IsScalarValue(code as int)
    ensures r.Some? ==> r.value as int == code as int
  {
    if IsScalarValue(code as int) then Some(code as int as char) else None
  }

  /** Rust's inclusive range `lo ..= hi`, in the ascending order a `for` visits it. */
  function Span(lo: int, hi: int): seq<int> {
    seq(if lo <= hi then hi - lo + 1 else 0, i => lo + i)
  }

  /** Membership in the repertoire, stated on the code point. */
  predicate InRepertoire(code: int) {
    AsciiFirst <= code <= AsciiLast || BlockFirst <= code <= BlockLast
  }

  /** Every code `load` visits, in the order it visits them. */
  const Repertoire: seq<int> := Span(AsciiFirst, AsciiLast) + Span(BlockFirst, BlockLast)

  /** Every code in the list is a Unicode scalar value. */
  ghost predicate AllScalar(codes: seq<int>) {
    forall i :: 0 <= i < |codes| ==> IsScalarValue(codes[i])
  }

  /** The list is strictly ascending, hence free of repetitions. */
  ghost predicate Ascending(codes: seq<int>) {
    forall i, j :: 0 <= i < j < |codes| ==> codes[i] < codes[j]
  }

  /** One glyph: render the one-character string blended in white, then
      upload the surface as a texture; the first failure is the result. */
  function Rasterize(b: Backend, font: TtfFont, ch: char): Result<Extent> {
    match b.renderBlended(font, [ch], White)
    case Err(e) => Err(e)
    case Ok(surface) => b.createTexture(surface)
  }

  /** What the rasterise-and-insert loop computes over `codes`, stated on the
      extents of the textures: a failure ends the walk with its message,
      otherwise each code's extent is inserted under its character. */
  ghost function Build(b: Backend, font: TtfFont, codes: seq<int>): Result<map<char, Extent>>
    requires AllScalar(codes)
    decreases |codes|
  {
    if codes == [] then Ok(map[])
    else
      var last := codes[|codes| - 1];
      match Build(b, font, codes[..|codes| - 1])
      case Err(e) => Err(e)
      case Ok(m) =>
        match Rasterize(b, font, last as char)
        case Err(e) => Err(e)
        case Ok(extent) => Ok(m[last as char := extent])
  }

  /** What `load(path)` yields: the font's failure, or the walk over the repertoire. */
  ghost function LoadSpec(b: Backend, path: string): Result<map<char, Extent>> {
    match b.loadFont(path, PointSize)
    case Err(e) => Err(e)
    case Ok(font) => Build(b, font, Repertoire)
  }

  /** The extent each texture of a glyph table reports. */
  function ExtentsOf(m: map<char, Texture>): map<char, Extent> {
    map ch | ch in m :: (m[ch].width, m[ch].height)
  }

  /** No two characters share one texture object. */
  ghost predicate Unaliased(m: map<char, Texture>) {
    forall a, c :: a in m && c in m && a != c ==> m[a] != m[c]
  }

  class FontCache {
    var glyphMap: map<char, Texture>

    /** Each character owns its texture, so tinting one leaves the others alone. */
    ghost predicate Valid()
      reads this
    {
      Unaliased(glyphMap)
    }

    /** The sizes the cache reports, one per character it holds. */
    function Extents(): map<char, Extent>
      reads this
    {
      ExtentsOf(glyphMap)
    }

    /** Every entry of the table owns its texture, so the table handed over is unaliased. */
    constructor (glyphMap: map<char, Texture>)
      requires Unaliased(glyphMap)
      ensures this.glyphMap == glyphMap
      ensures Valid()
    {
      this.glyphMap := glyphMap;
    }

    /** `FontCache::glyph`: the texture stored for `glyph`. The source unwraps
        the lookup, so a character outside the table is a caller error. */
    method Glyph(glyph: char) returns (t: Texture)
      requires glyph in glyphMap
      ensures t == glyphMap[glyph]
    {
      t := glyphMap[glyph];
    }

    /** `FontCache::size`: the width and height recorded for `glyph`; the
        lookup is unwrapped as in `Glyph`. */
    function Size(glyph: char): (r: Extent)
      reads this
      requires glyph in glyphMap
      ensures r == Extents()[glyph]
    {
      var texture := glyphMap[glyph];
      (texture.width, texture.height)
    }
  }

  class FontManager {
    /** The TTF context and texture creator the manager holds. */
    const backend: Backend

    constructor (backend: Backend)
      ensures this.backend == backend
    {
      this.backend := backend;
    }

    /** `FontManager::load`: opens the font, then rasterises and uploads every
        code of the two ranges in turn, returning on the first failure. */
    method Load(path: string) returns (r: Result<FontCache>)
      ensures r.Ok? ==> fresh(r.value) && r.value.Valid()
      ensures r.Ok? ==> forall ch :: ch in r.value.glyphMap ==> fresh(r.value.glyphMap[ch])
      ensures r.Ok? ==> forall ch :: ch in r.value.glyphMap ==> r.value.glyphMap[ch].colorMod == (255, 255, 255)
      ensures r.Ok? ==> LoadSpec(backend, path) == Ok(r.value.Extents())
      ensures r.Err? ==> LoadSpec(backend, path) == Err(r.error)
    {
      var loaded := backend.loadFont(path, PointSize);
      if loaded.Err? {
        return Err(loaded.error);
      }
      var font := loaded.value;
      var glyphMap: map<char, Texture> := map[];
      ghost var visited: seq<int> := [];

      for c := AsciiFirst to AsciiLast + 1
        invariant visited == Repertoire[..c - AsciiFirst]
        invariant Build(backend, font, visited) == Ok(ExtentsOf(glyphMap))
        invariant forall ch :: ch in glyphMap <==> AsciiFirst <= ch as int < c
        invariant forall ch :: ch in glyphMap ==> fresh(glyphMap[ch])
        invariant forall ch :: ch in glyphMap ==> glyphMap[ch].colorMod == (255, 255, 255)
        invariant Unaliased(glyphMap)
      {
        RepertoirePrefix(|visited|);
        assert Repertoire[|visited|] == c;
        var added := AddGlyph(font, c, glyphMap, visited);
        if added.Err? {
          BuildErrPrefix(backend, font, Repertoire, |visited| + 1, added.error);
          return Err(added.error);
        }
        glyphMap := added.value;
        visited := visited + [c];
      }

      for c := BlockFirst to BlockLast + 1
        invariant visited == Repertoire[..c - BlockFirst + (AsciiLast - AsciiFirst + 1)]
        invariant Build(backend, font, visited) == Ok(ExtentsOf(glyphMap))
        invariant forall ch :: ch in glyphMap <==>
          AsciiFirst <= ch as int <= AsciiLast || BlockFirst <= ch as int < c
        invariant forall ch :: ch in glyphMap ==> fresh(glyphMap[ch])
        invariant forall ch :: ch in glyphMap ==> glyphMap[ch].colorMod == (255, 255, 255)
        invariant Unaliased(glyphMap)
      {
        RepertoirePrefix(|visited|);
        assert Repertoire[|visited|] == c;
        var added := AddGlyph(font, c, glyphMap, visited);
        if added.Err? {
          BuildErrPrefix(backend, font, Repertoire, |visited| + 1, added.error);
          return Err(added.error);
        }
        glyphMap := added.value;
        visited := visited + [c];
      }

      assert visited == Repertoire;
      var cache := new FontCache(glyphMap);
      r := Ok(cache);
    }

    /** The body both loops of `load` share: convert the code (the source
        unwraps `from_u32`), render the one-character string, upload the
        surface, and insert the new texture under its character. */
    method AddGlyph(font: TtfFont, c: int, glyphMap: map<char, Texture>, ghost visited: seq<int>)
      returns (r: Result<map<char, Texture>>)
      requires InRepertoire(c)
      requires AllScalar(visited)
      requires forall ch :: ch in glyphMap ==> ch as int != c
      requires Build(backend, font, visited) == Ok(ExtentsOf(glyphMap))
      ensures AllScalar(visited + [c])
      ensures r.Ok? ==> forall ch :: ch in r.value <==> ch in glyphMap || ch as int == c
      ensures r.Ok? ==> forall ch :: ch in glyphMap ==> r.value[ch] == glyphMap[ch]
      ensures r.Ok? ==> fresh(r.value[c as char])
      ensures r.Ok? ==> r.value[c as char].colorMod == (255, 255, 255)
      ensures r.Ok? ==> Build(backend, font, visited + [c]) == Ok(ExtentsOf(r.value))
      ensures r.Err? ==> Build(backend, font, visited + [c]) == Err(r.error)
    {
      var charCode := FromU32(c as u32).value;
      assert (visited + [c])[..|visited|] == visited;
      var surface := backend.renderBlended(font, [charCode], White);
      if surface.Err? {
        return Err(surface.error);
      }
      var extent := backend.createTexture(surface.value);
      if extent.Err? {
        return Err(extent.error);
      }
      var texture := new Texture(extent.value);
      ExtentsOfInsert(glyphMap, charCode, texture);
      r := Ok(glyphMap[charCode := texture]);
    }
  }

  /** The first `k + 1` codes of the repertoire are the first `k` followed by the next one. */
  lemma RepertoirePrefix(k: nat)
    requires k < |Repertoire|
    ensures Repertoire[..k + 1] == Repertoire[..k] + [Repertoire[k]]
  {
  }

  /** Inserting one texture adds exactly its extent to the reported sizes. */
  lemma ExtentsOfInsert(m: map<char, Texture>, ch: char, t: Texture)
    ensures ExtentsOf(m[ch := t]) == ExtentsOf(m)[ch := (t.width, t.height)]
  {
  }

  /** Once the walk has failed on a prefix, the whole walk fails with that message. */
  lemma {:induction false} BuildErrPrefix(b: Backend, font: TtfFont, codes: seq<int>, k: nat, e: Message)
    requires AllScalar(codes)
    requires k <= |codes|
    requires Build(b, font, codes[..k]) == Err(e)
    ensures Build(b, font, codes) == Err(e)
    decreases |codes| - k
  {
    if k < |codes| {
      assert codes[..k + 1][..k] == codes[..k];
      BuildErrPrefix(b, font, codes, k + 1, e);
    } else {
      assert codes[..k] == codes;
    }
  }
}
