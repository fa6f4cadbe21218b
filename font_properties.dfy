/** What `FontManager::load` guarantees about the table it builds, stated
    about the specification `Font.LoadSpec`, to which the postconditions of
    `Font.FontManager.Load` tie its result. */
module FontProperties {
  import opened Sdl
  import opened Font

  // ---- The walk over a list of codes ----

  /** A successful walk holds exactly the characters of the codes it visited. */
  lemma {:induction false} BuildKeys(b: Backend, font: TtfFont, codes: seq<int>)
    requires AllScalar(codes)
    ensures Build(b, font, codes).Ok? ==>
      forall ch: char :: ch in Build(b, font, codes).value <==> ch as int in codes
  {
    if codes != [] {
      var prefix := codes[..|codes| - 1];
      BuildKeys(b, font, prefix);
      assert codes == prefix + [codes[|codes| - 1]];
    }
  }

  /** Over ascending codes no insertion overwrites an earlier one, so the
      table has one entry per code visited. */
  lemma {:induction false} BuildSize(b: Backend, font: TtfFont, codes: seq<int>)
    requires AllScalar(codes) && Ascending(codes)
    ensures Build(b, font, codes).Ok? ==> |Build(b, font, codes).value| == |codes|
  {
    if codes != [] {
      var prefix := codes[..|codes| - 1];
      var last := codes[|codes| - 1];
      BuildSize(b, font, prefix);
      BuildKeys(b, font, prefix);
      if Build(b, font, prefix).Ok? {
        assert last !in prefix by {
          forall i | 0 <= i < |prefix| ensures prefix[i] != last {
            assert prefix[i] == codes[i];
          }
        }
        assert last as char !in Build(b, font, prefix).value;
      }
    }
  }

  /** Over ascending codes each entry is exactly what its own code rasterised to. */
  lemma {:induction false} BuildValues(b: Backend, font: TtfFont, codes: seq<int>)
    requires AllScalar(codes) && Ascending(codes)
    ensures Build(b, font, codes).Ok? ==>
      forall i :: 0 <= i < |codes| ==>
        codes[i] as char in Build(b, font, codes).value &&
        Rasterize(b, font, codes[i] as char) == Ok(Build(b, font, codes).value[codes[i] as char])
  {
    if codes != [] {
      var prefix := codes[..|codes| - 1];
      BuildValues(b, font, prefix);
      if Build(b, font, codes).Ok? {
        forall i | 0 <= i < |codes| - 1
          ensures codes[i] as char in Build(b, font, codes).value
          ensures Rasterize(b, font, codes[i] as char) == Ok(Build(b, font, codes).value[codes[i] as char])
        {
          assert prefix[i] == codes[i];
          assert codes[i] < codes[|codes| - 1];
        }
      }
    }
  }

  /** The walk succeeds exactly when every code rasterises. */
  lemma {:induction false} BuildOk(b: Backend, font: TtfFont, codes: seq<int>)
    requires AllScalar(codes)
    ensures Build(b, font, codes).Ok? <==>
      forall i :: 0 <= i < |codes| ==> Rasterize(b, font, codes[i] as char).Ok?
  {
    if codes != [] {
      var prefix := codes[..|codes| - 1];
      BuildOk(b, font, prefix);
      if Build(b, font, prefix).Ok? {
        assert forall i :: 0 <= i < |prefix| ==> prefix[i] == codes[i];
      } else {
        var k :| 0 <= k < |prefix| && !Rasterize(b, font, prefix[k] as char).Ok?;
        assert prefix[k] == codes[k];
      }
    }
  }

  /** A failed walk reports the message of the first code that failed. */
  lemma {:induction false} BuildFirstFailure(b: Backend, font: TtfFont, codes: seq<int>)
    requires AllScalar(codes)
    ensures Build(b, font, codes).Err? ==>
      exists i :: 0 <= i < |codes| &&
        Rasterize(b, font, codes[i] as char) == Err(Build(b, font, codes).error) &&
        forall j :: 0 <= j < i ==> Rasterize(b, font, codes[j] as char).Ok?
  {
    if codes != [] {
      var prefix := codes[..|codes| - 1];
      BuildFirstFailure(b, font, prefix);
      BuildOk(b, font, prefix);
      if Build(b, font, prefix).Err? {
        var i :| 0 <= i < |prefix| &&
          Rasterize(b, font, prefix[i] as char) == Err(Build(b, font, prefix).error) &&
          forall j :: 0 <= j < i ==> Rasterize(b, font, prefix[j] as char).Ok?;
        assert forall j :: 0 <= j <= i ==> prefix[j] == codes[j];
      } else if Build(b, font, codes).Err? {
        var i := |codes| - 1;
        assert forall j :: 0 <= j < i ==> prefix[j] == codes[j];
        assert Rasterize(b, font, codes[i] as char) == Err(Build(b, font, codes).error);
      }
    }
  }

  // ---- The repertoire ----

  /** The two ranges together: 96 + 32 codes in ascending order, each a
      Unicode scalar value (so the `from_u32` unwrap cannot panic), and
      exactly the codes the repertoire predicate admits. */
  lemma RepertoireShape()
    ensures |Repertoire| == 128
    ensures Ascending(Repertoire) && AllScalar(Repertoire)
    ensures forall code :: InRepertoire(code) ==> IsScalarValue(code)
    ensures forall code :: code in Repertoire <==> InRepertoire(code)
  {
    var asciiCount := AsciiLast - AsciiFirst + 1;
    forall code | InRepertoire(code) ensures code in Repertoire {
      var i := if code <= AsciiLast then code - AsciiFirst else code - BlockFirst + asciiCount;
      assert Repertoire[i] == code;
    }
  }

  // ---- `load` ----

  /** After a successful load the table's key set is exactly the repertoire:
      128 entries, one per character of the two ranges. */
  lemma LoadKeys(b: Backend, path: string)
    ensures LoadSpec(b, path).Ok? ==>
      (forall ch: char :: ch in LoadSpec(b, path).value <==> InRepertoire(ch as int)) &&
      |LoadSpec(b, path).value| == 128
  {
    RepertoireShape();
    if b.loadFont(path, PointSize).Ok? {
      var font := b.loadFont(path, PointSize).value;
      BuildKeys(b, font, Repertoire);
      BuildSize(b, font, Repertoire);
    }
  }

  /** Both ranges are inclusive at both ends, and nothing next to them is cached. */
  lemma LoadBoundaries(b: Backend, path: string)
    requires LoadSpec(b, path).Ok?
    ensures var m := LoadSpec(b, path).value;
      0x20 as char in m && 0x7F as char in m && 0x2580 as char in m && 0x259F as char in m
    ensures var m := LoadSpec(b, path).value;
      0x1F as char !in m && 0x80 as char !in m && 0x257F as char !in m && 0x25A0 as char !in m
  {
    LoadKeys(b, path);
  }

  /** Load is all-or-nothing: it succeeds exactly when the font opens and
      every character of the repertoire renders and uploads. */
  lemma LoadAllOrNothing(b: Backend, path: string)
    ensures LoadSpec(b, path).Ok? <==>
      b.loadFont(path, PointSize).Ok? &&
      forall ch: char :: InRepertoire(ch as int) ==>
        Rasterize(b, b.loadFont(path, PointSize).value, ch).Ok?
  {
    RepertoireShape();
    if b.loadFont(path, PointSize).Ok? {
      var font := b.loadFont(path, PointSize).value;
      BuildOk(b, font, Repertoire);
      if forall ch: char :: InRepertoire(ch as int) ==> Rasterize(b, font, ch).Ok? {
        forall i | 0 <= i < |Repertoire| ensures Rasterize(b, font, Repertoire[i] as char).Ok? {
          assert InRepertoire((Repertoire[i] as char) as int);
        }
      } else {
        var ch: char :| InRepertoire(ch as int) && !Rasterize(b, font, ch).Ok?;
        assert ch as int in Repertoire;
        var i :| 0 <= i < |Repertoire| && Repertoire[i] == ch as int;
        assert Repertoire[i] as char == ch;
      }
    }
  }

  /** A failed load carries the message of the first failure in visiting
      order: the font's own, or that of the first code that failed to
      render or upload, every earlier code having succeeded. */
  lemma LoadFirstFailure(b: Backend, path: string)
    ensures LoadSpec(b, path).Err? ==>
      b.loadFont(path, PointSize) == Err(LoadSpec(b, path).error) ||
      (b.loadFont(path, PointSize).Ok? &&
       exists i :: 0 <= i < |Repertoire| &&
         Rasterize(b, b.loadFont(path, PointSize).value, Repertoire[i] as char) == Err(LoadSpec(b, path).error) &&
         forall j :: 0 <= j < i ==> Rasterize(b, b.loadFont(path, PointSize).value, Repertoire[j] as char).Ok?)
  {
    RepertoireShape();
    if b.loadFont(path, PointSize).Ok? {
      BuildFirstFailure(b, b.loadFont(path, PointSize).value, Repertoire);
    }
  }

  /** Every cached entry is the extent its own character rendered and uploaded to. */
  lemma LoadExtents(b: Backend, path: string)
    ensures LoadSpec(b, path).Ok? ==>
      forall ch :: ch in LoadSpec(b, path).value ==>
        Rasterize(b, b.loadFont(path, PointSize).value, ch) == Ok(LoadSpec(b, path).value[ch])
  {
    RepertoireShape();
    if LoadSpec(b, path).Ok? {
      var font := b.loadFont(path, PointSize).value;
      BuildKeys(b, font, Repertoire);
      BuildValues(b, font, Repertoire);
      forall ch | ch in LoadSpec(b, path).value
        ensures Rasterize(b, font, ch) == Ok(LoadSpec(b, path).value[ch])
      {
        var i :| 0 <= i < |Repertoire| && Repertoire[i] == ch as int;
        assert Repertoire[i] as char == ch;
      }
    }
  }

  // ---- The cache a load returns ----

  /** On a cache that a load produced, `glyph` and `size` are defined for
      exactly the repertoire, and `size` reports what rendering and
      uploading that character produced. */
  lemma LoadedCacheLookups(cache: FontCache, b: Backend, path: string)
    requires LoadSpec(b, path) == Ok(cache.Extents())
    ensures forall ch: char :: ch in cache.glyphMap <==> InRepertoire(ch as int)
    ensures forall ch: char :: ch in cache.glyphMap ==>
      Rasterize(b, b.loadFont(path, PointSize).value, ch) == Ok(cache.Size(ch))
  {
    LoadKeys(b, path);
    LoadExtents(b, path);
    assert forall ch :: ch in cache.glyphMap <==> ch in cache.Extents();
  }

  /** Loading the same font twice yields caches of the same outcome that
      report the same size for every character. */
  method LoadTwice(manager: FontManager, path: string) returns (first: Result<FontCache>, second: Result<FontCache>)
    ensures first.Ok? <==> second.Ok?
    ensures first.Err? ==> first == second
    ensures first.Ok? ==> first.value.Extents() == second.value.Extents()
  {
    first := manager.Load(path);
    second := manager.Load(path);
  }
}
