/** LUT recolouring: a LUT image holds template colours in column 0 (one per row) and, in every
    other column, the replacement colours of one variant at the same rows. LUTManager keeps,
    per body part, the loaded LUT, the selected variant column and the template mapping. */
module LUT {
  import opened Common

  /** One 8-bit colour channel. */
  type Channel = x: int | 0 <= x < 256

  /** A pixel colour as an image decoder yields it: 8-bit red, green, blue and opacity.
      Two colours are equal exactly when their four channels are. */
  datatype Color = Color(red: Channel, green: Channel, blue: Channel, alpha: Channel)

  /** A decoded image, row by row: `pixels[y][x]` is the pixel at column x of row y. An image
      that could not be decoded has size 0x0. */
  datatype Image = Image(width: nat, height: nat, pixels: seq<seq<Color>>)
  {
    predicate Valid()
    {
      && |pixels| == height
      && (forall y | 0 <= y < height :: |pixels[y]| == width)
      && (width == 0 <==> height == 0)
    }

    /** `PixelReader.getColor(x, y)`. */
    function At(x: int, y: int): Color
      requires Valid() && 0 <= x < width && 0 <= y < height
    {
      pixels[y][x]
    }
  }

  // ---------------------------------------------------------------- colour tests

  /** A channel as the colour accessors report it, in [0, 1]. */
  function Fraction(c: Channel): (f: real)
    ensures 0.0 <= f <= 1.0
  {
    c as real / 255.0
  }

  function AbsReal(r: real): real
  {
    if r < 0.0 then -r else r
  }

  /** The tolerance of the colour comparison and of the template test. */
  const Tolerance: real := 0.01

  /** One channel of `colorsMatch`: the fractions differ by less than the tolerance. */
  predicate ChannelsClose(a: Channel, b: Channel)
  {
    AbsReal(Fraction(a) - Fraction(b)) < Tolerance
  }

  /** `colorsMatch`: red, green and blue are each within the tolerance; opacity is ignored. */
  predicate ColorsMatch(c1: Color, c2: Color)
  {
    ChannelsClose(c1.red, c2.red) && ChannelsClose(c1.green, c2.green) && ChannelsClose(c1.blue, c2.blue)
  }

  /** On 8-bit channels the tolerance 0.01 means a difference of at most 2 steps. */
  lemma ChannelsCloseWithinTwo(a: Channel, b: Channel)
    ensures ChannelsClose(a, b) <==> -2 <= a - b <= 2
  {
    var d := a - b;
    assert Fraction(a) - Fraction(b) == d as real / 255.0;
    if d >= 3 {
      assert d as real / 255.0 >= 3.0 / 255.0;
    } else if d <= -3 {
      assert d as real / 255.0 <= -3.0 / 255.0;
    } else {
      assert -2.0 / 255.0 <= d as real / 255.0 <= 2.0 / 255.0;
    }
  }

  /** `colorsMatch` compares the colour channels up to 2 steps each. */
  lemma ColorsMatchWithinTwo(c1: Color, c2: Color)
    ensures ColorsMatch(c1, c2) <==>
              && -2 <= c1.red - c2.red <= 2
              && -2 <= c1.green - c2.green <= 2
              && -2 <= c1.blue - c2.blue <= 2
  {
    ChannelsCloseWithinTwo(c1.red, c2.red);
    ChannelsCloseWithinTwo(c1.green, c2.green);
    ChannelsCloseWithinTwo(c1.blue, c2.blue);
  }

  /** The matching is symmetric and reflexive, but not transitive: colours 2 steps apart
      match, 4 steps apart do not. */
  lemma ColorsMatchIsNotAnEquivalence(c1: Color, c2: Color)
    ensures ColorsMatch(c1, c2) == ColorsMatch(c2, c1)
    ensures ColorsMatch(c1, c1)
    ensures var b := Color(100, 100, 100, 255);
            var m := Color(102, 100, 100, 255);
            var f := Color(104, 100, 100, 255);
            ColorsMatch(b, m) && ColorsMatch(m, f) && !ColorsMatch(b, f)
  {
    ColorsMatchWithinTwo(c1, c2);
    ColorsMatchWithinTwo(c2, c1);
    ColorsMatchWithinTwo(c1, c1);
    ColorsMatchWithinTwo(Color(100, 100, 100, 255), Color(102, 100, 100, 255));
    ColorsMatchWithinTwo(Color(102, 100, 100, 255), Color(104, 100, 100, 255));
    ColorsMatchWithinTwo(Color(100, 100, 100, 255), Color(104, 100, 100, 255));
  }

  /** The template test of `analyzeLUTColors`: visible, and not (nearly) black. */
  predicate IsTemplateColor(c: Color)
  {
    Fraction(c.alpha) > 0.0 && (Fraction(c.red) > Tolerance || Fraction(c.green) > Tolerance || Fraction(c.blue) > Tolerance)
  }

  /** On 8-bit channels: opacity at least 1 and some colour channel at least 3. */
  lemma TemplateColorThreshold(c: Color)
    ensures IsTemplateColor(c) <==> c.alpha > 0 && (c.red >= 3 || c.green >= 3 || c.blue >= 3)
  {
    forall ch: Channel
      ensures Fraction(ch) > Tolerance <==> ch >= 3
    {
      if ch >= 3 {
        assert ch as real / 255.0 >= 3.0 / 255.0;
      } else {
        assert ch as real / 255.0 <= 2.0 / 255.0;
      }
    }
  }

  // ---------------------------------------------------------------- the template mapping

  /** The mapping `analyzeLUTColors` has built after reading rows 0..n-1 of column 0: each
      template colour to the row it was last seen on. */
  function TemplateRows(lut: Image, n: nat): map<Color, nat>
    requires lut.Valid() && n <= lut.height
  {
    if n == 0 then map[]
    else
      var m := TemplateRows(lut, n - 1);
      var c := lut.At(0, n - 1);
      if IsTemplateColor(c) then m[c := n - 1] else m
  }

  /** The complete template mapping of a LUT. */
  function TemplateMapping(lut: Image): map<Color, nat>
    requires lut.Valid()
  {
    TemplateRows(lut, lut.height)
  }

  /** The template colours are exactly the template-looking pixels of column 0. */
  lemma {:induction false} TemplateRowsAreSeenColors(lut: Image, n: nat)
    requires lut.Valid() && n <= lut.height
    ensures forall c :: c in TemplateRows(lut, n) <==> IsTemplateColor(c) && exists y | 0 <= y < n :: lut.At(0, y) == c
  {
    if n > 0 {
      TemplateRowsAreSeenColors(lut, n - 1);
    }
  }

  /** Each template colour is mapped to the LAST row of column 0 that holds it. */
  lemma {:induction false} TemplateRowsAreLastRows(lut: Image, n: nat)
    requires lut.Valid() && n <= lut.height
    ensures forall c | c in TemplateRows(lut, n) ::
              && IsTemplateColor(c)
              && TemplateRows(lut, n)[c] < n
              && lut.At(0, TemplateRows(lut, n)[c]) == c
              && forall y | TemplateRows(lut, n)[c] < y < n :: lut.At(0, y) != c
  {
    if n > 0 {
      TemplateRowsAreLastRows(lut, n - 1);
    }
  }

  /** Every row a template mapping yields lies inside the LUT. */
  lemma TemplateMappingInside(lut: Image)
    requires lut.Valid()
    ensures forall c | c in TemplateMapping(lut) :: TemplateMapping(lut)[c] < lut.height
  {
    TemplateRowsAreLastRows(lut, lut.height);
  }

  /** An undecodable LUT (0x0) has no template colour. */
  lemma EmptyLUTHasNoTemplates(lut: Image)
    requires lut.Valid() && lut.width == 0
    ensures TemplateMapping(lut) == map[]
  {
  }

  // ---------------------------------------------------------------- recolouring

  /** Some visible pixel of `sprite` matches a template colour, so that `applyLUT` reads the LUT. */
  ghost predicate ReadsLUT(sprite: Image, mapping: map<Color, nat>)
    requires sprite.Valid()
  {
    exists x, y, k | 0 <= x < sprite.width && 0 <= y < sprite.height && k in mapping ::
      sprite.At(x, y).alpha > 0 && ColorsMatch(sprite.At(x, y), k)
  }

  // ---------------------------------------------------------------- the scan order

  /** The order in which `findMatchingTemplateColor` visits the template colours. A hash map's
      iteration order is unspecified, but an unchanged map is scanned in the same order every
      time; the model fixes one such order: by red, then green, then blue, then opacity. */
  predicate ScanBefore(a: Color, b: Color)
  {
    || a.red < b.red
    || (a.red == b.red && a.green < b.green)
    || (a.red == b.red && a.green == b.green && a.blue < b.blue)
    || (a.red == b.red && a.green == b.green && a.blue == b.blue && a.alpha <= b.alpha)
  }

  /** The scan order is transitive. */
  lemma ScanBeforeTransitive(a: Color, b: Color, c: Color)
    requires ScanBefore(a, b) && ScanBefore(b, c)
    ensures ScanBefore(a, c)
  {
  }

  /** Every non-empty set of colours has a first colour in the scan order. */
  lemma {:induction false} FirstInScanExists(s: set<Color>)
    requires s != {}
    ensures exists m | m in s :: forall k | k in s :: ScanBefore(m, k)
  {
    var x :| x in s;
    if s != {x} {
      FirstInScanExists(s - {x});
      var m :| m in s - {x} && forall k | k in s - {x} :: ScanBefore(m, k);
      if ScanBefore(x, m) {
        forall k | k in s
          ensures ScanBefore(x, k)
        {
          if k != x {
            ScanBeforeTransitive(x, m, k);
          }
        }
      } else {
        assert forall k | k in s :: ScanBefore(m, k);
      }
    } else {
      assert forall k | k in s :: ScanBefore(x, k);
    }
  }

  /** The template colour `findMatchingTemplateColor` stops at: the first one in the scan order
      that the pixel matches, or none when it matches none. */
  ghost function FirstMatch(c: Color, mapping: map<Color, nat>): (r: Option<Color>)
    ensures r.None? <==> forall k | k in mapping :: !ColorsMatch(c, k)
    ensures r.Some? ==> && r.value in mapping && ColorsMatch(c, r.value)
                        && forall k | k in mapping && ColorsMatch(c, k) :: ScanBefore(r.value, k)
  {
    var matching := set k | k in mapping && ColorsMatch(c, k);
    if matching == {} then
      assert forall k | k in mapping :: ColorsMatch(c, k) ==> k in matching;
      None
    else
      FirstInScanExists(matching);
      var m :| m in matching && forall k | k in matching :: ScanBefore(m, k);
      Some(m)
  }

  /** What `applyLUT` writes for one pixel: a transparent pixel is copied; a visible pixel that
      matches a template colour becomes the LUT pixel at (column, the row of the first matching
      template colour in the scan order); any other pixel is copied. */
  ghost predicate RecolouredPixel(orig: Color, out: Color, mapping: map<Color, nat>, lut: Image, column: int)
    requires lut.Valid()
  {
    if orig.alpha == 0 then out == orig
    else match FirstMatch(orig, mapping)
      case None => out == orig
      case Some(k) => 0 <= column < lut.width && mapping[k] < lut.height && out == lut.At(column, mapping[k])
  }

  /** `out` is a recoloured copy of `orig`, pixel by pixel. */
  ghost predicate Recoloured(orig: Image, out: Image, mapping: map<Color, nat>, lut: Image, column: int)
    requires lut.Valid()
  {
    && orig.Valid() && out.Valid()
    && out.width == orig.width && out.height == orig.height
    && forall x, y | 0 <= x < orig.width && 0 <= y < orig.height ::
         RecolouredPixel(orig.At(x, y), out.At(x, y), mapping, lut, column)
  }

  /** No colour matches two different template colours. */
  ghost predicate Unambiguous(mapping: map<Color, nat>)
  {
    forall c, k1, k2 | k1 in mapping && k2 in mapping && ColorsMatch(c, k1) && ColorsMatch(c, k2) :: k1 == k2
  }

  /** With an unambiguous mapping the scan order does not matter: the template colour found is
      any one the pixel matches. */
  lemma UnambiguousMatchIsOrderFree(c: Color, mapping: map<Color, nat>, k: Color)
    requires Unambiguous(mapping) && k in mapping && ColorsMatch(c, k)
    ensures FirstMatch(c, mapping) == Some(k)
  {
  }

  /** Template colours that pairwise differ by more than 4 steps in some colour channel can never
      both match one pixel. */
  lemma SeparatedTemplatesAreUnambiguous(mapping: map<Color, nat>)
    requires forall k1, k2 | k1 in mapping && k2 in mapping && k1 != k2 ::
               k1.red - k2.red > 4 || k2.red - k1.red > 4
               || k1.green - k2.green > 4 || k2.green - k1.green > 4
               || k1.blue - k2.blue > 4 || k2.blue - k1.blue > 4
    ensures Unambiguous(mapping)
  {
    forall c, k1, k2 | k1 in mapping && k2 in mapping && ColorsMatch(c, k1) && ColorsMatch(c, k2)
      ensures k1 == k2
    {
      ColorsMatchWithinTwo(c, k1);
      ColorsMatchWithinTwo(c, k2);
    }
  }

  /** The recoloured image is determined by its inputs: recolouring the same sprite with the
      same mapping, LUT and column twice gives the same image. */
  lemma RecolouringIsDeterministic(orig: Image, out1: Image, out2: Image, mapping: map<Color, nat>, lut: Image, column: int)
    requires lut.Valid()
    requires Recoloured(orig, out1, mapping, lut, column) && Recoloured(orig, out2, mapping, lut, column)
    ensures out1 == out2
  {
    forall y | 0 <= y < orig.height
      ensures out1.pixels[y] == out2.pixels[y]
    {
      forall x | 0 <= x < orig.width
        ensures out1.pixels[y][x] == out2.pixels[y][x]
      {
        assert RecolouredPixel(orig.At(x, y), out1.At(x, y), mapping, lut, column);
        assert RecolouredPixel(orig.At(x, y), out2.At(x, y), mapping, lut, column);
      }
    }
  }

  /** Without template colours nothing is recoloured: the result is a pixel copy. */
  lemma NoTemplatesCopy(orig: Image, out: Image, lut: Image, column: int)
    requires lut.Valid() && Recoloured(orig, out, map[], lut, column)
    ensures out == orig
  {
    forall y | 0 <= y < orig.height
      ensures out.pixels[y] == orig.pixels[y]
    {
      forall x | 0 <= x < orig.width
        ensures out.pixels[y][x] == orig.pixels[y][x]
      {
        assert RecolouredPixel(orig.At(x, y), out.At(x, y), map[], lut, column);
      }
    }
  }

  /** The image held by a pixel buffer (`WritableImage`), `a[x, y]` being column x of row y. */
  function ImageOf(a: array2<Color>): (img: Image)
    reads a
    requires a.Length0 == 0 <==> a.Length1 == 0
    ensures img.Valid() && img.width == a.Length0 && img.height == a.Length1
    ensures forall x, y | 0 <= x < a.Length0 && 0 <= y < a.Length1 :: img.At(x, y) == a[x, y]
  {
    Image(a.Length0, a.Length1,
          seq(a.Length1, y requires 0 <= y < a.Length1 reads a =>
            seq(a.Length0, x requires 0 <= x < a.Length0 reads a => a[x, y])))
  }

  // ---------------------------------------------------------------- the manager

  class LUTManager {
    /** Per body part: the loaded LUT image. */
    var loadedLUTs: map<string, Image>
    /** Per body part: the selected variant column (0 = no recolouring). */
    var selectedColors: map<string, int>
    /** Per body part: template colour -> LUT row. */
    var colorMappings: map<string, map<Color, nat>>

    /** Every loaded LUT is a decoded image, has a selected column, and its template mapping is
        the one computed from it. */
    predicate Valid()
      reads this
    {
      forall p | p in loadedLUTs ::
        && loadedLUTs[p].Valid()
        && p in selectedColors
        && p in colorMappings
        && colorMappings[p] == TemplateMapping(loadedLUTs[p])
    }

    constructor ()
      ensures Valid()
      ensures loadedLUTs == map[] && selectedColors == map[] && colorMappings == map[]
    {
      loadedLUTs := map[];
      selectedColors := map[];
      colorMappings := map[];
    }

    /** `hasLUT`. */
    predicate HasLUT(partName: string)
      reads this
    {
      partName in loadedLUTs
    }

    /** `loadLUT`. The file is given already decoded: `None` when it does not exist or opening
        it fails, which leaves everything unchanged and yields false. Otherwise the LUT is
        stored, column 0 is selected, the template mapping is rebuilt and the result is true. */
    method LoadLUT(partName: string, lutFile: Option<Image>) returns (ok: bool)
      requires Valid()
      requires lutFile.Some? ==> lutFile.value.Valid()
      modifies this
      ensures Valid()
      ensures ok <==> lutFile.Some?
      ensures !ok ==> loadedLUTs == old(loadedLUTs) && selectedColors == old(selectedColors)
                      && colorMappings == old(colorMappings)
      ensures ok ==> && loadedLUTs == old(loadedLUTs)[partName := lutFile.value]
                     && selectedColors == old(selectedColors)[partName := 0]
                     && colorMappings == old(colorMappings)[partName := TemplateMapping(lutFile.value)]
                     && HasLUT(partName)
    {
      if lutFile.None? {
        return false;
      }
      var lutImage := lutFile.value;
      loadedLUTs := loadedLUTs[partName := lutImage];
      selectedColors := selectedColors[partName := 0];
      AnalyzeLUTColors(partName, lutImage);
      return true;
    }

    /** `analyzeLUTColors`: scans column 0 top to bottom and maps every template colour to its
        row, a later row overwriting an earlier one with the same colour. */
    method AnalyzeLUTColors(partName: string, lutImage: Image)
      requires lutImage.Valid()
      modifies this
      ensures colorMappings == old(colorMappings)[partName := TemplateMapping(lutImage)]
      ensures loadedLUTs == old(loadedLUTs) && selectedColors == old(selectedColors)
    {
      var mapping: map<Color, nat> := map[];
      var height := lutImage.height;
      var y := 0;
      while y < height
        invariant 0 <= y <= height
        invariant mapping == TemplateRows(lutImage, y)
      {
        var templateColor := lutImage.At(0, y);
        if IsTemplateColor(templateColor) {
          mapping := mapping[templateColor := y];
        }
        y := y + 1;
      }
      colorMappings := colorMappings[partName := mapping];
    }

    /** The part has a LUT and a non-empty template mapping, so its columns are offered. */
    predicate HasVariants(partName: string)
      reads this
    {
      partName in loadedLUTs && partName in colorMappings && colorMappings[partName] != map[]
    }

    /** `getAvailableVariantIndices`: every column of the LUT, 0 included, in order; none when
        the part has no LUT or no template colour. */
    method GetAvailableVariantIndices(partName: string) returns (indices: seq<int>)
      ensures !HasVariants(partName) ==> indices == []
      ensures HasVariants(partName) ==>
                |indices| == loadedLUTs[partName].width && forall i | 0 <= i < |indices| :: indices[i] == i
    {
      if partName !in loadedLUTs || partName !in colorMappings || colorMappings[partName] == map[] {
        return [];
      }
      var width := loadedLUTs[partName].width;
      indices := [];
      var x := 0;
      while x < width
        invariant 0 <= x <= width
        invariant |indices| == x && forall i | 0 <= i < x :: indices[i] == i
      {
        indices := indices + [x];
        x := x + 1;
      }
    }

    /** `getColorCount`: the number of offered variant columns. */
    method GetColorCount(partName: string) returns (count: int)
      ensures count == if HasVariants(partName) then loadedLUTs[partName].width else 0
    {
      var indices := GetAvailableVariantIndices(partName);
      count := |indices|;
    }

    /** `findMatchingTemplateColor`: scans the template colours in the scan order and yields the
        row of the first one the pixel matches, if any. */
    method FindMatchingTemplateColor(spriteColor: Color, colorMapping: map<Color, nat>) returns (row: Option<nat>)
      ensures row.None? <==> forall k | k in colorMapping :: !ColorsMatch(spriteColor, k)
      ensures row.Some? ==> exists k | k in colorMapping :: ColorsMatch(spriteColor, k) && colorMapping[k] == row.value
      ensures row == match FirstMatch(spriteColor, colorMapping)
                       case None => None
                       case Some(k) => Some(colorMapping[k])
    {
      var entries := colorMapping.Keys;
      while entries != {}
        invariant entries <= colorMapping.Keys
        invariant forall k | k in colorMapping && k !in entries :: !ColorsMatch(spriteColor, k)
        decreases |entries|
      {
        FirstInScanExists(entries);
        var key :| key in entries && forall k | k in entries :: ScanBefore(key, k);
        if ColorsMatch(spriteColor, key) {
          var first := FirstMatch(spriteColor, colorMapping).value;
          assert first in entries && ScanBefore(key, first) && ScanBefore(first, key);
          return Some(colorMapping[key]);
        }
        entries := entries - {key};
      }
      return None;
    }

    /** `setSelectedColor`: records the column as given, without a range check. */
    method SetSelectedColor(partName: string, colorIndex: int)
      requires Valid()
      modifies this
      ensures Valid()
      ensures selectedColors == old(selectedColors)[partName := colorIndex]
      ensures loadedLUTs == old(loadedLUTs) && colorMappings == old(colorMappings)
    {
      selectedColors := selectedColors[partName := colorIndex];
    }

    /** `removeLUT`: forgets the LUT and the selected column; the template mapping stays. */
    method RemoveLUT(partName: string)
      requires Valid()
      modifies this
      ensures Valid() && !HasLUT(partName) && !Recolours(partName)
      ensures loadedLUTs == old(loadedLUTs) - {partName}
      ensures selectedColors == old(selectedColors) - {partName}
      ensures colorMappings == old(colorMappings)
    {
      loadedLUTs := loadedLUTs - {partName};
      selectedColors := selectedColors - {partName};
    }

    /** `applyLUT` recolours: the part has a LUT, a selected column other than 0, and a mapping. */
    predicate Recolours(partName: string)
      reads this
    {
      partName in loadedLUTs && partName in selectedColors && selectedColors[partName] != 0 && partName in colorMappings
    }

    /** `applyLUT`: the sprite itself when the part is not recoloured; otherwise a new image of the
        same size in which every visible pixel matching a template colour takes the LUT pixel at
        (selected column, template row). Reading the LUT outside its columns fails in the
        source, so a selected column outside the LUT is only allowed when no pixel matches.
        Allocating the 0x0 output for an undecodable sprite also fails in the source, so a
        recoloured sprite must have pixels. */
    method ApplyLUT(partName: string, originalSprite: Image) returns (result: Image)
      requires Valid() && originalSprite.Valid()
      requires Recolours(partName) ==> originalSprite.width > 0
      requires Recolours(partName) && ReadsLUT(originalSprite, colorMappings[partName]) ==>
                 0 <= selectedColors[partName] < loadedLUTs[partName].width
      ensures !Recolours(partName) ==> result == originalSprite
      ensures Recolours(partName) ==>
                Recoloured(originalSprite, result, colorMappings[partName], loadedLUTs[partName], selectedColors[partName])
    {
      if partName !in loadedLUTs || partName !in selectedColors || selectedColors[partName] == 0 || partName !in colorMappings {
        return originalSprite;
      }
      var lut := loadedLUTs[partName];
      var variantColumn := selectedColors[partName];
      var colorMapping := colorMappings[partName];
      TemplateMappingInside(lut);
      var width := originalSprite.width;
      var height := originalSprite.height;
      var out := new Color[width, height];
      var y := 0;
      while y < height
        invariant 0 <= y <= height
        invariant forall yy, xx | 0 <= yy < y && 0 <= xx < width ::
                    RecolouredPixel(originalSprite.At(xx, yy), out[xx, yy], colorMapping, lut, variantColumn)
      {
        var x := 0;
        while x < width
          invariant 0 <= x <= width
          invariant forall yy, xx | 0 <= yy < y && 0 <= xx < width ::
                      RecolouredPixel(originalSprite.At(xx, yy), out[xx, yy], colorMapping, lut, variantColumn)
          invariant forall xx | 0 <= xx < x ::
                      RecolouredPixel(originalSprite.At(xx, y), out[xx, y], colorMapping, lut, variantColumn)
        {
          var originalColor := originalSprite.At(x, y);
          if originalColor.alpha > 0 {
            var templateRow := FindMatchingTemplateColor(originalColor, colorMapping);
            if templateRow.Some? {
              var k :| k in colorMapping && ColorsMatch(originalColor, k) && colorMapping[k] == templateRow.value;
              assert ReadsLUT(originalSprite, colorMapping);
              out[x, y] := lut.At(variantColumn, templateRow.value);
            } else {
              out[x, y] := originalColor;
            }
          } else {
            out[x, y] := originalColor;
          }
          x := x + 1;
        }
        y := y + 1;
      }
      result := ImageOf(out);
    }
  }

  /** Selecting variant V, then 0, then V again: the first and last recolourings agree and the
      middle one is the sprite itself. The sprite has pixels: recolouring an undecodable one
      fails in the source. */
  method VariantRoundTrip(manager: LUTManager, partName: string, v: int, sprite: Image)
    returns (first: Image, base: Image, again: Image)
    requires manager.Valid() && sprite.Valid() && sprite.width > 0 && manager.HasLUT(partName)
    requires 0 < v < manager.loadedLUTs[partName].width
    modifies manager
    ensures manager.Valid() && manager.selectedColors == old(manager.selectedColors)[partName := v]
    ensures manager.loadedLUTs == old(manager.loadedLUTs) && manager.colorMappings == old(manager.colorMappings)
    ensures Recoloured(sprite, first, manager.colorMappings[partName], manager.loadedLUTs[partName], v)
    ensures base == sprite && again == first
  {
    manager.SetSelectedColor(partName, v);
    first := manager.ApplyLUT(partName, sprite);
    manager.SetSelectedColor(partName, 0);
    base := manager.ApplyLUT(partName, sprite);
    manager.SetSelectedColor(partName, v);
    again := manager.ApplyLUT(partName, sprite);
    RecolouringIsDeterministic(sprite, first, again, manager.colorMappings[partName],
                               manager.loadedLUTs[partName], v);
  }
}
