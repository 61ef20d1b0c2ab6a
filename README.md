# SpriteFont proof fonts, modelled in Dafny

A *proof font* (`.sfpf`) is a bitmap font made of two parts:

- an atlas image, in which every glyph is cut to one common horizontal band and the glyphs sit side by side in a single row;
- a `chars_data` text with one line `c x w` per glyph: the character, its first atlas column and its width.

The format has two halves, and this project models both of them and the link between them:

- **The packer** is `export_sfpf` in `fontAtlasMoko.py`.
  - It trims every rendered character with `y_cut` and `x_cut`.
  - It finds the band all glyphs share.
  - It crops each glyph to that band.
  - It blits the crops into the atlas and writes `chars_data`.
- **The loader and renderer** is the `SFProofFont` class in `SFProofFont.cs`.
  - Its constructor reads `chars_data` into a dictionary.
  - `DrawString` walks a text with a pen and issues one sprite draw per glyph, taking the glyph's columns of the atlas as the source rectangle.

The modules are:

- `Results`: `Option` and `Result`.
- `Surfaces`: pixel surfaces, and `y_cut`/`x_cut` as imperative scans (`YCut`, `XCut`). Each is proved equal to a declarative crop (`YCrop`, `XCrop`), whose meaning is stated by `YCropSpec` and `XCropSpec`.
- `Strings`: Python's `'\n'.join` and `str(n)`, .NET's `String.Split(char)`, and the laws that link them.
- `Packer`: the packing loops of `export_sfpf`. The imperative methods `SurfaceKeys`, `MeasureBand`, `CropGlyphs`, `AtlasWidth`, `WriteAtlas`, `PackAtlas` and `ExportSfpf` are each proved against specification functions (`ScanBand`, `Layout`, `Compose`, `PlanOf`, `Exported`).
- `GlyphTable`: .NET `int.Parse`, one table line, and the constructor's loop, which builds the dictionary (`ParseCharsData`).
- `ProofFont`: the class `SFProofFont` with its `Spacing`/`LineSpacing` properties, `Size` and `DrawString`. The loop of `DrawString` is proved equal to the fold `Typeset`. The lemmas about `Typeset` state:
  - which draws are issued;
  - where the pen is;
  - when the call stops at a missing glyph.
- `RoundTrip`: packer and loader together.
  - The `chars_data` written for a glyph list loads back as exactly those columns and widths.
  - The source rectangle `DrawString` takes for a character selects, in the exported atlas, the band of that character's rendering.

Behaviours of the code that the model keeps and proves:

- **Characters typed twice.** The character list keeps both occurrences, so `chars_data` holds two lines for the character and `Dictionary.Add` rejects the second: the exported font cannot be loaded (`EmitThenLoad`, `ExportThenLoad`, `TypedTwiceUnloadable`).
- **Characters without content.** A character whose rendering has no visible pixel leaves the character list, but the crop loop still cuts the band from its `x_cut`. When the rendering is at least one column wide, that `x_cut` is 0x0. Unless the band is empty at row 0, `subsurface` then raises and the export fails (`InklessCharacterFails`, `NoInkFails`). A rendering zero columns wide gives a 1-by-height `x_cut` instead, and the crop may fit.
- **Band height.** The band is `max_y - min_y` rows high, so the lowest content row, `max_y`, is not part of any glyph (`BandOmitsLowestRow`).
- **Unloadable tables.** A `chars_data` that is empty or ends in `'\n'` does not load: its last line has no first character (`EmptyRejected`, `TrailingNewlineRejected`).

Two other files of the repository point past the modelled code, and the model follows the code:

- `SDPF Generator.py:139` offers atlases at several sizes (`common_sizes`). `export_sfpf` renders one atlas, at size 120, and `SFProofFont` reads one atlas, so there is no choice among sizes.
- `Game1.cs:44` calls `font.MeasureString`, which `SFProofFont.cs` does not define, so there is no measuring operation.

In the code:

- a space advances the pen by twice `spacing`, unscaled;
- a newline moves it down by `height + lineSpacing * height / Size`;
- a glyph advances it by `(w + spacing) * height / Size`.

## Model

| member | source | states |
|---|---|---|
| Surfaces.YCut | fontAtlasMoko.py:15-34 | the scan returns exactly the declarative crop `YCrop`: the rows from the first to the last content row, with their indices |
| Surfaces.YCropSpec | fontAtlasMoko.py:15-34 | with content: top and bottom are content rows and bound every content row, and the crop is those rows at full width; without content: a 0x0 surface and top = bottom = 0 (a width-by-1 surface for a surface of height 0) |
| Surfaces.XCut | fontAtlasMoko.py:36-55 | the scan returns exactly the declarative crop `XCrop` |
| Surfaces.XCropSpec | fontAtlasMoko.py:36-55 | with content: the crop spans from the first to the last content column, which bound every content column, at full height; without content: a 0x0 surface (1-by-height for a surface of width 0) |
| Surfaces.XCropKeepsRows | fontAtlasMoko.py:36-55 | a row with content still has content after the column trim |
| Surfaces.IsContent | fontAtlasMoko.py:22-25 | with a background colour a pixel is content if and only if one of its red, green and blue channels differs from it, whatever its alpha; without one, if and only if its alpha is not 0 (the same test as lines 43-46 of `x_cut`) |
| Strings.Split | SFProofFont.cs:35 | `Split` never yields an empty list, and no piece contains the separator |
| Strings.SplitCount | SFProofFont.cs:35 | there is one more piece than there are separators, so empty pieces are kept |
| Strings.SplitJoin | SFProofFont.cs:35 | splitting lines joined by a separator they do not contain gives back the lines |
| Strings.JoinSplit | SFProofFont.cs:35 | joining the pieces of a split gives back the text |
| Strings.TerminatedIsJoinThenSep | fontAtlasMoko.py:147-158 | lines each followed by `'\n'` are the joined lines plus one `'\n'`, so `chars_data[:-1]` is the join |
| Strings.Decimal | fontAtlasMoko.py:155 | `str(n)` is a non-empty digit string with no leading zero |
| Strings.DecimalValue | fontAtlasMoko.py:155 | the digits `str(n)` writes denote `n` |
| GlyphTable.ParseInt32 | SFProofFont.cs:39-40 | `int.Parse` yields a value within the 32-bit range, or a FormatException or OverflowException; its syntax and values are stated by `ParseInt32Syntax` and `ParseInt32Format` |
| GlyphTable.ParseInt32Syntax | SFProofFont.cs:39-40 | white space, an optional `-` or `+`, one or more digits, white space and a run of `'\0'` characters parse to the signed value of the digits when it fits 32 bits, and raise OverflowException otherwise |
| GlyphTable.ParseInt32Format | SFProofFont.cs:39-40 | `int.Parse` raises FormatException if and only if the string is not white space, an optional sign, one or more digits, white space and `'\0'` characters, in that order |
| GlyphTable.NulAfterNumber | SFProofFont.cs:39-40 | `int.Parse("5\0")` is 5 |
| GlyphTable.NulsAfterWhite | SFProofFont.cs:39-40 | `int.Parse("5 \0\0")` is 5 |
| GlyphTable.WhiteAfterNul | SFProofFont.cs:39-40 | `int.Parse("5\0 ")` raises FormatException, because the `'\0'` is not at the end |
| GlyphTable.ParseDecimal | SFProofFont.cs:39-40 | `int.Parse` reads back what Python's `str` wrote when the value fits 32 bits, and overflows otherwise |
| GlyphTable.ParseLine | SFProofFont.cs:37-40 | a line that parses has a first character, and that character is the key |
| GlyphTable.ParseLineFields | SFProofFont.cs:37-40 | a line made of a character, a first field, a space, a second field, a space, a third field and anything after a further space yields that character with the values of the second and third fields, or the exception `int.Parse` raises on the first of them that fails |
| GlyphTable.ParseLineShape | SFProofFont.cs:37-40 | every line that parses has that shape, and its column and width are the `int.Parse` values of its second and third fields |
| GlyphTable.FewSpacesFail | SFProofFont.cs:37-40 | a line with fewer than two spaces has fewer than three fields and raises |
| GlyphTable.Insert | SFProofFont.cs:41 | adding the parsed lines to the dictionary in order succeeds only when every line parsed |
| GlyphTable.ParseCharsData | SFProofFont.cs:35-42 | the constructor's loop builds exactly `TableOf` of the split lines, and stops at the first exception |
| GlyphTable.FailureSticky | SFProofFont.cs:36-42 | once a line has raised, the lines after it do not change the outcome |
| GlyphTable.TableOfSucceeds | SFProofFont.cs:35-42 | the table loads if and only if every line parses and no key repeats; it then holds exactly the lines' keys, each mapped to its line's entry |
| GlyphTable.TrailingNewlineRejected | SFProofFont.cs:35-38 | a `chars_data` ending in `'\n'` never loads |
| ProofFont.SFProofFont.constructor | SFProofFont.cs:14-15 | a new font holds its atlas and table, with Spacing 10 and LineSpacing 5 |
| ProofFont.SFProofFont.Load | SFProofFont.cs:35-42 | the font loads with the table `TableOf` the lines and the default spacings, or the table's first exception is raised |
| ProofFont.SFProofFont.Size | SFProofFont.cs:13 | the size is the atlas height, and it is positive |
| ProofFont.SFProofFont.DrawString | SFProofFont.cs:45-67 | after the `??=` defaults are applied, the draws issued and the stopping character are exactly those of `Typeset`; no field changes |
| ProofFont.TypesetDraws | SFProofFont.cs:51-67 | one draw per glyph of the text, in order, each with that glyph's source rectangle, the colour, the rotation and scale `fontScale * scale`; it stops at the first glyph without an entry and reports it, and it completes if and only if every glyph was drawn |
| ProofFont.DrawStringCompletes | SFProofFont.cs:51-67 | the call completes if and only if every character other than a space or newline has an entry; it then issues one draw per such character |
| ProofFont.GlyphsOf | SFProofFont.cs:53-62 | the characters drawn are exactly those of the text other than space and newline |
| ProofFont.PenPosition | SFProofFont.cs:47-66 | after the text the pen is the width of the last line to the right of `position` and one line height per newline below it |
| ProofFont.BelowCounts | SFProofFont.cs:57-60 | the total drop is the number of newlines times `height + lineSpacing * fontScale` |
| ProofFont.DrawOfGlyph | SFProofFont.cs:47-66 | a glyph with an entry, preceded only by glyphs with entries, gets the draw numbered by the glyphs before it, with its entry's source rectangle, at the pen given by the line so far and the newlines before it |
| ProofFont.DrawsGrow | SFProofFont.cs:51-67 | the draws for a prefix of the text are a prefix of the draws for the text |
| ProofFont.MissingSticky | SFProofFont.cs:62 | once a glyph has no entry, the rest of the text adds nothing |
| ProofFont.Step | SFProofFont.cs:52-66 | one character adds at most one draw and keeps the earlier draws; it adds one exactly when nothing is missing yet and the character is a glyph with an entry; a missing glyph is reported once and then nothing changes |
| ProofFont.Typeset | SFProofFont.cs:47-67 | there are no more draws than characters, and a reported missing character is a glyph of the text without an entry |
| ProofFont.NextGlyphDraw | SFProofFont.cs:63-66 | two glyphs in a row with entries are drawn on the same line, the second `(w + spacing) * fontScale` to the right of the first, `w` being the first glyph's width |
| Packer.WithoutBlanks | fontAtlasMoko.py:114 | every character except space and newline keeps its count, and those two are gone |
| Packer.WithoutBlanksAppend | fontAtlasMoko.py:114 | removing the blanks works piece by piece and keeps the order: one character stays unless it is a space or newline |
| Packer.Charset | fontAtlasMoko.py:114-115 | the typed characters without blanks, in their order, followed by one `?` when none was typed and by nothing else |
| Packer.Distinct | fontAtlasMoko.py:116-120 | the dictionary's keys are the listed characters, each once |
| Packer.SurfaceKeys | fontAtlasMoko.py:116-120 | the rendering loop leaves exactly `Distinct` of the list as the keys |
| Packer.RemoveFirst | fontAtlasMoko.py:127 | `list.remove(c)` takes away the first occurrence of a present `c`, keeping the order of the rest, and leaves a list without `c` unchanged |
| Packer.MeasureBand | fontAtlasMoko.py:122-130 | the band loop leaves exactly the list, `min_y` and `max_y` of `ScanBand` |
| Packer.ScanBandKept | fontAtlasMoko.py:122-130 | each dropped glyph loses exactly one occurrence from the list, and nothing else changes |
| Packer.ScanBandFinds | fontAtlasMoko.py:127 | every `chars.remove(c)` finds its `c` |
| Packer.ScanBandBounds | fontAtlasMoko.py:124-130 | every glyph that stays lies within `[min_y, max_y]` |
| Packer.ScanBandReached | fontAtlasMoko.py:124-130 | both `min_y` and `max_y` are reached by a glyph that stays |
| Packer.ScanBandEmpty | fontAtlasMoko.py:122-130 | when every glyph is dropped the starting values 6969696969 and 0 remain |
| Packer.KeptNonEmpty | fontAtlasMoko.py:122-136 | an export that gets past the crop loop keeps at least one character |
| Packer.BandIsExtremes | fontAtlasMoko.py:122-130 | `min_y` is the least top and `max_y` the greatest bottom over the characters with content, both reached |
| Packer.CropGlyphs | fontAtlasMoko.py:132-136 | the crop loop succeeds if and only if the band fits every key's `x_cut`; each crop is then rows `[min_y, max_y)` of that `x_cut`; otherwise it fails as `subsurface` does |
| Packer.Band | fontAtlasMoko.py:134-135 | a crop is `max_y - min_y` rows of the `x_cut`, as wide as the `x_cut` |
| Packer.AtlasWidth | fontAtlasMoko.py:138-143 | the width loop sums the widths of the crops of the listed characters |
| Packer.WriteAtlas | fontAtlasMoko.py:145-158 | the atlas is the blank surface with each crop blitted at its layout column, and `chars_data` is the layout's lines joined by `'\n'` |
| Packer.DropLastSeparator | fontAtlasMoko.py:158 | `chars_data[:-1]` of the terminated lines is their join, also when there are none |
| Packer.Layout | fontAtlasMoko.py:147-156 | one glyph per listed character, in order, with the width of its crop |
| Packer.Line | fontAtlasMoko.py:155 | a written line starts with the character and a space, and holds no newline unless the character is one |
| Packer.LayoutAt | fontAtlasMoko.py:147-156 | glyph k starts at the summed widths of the glyphs before it |
| Packer.LayoutEnds | fontAtlasMoko.py:147-156 | the first glyph starts at column 0 and the last one ends at the atlas width |
| Packer.LayoutAdjacent | fontAtlasMoko.py:147-156 | each glyph starts where the previous one ends |
| Packer.LayoutDisjoint | fontAtlasMoko.py:147-156 | no two glyphs overlap |
| Packer.LayoutWithin | fontAtlasMoko.py:145-156 | no glyph passes the atlas width |
| Packer.LayoutColumns | fontAtlasMoko.py:147-156 | glyph k covers the columns from the widths before it up to the widths through it |
| Packer.ComposePixel | fontAtlasMoko.py:150-156 | every pixel of a glyph's columns in the atlas is the corresponding pixel of its crop |
| Packer.ComposeWindow | fontAtlasMoko.py:145-156 | each glyph's window of the atlas is exactly its crop |
| Packer.EmitPlacesCrops | fontAtlasMoko.py:145-156 | the atlas is the total width wide and `max_y - min_y` high, and every glyph's window holds that character's crop |
| Packer.PlanShape | fontAtlasMoko.py:114-136 | a successful plan has `min_y <= max_y`, a crop of band height for every kept character, and no space or newline |
| Packer.KeptFromChars | fontAtlasMoko.py:122-130 | only characters from the list remain listed |
| Packer.BandOmitsLowestRow | fontAtlasMoko.py:132-136 | every crop is rows `[min_y, max_y)` of its `x_cut`, while row `max_y` holds content of some character |
| Packer.NoInkFails | fontAtlasMoko.py:122-136 | with no content in any character the export fails at the crop |
| Packer.InklessCharacterFails | fontAtlasMoko.py:124-136 | a character without content makes the export fail unless the band is empty at row 0 |
| Packer.PlanFromLoops | fontAtlasMoko.py:122-136 | the band loop and the crop loop determine the export's outcome: its failure, or a plan the atlas loops can draw |
| Packer.PackAtlas | fontAtlasMoko.py:138-158 | the width loop and the write loop produce exactly `Emit` of the plan |
| Packer.ExportSfpf | fontAtlasMoko.py:104-158 | the export returns exactly `Exported`: a failure for empty input or a band that does not fit, otherwise the atlas and `chars_data` of the plan |
| RoundTrip.DecimalHasNoSeparators | fontAtlasMoko.py:155 | the numbers written contain neither space nor newline |
| RoundTrip.LineRoundTrip | fontAtlasMoko.py:155 | a line written for a glyph parses back as its character, column and width |
| RoundTrip.TableRoundTrip | fontAtlasMoko.py:147-158 | the written table loads if and only if no character repeats; it then maps exactly the listed characters to their columns and widths |
| RoundTrip.TableLoadsGlyphs | SFProofFont.cs:36-42 | lines that parse as the glyphs' entries load if and only if no character repeats, and then as exactly those entries |
| RoundTrip.LayoutFitsInt32 | fontAtlasMoko.py:147-156 | on an atlas whose width fits 32 bits, every written column and width fits `int.Parse` |
| RoundTrip.LoadedKeys | SFProofFont.cs:36-42 | the loaded table's keys are exactly the kept characters |
| RoundTrip.LoadedWindows | SFProofFont.cs:62-63 | the loaded entry's source rectangle selects each kept character's crop in the atlas |
| RoundTrip.EmitThenLoad | SFProofFont.cs:35-42 | the exported table loads if and only if some character was kept and none twice; its keys are then the kept characters, and each source rectangle selects that character's crop |
| RoundTrip.KeptAreKeys | fontAtlasMoko.py:132-136 | every kept character has the band of its rendering as its crop |
| RoundTrip.ExportThenLoad | fontAtlasMoko.py:104-158 | exporting succeeds and keeps some character; loading the export succeeds if and only if no character was kept twice; each loaded source rectangle selects the band of that character's rendering |
| RoundTrip.TypedTwiceUnloadable | fontAtlasMoko.py:114-158 | a visible character typed twice is exported twice, so `Dictionary.Add` raises and the exported font does not load |
| RoundTrip.ExportedFontDraws | SFProofFont.cs:62-65 | with the exported font, each draw shows the band of the rendering of the matching character, and drawing completes if and only if every non-blank character of the text was kept |

## Left out

- Rendering: `font.render` at size 120 (`get_text_surface`) is the parameter `render`. The text box, its `strip()`, the font chooser and the status label are outside the model, which starts from the stripped text.
- Blit: every `blit` of the packer is a plain copy in the model. This covers the crops of `y_cut` and `x_cut` (fontAtlasMoko.py:33 and 54) and the glyphs written into the atlas (line 154). Each of them lands on a fresh surface that is fully transparent there: the crops on a new `SRCALPHA` surface, the glyphs on the atlas filled with `TRANSPARENT`, in windows that do not overlap (`LayoutDisjoint`). pygame's alpha blit onto a fully transparent pixel yields the source pixel, so the copy is faithful. pygame's blending formula for other destinations is not modelled.
- Packer.RemoveFirst: it is total. Python's `ValueError` for a missing element is not modelled, because `ScanBandFinds` proves the band loop never removes a missing character.
- The `if c not in chars: continue` guards of the width and write loops are kept in the loops. They always pass, because `chars_text` is built from `chars`.
- `font.render` is total here: `render` always yields a surface. pygame can raise for a character it cannot render (a zero-width text), which would end in the export's `except` branch; that failure is not modelled.
- The export is modelled up to `chars_data = chars_data[:-1]` (fontAtlasMoko.py:158). The save dialog, the PNG encoding of the atlas and the writing of the zip archive after it (fontAtlasMoko.py:160-180) are not modelled. So `Exported` also succeeds for a band of height 0, which the PNG encoder would then have to write with zero rows.
- The zip archive, the temporary folder, `File.ReadAllText`, `Directory.Delete` and the PNG decoding are not modelled. The loader starts from the decoded atlas and the `chars_data` text.
- `Color.FromNonPremultiplied`, which premultiplies the atlas's alpha, is not modelled. The atlas pixels are what the packer wrote.
- Drawing: `SpriteBatch.Draw` and `Vector2.Rotate` are recorded as the arguments of the draw. The pen, `position`, `scale` and `rotation` are kept, not combined into a screen position.
- Floating point: `float` arithmetic is real arithmetic. Rounding is not modelled.
- .NET strings are UTF-16: a character outside the Basic Multilingual Plane counts as two `char`s there and one character here. `int.Parse` uses the invariant culture only: no currency, thousands or culture-specific signs.
- Atlas dimensions: the atlas (`AtlasImage`) has a positive width and height, since a PNG cannot have zero rows or columns. So `height / Size` never divides by zero.
- `Dispose` (SFProofFont.cs:69-71) releases the texture and has no effect on the model.
- Game1.cs and `SDPF Generator.py` are not part of this model.
