/**
 * The packing part of `SpriteFontPackerUI.export_sfpf` (fontAtlasMoko.py:104-158):
 * which characters go into the font, the vertical band all glyphs share, the
 * glyph crops, the atlas image and the `chars_data` glyph table.  Rendering
 * one character with the chosen TrueType font (`font.render(c, True, WHITE)`)
 * is the parameter `render`; `input` is the text box contents after `strip()`.
 */
module Packer {
  import opened Results
  import opened Surfaces
  import opened Strings

  /** The starting value of the running `min_y`. */
  const MinYStart := 6969696969

  datatype ExportError =
    | NoCharacters      // the stripped text box is empty
    | BandOutsideGlyph  // `subsurface` raised: the common band does not fit inside a glyph's x-crop

  /** What goes into the `.sfpf` archive: the `atlas.png` image and the `chars_data` text. */
  datatype Sfpf = Sfpf(atlas: Surface, charsData: string)

  /** One glyph of the atlas: its character, its first column and its width. */
  datatype Glyph = Glyph(c: char, x: nat, width: nat)

  // ---------------------------------------------------------------------------
  // The characters

  /** `s.replace(" ", "").replace("\n", "")`. */
  function WithoutBlanks(s: string): (r: string)
    ensures forall c :: multiset(r)[c] == if c == ' ' || c == '\n' then 0 else multiset(s)[c]
    decreases |s|
  {
    if s == [] then []
    else
      var c := s[|s| - 1];
      assert s == s[..|s| - 1] + [c];
      WithoutBlanks(s[..|s| - 1]) + (if c == ' ' || c == '\n' then [] else [c])
  }

  /**
   * The replacements keep the order: removing blanks from two pieces of text
   * removes them from each piece, and a single character stays unless it
   * is a space or a newline.
   */
  lemma {:induction false} WithoutBlanksAppend(a: string, b: string)
    ensures WithoutBlanks(a + b) == WithoutBlanks(a) + WithoutBlanks(b)
    ensures forall c :: WithoutBlanks([c]) == if c == ' ' || c == '\n' then [] else [c]
    decreases |b|
  {
    if b != [] {
      var b', c := b[..|b| - 1], b[|b| - 1];
      var kept := if c == ' ' || c == '\n' then [] else [c];
      assert (a + b)[..|a + b| - 1] == a + b';
      assert WithoutBlanks(a + b) == WithoutBlanks(a + b') + kept;
      assert WithoutBlanks(b) == WithoutBlanks(b') + kept;
      WithoutBlanksAppend(a, b');
      assert WithoutBlanks(a) + WithoutBlanks(b') + kept == WithoutBlanks(a) + (WithoutBlanks(b') + kept);
    } else {
      assert a + b == a;
    }
    WithoutBlanksOne();
  }

  lemma WithoutBlanksOne()
    ensures forall c :: WithoutBlanks([c]) == if c == ' ' || c == '\n' then [] else [c]
  {
    forall c ensures WithoutBlanks([c]) == if c == ' ' || c == '\n' then [] else [c] {
      assert [c][..0] == [];
    }
  }

  /**
   * `list(chars_to_use + ("" if "?" in chars_to_use else "?"))`: the typed
   * characters without blanks, in typed order, then a `?` when none was typed.
   */
  function Charset(input: string): (r: string)
    ensures forall c :: multiset(r)[c] == if c == ' ' || c == '\n' then 0
                                          else if c == '?' then Max(multiset(input)[c], 1)
                                          else multiset(input)[c]
    ensures WithoutBlanks(input) <= r
    ensures |r| == |WithoutBlanks(input)| || r == WithoutBlanks(input) + "?"
  {
    var s := WithoutBlanks(input);
    s + (if '?' in s then "" else "?")
  }

  predicate NoDuplicates(s: string) {
    forall i, j :: 0 <= i < j < |s| ==> s[i] != s[j]
  }

  /** The keys of `chars_surfaces` in insertion order: every character once, where it first occurs. */
  function Distinct(s: string): (r: string)
    ensures forall c :: c in r <==> c in s
    ensures NoDuplicates(r)
    decreases |s|
  {
    if s == [] then []
    else
      var p := Distinct(s[..|s| - 1]);
      var c := s[|s| - 1];
      assert s == s[..|s| - 1] + [c];
      if c in p then p else p + [c]
  }

  /** The index of the first occurrence of `c` in `s`. */
  function FirstIndex(s: string, c: char): (i: nat)
    requires c in s
    ensures i < |s| && s[i] == c && c !in s[..i]
    decreases |s|
  {
    if s[0] == c then 0
    else
      assert s == [s[0]] + s[1..];
      var j := FirstIndex(s[1..], c);
      assert s[..j + 1] == [s[0]] + s[1..][..j];
      j + 1
  }

  /**
   * `list.remove(c)`: drops the first occurrence of `c`.  Python raises when
   * there is none; ScanBandKept shows that the band loop never asks for that.
   */
  function RemoveFirst(s: string, c: char): (r: string)
    ensures c in s ==> multiset(r) == multiset(s) - multiset{c}
    ensures c in s ==> var i := FirstIndex(s, c); r == s[..i] + s[i + 1..]
    ensures c !in s ==> r == s
    decreases |s|
  {
    if s == [] then s
    else if s[0] == c then
      assert s == [c] + s[1..];
      assert s[..0] + s[1..] == s[1..];
      s[1..]
    else
      assert s == [s[0]] + s[1..];
      var r' := RemoveFirst(s[1..], c);
      if c in s[1..] then
        RemovalShifts(s, c, r');
        [s[0]] + r'
      else
        [s[0]] + r'
  }

  /** Removing the first `c` after a different first character keeps that character in front. */
  lemma RemovalShifts(s: string, c: char, r': string)
    requires s != [] && s[0] != c && c in s[1..]
    requires var j := FirstIndex(s[1..], c); r' == s[1..][..j] + s[1..][j + 1..]
    ensures var i := FirstIndex(s, c); [s[0]] + r' == s[..i] + s[i + 1..]
  {
    var j := FirstIndex(s[1..], c);
    assert FirstIndex(s, c) == j + 1;
    assert s[..j + 1] == [s[0]] + s[1..][..j];
    assert s[j + 2..] == s[1..][j + 1..];
  }

  /** `for c in chars: chars_surfaces[c] = ...` (fontAtlasMoko.py:118-120): the dictionary's keys. */
  method SurfaceKeys(chars: string) returns (keys: string)
    ensures keys == Distinct(chars)
  {
    keys := [];
    for i := 0 to |chars|
      invariant keys == Distinct(chars[..i])
    {
      assert chars[..i + 1][..i] == chars[..i];
      if chars[i] !in keys {
        keys := keys + [chars[i]];
      }
    }
    assert chars[..|chars|] == chars;
  }

  // ---------------------------------------------------------------------------
  // The common band (fontAtlasMoko.py:122-130)

  /** What `y_cut(sf)` returns for each character's rendering. */
  ghost function Cuts(render: char -> Surface): char -> YCropped {
    c => YCrop(render(c), None)
  }

  /** A glyph whose `y_cut` comes back with height 0 is removed from the character list. */
  predicate Dropped(cut: YCropped) {
    cut.surface.height == 0
  }

  datatype Scan = Scan(kept: string, minY: int, maxY: int)

  /**
   * The state after the band loop has visited `keys`, given each key's
   * `y_cut`: the characters still listed (one occurrence of each dropped
   * glyph removed) and the running `min_y`/`max_y` over the glyphs that stay.
   */
  function ScanBand(chars: string, keys: string, cut: char -> YCropped): Scan
    decreases |keys|
  {
    if keys == [] then Scan(chars, MinYStart, 0)
    else
      var p := ScanBand(chars, keys[..|keys| - 1], cut);
      var c := keys[|keys| - 1];
      if Dropped(cut(c)) then p.(kept := RemoveFirst(p.kept, c))
      else p.(minY := Min(p.minY, cut(c).top), maxY := Max(p.maxY, cut(c).bottom))
  }

  /** One occurrence of each dropped glyph leaves the list, nothing else does. */
  lemma {:induction false} ScanBandKept(chars: string, keys: string, cut: char -> YCropped)
    requires NoDuplicates(keys) && forall c :: c in keys ==> c in chars
    ensures forall c :: multiset(ScanBand(chars, keys, cut).kept)[c]
                        == multiset(chars)[c] - if c in keys && Dropped(cut(c)) then 1 else 0
    decreases |keys|
  {
    if keys != [] {
      var init := keys[..|keys| - 1];
      var c := keys[|keys| - 1];
      assert keys == init + [c];
      ScanBandKept(chars, init, cut);
      assert c !in init && c in chars;
      var p := ScanBand(chars, init, cut);
      var r := ScanBand(chars, keys, cut);
      assert multiset(p.kept)[c] == multiset(chars)[c] > 0;
      RemovedOnce(p.kept, r.kept, c, Dropped(cut(c)));
      forall d
        ensures multiset(r.kept)[d] == multiset(chars)[d] - if d in keys && Dropped(cut(d)) then 1 else 0
      {
        assert d in keys <==> d in init || d == c;
      }
    }
  }

  /** One step of the band loop on the character list: `c` loses one occurrence if it is dropped. */
  lemma RemovedOnce(before: string, after: string, c: char, dropped: bool)
    requires c in before
    requires after == if dropped then RemoveFirst(before, c) else before
    ensures forall d :: multiset(after)[d] == multiset(before)[d] - if d == c && dropped then 1 else 0
  {
  }

  /** Every `chars.remove(c)` of the band loop finds its `c`. */
  lemma ScanBandFinds(chars: string, keys: string, cut: char -> YCropped, i: nat)
    requires NoDuplicates(keys) && forall c :: c in keys ==> c in chars
    requires i < |keys|
    ensures keys[i] in ScanBand(chars, keys[..i], cut).kept
  {
    var c := keys[i];
    ScanBandKept(chars, keys[..i], cut);
    assert c !in keys[..i];
    assert c in chars;
    assert multiset(ScanBand(chars, keys[..i], cut).kept)[c] == multiset(chars)[c] > 0;
  }

  /** The loop `for c, sf in chars_surfaces.items(): cropped, top, bottom = y_cut(sf) ...`. */
  method MeasureBand(chars: string, keys: string, render: char -> Surface) returns (kept: string, minY: int, maxY: int)
    ensures Scan(kept, minY, maxY) == ScanBand(chars, keys, Cuts(render))
  {
    kept, minY, maxY := chars, MinYStart, 0;
    for i := 0 to |keys|
      invariant Scan(kept, minY, maxY) == ScanBand(chars, keys[..i], Cuts(render))
    {
      assert keys[..i + 1][..i] == keys[..i];
      var c := keys[i];
      var cropped, top, bottom := YCut(render(c), None);
      assert Cuts(render)(c) == YCropped(cropped, top, bottom);
      if cropped.height == 0 {
        kept := RemoveFirst(kept, c);
        continue;
      }
      minY := Min(minY, top);
      maxY := Max(maxY, bottom);
    }
    assert keys[..|keys|] == keys;
  }

  /**
   * The running extremes of the band loop: every glyph that stays lies in
   * [minY, maxY] (ScanBandBounds) and both ends are reached by one
   * (ScanBandReached); with no such glyph the starting values remain
   * (ScanBandEmpty).
   */
  lemma {:induction false} ScanBandBounds(chars: string, keys: string, cut: char -> YCropped)
    ensures var r := ScanBand(chars, keys, cut);
      forall c :: c in keys && !Dropped(cut(c)) ==> r.minY <= cut(c).top && cut(c).bottom <= r.maxY
    decreases |keys|
  {
    if keys != [] {
      var init := keys[..|keys| - 1];
      var c := keys[|keys| - 1];
      assert keys == init + [c];
      ScanBandBounds(chars, init, cut);
      var r := ScanBand(chars, keys, cut);
      forall d | d in keys && !Dropped(cut(d)) ensures r.minY <= cut(d).top && cut(d).bottom <= r.maxY {
        if d != c {
          assert d in init;
        }
      }
    }
  }

  lemma {:induction false} ScanBandEmpty(chars: string, keys: string, cut: char -> YCropped)
    requires forall c :: c in keys ==> Dropped(cut(c))
    ensures ScanBand(chars, keys, cut).minY == MinYStart && ScanBand(chars, keys, cut).maxY == 0
    decreases |keys|
  {
    if keys != [] {
      var init := keys[..|keys| - 1];
      assert forall c :: c in init ==> c in keys;
      ScanBandEmpty(chars, init, cut);
    }
  }

  lemma {:induction false} ScanBandReached(chars: string, keys: string, cut: char -> YCropped)
    requires forall c :: c in keys ==> cut(c).top <= MinYStart
    requires exists c :: c in keys && !Dropped(cut(c))
    ensures var r := ScanBand(chars, keys, cut);
      && (exists c :: c in keys && !Dropped(cut(c)) && cut(c).top == r.minY)
      && (exists c :: c in keys && !Dropped(cut(c)) && cut(c).bottom == r.maxY)
    decreases |keys|
  {
    var init := keys[..|keys| - 1];
    var c := keys[|keys| - 1];
    assert keys == init + [c];
    var p := ScanBand(chars, init, cut);
    if exists d :: d in init && !Dropped(cut(d)) {
      ScanBandReached(chars, init, cut);
      var lo :| lo in init && !Dropped(cut(lo)) && cut(lo).top == p.minY;
      var hi :| hi in init && !Dropped(cut(hi)) && cut(hi).bottom == p.maxY;
      assert lo in keys && hi in keys;
    } else {
      ScanBandEmpty(chars, init, cut);
      assert c in keys && !Dropped(cut(c));
    }
  }

  /**
   * The band spans the content of all characters: `min_y` is the least top
   * and `max_y` the greatest bottom over the characters with content, both
   * reached; with no content anywhere the starting values remain.  Assumes
   * what every font rendering gives: surfaces of positive height, shorter
   * than the starting `min_y`.
   */
  lemma BandIsExtremes(input: string, render: char -> Surface)
    requires forall c :: c in Charset(input) ==> 0 < render(c).height <= MinYStart
    ensures var chars := Charset(input);
      var scan := ScanBand(chars, Distinct(chars), Cuts(render));
      && (forall c :: c in chars && HasInk(render(c), None) ==>
            scan.minY <= YCrop(render(c), None).top && YCrop(render(c), None).bottom <= scan.maxY)
      && ((exists c :: c in chars && HasInk(render(c), None)) ==>
            && (exists c :: c in chars && HasInk(render(c), None) && YCrop(render(c), None).top == scan.minY)
            && (exists c :: c in chars && HasInk(render(c), None) && YCrop(render(c), None).bottom == scan.maxY))
      && ((forall c :: c in chars ==> !HasInk(render(c), None)) ==> scan.minY == MinYStart && scan.maxY == 0)
  {
    var chars := Charset(input);
    var keys := Distinct(chars);
    var cut := Cuts(render);
    forall c | c in keys
      ensures cut(c).top <= MinYStart
      ensures Dropped(cut(c)) <==> !HasInk(render(c), None)
    {
      YCropSpec(render(c), None);
    }
    ScanBandBounds(chars, keys, cut);
    if exists c :: c in keys && !Dropped(cut(c)) {
      ScanBandReached(chars, keys, cut);
    } else {
      ScanBandEmpty(chars, keys, cut);
    }
  }

  // ---------------------------------------------------------------------------
  // The band crops (fontAtlasMoko.py:132-136)

  /** The band rows [minY, maxY) fit inside the glyph's `x_cut`, so `subsurface` does not raise. */
  ghost predicate BandFits(s: Surface, minY: int, maxY: int) {
    var xc := XCrop(s, None);
    SubsurfaceFits(xc, 0, minY, xc.width, maxY - minY)
  }

  /** `x_cut(sf).subsurface((0, min_y, cropped.width, max_y - min_y)).copy()`. */
  ghost function Band(s: Surface, minY: int, maxY: int): (r: Surface)
    requires BandFits(s, minY, maxY)
    ensures r.height == maxY - minY && r.width == XCrop(s, None).width
    ensures r.rows == XCrop(s, None).rows[minY .. maxY]
  {
    var xc := XCrop(s, None);
    var r := Subsurface(xc, 0, minY, xc.width, maxY - minY);
    assert forall i | 0 <= i < r.height :: r.rows[i] == xc.rows[minY + i];
    r
  }

  /** The loop that crops every glyph to the band; the first `subsurface` that raises ends the export. */
  method CropGlyphs(keys: string, render: char -> Surface, minY: int, maxY: int)
    returns (r: Result<map<char, Surface>, ExportError>)
    ensures r.Success? <==> forall c :: c in keys ==> BandFits(render(c), minY, maxY)
    ensures r.Success? ==> r.value == map c | c in keys :: Band(render(c), minY, maxY)
    ensures r.Failure? ==> r.error == BandOutsideGlyph
  {
    var crops := map[];
    for i := 0 to |keys|
      invariant forall c :: c in keys[..i] ==> BandFits(render(c), minY, maxY)
      invariant crops == map c | c in keys[..i] :: Band(render(c), minY, maxY)
    {
      var c := keys[i];
      var cropped := XCut(render(c), None);
      if !SubsurfaceFits(cropped, 0, minY, cropped.width, maxY - minY) {
        return Failure(BandOutsideGlyph);
      }
      assert keys[..i + 1] == keys[..i] + [c];
      crops := crops[c := Subsurface(cropped, 0, minY, cropped.width, maxY - minY)];
    }
    assert keys[..|keys|] == keys;
    return Success(crops);
  }

  // ---------------------------------------------------------------------------
  // The atlas and the glyph table (fontAtlasMoko.py:138-158)

  predicate Covered(cs: string, crops: map<char, Surface>) {
    forall c :: c in cs ==> c in crops
  }

  /** The summed widths of the crops of `cs`. */
  function TotalWidth(cs: string, crops: map<char, Surface>): nat
    requires Covered(cs, crops)
    decreases |cs|
  {
    if cs == [] then 0 else TotalWidth(cs[..|cs| - 1], crops) + crops[cs[|cs| - 1]].width
  }

  /** Where each glyph goes: side by side, in list order, from column 0. */
  function Layout(cs: string, crops: map<char, Surface>): (r: seq<Glyph>)
    requires Covered(cs, crops)
    ensures |r| == |cs|
    ensures forall k :: 0 <= k < |cs| ==> r[k].c == cs[k] && r[k].width == crops[cs[k]].width
    decreases |cs|
  {
    if cs == [] then []
    else
      var init := cs[..|cs| - 1];
      var c := cs[|cs| - 1];
      Layout(init, crops) + [Glyph(c, TotalWidth(init, crops), crops[c].width)]
  }

  /** `f"{c} {curr_x} {sf.width}"`. */
  function Line(g: Glyph): (r: string)
    ensures |r| >= 5 && r[0] == g.c && r[1] == ' '
    ensures g.c != '\n' ==> '\n' !in r
  {
    [g.c] + " " + Decimal(g.x) + " " + Decimal(g.width)
  }

  function Lines(gs: seq<Glyph>): (r: seq<string>)
    ensures |r| == |gs| && forall k :: 0 <= k < |gs| ==> r[k] == Line(gs[k])
  {
    seq(|gs|, k requires 0 <= k < |gs| => Line(gs[k]))
  }

  /** The atlas after blitting every glyph crop at its column, onto `base`. */
  function Compose(gs: seq<Glyph>, crops: map<char, Surface>, base: Surface): (r: Surface)
    requires forall k :: 0 <= k < |gs| ==> gs[k].c in crops
    ensures r.width == base.width && r.height == base.height
    decreases |gs|
  {
    if gs == [] then base
    else
      var g := gs[|gs| - 1];
      Blit(Compose(gs[..|gs| - 1], crops, base), crops[g.c], g.x)
  }

  /** The loop that sums the atlas width `w`. */
  method AtlasWidth(chars: string, crops: map<char, Surface>) returns (w: nat)
    requires Covered(chars, crops)
    ensures w == TotalWidth(chars, crops)
  {
    w := 0;
    var charsText := chars;
    for i := 0 to |charsText|
      invariant w == TotalWidth(charsText[..i], crops)
    {
      assert charsText[..i + 1][..i] == charsText[..i];
      var c := charsText[i];
      if c !in chars {
        continue;
      }
      w := w + crops[c].width;
    }
    assert charsText[..|charsText|] == charsText;
  }

  /** The loop that blits each crop into the `w` by `h` atlas and writes its `chars_data` line. */
  method WriteAtlas(chars: string, crops: map<char, Surface>, w: nat, h: nat) returns (atlas: Surface, charsData: string)
    requires Covered(chars, crops)
    ensures atlas == Compose(Layout(chars, crops), crops, Blank(w, h))
    ensures charsData == Join(Lines(Layout(chars, crops)), '\n')
  {
    atlas := Blank(w, h);
    ghost var base := atlas;
    charsData := "";
    var currX := 0;
    var charsText := chars;
    for i := 0 to |charsText|
      invariant currX == TotalWidth(charsText[..i], crops)
      invariant atlas == Compose(Layout(charsText[..i], crops), crops, base)
      invariant charsData == Terminated(Lines(Layout(charsText[..i], crops)), '\n')
    {
      var c := charsText[i];
      if c !in chars {
        continue;
      }
      var sf := crops[c];
      WriteStep(charsText, crops, i, base);
      atlas := Blit(atlas, sf, currX);
      charsData := charsData + Line(Glyph(c, currX, sf.width)) + "\n";
      currX := currX + sf.width;
    }
    assert charsText[..|charsText|] == chars;
    DropLastSeparator(Lines(Layout(chars, crops)), '\n');
    charsData := if |charsData| == 0 then charsData else charsData[..|charsData| - 1];
  }

  /** `chars_data[:-1]` on the terminated lines gives the joined lines, also when there are none. */
  lemma DropLastSeparator(lines: seq<string>, sep: char)
    ensures var s := Terminated(lines, sep);
      (if |s| == 0 then s else s[..|s| - 1]) == Join(lines, sep)
  {
    if lines != [] {
      TerminatedIsJoinThenSep(lines, sep);
    }
  }

  /** One turn of the atlas loop, in terms of the layout of the characters visited so far. */
  lemma WriteStep(cs: string, crops: map<char, Surface>, i: nat, base: Surface)
    requires i < |cs| && Covered(cs, crops)
    ensures var pre := cs[..i];
      var g := Glyph(cs[i], TotalWidth(pre, crops), crops[cs[i]].width);
      && TotalWidth(cs[..i + 1], crops) == TotalWidth(pre, crops) + crops[cs[i]].width
      && Layout(cs[..i + 1], crops) == Layout(pre, crops) + [g]
      && Compose(Layout(cs[..i + 1], crops), crops, base) == Blit(Compose(Layout(pre, crops), crops, base), crops[cs[i]], g.x)
      && Terminated(Lines(Layout(cs[..i + 1], crops)), '\n') == Terminated(Lines(Layout(pre, crops)), '\n') + Line(g) + "\n"
  {
    var pre := cs[..i];
    assert cs[..i + 1][..i] == pre;
    var gs := Layout(cs[..i + 1], crops);
    assert gs[..|gs| - 1] == Layout(pre, crops);
    assert Lines(gs)[..|gs| - 1] == Lines(Layout(pre, crops));
  }

  // ---------------------------------------------------------------------------
  // Properties of the layout and the atlas

  lemma TotalWidthStep(cs: string, crops: map<char, Surface>, k: nat)
    requires Covered(cs, crops) && k < |cs|
    ensures TotalWidth(cs[..k + 1], crops) == TotalWidth(cs[..k], crops) + crops[cs[k]].width
  {
    assert cs[..k + 1][..k] == cs[..k];
  }

  lemma {:induction false} TotalWidthGrows(cs: string, crops: map<char, Surface>, j: nat, k: nat)
    requires Covered(cs, crops) && j <= k <= |cs|
    ensures TotalWidth(cs[..j], crops) <= TotalWidth(cs[..k], crops)
    decreases k - j
  {
    if j < k {
      TotalWidthStep(cs, crops, j);
      TotalWidthGrows(cs, crops, j + 1, k);
    }
  }

  /** Glyph k of the layout starts where the widths of the glyphs before it add up to. */
  lemma {:induction false} LayoutAt(cs: string, crops: map<char, Surface>, k: nat)
    requires Covered(cs, crops) && k < |cs|
    ensures Layout(cs, crops)[k] == Glyph(cs[k], TotalWidth(cs[..k], crops), crops[cs[k]].width)
    decreases |cs|
  {
    var init := cs[..|cs| - 1];
    if k < |init| {
      LayoutAt(init, crops, k);
      assert init[..k] == cs[..k];
    } else {
      assert init == cs[..k];
    }
  }

  /**
   * The glyphs tile the columns [0, TotalWidth): the first starts at 0 and
   * the last ends at the total width (LayoutEnds), each next one starts
   * where the previous one ends (LayoutAdjacent), no two overlap
   * (LayoutDisjoint) and none passes the total width (LayoutWithin).
   */
  lemma LayoutEnds(cs: string, crops: map<char, Surface>)
    requires Covered(cs, crops) && cs != []
    ensures var gs := Layout(cs, crops);
      gs[0].x == 0 && gs[|gs| - 1].x + gs[|gs| - 1].width == TotalWidth(cs, crops)
  {
    LayoutColumns(cs, crops, 0);
    LayoutColumns(cs, crops, |cs| - 1);
    assert cs[..0] == [];
    assert cs[..|cs|] == cs;
  }

  lemma LayoutAdjacent(cs: string, crops: map<char, Surface>)
    requires Covered(cs, crops)
    ensures var gs := Layout(cs, crops);
      forall k :: 0 < k < |gs| ==> gs[k].x == gs[k - 1].x + gs[k - 1].width
  {
    var gs := Layout(cs, crops);
    forall k | 0 < k < |gs| ensures gs[k].x == gs[k - 1].x + gs[k - 1].width {
      LayoutColumns(cs, crops, k - 1);
      LayoutColumns(cs, crops, k);
    }
  }

  lemma LayoutDisjoint(cs: string, crops: map<char, Surface>)
    requires Covered(cs, crops)
    ensures var gs := Layout(cs, crops);
      forall j, k :: 0 <= j < k < |gs| ==> gs[j].x + gs[j].width <= gs[k].x
  {
    var gs := Layout(cs, crops);
    forall j, k | 0 <= j < k < |gs| ensures gs[j].x + gs[j].width <= gs[k].x {
      LayoutColumns(cs, crops, j);
      LayoutColumns(cs, crops, k);
      TotalWidthGrows(cs, crops, j + 1, k);
    }
  }

  lemma LayoutWithin(cs: string, crops: map<char, Surface>)
    requires Covered(cs, crops)
    ensures var gs := Layout(cs, crops);
      forall k :: 0 <= k < |gs| ==> gs[k].x + gs[k].width <= TotalWidth(cs, crops)
  {
    var gs := Layout(cs, crops);
    forall k | 0 <= k < |gs| ensures gs[k].x + gs[k].width <= TotalWidth(cs, crops) {
      LayoutColumns(cs, crops, k);
      TotalWidthGrows(cs, crops, k + 1, |cs|);
      assert cs[..|cs|] == cs;
    }
  }

  /** Glyph k covers the columns from the widths before it up to the widths through it. */
  lemma LayoutColumns(cs: string, crops: map<char, Surface>, k: nat)
    requires Covered(cs, crops) && k < |cs|
    ensures Layout(cs, crops)[k].x == TotalWidth(cs[..k], crops)
    ensures Layout(cs, crops)[k].x + Layout(cs, crops)[k].width == TotalWidth(cs[..k + 1], crops)
  {
    LayoutAt(cs, crops, k);
    TotalWidthStep(cs, crops, k);
  }

  /** Glyphs that fit the base side by side, each with a crop of the base's height and the glyph's width. */
  predicate Placeable(gs: seq<Glyph>, crops: map<char, Surface>, base: Surface) {
    && (forall k :: 0 <= k < |gs| ==>
          && gs[k].c in crops
          && crops[gs[k].c].height == base.height && crops[gs[k].c].width == gs[k].width
          && gs[k].x + gs[k].width <= base.width)
    && (forall j, k :: 0 <= j < k < |gs| ==> gs[j].x + gs[j].width <= gs[k].x)
  }

  /** The layout of crops of one height fits a blank atlas of that height and the total width. */
  lemma LayoutPlaceable(cs: string, crops: map<char, Surface>, h: nat)
    requires Covered(cs, crops) && forall c :: c in crops ==> crops[c].height == h
    ensures Placeable(Layout(cs, crops), crops, Blank(TotalWidth(cs, crops), h))
  {
    var gs := Layout(cs, crops);
    LayoutDisjoint(cs, crops);
    LayoutWithin(cs, crops);
    forall k | 0 <= k < |gs| ensures gs[k].c in crops {
      assert gs[k].c == cs[k];
    }
  }

  lemma {:induction false} ComposePixel(gs: seq<Glyph>, crops: map<char, Surface>, base: Surface, k: nat, y: nat, x: int)
    requires Placeable(gs, crops, base)
    requires k < |gs| && y < base.height && gs[k].x <= x < gs[k].x + gs[k].width
    ensures Compose(gs, crops, base).rows[y][x] == crops[gs[k].c].rows[y][x - gs[k].x]
    decreases |gs|
  {
    var init := gs[..|gs| - 1];
    if k < |init| {
      assert x < gs[|gs| - 1].x;
      assert Placeable(init, crops, base);
      ComposePixel(init, crops, base, k, y, x);
    }
  }

  /** Each glyph's window of the composed atlas holds exactly that glyph's crop. */
  lemma ComposeWindow(gs: seq<Glyph>, crops: map<char, Surface>, base: Surface, k: nat)
    requires Placeable(gs, crops, base) && k < |gs|
    ensures var r := Compose(gs, crops, base);
      SubsurfaceFits(r, gs[k].x, 0, gs[k].width, base.height)
      && Subsurface(r, gs[k].x, 0, gs[k].width, base.height) == crops[gs[k].c]
  {
    var r := Compose(gs, crops, base);
    var g := gs[k];
    var win := Subsurface(r, g.x, 0, g.width, base.height);
    var crop := crops[g.c];
    forall y | 0 <= y < base.height ensures win.rows[y] == crop.rows[y] {
      ComposeRow(gs, crops, base, k, y);
    }
    assert win.rows == crop.rows;
  }

  /** Row y of a glyph's window is row y of its crop. */
  lemma ComposeRow(gs: seq<Glyph>, crops: map<char, Surface>, base: Surface, k: nat, y: nat)
    requires Placeable(gs, crops, base) && k < |gs| && y < base.height
    ensures var r := Compose(gs, crops, base);
      gs[k].x + gs[k].width <= |r.rows[y]| &&
      r.rows[y][gs[k].x .. gs[k].x + gs[k].width] == crops[gs[k].c].rows[y]
  {
    var row, cropRow := Compose(gs, crops, base).rows[y], crops[gs[k].c].rows[y];
    forall x | 0 <= x < gs[k].width ensures row[gs[k].x + x] == cropRow[x] {
      ComposePixel(gs, crops, base, k, y, gs[k].x + x);
    }
    RowWindow(row, cropRow, gs[k].x);
  }

  /** A row that holds `part` from column x0 on has `part` as that slice. */
  lemma RowWindow(row: seq<Pixel>, part: seq<Pixel>, x0: nat)
    requires x0 + |part| <= |row|
    requires forall x :: 0 <= x < |part| ==> row[x0 + x] == part[x]
    ensures row[x0 .. x0 + |part|] == part
  {
  }

  /**
   * The atlas drawn from a plan is TotalWidth wide and one band high, and the
   * window of every glyph of the layout holds that character's crop.
   */
  lemma EmitPlacesCrops(plan: Plan)
    requires plan.minY <= plan.maxY && Covered(plan.kept, plan.crops)
    requires forall c :: c in plan.crops ==> plan.crops[c].height == plan.maxY - plan.minY
    ensures var atlas := Emit(plan).atlas;
      var gs := Layout(plan.kept, plan.crops);
      && atlas.width == TotalWidth(plan.kept, plan.crops) && atlas.height == plan.maxY - plan.minY
      && forall k :: 0 <= k < |gs| ==>
           && SubsurfaceFits(atlas, gs[k].x, 0, gs[k].width, atlas.height)
           && Subsurface(atlas, gs[k].x, 0, gs[k].width, atlas.height) == plan.crops[plan.kept[k]]
  {
    var gs := Layout(plan.kept, plan.crops);
    var atlas := Emit(plan).atlas;
    forall k | 0 <= k < |gs|
      ensures && SubsurfaceFits(atlas, gs[k].x, 0, gs[k].width, atlas.height)
              && Subsurface(atlas, gs[k].x, 0, gs[k].width, atlas.height) == plan.crops[plan.kept[k]]
    {
      EmitWindow(plan, k);
    }
  }

  lemma EmitWindow(plan: Plan, k: nat)
    requires plan.minY <= plan.maxY && Covered(plan.kept, plan.crops) && k < |plan.kept|
    requires forall c :: c in plan.crops ==> plan.crops[c].height == plan.maxY - plan.minY
    ensures var atlas := Emit(plan).atlas;
      var g := Layout(plan.kept, plan.crops)[k];
      && SubsurfaceFits(atlas, g.x, 0, g.width, atlas.height)
      && Subsurface(atlas, g.x, 0, g.width, atlas.height) == plan.crops[plan.kept[k]]
  {
    var gs := Layout(plan.kept, plan.crops);
    var base := Blank(TotalWidth(plan.kept, plan.crops), plan.maxY - plan.minY);
    LayoutPlaceable(plan.kept, plan.crops, plan.maxY - plan.minY);
    var atlas := Emit(plan).atlas;
    assert atlas == Compose(gs, plan.crops, base);
    assert atlas.height == base.height;
    assert gs[k].c == plan.kept[k];
    ComposeWindow(gs, plan.crops, base, k);
  }

  // ---------------------------------------------------------------------------
  // The whole export

  /** Everything the export decides before drawing: the characters kept, the band and the crops. */
  datatype Plan = Plan(kept: string, minY: int, maxY: int, crops: map<char, Surface>)

  ghost function PlanOf(input: string, render: char -> Surface): Result<Plan, ExportError> {
    if input == [] then Failure(NoCharacters)
    else
      var keys := Distinct(Charset(input));
      var scan := ScanBand(Charset(input), keys, Cuts(render));
      if exists c :: c in keys && !BandFits(render(c), scan.minY, scan.maxY) then Failure(BandOutsideGlyph)
      else Success(Plan(scan.kept, scan.minY, scan.maxY, map c | c in keys :: Band(render(c), scan.minY, scan.maxY)))
  }

  /**
   * A successful plan draws every kept character from the crops, all of one
   * band height, and keeps neither spaces nor newlines.
   */
  lemma PlanShape(input: string, render: char -> Surface)
    requires PlanOf(input, render).Success?
    ensures var plan := PlanOf(input, render).value;
      && plan.minY <= plan.maxY
      && Covered(plan.kept, plan.crops)
      && (forall c :: c in plan.crops ==> plan.crops[c].height == plan.maxY - plan.minY)
      && ' ' !in plan.kept && '\n' !in plan.kept
  {
    var chars := Charset(input);
    var keys := Distinct(chars);
    var scan := ScanBand(chars, keys, Cuts(render));
    var plan := PlanOf(input, render).value;
    assert plan.kept == scan.kept && plan.minY == scan.minY && plan.maxY == scan.maxY;
    assert multiset(chars)['?'] > 0;
    assert '?' in keys;
    assert BandFits(render('?'), scan.minY, scan.maxY);
    KeptFromChars(chars, keys, Cuts(render));
    assert multiset(chars)[' '] == 0 && multiset(chars)['\n'] == 0;
    assert ' ' !in chars && '\n' !in chars;
  }

  /**
   * A successful export keeps at least one character: if every glyph were
   * dropped, `min_y` would stay above `max_y` and the crop would raise.
   */
  lemma KeptNonEmpty(input: string, render: char -> Surface)
    requires PlanOf(input, render).Success?
    ensures PlanOf(input, render).value.kept != []
  {
    var chars := Charset(input);
    var keys := Distinct(chars);
    PlanShape(input, render);
    if forall c :: c in keys ==> Dropped(Cuts(render)(c)) {
      ScanBandEmpty(chars, keys, Cuts(render));
      assert false;
    } else {
      var c :| c in keys && !Dropped(Cuts(render)(c));
      ScanBandKept(chars, keys, Cuts(render));
      assert multiset(chars)[c] > 0;
      assert multiset(ScanBand(chars, keys, Cuts(render)).kept)[c] > 0;
    }
  }

  /** A character listed twice is a duplicate. */
  lemma CountedTwice(s: string, c: char)
    requires multiset(s)[c] >= 2
    ensures !NoDuplicates(s)
  {
    var i := FirstIndex(s, c);
    assert s == s[..i] + [c] + s[i + 1..];
    assert multiset(s[..i])[c] == 0;
    assert c in s[i + 1..];
    var j :| 0 <= j < |s[i + 1..]| && s[i + 1..][j] == c;
    assert s[i + 1 + j] == c;
  }

  /** Only listed characters stay listed. */
  lemma KeptFromChars(chars: string, keys: string, cut: char -> YCropped)
    requires NoDuplicates(keys) && forall c :: c in keys ==> c in chars
    ensures forall c :: c in ScanBand(chars, keys, cut).kept ==> c in chars
  {
    ScanBandKept(chars, keys, cut);
    var kept := ScanBand(chars, keys, cut).kept;
    forall c | c in kept ensures c in chars {
      assert multiset(kept)[c] > 0;
    }
  }

  /**
   * The band is `max_y - min_y` rows high, one short of the rows from the
   * highest to the lowest content row: every crop holds rows [min_y, max_y)
   * of its character's x-cut, and row `max_y` holds content of some character.
   */
  lemma BandOmitsLowestRow(input: string, render: char -> Surface)
    requires PlanOf(input, render).Success?
    requires forall c :: c in Charset(input) ==> 0 < render(c).height <= MinYStart
    requires exists c :: c in Charset(input) && HasInk(render(c), None)
    ensures var plan := PlanOf(input, render).value;
      && (forall c :: c in plan.crops ==> plan.crops[c].rows == XCrop(render(c), None).rows[plan.minY .. plan.maxY])
      && (exists c :: c in plan.crops && RowHasInk(XCrop(render(c), None), None, plan.maxY))
  {
    var plan := PlanOf(input, render).value;
    BandIsExtremes(input, render);
    var c :| c in Charset(input) && HasInk(render(c), None) && YCrop(render(c), None).bottom == plan.maxY;
    YCropSpec(render(c), None);
    XCropKeepsRows(render(c), None, plan.maxY);
    assert c in plan.crops;
  }

  /** With no content in any character the band is negative and the export fails. */
  lemma NoInkFails(input: string, render: char -> Surface)
    requires input != []
    requires forall c :: c in Charset(input) ==> 0 < render(c).height <= MinYStart && !HasInk(render(c), None)
    ensures PlanOf(input, render) == Failure(BandOutsideGlyph)
  {
    BandIsExtremes(input, render);
    assert multiset(Charset(input))['?'] > 0;
    assert !BandFits(render('?'), MinYStart, 0);
  }

  /**
   * A character without content makes the export fail unless the band is
   * empty at row 0: it leaves the list, but its 0x0 x-cut is still cropped.
   */
  lemma InklessCharacterFails(input: string, render: char -> Surface, c: char)
    requires input != [] && c in Charset(input)
    requires 0 < render(c).width && !HasInk(render(c), None)
    requires var chars := Charset(input);
      var scan := ScanBand(chars, Distinct(chars), Cuts(render));
      scan.minY != 0 || scan.maxY != 0
    ensures PlanOf(input, render) == Failure(BandOutsideGlyph)
  {
    XCropSpec(render(c), None);
    var chars := Charset(input);
    var scan := ScanBand(chars, Distinct(chars), Cuts(render));
    assert !BandFits(render(c), scan.minY, scan.maxY);
  }

  /** The atlas and `chars_data` drawn from a plan. */
  ghost function Emit(plan: Plan): Sfpf
    requires plan.minY <= plan.maxY && Covered(plan.kept, plan.crops)
  {
    var gs := Layout(plan.kept, plan.crops);
    Sfpf(Compose(gs, plan.crops, Blank(TotalWidth(plan.kept, plan.crops), plan.maxY - plan.minY)), Join(Lines(gs), '\n'))
  }

  ghost function Exported(input: string, render: char -> Surface): Result<Sfpf, ExportError> {
    match PlanOf(input, render)
    case Failure(e) => Failure(e)
    case Success(plan) =>
      PlanShape(input, render);
      Success(Emit(plan))
  }

  /** What the band loop and the crop loop of `export_sfpf` leave behind is the plan. */
  lemma PlanFromLoops(input: string, render: char -> Surface, kept: string, minY: int, maxY: int,
                      crops: Result<map<char, Surface>, ExportError>)
    requires input != []
    requires var keys := Distinct(Charset(input));
      && Scan(kept, minY, maxY) == ScanBand(Charset(input), keys, Cuts(render))
      && (crops.Success? <==> forall c :: c in keys ==> BandFits(render(c), minY, maxY))
      && (crops.Success? ==> crops.value == map c | c in keys :: Band(render(c), minY, maxY))
      && (crops.Failure? ==> crops.error == BandOutsideGlyph)
    ensures crops.Success? ==> minY <= maxY && Covered(kept, crops.value)
    ensures crops.Failure? ==> Exported(input, render) == Failure(crops.error)
    ensures crops.Success? ==> Exported(input, render) == Success(Emit(Plan(kept, minY, maxY, crops.value)))
  {
    if crops.Success? {
      PlanShape(input, render);
    }
  }

  /** `export_sfpf` from the stripped text box contents to the archive contents (fontAtlasMoko.py:104-158). */
  method ExportSfpf(input: string, render: char -> Surface) returns (r: Result<Sfpf, ExportError>)
    ensures r == Exported(input, render)
  {
    if input == [] {
      return Failure(NoCharacters);
    }
    var charsToUse := WithoutBlanks(input);
    var chars := charsToUse + (if '?' in charsToUse then "" else "?");
    var keys := SurfaceKeys(chars);
    var kept, minY, maxY := MeasureBand(chars, keys, render);
    var crops := CropGlyphs(keys, render, minY, maxY);
    PlanFromLoops(input, render, kept, minY, maxY, crops);
    if crops.Failure? {
      return Failure(crops.error);
    }
    var sfpf := PackAtlas(Plan(kept, minY, maxY, crops.value));
    return Success(sfpf);
  }

  /** The last part of `export_sfpf`: the width loop, then the loop that draws the atlas and writes `chars_data`. */
  method PackAtlas(plan: Plan) returns (sfpf: Sfpf)
    requires plan.minY <= plan.maxY && Covered(plan.kept, plan.crops)
    ensures sfpf == Emit(plan)
  {
    var w := AtlasWidth(plan.kept, plan.crops);
    var atlas, charsData := WriteAtlas(plan.kept, plan.crops, w, plan.maxY - plan.minY);
    sfpf := Sfpf(atlas, charsData);
  }
}
