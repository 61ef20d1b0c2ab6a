/**
 * The two halves of the format together: what the packer writes into
 * `chars_data` (fontAtlasMoko.py:144-158) is what the loader's table parser
 * (SFProofFont.cs:35-42) reads back, and the source rectangle DrawString
 * takes for a character (SFProofFont.cs:62-63) selects that character's
 * crop in the packed atlas.
 */
module RoundTrip {
  import opened Results
  import opened Surfaces
  import opened Strings
  import opened Packer
  import opened GlyphTable
  import opened ProofFont

  lemma DecimalHasNoSeparators(n: nat)
    ensures ' ' !in Decimal(n) && '\n' !in Decimal(n)
  {
    var s := Decimal(n);
    assert forall i :: 0 <= i < |s| ==> IsDigit(s[i]);
  }

  /** One table line as the packer writes it reads back as its glyph's character, column and width. */
  lemma LineRoundTrip(g: Glyph)
    requires g.c != ' ' && g.x <= Int32Max && g.width <= Int32Max
    ensures ParseLine(Line(g)) == Success((g.c, Entry(g.x, g.width)))
  {
    var fields := [[g.c], Decimal(g.x), Decimal(g.width)];
    DecimalHasNoSeparators(g.x);
    DecimalHasNoSeparators(g.width);
    assert fields[..2][..1] == [[g.c]];
    assert fields[..2] == [[g.c], Decimal(g.x)];
    assert Join(fields[..2], ' ') == [g.c] + " " + Decimal(g.x);
    assert Join(fields, ' ') == Line(g);
    SplitJoin(fields, ' ');
    ParseDecimal(g.x);
    ParseDecimal(g.width);
  }

  /**
   * The table written for a non-empty list of glyphs loads exactly when no
   * character repeats (`Dictionary.Add` rejects a second line for the same
   * character); it then maps each listed character to its column and width.
   */
  lemma TableRoundTrip(gs: seq<Glyph>)
    requires gs != []
    requires forall k :: 0 <= k < |gs| ==>
      gs[k].c != ' ' && gs[k].c != '\n' && gs[k].x <= Int32Max && gs[k].width <= Int32Max
    ensures var t := TableOf(Split(Join(Lines(gs), '\n'), '\n'));
      && (t.Success? <==> forall j, k :: 0 <= j < k < |gs| ==> gs[j].c != gs[k].c)
      && (t.Success? ==>
            && (forall c :: c in t.value <==> exists k :: 0 <= k < |gs| && gs[k].c == c)
            && (forall k :: 0 <= k < |gs| ==> gs[k].c in t.value && t.value[gs[k].c] == Entry(gs[k].x, gs[k].width)))
  {
    var lines := Lines(gs);
    forall k | 0 <= k < |gs|
      ensures '\n' !in lines[k]
    {
      DecimalHasNoSeparators(gs[k].x);
      DecimalHasNoSeparators(gs[k].width);
    }
    SplitJoin(lines, '\n');
    var parsed := ParseAll(lines);
    forall k | 0 <= k < |gs|
      ensures parsed[k] == Success((gs[k].c, Entry(gs[k].x, gs[k].width)))
    {
      LineRoundTrip(gs[k]);
    }
    TableLoadsGlyphs(gs, parsed);
  }

  lemma TableLoadsGlyphs(gs: seq<Glyph>, parsed: seq<Parsed>)
    requires |parsed| == |gs|
    requires forall k :: 0 <= k < |gs| ==> parsed[k] == Success((gs[k].c, Entry(gs[k].x, gs[k].width)))
    ensures var t := Insert(parsed);
      && (t.Success? <==> forall j, k :: 0 <= j < k < |gs| ==> gs[j].c != gs[k].c)
      && (t.Success? ==>
            && (forall c :: c in t.value <==> exists k :: 0 <= k < |gs| && gs[k].c == c)
            && (forall k :: 0 <= k < |gs| ==> gs[k].c in t.value && t.value[gs[k].c] == Entry(gs[k].x, gs[k].width)))
  {
    if Loadable(parsed) {
      InsertLoads(parsed);
    } else {
      InsertFails(parsed);
    }
  }

  /** What a successful plan guarantees about itself (PlanShape). */
  predicate Drawable(plan: Plan) {
    && plan.minY <= plan.maxY
    && Covered(plan.kept, plan.crops)
    && (forall c :: c in plan.crops ==> plan.crops[c].height == plan.maxY - plan.minY)
    && ' ' !in plan.kept && '\n' !in plan.kept
  }

  /**
   * The archive drawn from a plan loads exactly when at least one character
   * was kept and none was kept twice.  When it loads, its characters are the
   * kept ones, and the source rectangle DrawString takes for each of them
   * selects, in the atlas, exactly that character's crop.
   */
  lemma EmitThenLoad(plan: Plan)
    requires Drawable(plan) && TotalWidth(plan.kept, plan.crops) <= Int32Max
    ensures var out := Emit(plan);
      var t := TableOf(Split(out.charsData, '\n'));
      && (t.Success? <==> plan.kept != [] && NoDuplicates(plan.kept))
      && (t.Success? ==>
            && (forall c :: c in t.value <==> c in plan.kept)
            && (forall c :: c in t.value ==>
                  var r := SourceRect(t.value[c], out.atlas.height);
                  && SubsurfaceFits(out.atlas, r.x, r.y, r.width, r.height)
                  && c in plan.crops
                  && Subsurface(out.atlas, r.x, r.y, r.width, r.height) == plan.crops[c]))
  {
    var out := Emit(plan);
    var gs := Layout(plan.kept, plan.crops);
    assert out.charsData == Join(Lines(gs), '\n');
    if plan.kept == [] {
      assert Lines(gs) == [];
      assert TableOf(Split(out.charsData, '\n')) == Failure(IndexOutOfRange);
    } else {
      LayoutFitsInt32(plan.kept, plan.crops, gs);
      TableRoundTrip(gs);
      assert forall k :: 0 <= k < |gs| ==> gs[k].c == plan.kept[k];
      var t := TableOf(Split(out.charsData, '\n'));
      if t.Success? {
        LoadedKeys(plan, gs, t.value);
        LoadedWindows(plan, gs, t.value);
      }
    }
  }

  /** Every glyph of the layout is written with a column and width `int.Parse` accepts. */
  lemma LayoutFitsInt32(cs: string, crops: map<char, Surface>, gs: seq<Glyph>)
    requires Covered(cs, crops) && TotalWidth(cs, crops) <= Int32Max && ' ' !in cs && '\n' !in cs
    requires gs == Layout(cs, crops)
    ensures forall k :: 0 <= k < |gs| ==>
      gs[k].c != ' ' && gs[k].c != '\n' && gs[k].x <= Int32Max && gs[k].width <= Int32Max
  {
    assert cs[..|cs|] == cs;
    forall k | 0 <= k < |gs|
      ensures gs[k].c != ' ' && gs[k].c != '\n' && gs[k].x <= Int32Max && gs[k].width <= Int32Max
    {
      LayoutAt(cs, crops, k);
      TotalWidthStep(cs, crops, k);
      TotalWidthGrows(cs, crops, k + 1, |cs|);
      assert cs[k] in cs;
    }
  }

  /** A table holding each glyph's column and width holds exactly the kept characters. */
  lemma LoadedKeys(plan: Plan, gs: seq<Glyph>, t: map<char, Entry>)
    requires Covered(plan.kept, plan.crops) && gs == Layout(plan.kept, plan.crops)
    requires forall c :: c in t <==> exists k :: 0 <= k < |gs| && gs[k].c == c
    ensures forall c :: c in t <==> c in plan.kept
  {
    forall c ensures c in t <==> c in plan.kept {
      if c in plan.kept {
        var k :| 0 <= k < |plan.kept| && plan.kept[k] == c;
        assert gs[k].c == c;
      }
      if c in t {
        var k :| 0 <= k < |gs| && gs[k].c == c;
        assert plan.kept[k] == c;
      }
    }
  }

  /** A table holding each glyph's column and width selects each kept character's crop. */
  lemma LoadedWindows(plan: Plan, gs: seq<Glyph>, t: map<char, Entry>)
    requires Drawable(plan) && gs == Layout(plan.kept, plan.crops)
    requires forall c :: c in t ==> exists k :: 0 <= k < |gs| && gs[k].c == c
    requires forall k :: 0 <= k < |gs| ==> gs[k].c in t && t[gs[k].c] == Entry(gs[k].x, gs[k].width)
    ensures var out := Emit(plan);
      forall c :: c in t ==>
        var r := SourceRect(t[c], out.atlas.height);
        && SubsurfaceFits(out.atlas, r.x, r.y, r.width, r.height)
        && c in plan.crops
        && Subsurface(out.atlas, r.x, r.y, r.width, r.height) == plan.crops[c]
  {
    EmitPlacesCrops(plan);
    forall c | c in t
      ensures var r := SourceRect(t[c], Emit(plan).atlas.height);
        && SubsurfaceFits(Emit(plan).atlas, r.x, r.y, r.width, r.height)
        && c in plan.crops
        && Subsurface(Emit(plan).atlas, r.x, r.y, r.width, r.height) == plan.crops[c]
    {
      var k :| 0 <= k < |gs| && gs[k].c == c;
      assert t[c] == Entry(gs[k].x, gs[k].width);
      assert plan.kept[k] == c;
    }
  }

  /** The atlas is narrow enough for every column and width to fit `int.Parse`'s 32 bits. */
  ghost predicate ColumnsFit(input: string, render: char -> Surface)
    requires PlanOf(input, render).Success?
  {
    PlanShape(input, render);
    var plan := PlanOf(input, render).value;
    TotalWidth(plan.kept, plan.crops) <= Int32Max
  }

  /**
   * Exporting and then loading: at least one character is kept, and the
   * archive's table loads exactly when none was kept twice (a character
   * typed twice is listed twice, see TypedTwiceUnloadable).  When it loads,
   * its characters are the kept ones, and the source rectangle DrawString
   * takes for each of them selects, in the atlas, exactly the band of that
   * character's rendering.
   */
  lemma ExportThenLoad(input: string, render: char -> Surface)
    requires PlanOf(input, render).Success?
    requires ColumnsFit(input, render)
    ensures Exported(input, render).Success?
    ensures var plan := PlanOf(input, render).value;
      && plan.kept != []
      && forall c :: c in plan.kept ==> BandFits(render(c), plan.minY, plan.maxY)
    ensures var plan, out := PlanOf(input, render).value, Exported(input, render).value;
      var t := TableOf(Split(out.charsData, '\n'));
      && (t.Success? <==> NoDuplicates(plan.kept))
      && (t.Success? ==>
            && (forall c :: c in t.value <==> c in plan.kept)
            && (forall c :: c in t.value ==>
                  var r := SourceRect(t.value[c], out.atlas.height);
                  && SubsurfaceFits(out.atlas, r.x, r.y, r.width, r.height)
                  && Subsurface(out.atlas, r.x, r.y, r.width, r.height) == Band(render(c), plan.minY, plan.maxY)))
  {
    var plan := PlanOf(input, render).value;
    PlanShape(input, render);
    assert Exported(input, render) == Success(Emit(plan));
    EmitThenLoad(plan);
    KeptAreKeys(input, render);
    KeptNonEmpty(input, render);
  }

  /**
   * A visible character typed twice makes the exported font unloadable: it
   * keeps both places in the character list, so `chars_data` has two lines
   * for it and `Dictionary.Add` raises on the second.
   */
  lemma TypedTwiceUnloadable(input: string, render: char -> Surface, c: char)
    requires PlanOf(input, render).Success?
    requires ColumnsFit(input, render)
    requires c != ' ' && c != '\n' && multiset(input)[c] >= 2 && HasInk(render(c), None)
    ensures Exported(input, render).Success?
    ensures TableOf(Split(Exported(input, render).value.charsData, '\n')).Failure?
  {
    ExportThenLoad(input, render);
    var chars := Charset(input);
    var keys := Distinct(chars);
    assert multiset(chars)[c] >= 2;
    assert c in keys;
    YCropSpec(render(c), None);
    assert !Dropped(Cuts(render)(c));
    ScanBandKept(chars, keys, Cuts(render));
    CountedTwice(PlanOf(input, render).value.kept, c);
  }

  /** Every kept character has the band of its rendering as its crop. */
  lemma KeptAreKeys(input: string, render: char -> Surface)
    requires PlanOf(input, render).Success?
    ensures var plan := PlanOf(input, render).value;
      forall c :: c in plan.kept ==>
        && c in plan.crops && BandFits(render(c), plan.minY, plan.maxY)
        && plan.crops[c] == Band(render(c), plan.minY, plan.maxY)
  {
    var chars := Charset(input);
    KeptFromChars(chars, Distinct(chars), Cuts(render));
  }

  /**
   * Drawing text with the exported font: every draw issued shows, from the
   * atlas, the band of the rendering of the matching character of the text,
   * and the text is drawn to the end exactly when all its characters other
   * than spaces and newlines were kept.
   */
  lemma ExportedFontDraws(input: string, render: char -> Surface, text: string, st: Style)
    requires PlanOf(input, render).Success?
    requires ColumnsFit(input, render)
    ensures Exported(input, render).Success?
    ensures var plan := PlanOf(input, render).value;
      forall c :: c in plan.kept ==> BandFits(render(c), plan.minY, plan.maxY)
    ensures var plan, out := PlanOf(input, render).value, Exported(input, render).value;
      var loaded := TableOf(Split(out.charsData, '\n'));
      loaded.Success? ==>
        var p, g := Typeset(text, loaded.value, out.atlas.height, st), Glyphs(text);
        && |p.draws| <= |g|
        && (p.missing.None? <==> forall i :: 0 <= i < |text| && IsGlyph(text[i]) ==> text[i] in plan.kept)
        && forall k :: 0 <= k < |p.draws| ==>
             var r := p.draws[k].source;
             && g[k] in plan.kept
             && SubsurfaceFits(out.atlas, r.x, r.y, r.width, r.height)
             && Subsurface(out.atlas, r.x, r.y, r.width, r.height) == Band(render(g[k]), plan.minY, plan.maxY)
  {
    ExportThenLoad(input, render);
    var out := Exported(input, render).value;
    var loaded := TableOf(Split(out.charsData, '\n'));
    if loaded.Success? {
      TypesetDraws(text, loaded.value, out.atlas.height, st);
      DrawStringCompletes(text, loaded.value, out.atlas.height, st);
    }
  }
}
