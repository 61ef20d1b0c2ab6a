/**
 * The run-time side of a proof font (SFProofFont.cs): an atlas texture, the
 * glyph table read from `chars_data`, two adjustable spacings, and
 * `DrawString`, which walks the text with a pen and issues one sprite draw
 * per glyph.  A draw is recorded as the arguments of the `SpriteBatch.Draw`
 * call rather than performed.
 */
module ProofFont {
  import opened Results
  import opened Surfaces
  import opened Strings
  import opened GlyphTable

  datatype Vec = Vec(x: real, y: real)

  /** An XNA `Rectangle(x, y, width, height)`. */
  datatype Rect = Rect(x: int, y: int, width: int, height: int)

  /** The tint of a draw: XNA `Color` has the same four 8-bit channels as a pixel. */
  type Color = Pixel

  /**
   * The arguments of one `sb.Draw(_atlas, drawPos, sourceRect, color,
   * rotation, Vector2.Zero, fontScale * scale, ...)`.  The screen position
   * `drawPos` is the pen's offset from `position`, scaled by `offsetScale`,
   * turned by `rotation` and added back to `position`; all of those are
   * recorded.
   */
  datatype Draw = Draw(source: Rect, pen: Vec, position: Vec, offsetScale: real, rotation: real,
                       color: Color, scale: real)

  /**
   * DrawString's arguments once `spacing ??= Spacing` and `lineSpacing ??=
   * LineSpacing` have run, with the `fontScale` it computes first.
   */
  datatype Style = Style(position: Vec, color: Color, height: real, spacing: real, rotation: real,
                         scale: real, lineSpacing: real, fontScale: real)

  /**
   * The state of DrawString's loop: the pen (`curr_x`, `curr_y`), the draws
   * issued so far and, once a character without a table entry is met, that
   * character (`_charsData[c]` throws and the rest of the text is not drawn).
   */
  datatype Pen = Pen(x: real, y: real, draws: seq<Draw>, missing: Option<char>)

  /** `height / Size`: atlas pixels to screen units. */
  function FontScale(height: real, size: nat): real
    requires size > 0
  {
    height / (size as real)
  }

  /** How far a '\n' moves the pen down. */
  function LineHeight(st: Style): real
  {
    st.height + st.lineSpacing * st.fontScale
  }

  /** The part of the atlas a glyph occupies: its columns, the whole height. */
  function SourceRect(e: Entry, size: nat): Rect {
    Rect(e.x, 0, e.w, size)
  }

  /** Characters that are drawn: everything except the space and the newline. */
  predicate IsGlyph(c: char) {
    c != ' ' && c != '\n'
  }

  /** One iteration of DrawString's loop. */
  function Step(pen: Pen, c: char, table: map<char, Entry>, size: nat, st: Style): (r: Pen)
    ensures pen.missing.Some? ==> r == pen
    ensures |pen.draws| <= |r.draws| <= |pen.draws| + 1
    ensures r.draws[..|pen.draws|] == pen.draws
    ensures r.missing.Some? ==> r.draws == pen.draws && (pen.missing.None? ==> r.missing == Some(c))
    ensures |r.draws| == |pen.draws| + 1 <==> pen.missing.None? && IsGlyph(c) && c in table
  {
    if pen.missing.Some? then pen
    else if c == ' ' then pen.(x := pen.x + st.spacing * 2.0)
    else if c == '\n' then pen.(x := st.position.x, y := pen.y + LineHeight(st))
    else if c !in table then pen.(missing := Some(c))
    else
      var e := table[c];
      var d := Draw(SourceRect(e, size), Vec(pen.x, pen.y), st.position, st.scale, st.rotation,
                    st.color, st.fontScale * st.scale);
      pen.(x := pen.x + (e.w as real + st.spacing) * st.fontScale, draws := pen.draws + [d])
  }

  /** DrawString's loop over the whole text, starting with the pen at `position`. */
  function Typeset(text: string, table: map<char, Entry>, size: nat, st: Style): (r: Pen)
    ensures |r.draws| <= |text|
    ensures r.missing.Some? ==> var c := r.missing.value; c in text && IsGlyph(c) && c !in table
    decreases |text|
  {
    if text == [] then Pen(st.position.x, st.position.y, [], None)
    else Step(Typeset(text[..|text| - 1], table, size, st), text[|text| - 1], table, size, st)
  }

  // ---------------------------------------------------------------------------
  // Reference quantities

  /** The characters of `text` that are drawn, in order. */
  function Glyphs(text: string): (r: string)
    ensures forall k :: 0 <= k < |r| ==> IsGlyph(r[k])
    decreases |text|
  {
    if text == [] then []
    else if IsGlyph(text[|text| - 1]) then Glyphs(text[..|text| - 1]) + [text[|text| - 1]]
    else Glyphs(text[..|text| - 1])
  }

  function Newlines(text: string): nat
    decreases |text|
  {
    if text == [] then 0
    else Newlines(text[..|text| - 1]) + (if text[|text| - 1] == '\n' then 1 else 0)
  }

  /** The text after the last '\n'. */
  function LastLine(text: string): (r: string)
    ensures '\n' !in r
    decreases |text|
  {
    if text == [] then []
    else if text[|text| - 1] == '\n' then []
    else LastLine(text[..|text| - 1]) + [text[|text| - 1]]
  }

  /**
   * How far a character other than '\n' moves the pen right: a space twice
   * `spacing`, unscaled; a glyph its atlas width plus `spacing`, both scaled
   * by the font scale.
   */
  function Width(c: char, table: map<char, Entry>, st: Style): real
  {
    if c == ' ' then st.spacing * 2.0
    else if c in table then (table[c].w as real + st.spacing) * st.fontScale
    else 0.0
  }

  /** The width of a line of text. */
  function Advance(line: string, table: map<char, Entry>, st: Style): real
    decreases |line|
  {
    if line == [] then 0.0
    else Advance(line[..|line| - 1], table, st) + Width(line[|line| - 1], table, st)
  }

  // ---------------------------------------------------------------------------
  // What DrawString draws

  /**
   * DrawString issues one draw per glyph of the text, in order, each showing
   * that glyph's table entry at the font scale times `scale`; it stops at
   * the first glyph without an entry, which it reports.  So it finishes
   * exactly when every glyph of the text has an entry.
   */
  lemma {:induction false} TypesetDraws(text: string, table: map<char, Entry>, size: nat, st: Style)
    ensures var p, g := Typeset(text, table, size, st), Glyphs(text);
      && |p.draws| <= |g|
      && (forall k :: 0 <= k < |p.draws| ==>
            && g[k] in table
            && p.draws[k] == Draw(SourceRect(table[g[k]], size), p.draws[k].pen, st.position, st.scale,
                                  st.rotation, st.color, st.fontScale * st.scale))
      && (p.missing.None? <==> |p.draws| == |g|)
      && (p.missing.Some? ==> g[|p.draws|] == p.missing.value && g[|p.draws|] !in table)
    decreases |text|
  {
    if text != [] {
      var init, c := text[..|text| - 1], text[|text| - 1];
      TypesetDraws(init, table, size, st);
      var p0, g0 := Typeset(init, table, size, st), Glyphs(init);
      var p, g := Typeset(text, table, size, st), Glyphs(text);
      assert p == Step(p0, c, table, size, st);
      if IsGlyph(c) {
        assert g == g0 + [c];
      } else {
        assert g == g0;
      }
    }
  }

  /** DrawString completes exactly when every character it must draw has a table entry. */
  lemma DrawStringCompletes(text: string, table: map<char, Entry>, size: nat, st: Style)
    ensures Typeset(text, table, size, st).missing.None? <==>
      forall i :: 0 <= i < |text| && IsGlyph(text[i]) ==> text[i] in table
    ensures Typeset(text, table, size, st).missing.None? ==>
      |Typeset(text, table, size, st).draws| == |Glyphs(text)|
  {
    TypesetDraws(text, table, size, st);
    GlyphsOf(text);
  }

  /** A character is drawn exactly when it occurs in the text and is not a space or newline. */
  lemma {:induction false} GlyphsOf(text: string)
    ensures forall c :: c in Glyphs(text) <==> c in text && IsGlyph(c)
    decreases |text|
  {
    if text != [] {
      var init := text[..|text| - 1];
      GlyphsOf(init);
      assert text == init + [text[|text| - 1]];
    }
  }

  /**
   * Where the pen is after the text: the width of the last line along, and
   * one line height down per '\n' (`Below`, which `BelowCounts` shows is the
   * number of newlines times the line height).
   */
  lemma PenPosition(text: string, table: map<char, Entry>, size: nat, st: Style)
    requires Typeset(text, table, size, st).missing.None?
    ensures Typeset(text, table, size, st).x == st.position.x + Advance(LastLine(text), table, st)
    ensures Typeset(text, table, size, st).y == st.position.y + Below(text, LineHeight(st))
  {
    PenAcross(text, table, size, st);
    PenDown(text, table, size, st);
  }

  lemma {:induction false} PenAcross(text: string, table: map<char, Entry>, size: nat, st: Style)
    requires Typeset(text, table, size, st).missing.None?
    ensures Typeset(text, table, size, st).x == st.position.x + Advance(LastLine(text), table, st)
    decreases |text|
  {
    if text != [] {
      var init, c := text[..|text| - 1], text[|text| - 1];
      var p0 := Typeset(init, table, size, st);
      assert Typeset(text, table, size, st) == Step(p0, c, table, size, st);
      assert p0.missing.None?;
      PenAcross(init, table, size, st);
      AdvanceStep(init, c, table, size, st);
    }
  }

  /** One more character moves the pen by what it adds to the width of the last line. */
  lemma AdvanceStep(init: string, c: char, table: map<char, Entry>, size: nat, st: Style)
    requires Step(Typeset(init, table, size, st), c, table, size, st).missing.None?
    ensures var p0 := Typeset(init, table, size, st);
      Step(p0, c, table, size, st).x - p0.x ==
        if c == '\n' then st.position.x - p0.x
        else Advance(LastLine(init + [c]), table, st) - Advance(LastLine(init), table, st)
  {
    StepMoves(Typeset(init, table, size, st), c, table, size, st);
    LastLineStep(init, c, table, size, st);
  }

  lemma StepMoves(p0: Pen, c: char, table: map<char, Entry>, size: nat, st: Style)
    requires Step(p0, c, table, size, st).missing.None?
    ensures Step(p0, c, table, size, st).x == if c == '\n' then st.position.x else p0.x + Width(c, table, st)
  {
  }

  lemma LastLineStep(init: string, c: char, table: map<char, Entry>, size: nat, st: Style)
    ensures c == '\n' ==> LastLine(init + [c]) == []
    ensures c != '\n' ==>
      Advance(LastLine(init + [c]), table, st) == Advance(LastLine(init), table, st) + Width(c, table, st)
  {
    var text := init + [c];
    assert text[..|text| - 1] == init;
    if c != '\n' {
      var line := LastLine(text);
      assert line == LastLine(init) + [c];
      assert line[..|line| - 1] == LastLine(init);
    }
  }

  /** The total drop of the pen: `h` for each '\n'. */
  function Below(text: string, h: real): real
    decreases |text|
  {
    if text == [] then 0.0
    else Below(text[..|text| - 1], h) + (if text[|text| - 1] == '\n' then h else 0.0)
  }

  lemma {:induction false} PenDown(text: string, table: map<char, Entry>, size: nat, st: Style)
    requires Typeset(text, table, size, st).missing.None?
    ensures Typeset(text, table, size, st).y == st.position.y + Below(text, LineHeight(st))
    decreases |text|
  {
    if text != [] {
      var init, c := text[..|text| - 1], text[|text| - 1];
      var p0 := Typeset(init, table, size, st);
      assert Typeset(text, table, size, st) == Step(p0, c, table, size, st);
      assert p0.missing.None?;
      PenDown(init, table, size, st);
    }
  }

  lemma {:induction false} BelowCounts(text: string, h: real)
    ensures Below(text, h) == Newlines(text) as real * h
    decreases |text|
  {
    if text != [] {
      var init := text[..|text| - 1];
      BelowCounts(init, h);
      var n := Newlines(init) as real;
      assert (n + 1.0) * h == n * h + h;
    }
  }

  /** The draws of a prefix of the text are the first draws of the whole text. */
  lemma {:induction false} DrawsGrow(text: string, i: nat, table: map<char, Entry>, size: nat, st: Style)
    requires i <= |text|
    ensures Typeset(text[..i], table, size, st).draws <= Typeset(text, table, size, st).draws
    decreases |text| - i
  {
    if i < |text| {
      DrawsGrow(text, i + 1, table, size, st);
      assert text[..i + 1][..i] == text[..i];
    } else {
      assert text[..i] == text;
    }
  }

  /**
   * The draw of the glyph at index i, when every glyph before it had an
   * entry: it is the draw numbered by the glyphs before it, at a pen that
   * is the width of the line so far along and one line height per earlier
   * '\n' down from `position`.
   */
  lemma DrawOfGlyph(text: string, i: nat, table: map<char, Entry>, size: nat, st: Style)
    requires i < |text|
    requires IsGlyph(text[i]) && text[i] in table
    requires Typeset(text[..i], table, size, st).missing.None?
    ensures var p, k := Typeset(text, table, size, st), |Glyphs(text[..i])|;
      && k < |p.draws|
      && p.draws[k].source == SourceRect(table[text[i]], size)
      && p.draws[k].pen == Vec(st.position.x + Advance(LastLine(text[..i]), table, st),
                               st.position.y + Below(text[..i], LineHeight(st)))
  {
    var before := text[..i];
    var p0 := Typeset(before, table, size, st);
    assert text[..i + 1][..i] == before;
    assert Typeset(text[..i + 1], table, size, st) == Step(p0, text[i], table, size, st);
    PenAndCount(before, table, size, st);
    DrawsGrow(text, i + 1, table, size, st);
  }

  lemma PenAndCount(text: string, table: map<char, Entry>, size: nat, st: Style)
    requires Typeset(text, table, size, st).missing.None?
    ensures var p := Typeset(text, table, size, st);
      && |p.draws| == |Glyphs(text)|
      && p.x == st.position.x + Advance(LastLine(text), table, st)
      && p.y == st.position.y + Below(text, LineHeight(st))
  {
    TypesetDraws(text, table, size, st);
    PenPosition(text, table, size, st);
  }

  /** A glyph with an entry adds one draw of that entry at the pen and moves the pen past it. */
  lemma GlyphStep(pen: Pen, c: char, table: map<char, Entry>, size: nat, st: Style, x: int, w: int,
                  position: Vec, color: Color, height: real, spacing: real, rotation: real, scale: real,
                  lineSpacing: real, fontScale: real)
    requires st == Style(position, color, height, spacing, rotation, scale, lineSpacing, fontScale)
    requires pen.missing.None? && IsGlyph(c) && c in table && table[c] == Entry(x, w)
    ensures Step(pen, c, table, size, st) ==
      Pen(pen.x + (w as real + spacing) * fontScale, pen.y,
          pen.draws + [Draw(Rect(x, 0, w, size), Vec(pen.x, pen.y), position, scale, rotation, color, fontScale * scale)],
          None)
  {
    var d := Draw(Rect(x, 0, w, size), Vec(pen.x, pen.y), position, scale, rotation, color, fontScale * scale);
    var next := Step(pen, c, table, size, st);
    assert next.draws[|pen.draws|] == d;
    assert next.draws == pen.draws + [d];
  }

  /** DrawString's loop after `i + 1` characters is one more step after `i`. */
  lemma TypesetStep(text: string, i: nat, table: map<char, Entry>, size: nat, st: Style)
    requires i < |text|
    ensures Typeset(text[..i + 1], table, size, st) == Step(Typeset(text[..i], table, size, st), text[i], table, size, st)
  {
    assert text[..i + 1][..i] == text[..i];
  }

  /**
   * Two glyphs in a row on one line are drawn `(w + spacing) * fontScale`
   * apart, `w` being the atlas width of the first: the gap between the
   * draws is the first glyph's width plus the spacing, scaled together.
   */
  lemma NextGlyphDraw(text: string, i: nat, table: map<char, Entry>, size: nat, st: Style)
    requires i + 1 < |text|
    requires IsGlyph(text[i]) && text[i] in table
    requires IsGlyph(text[i + 1]) && text[i + 1] in table
    requires Typeset(text[..i], table, size, st).missing.None?
    ensures var p, k := Typeset(text, table, size, st), |Glyphs(text[..i])|;
      && k + 1 < |p.draws|
      && p.draws[k + 1].pen ==
           Vec(p.draws[k].pen.x + (table[text[i]].w as real + st.spacing) * st.fontScale, p.draws[k].pen.y)
  {
    GlyphKeepsGoing(text, i, table, size, st);
    DrawOfGlyph(text, i, table, size, st);
    DrawOfGlyph(text, i + 1, table, size, st);
    GlyphExtends(text, i, table, st);
  }

  /** A glyph with an entry adds itself to the glyphs, its width to the line and nothing to the drop. */
  lemma GlyphExtends(text: string, i: nat, table: map<char, Entry>, st: Style)
    requires i < |text| && IsGlyph(text[i]) && text[i] in table
    ensures Glyphs(text[..i + 1]) == Glyphs(text[..i]) + [text[i]]
    ensures Below(text[..i + 1], LineHeight(st)) == Below(text[..i], LineHeight(st))
    ensures Advance(LastLine(text[..i + 1]), table, st) ==
      Advance(LastLine(text[..i]), table, st) + (table[text[i]].w as real + st.spacing) * st.fontScale
  {
    var before, upto := text[..i], text[..i + 1];
    assert upto[..|upto| - 1] == before;
    assert upto == before + [text[i]];
    LastLineStep(before, text[i], table, 0, st);
  }

  /** A glyph with an entry, after glyphs with entries, leaves nothing missing. */
  lemma GlyphKeepsGoing(text: string, i: nat, table: map<char, Entry>, size: nat, st: Style)
    requires i < |text| && IsGlyph(text[i]) && text[i] in table
    requires Typeset(text[..i], table, size, st).missing.None?
    ensures Typeset(text[..i + 1], table, size, st).missing.None?
  {
    TypesetStep(text, i, table, size, st);
  }

  /** Once a glyph was missing, the rest of the text changes nothing. */
  lemma {:induction false} MissingSticky(text: string, i: nat, table: map<char, Entry>, size: nat, st: Style)
    requires i <= |text|
    requires Typeset(text[..i], table, size, st).missing.Some?
    ensures Typeset(text, table, size, st) == Typeset(text[..i], table, size, st)
    decreases |text| - i
  {
    if i < |text| {
      assert text[..i + 1][..i] == text[..i];
      MissingSticky(text, i + 1, table, size, st);
    } else {
      assert text[..i] == text;
    }
  }

  // ---------------------------------------------------------------------------
  // The font object

  /** A decoded atlas image; a PNG has at least one row and one column. */
  type AtlasImage = s: Surface | s.width > 0 && s.height > 0 witness Grid(1, 1, [[Transparent]])

  class SFProofFont {
    const atlas: AtlasImage
    const charsData: map<char, Entry>
    var Spacing: real
    var LineSpacing: real

    /** The font as its constructor leaves it once the glyph table has been read. */
    constructor (atlas: AtlasImage, charsData: map<char, Entry>)
      ensures this.atlas == atlas && this.charsData == charsData
      ensures Spacing == 10.0 && LineSpacing == 5.0
    {
      this.atlas := atlas;
      this.charsData := charsData;
      Spacing := 10.0;
      LineSpacing := 5.0;
    }

    /**
     * `new SFProofFont(graphics, path)` after the archive's `atlas` image is
     * decoded: it reads `chars_data` and either yields the font or raises
     * the first exception the table raises.
     */
    static method Load(atlas: AtlasImage, charsData: string) returns (r: Result<SFProofFont, LoadError>)
      ensures TableOf(Split(charsData, '\n')).Failure? ==>
        r == Failure(TableOf(Split(charsData, '\n')).error)
      ensures TableOf(Split(charsData, '\n')).Success? ==>
        && r.Success? && fresh(r.value)
        && r.value.atlas == atlas && r.value.charsData == TableOf(Split(charsData, '\n')).value
        && r.value.Spacing == 10.0 && r.value.LineSpacing == 5.0
    {
      var table := ParseCharsData(charsData);
      if table.Failure? {
        return Failure(table.error);
      }
      var font := new SFProofFont(atlas, table.value);
      return Success(font);
    }

    /** The font's pixel size: the atlas height, always positive. */
    function Size(): (r: nat)
      ensures r == atlas.height && r > 0
    {
      atlas.height
    }

    /**
     * The draws DrawString issues for `text`, in order, and the character it
     * stops at if one has no entry.  It changes no field of the font.
     */
    method DrawString(text: string, position: Vec, color: Color, height: real, spacing: Option<real>,
                      rotation: real, scale: real, lineSpacing: Option<real>)
      returns (draws: seq<Draw>, missing: Option<char>)
      ensures var st := Style(position, color, height, spacing.GetOr(Spacing), rotation, scale,
                              lineSpacing.GetOr(LineSpacing), FontScale(height, Size()));
        draws == Typeset(text, charsData, Size(), st).draws
        && missing == Typeset(text, charsData, Size(), st).missing
    {
      var size := Size();
      var fontScale := FontScale(height, size);
      var currX := position.x;
      var currY := position.y;
      var spacing := spacing.GetOr(Spacing);
      var lineSpacing := lineSpacing.GetOr(LineSpacing);
      ghost var st := Style(position, color, height, spacing, rotation, scale, lineSpacing, fontScale);
      draws := [];
      missing := None;
      for i := 0 to |text|
        invariant Typeset(text[..i], charsData, size, st) == Pen(currX, currY, draws, None)
      {
        TypesetStep(text, i, charsData, size, st);
        var c := text[i];
        ghost var pen := Pen(currX, currY, draws, None);
        if c == ' ' {
          currX := currX + spacing * 2.0;
          assert Pen(currX, currY, draws, None) == Step(pen, c, charsData, size, st);
        } else if c == '\n' {
          currX := position.x;
          currY := currY + (height + lineSpacing * fontScale);
          assert Pen(currX, currY, draws, None) == Step(pen, c, charsData, size, st);
        } else {
          if c !in charsData {
            missing := Some(c);
            MissingSticky(text, i + 1, charsData, size, st);
            return;
          }
          var Entry(x, w) := charsData[c];
          var sourceRect := Rect(x, 0, w, size);
          draws := draws + [Draw(sourceRect, Vec(currX, currY), position, scale, rotation, color, fontScale * scale)];
          currX := currX + (w as real + spacing) * fontScale;
          GlyphStep(pen, c, charsData, size, st, x, w, position, color, height, spacing, rotation, scale, lineSpacing, fontScale);
        }
      }
      assert text[..|text|] == text;
    }
  }
}
