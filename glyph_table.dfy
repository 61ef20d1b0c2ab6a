/**
 * The glyph table of a proof font as `SFProofFont`'s constructor reads it
 * (SFProofFont.cs:35-42): the `chars_data` text is cut at every '\n', each
 * piece at every ' ', the first character of the first field is the key,
 * the next two fields are parsed with `int.Parse` into the glyph's x-offset
 * and width, and the pair is added to a dictionary.  Any exception on the
 * way aborts the constructor, so there is a whole table or none.
 */
module GlyphTable {
  import opened Results
  import opened Strings

  const Int32Min := -0x8000_0000
  const Int32Max := 0x7FFF_FFFF

  /** The exceptions the constructor can raise while reading the table. */
  datatype LoadError =
    | IndexOutOfRange     // a line without a first character, or with fewer than three fields
    | NotAnInteger        // `int.Parse` throws FormatException
    | Overflow            // `int.Parse` throws OverflowException
    | DuplicateKey(c: char)  // `Dictionary.Add` throws ArgumentException

  /** The `(int, int)` of a table entry: the glyph's first atlas column and its width. */
  datatype Entry = Entry(x: int, w: int)

  // ---------------------------------------------------------------------------
  // int.Parse

  /** The white space `int.Parse` accepts around a number: U+0009 to U+000D and the space. */
  predicate IsWhite(c: char) {
    c == ' ' || '\t' <= c <= '\r'
  }

  function TrimStart(s: string): (r: string)
    ensures |r| <= |s| && r == s[|s| - |r|..]
    ensures r == [] || !IsWhite(r[0])
    ensures forall i :: 0 <= i < |s| - |r| ==> IsWhite(s[i])
    decreases |s|
  {
    if s != [] && IsWhite(s[0]) then TrimStart(s[1..]) else s
  }

  function TrimEnd(s: string): (r: string)
    ensures |r| <= |s| && r == s[..|r|]
    ensures r == [] || !IsWhite(r[|r| - 1])
    ensures forall i :: |r| <= i < |s| ==> IsWhite(s[i])
    decreases |s|
  {
    if s != [] && IsWhite(s[|s| - 1]) then TrimEnd(s[..|s| - 1]) else s
  }

  /** The string without the run of '\0' characters it ends with. */
  function TrimNuls(s: string): (r: string)
    ensures |r| <= |s| && r == s[..|r|]
    ensures r == [] || r[|r| - 1] != '\0'
    ensures forall i :: |r| <= i < |s| ==> s[i] == '\0'
    decreases |s|
  {
    if s != [] && s[|s| - 1] == '\0' then TrimNuls(s[..|s| - 1]) else s
  }

  /**
   * `int.Parse(s)` with the invariant culture: optional white space, an
   * optional sign, one or more decimal digits, optional white space, and
   * then any number of '\0' characters, which .NET accepts at the very end
   * of the string; the value must fit 32 bits.
   */
  function ParseInt32(s: string): (r: Result<int, LoadError>)
    ensures r.Success? ==> Int32Min <= r.value <= Int32Max
    ensures r.Failure? ==> r.error == NotAnInteger || r.error == Overflow
  {
    ParseSpaced(TrimNuls(s))
  }

  /** `int.Parse` once the trailing '\0' characters are gone: white space, the number, white space. */
  function ParseSpaced(s: string): (r: Result<int, LoadError>)
    ensures r.Success? ==> Int32Min <= r.value <= Int32Max
    ensures r.Failure? ==> r.error == NotAnInteger || r.error == Overflow
  {
    ParseTrimmed(TrimEnd(TrimStart(s)))
  }

  /** `int.Parse` once the white space around the number is gone. */
  function ParseTrimmed(t: string): (r: Result<int, LoadError>)
    ensures r.Success? ==> Int32Min <= r.value <= Int32Max
    ensures r.Failure? ==> r.error == NotAnInteger || r.error == Overflow
  {
    var signed := t != [] && (t[0] == '-' || t[0] == '+');
    var digits := if signed then t[1..] else t;
    if digits == [] || !AllDigits(digits) then Failure(NotAnInteger)
    else
      var v: int := if signed && t[0] == '-' then -(DigitsValue(digits) as int) else DigitsValue(digits);
      if v < Int32Min || Int32Max < v then Failure(Overflow) else Success(v)
  }

  /** What Python's `str` writes, `int.Parse` reads back, as long as it fits 32 bits. */
  lemma ParseDecimal(n: nat)
    ensures n <= Int32Max ==> ParseInt32(Decimal(n)) == Success(n)
    ensures Int32Max < n ==> ParseInt32(Decimal(n)) == Failure(Overflow)
  {
    var s := Decimal(n);
    DecimalValue(n);
    NoWhiteUntrimmed(s);
    assert IsDigit(s[0]);
    assert !(s[0] == '-' || s[0] == '+');
    assert DigitsValue(s) == n;
  }

  lemma NoWhiteUntrimmed(s: string)
    requires AllDigits(s)
    ensures TrimEnd(TrimStart(TrimNuls(s))) == s
  {
    assert s == [] || !(s[|s| - 1] == '\0');
    assert TrimNuls(s) == s;
    assert s == [] || !IsWhite(s[0]);
    assert TrimStart(s) == s;
    assert s == [] || !IsWhite(s[|s| - 1]);
  }

  predicate AllWhite(s: string) {
    forall i :: 0 <= i < |s| ==> IsWhite(s[i])
  }

  predicate AllNul(s: string) {
    forall i :: 0 <= i < |s| ==> s[i] == '\0'
  }

  /**
   * `s` reads as a number: leading white space, an optional sign, one or
   * more digits, trailing white space, trailing '\0' characters.
   */
  predicate Int32Syntax(s: string, lead: string, sign: string, digits: string, trail: string, nuls: string) {
    && s == lead + sign + digits + trail + nuls
    && AllNul(nuls)
    && SpacedNumber(lead + sign + digits + trail, lead, sign, digits, trail)
  }

  /** `s` is white space, an optional sign, one or more digits and white space. */
  predicate SpacedNumber(s: string, lead: string, sign: string, digits: string, trail: string) {
    && s == lead + sign + digits + trail
    && AllWhite(lead) && AllWhite(trail)
    && (sign == "" || sign == "-" || sign == "+")
    && digits != [] && AllDigits(digits)
  }

  /** The number a sign and its digits denote. */
  function SignedValue(sign: string, digits: string): int
    requires AllDigits(digits)
  {
    if sign == "-" then -(DigitsValue(digits) as int) else DigitsValue(digits)
  }

  /**
   * A string of that shape parses to the value of its sign and digits, or
   * overflows when that value does not fit 32 bits.
   */
  lemma ParseInt32Syntax(s: string, lead: string, sign: string, digits: string, trail: string, nuls: string)
    requires Int32Syntax(s, lead, sign, digits, trail, nuls)
    ensures var v := SignedValue(sign, digits);
      ParseInt32(s) == if Int32Min <= v <= Int32Max then Success(v) else Failure(Overflow)
  {
    var core := lead + sign + digits + trail;
    assert core[|core| - 1] == if trail == [] then digits[|digits| - 1] else trail[|trail| - 1];
    TrimNulsOf(core, nuls);
    ParseSpacedSyntax(core, lead, sign, digits, trail);
  }

  /** A number followed directly by '\0' parses. */
  lemma NulAfterNumber()
    ensures ParseInt32("5\0") == Success(5)
  {
    assert "5\0" == "" + "" + "5" + "" + "\0";
    assert "" + "" + "5" + "" == "5";
    assert DigitsValue("5") == 5 by { assert "5"[..0] == []; }
    ParseInt32Syntax("5\0", "", "", "5", "", "\0");
  }

  /** A number, white space and then '\0' characters parses. */
  lemma NulsAfterWhite()
    ensures ParseInt32("5 \0\0") == Success(5)
  {
    assert "5 \0\0" == "" + "" + "5" + " " + "\0\0";
    assert "" + "" + "5" + " " == "5 ";
    assert DigitsValue("5") == 5 by { assert "5"[..0] == []; }
    ParseInt32Syntax("5 \0\0", "", "", "5", " ", "\0\0");
  }

  /** White space after a '\0' is not accepted: the '\0' is then not at the end. */
  lemma WhiteAfterNul()
    ensures ParseInt32("5\0 ") == Failure(NotAnInteger)
  {
    TrimsBeforeNul();
    NulNotDigit();
  }

  lemma TrimsBeforeNul()
    ensures TrimEnd(TrimStart(TrimNuls("5\0 "))) == "5\0"
  {
    var t := "5\0";
    var s := t + [' '];
    assert s == "5\0 ";
    assert s[0] == '5' && s[|s| - 1] == ' ' && t[|t| - 1] == '\0';
    NoNulAtEnd(s);
    NoWhiteAtStart(s);
    EndWhiteDropped(t, ' ');
  }

  lemma NoNulAtEnd(s: string)
    requires s != [] && s[|s| - 1] != '\0'
    ensures TrimNuls(s) == s
  {
  }

  lemma NoWhiteAtStart(s: string)
    requires s != [] && !IsWhite(s[0])
    ensures TrimStart(s) == s
  {
  }

  lemma EndWhiteDropped(t: string, c: char)
    requires IsWhite(c) && t != [] && !IsWhite(t[|t| - 1])
    ensures TrimEnd(t + [c]) == t
  {
    assert (t + [c])[..|t|] == t;
  }

  lemma NulNotDigit()
    ensures ParseTrimmed("5\0") == Failure(NotAnInteger)
  {
    assert !IsDigit("5\0"[1]);
  }

  /** Stripping the '\0' run at the end of `core + nuls` leaves `core` when `core` does not end in '\0'. */
  lemma {:induction false} TrimNulsOf(core: string, nuls: string)
    requires AllNul(nuls) && (core == [] || core[|core| - 1] != '\0')
    ensures TrimNuls(core + nuls) == core
    decreases |nuls|
  {
    var s := core + nuls;
    if nuls != [] {
      assert s[..|s| - 1] == core + nuls[..|nuls| - 1];
      TrimNulsOf(core, nuls[..|nuls| - 1]);
    } else {
      assert s == core;
    }
  }

  lemma ParseSpacedSyntax(s: string, lead: string, sign: string, digits: string, trail: string)
    requires SpacedNumber(s, lead, sign, digits, trail)
    ensures var v := SignedValue(sign, digits);
      ParseSpaced(s) == if Int32Min <= v <= Int32Max then Success(v) else Failure(Overflow)
  {
    var t := sign + digits;
    assert s == lead + t + trail;
    assert t[0] == if sign == "" then digits[0] else sign[0];
    assert t[|t| - 1] == digits[|digits| - 1];
    TrimBoth(lead, t, trail);
    ParseSigned(sign, digits);
  }

  /** Trimming removes exactly the white space around a word that starts and ends with something else. */
  lemma TrimBoth(lead: string, t: string, trail: string)
    requires AllWhite(lead) && AllWhite(trail)
    requires t != [] && !IsWhite(t[0]) && !IsWhite(t[|t| - 1])
    ensures TrimEnd(TrimStart(lead + t + trail)) == t
  {
    assert lead + t + trail == lead + (t + trail);
    assert (t + trail)[0] == t[0];
    TrimStartWhite(lead, t + trail);
    TrimEndWhite(t, trail);
  }

  lemma ParseSigned(sign: string, digits: string)
    requires sign == "" || sign == "-" || sign == "+"
    requires digits != [] && AllDigits(digits)
    ensures var v := SignedValue(sign, digits);
      ParseTrimmed(sign + digits) == if Int32Min <= v <= Int32Max then Success(v) else Failure(Overflow)
  {
    var t := sign + digits;
    if sign != "" {
      assert t[0] == sign[0] && t[1..] == digits;
    } else {
      assert t == digits;
      assert IsDigit(t[0]) && !(t[0] == '-' || t[0] == '+');
    }
  }

  /**
   * `int.Parse` raises FormatException exactly when the string does not
   * have that shape.
   */
  lemma ParseInt32Format(s: string)
    ensures ParseInt32(s) == Failure(NotAnInteger) <==>
      !exists lead, sign, digits, trail, nuls :: Int32Syntax(s, lead, sign, digits, trail, nuls)
  {
    if exists lead, sign, digits, trail, nuls :: Int32Syntax(s, lead, sign, digits, trail, nuls) {
      var lead, sign, digits, trail, nuls :| Int32Syntax(s, lead, sign, digits, trail, nuls);
      ParseInt32Syntax(s, lead, sign, digits, trail, nuls);
    } else if ParseInt32(s) != Failure(NotAnInteger) {
      var lead, sign, digits, trail, nuls := Int32Parts(s);
      assert false;
    }
  }

  /** A string `int.Parse` does not reject as malformed has the shape of a number. */
  lemma Int32Parts(s: string) returns (lead: string, sign: string, digits: string, trail: string, nuls: string)
    requires ParseInt32(s) != Failure(NotAnInteger)
    ensures Int32Syntax(s, lead, sign, digits, trail, nuls)
  {
    var core := TrimNuls(s);
    lead, sign, digits, trail := NumberParts(core);
    nuls := s[|core|..];
    assert s == core + nuls;
  }

  /** A string `ParseSpaced` does not reject as malformed is white space, a number and white space. */
  lemma NumberParts(s: string) returns (lead: string, sign: string, digits: string, trail: string)
    requires ParseSpaced(s) != Failure(NotAnInteger)
    ensures SpacedNumber(s, lead, sign, digits, trail)
  {
    var ts := TrimStart(s);
    var t := TrimEnd(ts);
    TrimmedParts(s);
    sign, digits := SignAndDigits(t);
    lead, trail := s[..|s| - |ts|], ts[|t|..];
    Reassemble(s, lead, t, trail, sign, digits);
  }

  lemma Reassemble(s: string, lead: string, t: string, trail: string, sign: string, digits: string)
    requires s == lead + t + trail && t == sign + digits
    requires AllWhite(lead) && AllWhite(trail)
    requires (sign == "" || sign == "-" || sign == "+") && digits != [] && AllDigits(digits)
    ensures SpacedNumber(s, lead, sign, digits, trail)
  {
    assert lead + (sign + digits) + trail == lead + sign + digits + trail;
  }

  /** `s` is the white space trimming removes at its start, what is left, and the white space removed at its end. */
  lemma TrimmedParts(s: string)
    ensures var ts := TrimStart(s);
      var t := TrimEnd(ts);
      && s == s[..|s| - |ts|] + t + ts[|t|..]
      && AllWhite(s[..|s| - |ts|]) && AllWhite(ts[|t|..])
  {
    var ts := TrimStart(s);
    var t := TrimEnd(ts);
    TrimStartParts(s);
    TrimEndParts(ts);
    Regroup(s, s[..|s| - |ts|], ts, t, ts[|t|..]);
  }

  lemma Regroup(s: string, lead: string, ts: string, t: string, trail: string)
    requires s == lead + ts && ts == t + trail
    ensures s == lead + t + trail
  {
    assert lead + (t + trail) == lead + t + trail;
  }

  lemma TrimStartParts(s: string)
    ensures var ts := TrimStart(s);
      s == s[..|s| - |ts|] + ts && AllWhite(s[..|s| - |ts|])
  {
    var ts := TrimStart(s);
    assert s == s[..|s| - |ts|] + s[|s| - |ts|..];
  }

  lemma TrimEndParts(s: string)
    ensures var t := TrimEnd(s);
      s == t + s[|t|..] && AllWhite(s[|t|..])
  {
    var t := TrimEnd(s);
    assert s == s[..|t|] + s[|t|..];
  }

  /** What `int.Parse` accepts after trimming is an optional sign followed by digits. */
  lemma SignAndDigits(t: string) returns (sign: string, digits: string)
    requires ParseTrimmed(t) != Failure(NotAnInteger)
    ensures t == sign + digits
    ensures (sign == "" || sign == "-" || sign == "+") && digits != [] && AllDigits(digits)
  {
    if t != [] && (t[0] == '-' || t[0] == '+') {
      sign, digits := t[..1], t[1..];
      assert sign == [t[0]];
    } else {
      sign, digits := "", t;
    }
  }

  lemma {:induction false} TrimStartWhite(lead: string, rest: string)
    requires AllWhite(lead) && rest != [] && !IsWhite(rest[0])
    ensures TrimStart(lead + rest) == rest
    decreases |lead|
  {
    var s := lead + rest;
    if lead != [] {
      assert IsWhite(s[0]);
      assert s[1..] == lead[1..] + rest;
      assert TrimStart(s) == TrimStart(s[1..]);
      TrimStartWhite(lead[1..], rest);
    } else {
      assert s == rest;
    }
  }

  lemma {:induction false} TrimEndWhite(rest: string, trail: string)
    requires AllWhite(trail) && rest != [] && !IsWhite(rest[|rest| - 1])
    ensures TrimEnd(rest + trail) == rest
    decreases |trail|
  {
    var s := rest + trail;
    if trail != [] {
      assert s[..|s| - 1] == rest + trail[..|trail| - 1];
      TrimEndWhite(rest, trail[..|trail| - 1]);
    } else {
      assert s == rest;
    }
  }

  // ---------------------------------------------------------------------------
  // Lines and the table

  /**
   * One line `c x w`: `inTChar[0][0]`, then `int.Parse(inTChar[1])`, then
   * `int.Parse(inTChar[2])`, each failing in that order; fields after the
   * third are ignored.
   */
  function ParseLine(line: string): (r: Result<(char, Entry), LoadError>)
    ensures r.Success? ==> |line| > 0 && r.value.0 == line[0]
  {
    var fields := Split(line, ' ');
    if fields[0] == [] then Failure(IndexOutOfRange)
    else if |fields| < 2 then Failure(IndexOutOfRange)
    else match ParseInt32(fields[1])
      case Failure(e) => Failure(e)
      case Success(x) =>
        if |fields| < 3 then Failure(IndexOutOfRange)
        else match ParseInt32(fields[2])
          case Failure(e) => Failure(e)
          case Success(w) =>
            SplitFirstPiece(line, ' ');
            Success((fields[0][0], Entry(x, w)))
  }

  lemma SplitFirstPiece(s: string, sep: char)
    requires Split(s, sep)[0] != []
    ensures s != [] && Split(s, sep)[0][0] == s[0]
  {
    JoinSplit(s, sep);
    var p := Split(s, sep);
    JoinStartsWithFirst(p, sep);
  }

  lemma {:induction false} JoinStartsWithFirst(lines: seq<string>, sep: char)
    requires lines != [] && lines[0] != []
    ensures Join(lines, sep) != [] && Join(lines, sep)[0] == lines[0][0]
    decreases |lines|
  {
    if |lines| > 1 {
      JoinStartsWithFirst(lines[..|lines| - 1], sep);
    }
  }

  /**
   * `line` is `c k a b rest` cut at spaces: a first field starting with the
   * key `c`, a second field `a`, a third field `b`, and whatever fields follow.
   */
  predicate LineFields(line: string, c: char, k: string, a: string, b: string, rest: string) {
    && line == [c] + k + " " + a + " " + b + rest
    && c != ' ' && ' ' !in k && ' ' !in a && ' ' !in b
    && (rest == [] || rest[0] == ' ')
  }

  /**
   * A line of that shape yields its key with the values of its second and
   * third fields, or the exception `int.Parse` raises on the first of them
   * that is not a 32-bit integer.
   */
  lemma ParseLineFields(line: string, c: char, k: string, a: string, b: string, rest: string)
    requires LineFields(line, c, k, a, b, rest)
    ensures ParseLine(line) ==
      match ParseInt32(a)
      case Failure(e) => Failure(e)
      case Success(x) =>
        match ParseInt32(b)
        case Failure(e) => Failure(e)
        case Success(w) => Success((c, Entry(x, w)))
  {
    SplitFields(line, c, k, a, b, rest);
  }

  /** The first three pieces of such a line are its three fields. */
  lemma SplitFields(line: string, c: char, k: string, a: string, b: string, rest: string)
    requires LineFields(line, c, k, a, b, rest)
    ensures var fields := Split(line, ' ');
      |fields| >= 3 && fields[0] == [c] + k && fields[1] == a && fields[2] == b
  {
    var f0, tail, tail2 := [c] + k, a + " " + b + rest, b + rest;
    assert line == f0 + [' '] + tail;
    assert tail == a + [' '] + tail2;
    SplitHead(f0, tail);
    SplitHead(a, tail2);
    SplitFirst(b, rest);
  }

  lemma SplitHead(head: string, tail: string)
    requires ' ' !in head
    ensures Split(head + [' '] + tail, ' ') == [head] + Split(tail, ' ')
  {
    SplitAppend(head, tail, ' ');
    SplitWithout(head, ' ');
  }

  lemma SplitFirst(b: string, rest: string)
    requires ' ' !in b && (rest == [] || rest[0] == ' ')
    ensures Split(b + rest, ' ')[0] == b
  {
    if rest != [] {
      assert b + rest == b + [' '] + rest[1..];
      SplitHead(b, rest[1..]);
    } else {
      assert b + rest == b;
      SplitWithout(b, ' ');
    }
  }

  /**
   * A line that parses has that shape, and its entry holds the values of
   * its second and third fields.
   */
  lemma ParseLineShape(line: string)
    requires ParseLine(line).Success?
    ensures var r := ParseLine(line).value;
      exists k, a, b, rest :: LineFields(line, r.0, k, a, b, rest)
        && ParseInt32(a) == Success(r.1.x) && ParseInt32(b) == Success(r.1.w)
  {
    ParseLineValues(line);
    var k, rest := FieldsOfLine(line);
  }

  /** A line that parses has three pieces, a first character, and numbers in its second and third pieces. */
  lemma ParseLineValues(line: string)
    requires ParseLine(line).Success?
    ensures var fields, r := Split(line, ' '), ParseLine(line).value;
      && |fields| >= 3 && fields[0] != [] && fields[0][0] == r.0
      && ParseInt32(fields[1]) == Success(r.1.x) && ParseInt32(fields[2]) == Success(r.1.w)
  {
    var fields := Split(line, ' ');
    assert fields[0] != [] && |fields| >= 2;
    var px := ParseInt32(fields[1]);
    assert px.Success? && |fields| >= 3;
    var pw := ParseInt32(fields[2]);
    assert pw.Success?;
    assert ParseLine(line) == Success((fields[0][0], Entry(px.value, pw.value)));
  }

  /** A line whose first piece is not empty and that has three pieces has the shape of `LineFields`. */
  lemma FieldsOfLine(line: string) returns (k: string, rest: string)
    requires var fields := Split(line, ' '); |fields| >= 3 && fields[0] != []
    ensures var fields := Split(line, ' ');
      LineFields(line, fields[0][0], k, fields[1], fields[2], rest)
  {
    var fields := Split(line, ' ');
    rest := JoinedFields(line);
    k := fields[0][1..];
    assert fields[0] == [fields[0][0]] + k;
  }

  /** A line with at least three pieces is its first three pieces, separated by spaces, and what follows. */
  lemma JoinedFields(line: string) returns (rest: string)
    requires |Split(line, ' ')| >= 3
    ensures var fields := Split(line, ' ');
      line == fields[0] + " " + fields[1] + " " + fields[2] + rest
      && (rest == [] || rest[0] == ' ')
  {
    var fields := Split(line, ' ');
    JoinSplit(line, ' ');
    JoinFront(fields, ' ');
    JoinFront(fields[1..], ' ');
    assert fields[1..][0] == fields[1] && fields[1..][1..] == fields[2..];
    rest := if |fields| == 3 then [] else [' '] + Join(fields[3..], ' ');
    if |fields| > 3 {
      JoinFront(fields[2..], ' ');
      assert fields[2..][1..] == fields[3..];
    } else {
      assert fields[2..] == [fields[2]];
    }
    var j2 := Join(fields[2..], ' ');
    assert j2 == fields[2] + rest;
    Reassociate(fields[0], fields[1], fields[2], rest);
  }

  lemma Reassociate(f0: string, a: string, b: string, rest: string)
    ensures f0 + [' '] + (a + [' '] + (b + rest)) == f0 + " " + a + " " + b + rest
  {
  }

  /** A line with fewer than two spaces has fewer than three fields and raises. */
  lemma FewSpacesFail(line: string)
    requires multiset(line)[' '] < 2
    ensures ParseLine(line).Failure?
  {
    SplitCount(line, ' ');
  }

  /** A line's parsed form: the key and entry it adds, or the exception it raises. */
  type Parsed = Result<(char, Entry), LoadError>

  /** The dictionary after adding the parsed lines in order; the first exception is the result. */
  function Insert(parsed: seq<Parsed>): (r: Result<map<char, Entry>, LoadError>)
    ensures r.Success? ==> forall i :: 0 <= i < |parsed| ==> parsed[i].Success?
    decreases |parsed|
  {
    if parsed == [] then Success(map[])
    else match Insert(parsed[..|parsed| - 1])
      case Failure(e) => Failure(e)
      case Success(table) =>
        match parsed[|parsed| - 1]
        case Failure(e) => Failure(e)
        case Success(entry) =>
          if entry.0 in table then Failure(DuplicateKey(entry.0)) else Success(table[entry.0 := entry.1])
  }

  function ParseAll(lines: seq<string>): (r: seq<Parsed>)
    ensures |r| == |lines| && forall i :: 0 <= i < |lines| ==> r[i] == ParseLine(lines[i])
  {
    seq(|lines|, i requires 0 <= i < |lines| => ParseLine(lines[i]))
  }

  /** The table `chars_data`'s lines build. */
  function TableOf(lines: seq<string>): Result<map<char, Entry>, LoadError>
  {
    Insert(ParseAll(lines))
  }

  /** The constructor's loop over `chars_data.Split('\n')`, building the dictionary in place. */
  method ParseCharsData(text: string) returns (r: Result<map<char, Entry>, LoadError>)
    ensures r == TableOf(Split(text, '\n'))
  {
    var charIntPairs := Split(text, '\n');
    ghost var parsed := ParseAll(charIntPairs);
    var charsData: map<char, Entry> := map[];
    for i := 0 to |charIntPairs|
      invariant Insert(parsed[..i]) == Success(charsData)
    {
      var line := ParseLine(charIntPairs[i]);
      InsertNext(parsed, i, charsData);
      if line.Failure? {
        FailureSticky(parsed, i + 1);
        return Failure(line.error);
      }
      var (c, entry) := line.value;
      if c in charsData {
        FailureSticky(parsed, i + 1);
        return Failure(DuplicateKey(c));
      }
      charsData := charsData[c := entry];
    }
    assert parsed[..|parsed|] == parsed;
    return Success(charsData);
  }

  /** Adding line i to the dictionary of the lines before it. */
  lemma InsertNext(parsed: seq<Parsed>, i: nat, table: map<char, Entry>)
    requires i < |parsed| && Insert(parsed[..i]) == Success(table)
    ensures Insert(parsed[..i + 1]) ==
      match parsed[i]
      case Failure(e) => Failure(e)
      case Success(entry) =>
        if entry.0 in table then Failure(DuplicateKey(entry.0)) else Success(table[entry.0 := entry.1])
  {
    assert parsed[..i + 1][..i] == parsed[..i];
  }

  /** Once adding a line has thrown, the later lines do not matter. */
  lemma {:induction false} FailureSticky(parsed: seq<Parsed>, i: nat)
    requires i <= |parsed| && Insert(parsed[..i]).Failure?
    ensures Insert(parsed) == Insert(parsed[..i])
    decreases |parsed| - i
  {
    if i < |parsed| {
      assert parsed[..i + 1][..i] == parsed[..i];
      FailureSticky(parsed, i + 1);
    } else {
      assert parsed[..i] == parsed;
    }
  }

  /** Every line parses and no key repeats. */
  predicate Loadable(parsed: seq<Parsed>) {
    && (forall i :: 0 <= i < |parsed| ==> parsed[i].Success?)
    && (forall i, j :: 0 <= i < j < |parsed| && parsed[i].Success? && parsed[j].Success? ==>
          parsed[i].value.0 != parsed[j].value.0)
  }

  /**
   * The table loads exactly when every line parses and no key repeats; it
   * then maps each line's key to that line's entry and holds nothing else.
   */
  lemma TableOfSucceeds(lines: seq<string>)
    ensures TableOf(lines).Success? <==> Loadable(ParseAll(lines))
    ensures TableOf(lines).Success? ==>
      && (forall c :: c in TableOf(lines).value <==>
            exists i :: 0 <= i < |lines| && ParseLine(lines[i]).value.0 == c)
      && (forall i :: 0 <= i < |lines| ==>
            TableOf(lines).value[ParseLine(lines[i]).value.0] == ParseLine(lines[i]).value.1)
  {
    var parsed := ParseAll(lines);
    if Loadable(parsed) {
      InsertLoads(parsed);
    } else {
      InsertFails(parsed);
    }
  }

  lemma {:induction false} InsertLoads(parsed: seq<Parsed>)
    requires Loadable(parsed)
    ensures Insert(parsed).Success?
    ensures forall c :: c in Insert(parsed).value <==> exists i :: 0 <= i < |parsed| && parsed[i].value.0 == c
    ensures forall i :: 0 <= i < |parsed| ==> Insert(parsed).value[parsed[i].value.0] == parsed[i].value.1
    decreases |parsed|
  {
    if parsed != [] {
      var n := |parsed| - 1;
      var init, last := parsed[..n], parsed[n];
      assert forall i :: 0 <= i < n ==> init[i] == parsed[i];
      assert Loadable(init);
      InsertLoads(init);
      assert Insert(parsed) == Success(Insert(init).value[last.value.0 := last.value.1]);
      assert parsed == init + [last];
      AddKeepsLines(init, last, Insert(init).value);
    }
  }

  /** Adding a new key to the table of the earlier lines gives the table of all the lines. */
  lemma AddKeepsLines(init: seq<Parsed>, last: Parsed, table: map<char, Entry>)
    requires Loadable(init) && last.Success? && Loadable(init + [last])
    requires forall c :: c in table <==> exists i :: 0 <= i < |init| && init[i].value.0 == c
    requires forall i :: 0 <= i < |init| ==> table[init[i].value.0] == init[i].value.1
    ensures var parsed, t := init + [last], table[last.value.0 := last.value.1];
      && (forall c :: c in t <==> exists i :: 0 <= i < |parsed| && parsed[i].value.0 == c)
      && (forall i :: 0 <= i < |parsed| ==> t[parsed[i].value.0] == parsed[i].value.1)
  {
    var parsed, n := init + [last], |init|;
    var k := last.value.0;
    var t := table[k := last.value.1];
    assert forall i :: 0 <= i < n ==> parsed[i] == init[i];
    assert parsed[n] == last;
    forall c | c in t
      ensures exists i :: 0 <= i < |parsed| && parsed[i].value.0 == c
    {
      if c != k {
        var i :| 0 <= i < n && init[i].value.0 == c;
        assert parsed[i].value.0 == c;
      } else {
        assert parsed[n].value.0 == c;
      }
    }
    forall c | exists i :: 0 <= i < |parsed| && parsed[i].value.0 == c
      ensures c in t
    {
      var i :| 0 <= i < |parsed| && parsed[i].value.0 == c;
      if i < n {
        assert init[i].value.0 == c;
      }
    }
    forall i | 0 <= i < |parsed|
      ensures t[parsed[i].value.0] == parsed[i].value.1
    {
      if i < n {
        assert parsed[i].value.0 != k;
      }
    }
  }

  lemma {:induction false} InsertFails(parsed: seq<Parsed>)
    requires !Loadable(parsed)
    ensures Insert(parsed).Failure?
    decreases |parsed|
  {
    var n := |parsed| - 1;
    var init, last := parsed[..n], parsed[n];
    assert forall i :: 0 <= i < n ==> init[i] == parsed[i];
    if !Loadable(init) {
      InsertFails(init);
    } else if last.Success? {
      InsertLoads(init);
      assert forall i :: 0 <= i < |parsed| ==> parsed[i].Success?;
      var i, j :| 0 <= i < j < |parsed| && parsed[i].value.0 == parsed[j].value.0;
      assert j == n;
      assert init[i].value.0 in Insert(init).value;
    }
  }

  /** `chars_data` that ends in '\n' never loads: the empty last line has no first character. */
  lemma TrailingNewlineRejected(text: string)
    requires text != [] && text[|text| - 1] == '\n'
    ensures TableOf(Split(text, '\n')).Failure?
  {
    var lines := Split(text, '\n');
    assert lines[|lines| - 1] == [];
    assert ParseLine(lines[|lines| - 1]) == Failure(IndexOutOfRange);
    TableOfSucceeds(lines);
  }

  /** Empty `chars_data` never loads either: its one line is empty. */
  lemma EmptyRejected()
    ensures TableOf(Split("", '\n')) == Failure(IndexOutOfRange)
  {
  }
}
