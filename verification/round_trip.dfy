/** Saving a map and loading the lines back gives the same map, with every
    derived colour made explicit and the name and path taken from the file
    path. The proof follows the file section by section: dimensions, the
    Null definition, the other definitions, the `begin` marker, the rows,
    and the trailing comment. */
module RoundTrip {
  import opened Basics
  import opened Text
  import opened TileDefinitions
  import opened Tiles
  import opened Maps
  import opened FileOps

  // ---------------------------------------------------------------------
  // Running a file in pieces
  // ---------------------------------------------------------------------

  /** Loading a + b is loading a, then loading b from where a left off. */
  lemma {:induction false} RunConcat(st: LoadState, a: seq<string>, b: seq<string>)
    requires StateInv(st)
    ensures Run(st, a).Failure? ==> Run(st, a + b) == Run(st, a)
    ensures Run(st, a).Success? ==> Run(st, a + b) == Run(Run(st, a).value, b)
    decreases |a|
  {
    if |a| > 0 {
      assert (a + b)[0] == a[0];
      assert (a + b)[1..] == a[1..] + b;
      var next := Step(st, a[0]);
      if next.Success? {
        RunConcat(next.value, a[1..], b);
      }
    } else {
      assert a + b == b;
    }
  }

  /** A blank line only counts. */
  lemma RunBlank(st: LoadState)
    requires StateInv(st)
    ensures Run(st, [""]) == Success(st.(lineNumber := st.lineNumber + 1))
  {
    assert AllWhiteSpace("");
    var next := st.(lineNumber := st.lineNumber + 1);
    assert Step(st, "") == Success(next);
    assert [""][1..] == [];
  }

  // ---------------------------------------------------------------------
  // The shape of the lines Save writes
  // ---------------------------------------------------------------------

  /** A decimal numeral is a token with no white space in it. */
  lemma NumeralIsToken(n: nat)
    ensures IsToken(NatToString(n))
    ensures forall i :: 0 <= i < |NatToString(n)| ==> !IsWhiteSpace(NatToString(n)[i])
  {
    var s := NatToString(n);
    assert forall i :: 0 <= i < |s| ==> IsDigit(s[i]);
  }

  /** Tokens joined by single spaces, with no white space at either end,
      survive trimming and split back into the same tokens. */
  lemma LineOfTokens(tokens: seq<string>)
    requires |tokens| > 0
    requires forall i :: 0 <= i < |tokens| ==> IsToken(tokens[i])
    requires |tokens[0]| > 0 && !IsWhiteSpace(tokens[0][0])
    requires var last := tokens[|tokens| - 1]; |last| > 0 && !IsWhiteSpace(last[|last| - 1])
    ensures Trim(Join(tokens)) == Join(tokens) && |Join(tokens)| > 0
    ensures Split(Trim(Join(tokens))) == tokens
  {
    JoinEnds(tokens);
    TrimTrimmed(Join(tokens));
    SplitJoin(tokens);
  }

  /** The same, with white space after the line. */
  lemma PaddedLineOfTokens(tokens: seq<string>, pad: string)
    requires |tokens| > 0
    requires forall i :: 0 <= i < |tokens| ==> IsToken(tokens[i])
    requires |tokens[0]| > 0 && !IsWhiteSpace(tokens[0][0])
    requires var last := tokens[|tokens| - 1]; |last| > 0 && !IsWhiteSpace(last[|last| - 1])
    requires AllWhiteSpace(pad)
    ensures |Join(tokens)| > 0 && Join(tokens)[0] == tokens[0][0]
    ensures Trim(Join(tokens) + pad) == Join(tokens)
    ensures Split(Join(tokens)) == tokens
  {
    var line := Join(tokens);
    JoinEnds(tokens);
    SplitJoin(tokens);
    assert "" + line + pad == line + pad;
    assert AllWhiteSpace("");
    TrimPadded("", line, pad);
  }

  /** Join of three tokens. */
  lemma JoinThree(a: string, b: string, c: string)
    ensures Join([a, b, c]) == a + " " + b + " " + c
  {
    assert [a, b, c][1..] == [b, c];
    JoinTwo(b, c);
    assert Join([a, b, c]) == a + " " + (b + " " + c);
  }

  /** Join of two tokens. */
  lemma JoinTwo(a: string, b: string)
    ensures Join([a, b]) == a + " " + b
  {
    assert [a, b][1..] == [b];
  }

  /** Running one more line first. */
  lemma RunStep(st: LoadState, line: string, rest: seq<string>)
    requires StateInv(st)
    ensures Step(st, line).Success? ==> Run(st, [line] + rest) == Run(Step(st, line).value, rest)
    ensures Step(st, line).Failure? ==> Run(st, [line] + rest) == Failure(Step(st, line).error)
  {
    assert ([line] + rest)[0] == line;
    assert ([line] + rest)[1..] == rest;
  }

  // ---------------------------------------------------------------------
  // Header section
  // ---------------------------------------------------------------------

  /** The loader in header mode with nothing pending. */
  function HeaderState(n: nat, w: u16, h: u16, built: Option<Map>): LoadState {
    LoadState(n, None, false, 0, w, h, 0, built)
  }

  /** A non-blank line in header mode. */
  lemma StepHeader(st: LoadState, line: string)
    requires StateInv(st) && !st.readingData
    requires |Trim(line)| > 0
    ensures Step(st, line) == HeaderLine(EnsureMap(st).(lineNumber := st.lineNumber + 1), Trim(line))
  {
  }

  /** A header-mode line on a state whose map needs no creating: Step is
      HeaderLine on the trimmed line with the line counted. */
  lemma StepHeaderTo(st: LoadState, line: string, r: Result<LoadState, LoadError>)
    requires StateInv(st) && !st.readingData && EnsureMap(st) == st
    requires |line| > 0 && Trim(line) == line
    requires HeaderLine(st.(lineNumber := st.lineNumber + 1), line) == r
    ensures Step(st, line) == r
  {
    StepHeader(st, line);
  }

  /** A non-blank line in body mode. */
  lemma StepBody(st: LoadState, line: string)
    requires StateInv(st) && st.readingData
    requires |Trim(line)| > 0
    ensures Step(st, line) == BodyLine(EnsureMap(st).(lineNumber := st.lineNumber + 1), Split(Trim(line)))
  {
  }

  /** A body-mode line on a state whose map exists: Step is BodyLine on
      the line's tokens with the line counted. */
  lemma StepBodyTo(st: LoadState, line: string, r: Result<LoadState, LoadError>)
    requires StateInv(st) && st.readingData && EnsureMap(st) == st
    requires |Trim(line)| > 0
    requires BodyLine(st.(lineNumber := st.lineNumber + 1), Split(Trim(line))) == r
    ensures Step(st, line) == r
  {
    StepBody(st, line);
  }

  /** A `<key> <number>` line in header mode, e.g. `x 40`. */
  lemma KeyNumberLine(key: string, k: nat)
    requires key == "x" || key == "y"
    ensures var line := key + " " + NatToString(k);
      && Trim(line) == line && |line| > 0 && line[0] == key[0]
      && Split(line) == [key, NatToString(k)]
  {
    var num := NatToString(k);
    var tokens := [key, num];
    JoinTwo(key, num);
    NumeralIsToken(k);
    assert IsToken(key) && !IsWhiteSpace(key[0]);
    assert !IsWhiteSpace(num[|num| - 1]);
    assert tokens[|tokens| - 1] == num;
    LineOfTokens(tokens);
    assert Join(tokens) == key + " " + num;
  }

  /** `x <w>` before the map exists sets the width. */
  lemma StepWidth(st: LoadState, w: u16)
    requires StateInv(st) && !st.readingData && st.built.None? && st.height == 0
    ensures Step(st, "x " + NatToString(w)) == Success(st.(lineNumber := st.lineNumber + 1, width := w, lastComment := None))
  {
    var line := "x " + NatToString(w);
    assert "x" + " " == "x ";
    KeyNumberLine("x", w);
    ParseU16NatToString(w);
    var cur := st.(lineNumber := st.lineNumber + 1);
    assert EnsureMap(st) == st;
    StepHeader(st, line);
    assert Split(line)[0] != "begin";
    assert line[0] == 'x' && Split(line)[1] == NatToString(w);
    assert ParseU16(Split(line)[1]) == Some(w);
    var r := HeaderLine(cur, line);
    assert r.Success? && r.value.width == w && r.value.height == st.height;
    assert r.value == cur.(width := w, lastComment := None);
  }

  /** `y <h>` before the map exists sets the height. */
  lemma StepHeight(st: LoadState, h: u16)
    requires StateInv(st) && !st.readingData && st.built.None? && st.height == 0
    ensures Step(st, "y " + NatToString(h)) == Success(st.(lineNumber := st.lineNumber + 1, height := h, lastComment := None))
  {
    var line := "y " + NatToString(h);
    assert "y" + " " == "y ";
    KeyNumberLine("y", h);
    ParseU16NatToString(h);
    var cur := st.(lineNumber := st.lineNumber + 1);
    assert EnsureMap(st) == st;
    StepHeader(st, line);
    assert Split(line)[0] != "begin";
    assert line[0] == 'y' && Split(line)[1] == NatToString(h);
    assert ParseU16(Split(line)[1]) == Some(h);
    var r := HeaderLine(cur, line);
    assert r.Success? && r.value.height == h && r.value.width == st.width;
    assert r.value == cur.(height := h, lastComment := None);
  }

  /** The first three lines set the dimensions; no map exists yet. */
  lemma RunDimensions(st: LoadState, w: u16, h: u16)
    requires st == Start && w > 0 && h > 0
    ensures Run(st, ["x " + NatToString(w), "y " + NatToString(h), ""]) == Success(HeaderState(3, w, h, None))
  {
    var lx := "x " + NatToString(w);
    var ly := "y " + NatToString(h);
    var s1 := HeaderState(1, w, 0, None);
    var s2 := HeaderState(2, w, h, None);
    StepWidth(st, w);
    assert st.(lineNumber := 1, width := w, lastComment := None) == s1;
    StepHeight(s1, h);
    assert s1.(lineNumber := 2, height := h, lastComment := None) == s2;
    RunBlank(s2);
    assert s2.(lineNumber := 3) == HeaderState(3, w, h, None);
    RunStep(s1, ly, [""]);
    assert [ly] + [""] == [ly, ""];
    RunStep(st, lx, [ly, ""]);
    assert [lx] + [ly, ""] == [lx, ly, ""];
  }

  // ---------------------------------------------------------------------
  // Comments and the colour annotation
  // ---------------------------------------------------------------------

  /** `# <text>` has no white space at either end, and its text after the
      `#` trims to `text`. */
  lemma CommentLineShape(text: string)
    requires |text| > 0 && IsTrimmed(text)
    ensures var line := "# " + text;
      && |line| > 1 && line[0] == '#' && IsTrimmed(line) && Trim(line[1..]) == text
  {
    var line := "# " + text;
    assert line[1..] == " " + text + "";
    assert AllWhiteSpace(" ") && AllWhiteSpace("");
    TrimPadded(" ", text, "");
    assert line[0] == '#' && line[|line| - 1] == text[|text| - 1];
  }

  /** A header-mode `# <text>` line keeps `text` as the pending comment; the
      map is created first if it can be. */
  lemma StepComment(st: LoadState, text: string)
    requires StateInv(st) && !st.readingData
    requires |text| > 0 && IsTrimmed(text)
    ensures Step(st, "# " + text) ==
      Success(EnsureMap(st).(lineNumber := st.lineNumber + 1, lastComment := Some(text)))
  {
    var line := "# " + text;
    CommentLineShape(text);
    TrimTrimmed(line);
    StepHeader(st, line);
    var cur := EnsureMap(st).(lineNumber := st.lineNumber + 1);
    assert cur.built.None? ==> cur.width == 0 || cur.height == 0;
    assert HeaderLine(cur, line) == Success(cur.(lastComment := Some(text)));
  }

  /** The 24-bit value of a colour, as the annotation's hex digits spell it. */
  function Pack(c: Rgb): nat {
    c.r * 0x1_0000 + c.g * 0x100 + c.b
  }

  /** The loader's unpacking recovers the colour the saver packed. */
  lemma UnpackPack(c: Rgb)
    ensures Pack(c) < 0x100_0000
    ensures UnpackColour(Pack(c)) == c
  {
    var p := Pack(c);
    var low := c.g * 0x100 + c.b;
    assert 0 <= low < 0x1_0000;
    assert p == c.r * 0x1_0000 + low;
    assert p / 0x1_0000 == c.r;
    assert p / 0x100 == c.r * 0x100 + c.g;
    assert (c.r * 0x100 + c.g) % 0x100 == c.g;
    assert p % 0x100 == c.b;
  }

  /** The six hex digits of a saved annotation. */
  function AnnotationDigitsOf(c: Rgb): string {
    Hex2(c.r) + Hex2(c.g) + Hex2(c.b)
  }

  lemma AnnotationDigitsValue(c: Rgb)
    ensures |AnnotationDigitsOf(c)| == 6
    ensures forall i :: 0 <= i < 6 ==> AnnotationDigitsOf(c)[i] != '\''
    ensures ParseHexU32(AnnotationDigitsOf(c)) == Some(Pack(c))
  {
    var rg := Hex2(c.r) + Hex2(c.g);
    HexValueAppendByte(Hex2(c.r), c.g);
    HexValueAppendByte(rg, c.b);
    assert HexValue(AnnotationDigitsOf(c)) == (c.r * 256 + c.g) * 256 + c.b;
    var s := AnnotationDigitsOf(c);
    assert (c.r * 256 + c.g) * 256 + c.b < 0x1_0000_0000;
    ParseHexU32Digits(s);
    forall i | 0 <= i < 6
      ensures s[i] != '\''
    {
      if i < 2 { assert s[i] == Hex2(c.r)[i]; }
      else if i < 4 { assert s[i] == Hex2(c.g)[i - 2]; }
      else { assert s[i] == Hex2(c.b)[i - 4]; }
    }
  }

  /** The comment Save writes for a named definition carries exactly one
      annotation, right after the name and a space, holding the colour. */
  lemma SavedCommentAnnotated(name: string, c: Rgb)
    ensures var text := name + " " + AnnotationOf(c);
      && ColourAnnotated(text, |name| + 1, Pack(c))
      && text[..|name|] == name
      && UnpackColour(Pack(c)) == c
  {
    var digits := AnnotationDigitsOf(c);
    AnnotationDigitsValue(c);
    UnpackPack(c);
    var text := name + " " + AnnotationOf(c);
    var p := |name| + 1;
    assert AnnotationOf(c) == "{c:'#" + digits + "'}";
    assert text == (name + " ") + "{c:'#" + digits + "'}";
    assert |text| == p + 13;
    assert text[p..p + 5] == "{c:'#";
    assert text[|text| - 2..] == "'}";
    assert text[p + 5..|text| - 2] == digits;
    assert forall i :: p + 5 <= i < |text| - 2 ==> text[i] == digits[i - p - 5];
    assert AnnotationAt(text, p);
    assert text[..|name|] == name;
  }

  // ---------------------------------------------------------------------
  // Definitions section
  // ---------------------------------------------------------------------

  /** A definition Save writes in a form Load reads back unchanged: an id
      the loader accepts and does not ignore, a name that survives the
      comment's trimming and stays on one line, and a path that is a single
      token. */
  predicate SavableDefinition(d: TileDefinition) {
    && 0 < d.id < 0x1_0000
    && d.name.Some? && |d.name.value| > 0 && !IsWhiteSpace(d.name.value[0])
    && (forall i :: 0 <= i < |d.name.value| ==> d.name.value[i] != '\n' && d.name.value[i] != '\r')
    && d.path.Some? && |d.path.value| > 0
    && (forall i :: 0 <= i < |d.path.value| ==> !IsWhiteSpace(d.path.value[i]))
  }

  /** The loader in header mode once map `m` exists, with `comment`
      pending. */
  function MapState(n: nat, comment: Option<string>, m: Map): LoadState {
    LoadState(n, comment, false, 0, m.width, m.height, 0, Some(m))
  }

  /** A map the loader may hold. */
  predicate Holdable(m: Map) {
    Valid(m) && m.width > 0 && m.height > 0
  }

  /** `t <id> <path>` followed by white space trims to the three tokens. */
  lemma DefinitionLineShape(id: nat, path: string, pad: string)
    requires |path| > 0 && forall i :: 0 <= i < |path| ==> !IsWhiteSpace(path[i])
    requires AllWhiteSpace(pad)
    ensures var line := "t " + NatToString(id) + " " + path;
      && Trim(line + pad) == line && |line| > 0 && line[0] == 't'
      && Split(line) == ["t", NatToString(id), path]
  {
    var num := NatToString(id);
    var tokens := ["t", num, path];
    assert Join(tokens) == "t " + num + " " + path by {
      assert "t" + " " == "t ";
      JoinThree("t", num, path);
    }
    NumeralIsToken(id);
    assert IsToken(path) && tokens[|tokens| - 1] == path;
    PaddedLineOfTokens(tokens, pad);
  }

  /** HeaderLine on a `t` line that TileLine accepts. */
  lemma HeaderTileLine(cur: LoadState, line: string)
    requires StateInv(cur) && !cur.readingData && cur.built.Some?
    requires |line| > 0 && IsTrimmed(line) && line[0] == 't'
    ensures TileLine(cur, Split(line)).Success? ==>
      HeaderLine(cur, line) == Success(EndHeaderLine(TileLine(cur, Split(line)).value, Split(line)))
  {
  }

  /** HeaderLine on `t 0 <path>` only clears the pending comment. */
  lemma HeaderIgnoredDefinition(cur: LoadState, path: string)
    requires StateInv(cur) && !cur.readingData && cur.built.Some?
    requires |path| > 0 && forall i :: 0 <= i < |path| ==> !IsWhiteSpace(path[i])
    ensures var line := "t " + NatToString(0) + " " + path;
      |line| > 0 && IsTrimmed(line) && HeaderLine(cur, line) == Success(cur.(lastComment := None))
  {
    var line := "t " + NatToString(0) + " " + path;
    var tokens := Split(line);
    assert |line| > 0 && IsTrimmed(line) && line[0] == 't' && tokens == ["t", NatToString(0), path] by {
      assert AllWhiteSpace("");
      DefinitionLineShape(0, path, "");
      assert line + "" == line;
    }
    assert TileLine(cur, tokens) == Success(cur) by {
      ParseU16NatToString(0);
      TileLineSpec(cur, tokens);
    }
    HeaderTileLine(cur, line);
    assert EndHeaderLine(cur, tokens) == cur.(lastComment := None);
  }

  /** A `t 0 <path>` line is ignored apart from clearing the pending
      comment: Null can never be redefined. */
  lemma StepIgnoredDefinition(st: LoadState, path: string, pad: string)
    requires StateInv(st) && !st.readingData && st.built.Some?
    requires |path| > 0 && forall i :: 0 <= i < |path| ==> !IsWhiteSpace(path[i])
    requires AllWhiteSpace(pad)
    ensures Step(st, "t " + NatToString(0) + " " + path + pad) ==
      Success(st.(lineNumber := st.lineNumber + 1, lastComment := None))
  {
    var line := "t " + NatToString(0) + " " + path;
    DefinitionLineShape(0, path, pad);
    StepHeader(st, line + pad);
    var cur := st.(lineNumber := st.lineNumber + 1);
    assert EnsureMap(st) == st;
    HeaderIgnoredDefinition(cur, path);
  }

  /** Null's path is one token followed by a space. */
  lemma NullPathShape(path: string, pad: string)
    requires path == "data/tiles/null" && pad == " "
    ensures |path| > 0 && forall i :: 0 <= i < |path| ==> !IsWhiteSpace(path[i])
    ensures AllWhiteSpace(pad) && path + pad == NullPath
  {
  }

  /** A definition without a path is saved with Null's path, and the line
      reads back with that path's trailing space trimmed off: the path
      loaded is not Null's. */
  lemma UnsetPathReadBack(d: TileDefinition)
    requires d.id >= 0 && (d.path.None? || d.path.value == "")
    ensures Split(Trim(DefinitionLine(d))) == ["t", NatToString(d.id), "data/tiles/null"]
    ensures "data/tiles/null" != NullPath
  {
    var path := "data/tiles/null";
    var pad := " ";
    NullPathShape(path, pad);
    assert DefinitionLine(d) == "t " + NatToString(d.id) + " " + path + pad;
    DefinitionLineShape(d.id, path, pad);
  }

  /** Null's comment line: the map is created, and the comment pends. */
  lemma StepNullComment(st: LoadState, w: u16, h: u16, d: TileDefinition, c: Rgb)
    requires w > 0 && h > 0 && st == HeaderState(3, w, h, None) && d == Null && c == Black
    ensures Step(st, CommentLine(d.name, c)) ==
      Success(LoadState(4, Some(CommentText(d.name, c)), false, 0, w, h, 0, Some(NewMap(w, h))))
  {
    var text := CommentText(d.name, c);
    assert text == "unnamed" + " " + AnnotationOf(c);
    assert |text| > 0 && text[0] == 'u' && text[|text| - 1] == '}';
    StepComment(st, text);
  }

  /** Null's `t` line is ignored. */
  lemma StepNullDefinition(st: LoadState, w: u16, h: u16, d: TileDefinition, text: string)
    requires w > 0 && h > 0 && d == Null
    requires st == LoadState(4, Some(text), false, 0, w, h, 0, Some(NewMap(w, h)))
    ensures Step(st, DefinitionLine(d)) == Success(MapState(5, None, NewMap(w, h)))
  {
    var path := "data/tiles/null";
    var pad := " ";
    NullPathShape(path, pad);
    assert IntToString(d.id) == NatToString(0);
    assert DefinitionLine(d) == "t " + NatToString(0) + " " + path + pad;
    StepIgnoredDefinition(st, path, pad);
  }

  /** The Null definition's two lines: the first creates the map, and the
      `t 0` line is ignored. */
  lemma RunNullPair(st: LoadState, w: u16, h: u16, d: TileDefinition, c: Rgb, hash: string -> int)
    requires w > 0 && h > 0 && st == HeaderState(3, w, h, None) && d == Null && c == Black
    ensures GetColor(d, hash) == Some(ColorRead(c, d))
    ensures Run(st, [CommentLine(d.name, c), DefinitionLine(d)]) == Success(MapState(5, None, NewMap(w, h)))
  {
    var comment := CommentLine(d.name, c);
    var line := DefinitionLine(d);
    var st1 := LoadState(4, Some(CommentText(d.name, c)), false, 0, w, h, 0, Some(NewMap(w, h)));
    StepNullComment(st, w, h, d, c);
    StepNullDefinition(st1, w, h, d, CommentText(d.name, c));
    RunStep(st, comment, [line]);
    RunStep(st1, line, []);
    assert [comment] + [line] == [comment, line];
    assert [line] + [] == [line];
  }

  /** The comment Save writes before a savable definition's `t` line. */
  lemma SavedCommentText(d: TileDefinition, c: Rgb)
    requires SavableDefinition(d)
    ensures CommentText(d.name, c) == d.name.value + " " + AnnotationOf(c)
    ensures var text := CommentText(d.name, c); |text| > 0 && IsTrimmed(text)
  {
    var text := CommentText(d.name, c);
    assert text[0] == d.name.value[0];
    assert text[|text| - 1] == '}';
  }

  /** The loader rebuilds a savable definition from its saved comment, with
      the colour the comment carries. */
  lemma NewDefinitionOfSaved(d: TileDefinition, c: Rgb, unnamedCount: u16)
    requires SavableDefinition(d)
    ensures NewDefinition(d.id, d.path.value, Some(CommentText(d.name, c)), unnamedCount) ==
      Some(Named(d.(color := Some(c)), unnamedCount))
  {
    var name := d.name.value;
    SavedCommentText(d, c);
    SavedCommentAnnotated(name, c);
    var text := CommentText(d.name, c);
    assert ColourAnnotated(text, |name| + 1, Pack(c));
    var r := NewDefinition(d.id, d.path.value, Some(text), unnamedCount);
    assert r.Some? && r.value.definition.name == Some(name) && r.value.definition.color == Some(c);
  }

  /** A savable definition's comment line. */
  lemma StepDefinitionComment(n: nat, m: Map, d: TileDefinition, c: Rgb)
    requires Holdable(m) && SavableDefinition(d)
    ensures Step(MapState(n, None, m), CommentLine(d.name, c)) ==
      Success(MapState(n + 1, Some(CommentText(d.name, c)), m))
  {
    var st := MapState(n, None, m);
    var text := CommentText(d.name, c);
    assert CommentLine(d.name, c) == "# " + text;
    assert EnsureMap(st) == st;
    var next := MapState(n + 1, Some(text), m);
    assert EnsureMap(st).(lineNumber := st.lineNumber + 1, lastComment := Some(text)) == next;
    assert Step(st, "# " + text) == Success(next) by {
      SavedCommentText(d, c);
      StepComment(st, text);
    }
  }

  /** Adding a fresh definition keeps a map holdable. */
  lemma AddKeepsHoldable(m: Map, def: TileDefinition)
    requires Holdable(m) && def.id !in Ids(m.catalog)
    ensures Holdable(m.(catalog := m.catalog + [def]))
    ensures AddDefinition(m, def) == m.(catalog := m.catalog + [def])
  {
    var r := AddDefinition(m, def);
    assert Valid(r);
  }

  /** The `t` tokens of a savable definition make TileLine add it, coloured
      as its comment says. */
  lemma TileLineOfSaved(cur: LoadState, m: Map, d: TileDefinition, c: Rgb)
    requires Holdable(m) && SavableDefinition(d) && d.id !in Ids(m.catalog)
    requires cur == MapState(cur.lineNumber, Some(CommentText(d.name, c)), m)
    ensures TileLine(cur, ["t", NatToString(d.id), d.path.value]) ==
      Success(cur.(built := Some(m.(catalog := m.catalog + [d.(color := Some(c))]))))
  {
    var tokens := ["t", NatToString(d.id), d.path.value];
    ParseU16NatToString(d.id);
    assert ParseU16(tokens[1]) == Some(d.id);
    NewDefinitionOfSaved(d, c, 0);
    AddKeepsHoldable(m, d.(color := Some(c)));
    assert GetTileDefinition(m, d.id).None?;
  }

  /** HeaderLine on a savable definition's `t` line. */
  lemma HeaderDefinitionLine(cur: LoadState, m: Map, d: TileDefinition, c: Rgb)
    requires Holdable(m) && SavableDefinition(d) && d.id !in Ids(m.catalog)
    requires cur == MapState(cur.lineNumber, Some(CommentText(d.name, c)), m)
    ensures var line := "t " + NatToString(d.id) + " " + d.path.value;
      && |line| > 0 && IsTrimmed(line) && Trim(line) == line && DefinitionLine(d) == line
      && HeaderLine(cur, line) ==
           Success(MapState(cur.lineNumber, None, m.(catalog := m.catalog + [d.(color := Some(c))])))
  {
    var path := d.path.value;
    var line := "t " + NatToString(d.id) + " " + path;
    var tokens := ["t", NatToString(d.id), path];
    assert |line| > 0 && IsTrimmed(line) && Trim(line) == line && line[0] == 't' && Split(line) == tokens by {
      assert AllWhiteSpace("");
      DefinitionLineShape(d.id, path, "");
      assert line + "" == line;
    }
    assert DefinitionLine(d) == line by {
      assert IntToString(d.id) == NatToString(d.id);
    }
    var m' := m.(catalog := m.catalog + [d.(color := Some(c))]);
    assert Holdable(m') by { AddKeepsHoldable(m, d.(color := Some(c))); }
    var added := cur.(built := Some(m'));
    assert TileLine(cur, tokens) == Success(added) by {
      TileLineOfSaved(cur, m, d, c);
    }
    assert EndHeaderLine(added, tokens) == MapState(cur.lineNumber, None, m');
    assert HeaderLine(cur, line) == Success(EndHeaderLine(added, tokens)) by {
      HeaderTileLine(cur, line);
    }
  }

  /** A savable definition's `t` line adds it, coloured, to the catalog. */
  lemma StepDefinitionLine(n: nat, m: Map, d: TileDefinition, c: Rgb)
    requires Holdable(m) && SavableDefinition(d) && d.id !in Ids(m.catalog)
    ensures Holdable(m.(catalog := m.catalog + [d.(color := Some(c))]))
    ensures Step(MapState(n, Some(CommentText(d.name, c)), m), DefinitionLine(d)) ==
      Success(MapState(n + 1, None, m.(catalog := m.catalog + [d.(color := Some(c))])))
  {
    var st := MapState(n, Some(CommentText(d.name, c)), m);
    var m' := m.(catalog := m.catalog + [d.(color := Some(c))]);
    assert Holdable(m') by { AddKeepsHoldable(m, d.(color := Some(c))); }
    var cur := st.(lineNumber := n + 1);
    var line := "t " + NatToString(d.id) + " " + d.path.value;
    var r := Success(MapState(n + 1, None, m'));
    assert DefinitionLine(d) == line && Trim(line) == line && |line| > 0 && HeaderLine(cur, line) == r by {
      HeaderDefinitionLine(cur, m, d, c);
    }
    assert EnsureMap(st) == st;
    assert st.(lineNumber := st.lineNumber + 1) == cur;
    assert HeaderLine(st.(lineNumber := st.lineNumber + 1), line) == r;
    StepHeaderTo(st, line, r);
  }

  /** The colour Save writes for a savable definition is the one Resolve
      caches. */
  lemma SavedColour(d: TileDefinition, hash: string -> int)
    requires SavableDefinition(d)
    ensures GetColor(d, hash).Some?
    ensures Resolve(d, hash) == d.(color := Some(GetColor(d, hash).value.colour))
  {
  }

  /** A savable definition's two lines add it, resolved, to the catalog. */
  lemma RunDefinitionPair(n: nat, m: Map, d: TileDefinition, hash: string -> int)
    requires Holdable(m) && SavableDefinition(d) && d.id !in Ids(m.catalog)
    ensures GetColor(d, hash).Some?
    ensures Holdable(m.(catalog := m.catalog + [Resolve(d, hash)]))
    ensures var c := GetColor(d, hash).value.colour;
      Run(MapState(n, None, m), [CommentLine(d.name, c), DefinitionLine(d)]) ==
        Success(MapState(n + 2, None, m.(catalog := m.catalog + [Resolve(d, hash)])))
  {
    SavedColour(d, hash);
    var c := GetColor(d, hash).value.colour;
    var comment := CommentLine(d.name, c);
    var line := DefinitionLine(d);
    var st := MapState(n, None, m);
    var st1 := MapState(n + 1, Some(CommentText(d.name, c)), m);
    StepDefinitionComment(n, m, d, c);
    StepDefinitionLine(n + 1, m, d, c);
    RunStep(st, comment, [line]);
    RunStep(st1, line, []);
    assert [comment] + [line] == [comment, line];
    assert [line] + [] == [line];
  }

  /** Loading a, then b, when both succeed. */
  lemma RunThen(st: LoadState, a: seq<string>, b: seq<string>, mid: LoadState, end: LoadState)
    requires StateInv(st) && StateInv(mid)
    requires Run(st, a) == Success(mid) && Run(mid, b) == Success(end)
    ensures Run(st, a + b) == Success(end)
  {
    RunConcat(st, a, b);
  }

  /** DefinitionLines of a non-empty list: the first definition's two lines,
      then the rest. */
  lemma DefinitionLinesCons(ds: seq<TileDefinition>, hash: string -> int)
    requires |ds| > 0 && GetColor(ds[0], hash).Some? && DefinitionLines(ds[1..], hash).Success?
    ensures var c := GetColor(ds[0], hash).value.colour;
      DefinitionLines(ds, hash) ==
        Success([CommentLine(ds[0].name, c), DefinitionLine(ds[0])] + DefinitionLines(ds[1..], hash).value)
  {
  }

  /** Resolving a non-empty list: the first definition, then the rest. */
  lemma ResolveAllCons(ds: seq<TileDefinition>, hash: string -> int)
    requires |ds| > 0
    ensures ResolveAll(ds, hash) == [Resolve(ds[0], hash)] + ResolveAll(ds[1..], hash)
  {
    var a := ResolveAll(ds, hash);
    var b := [Resolve(ds[0], hash)] + ResolveAll(ds[1..], hash);
    forall i | 0 <= i < |ds|
      ensures a[i] == b[i]
    {
      if i > 0 {
        assert b[i] == ResolveAll(ds[1..], hash)[i - 1];
      }
    }
  }

  /** Adding one resolved definition, then the resolved rest, is adding the
      resolved list. */
  lemma CatalogCons(catalog: seq<TileDefinition>, ds: seq<TileDefinition>, hash: string -> int)
    requires |ds| > 0
    ensures catalog + [Resolve(ds[0], hash)] + ResolveAll(ds[1..], hash) == catalog + ResolveAll(ds, hash)
  {
    ResolveAllCons(ds, hash);
  }

  /** What RunDefinitions requires of the definitions still to be read. */
  predicate FreshSavable(m: Map, ds: seq<TileDefinition>) {
    && (forall k :: 0 <= k < |ds| ==> SavableDefinition(ds[k]) && ds[k].id !in Ids(m.catalog))
    && UniqueIds(ds)
  }

  /** Once the first definition is added, the rest are still fresh. */
  lemma FreshSavableTail(m: Map, ds: seq<TileDefinition>, hash: string -> int)
    requires |ds| > 0 && FreshSavable(m, ds)
    ensures FreshSavable(m.(catalog := m.catalog + [Resolve(ds[0], hash)]), ds[1..])
  {
    var m1 := m.(catalog := m.catalog + [Resolve(ds[0], hash)]);
    assert Ids(m1.catalog) == Ids(m.catalog) + [ds[0].id];
    var tail := ds[1..];
    forall k | 0 <= k < |tail|
      ensures SavableDefinition(tail[k]) && tail[k].id !in Ids(m1.catalog)
    {
      assert tail[k] == ds[k + 1];
    }
  }

  /** The definitions after Null loaded from map `m`: their lines add them
      all, resolved and in order, to the catalog. */
  predicate LoadsDefinitions(n: nat, m: Map, ds: seq<TileDefinition>, hash: string -> int)
    requires Holdable(m)
  {
    var final := m.(catalog := m.catalog + ResolveAll(ds, hash));
    && DefinitionLines(ds, hash).Success?
    && Holdable(final)
    && Run(MapState(n, None, m), DefinitionLines(ds, hash).value) == Success(MapState(n + 2 * |ds|, None, final))
  }

  /** The first definition's two lines, then the rest's. */
  lemma LoadsDefinitionsCons(n: nat, m: Map, ds: seq<TileDefinition>, hash: string -> int)
    requires Holdable(m) && |ds| > 0 && FreshSavable(m, ds)
    requires Holdable(m.(catalog := m.catalog + [Resolve(ds[0], hash)]))
    requires LoadsDefinitions(n + 2, m.(catalog := m.catalog + [Resolve(ds[0], hash)]), ds[1..], hash)
    ensures LoadsDefinitions(n, m, ds, hash)
  {
    var d := ds[0];
    var c := GetColor(d, hash).value.colour by { SavedColour(d, hash); }
    var pair := [CommentLine(d.name, c), DefinitionLine(d)];
    var m1 := m.(catalog := m.catalog + [Resolve(d, hash)]);
    var st := MapState(n, None, m);
    var st2 := MapState(n + 2, None, m1);
    assert Run(st, pair) == Success(st2) by {
      RunDefinitionPair(n, m, d, hash);
    }
    var final := m1.(catalog := m1.catalog + ResolveAll(ds[1..], hash));
    var st3 := MapState(n + 2 + 2 * |ds[1..]|, None, final);
    var rest := DefinitionLines(ds[1..], hash).value;
    assert Holdable(final) && Run(st2, rest).Success? && Run(st2, rest).value == st3;
    assert DefinitionLines(ds, hash).value == pair + rest by {
      DefinitionLinesCons(ds, hash);
    }
    assert Run(st, pair + rest) == Success(st3) by {
      RunThen(st, pair, rest, st2, st3);
    }
    assert m1.catalog + ResolveAll(ds[1..], hash) == m.catalog + ResolveAll(ds, hash) by {
      CatalogCons(m.catalog, ds, hash);
    }
    assert final == m.(catalog := m.catalog + ResolveAll(ds, hash));
    assert st3 == MapState(n + 2 * |ds|, None, final);
  }

  /** The lines of the definitions after Null add them all, resolved and in
      order, to the catalog. */
  lemma {:induction false} RunDefinitions(n: nat, m: Map, ds: seq<TileDefinition>, hash: string -> int)
    requires Holdable(m) && FreshSavable(m, ds)
    ensures LoadsDefinitions(n, m, ds, hash)
    decreases |ds|
  {
    if |ds| == 0 {
      assert m.catalog + ResolveAll(ds, hash) == m.catalog;
      assert m.(catalog := m.catalog) == m;
    } else {
      var m1 := m.(catalog := m.catalog + [Resolve(ds[0], hash)]);
      RunDefinitionPair(n, m, ds[0], hash);
      FreshSavableTail(m, ds, hash);
      RunDefinitions(n + 2, m1, ds[1..], hash);
      LoadsDefinitionsCons(n, m, ds, hash);
    }
  }

  // ---------------------------------------------------------------------
  // The `begin` marker
  // ---------------------------------------------------------------------

  /** The loader in body mode about to read row i of map `m` (in header
      mode again once every row has been read). */
  function RowsState(n: nat, i: nat, m: Map): LoadState {
    LoadState(n, None, i < m.height, i, m.width, m.height, 0, Some(m))
  }

  /** HeaderLine on `begin`: body mode, nothing else changes. */
  lemma HeaderBegin(cur: LoadState, line: string)
    requires StateInv(cur) && !cur.readingData && cur.built.Some?
    requires line == "begin"
    ensures |line| > 0 && Trim(line) == line
    ensures HeaderLine(cur, line) == Success(cur.(readingData := true, lastComment := None))
  {
    assert Join([line]) == line;
    assert IsToken(line);
    LineOfTokens([line]);
    assert Split(line) == [line];
    assert HeaderLine(cur, line) == Success(EndHeaderLine(cur, Split(line)));
  }

  /** A blank line and `begin` switch to body mode at row 0. */
  lemma RunBegin(n: nat, m: Map, begin: string)
    requires Holdable(m) && begin == "begin"
    ensures Run(MapState(n, None, m), ["", begin]) == Success(RowsState(n + 2, 0, m))
  {
    var st := MapState(n, None, m);
    var st1 := st.(lineNumber := n + 1);
    var r := Success(RowsState(n + 2, 0, m));
    assert Run(st1, [begin]) == r by {
      HeaderBegin(st1.(lineNumber := n + 2), begin);
      assert st1.(lineNumber := n + 2).(readingData := true, lastComment := None) == RowsState(n + 2, 0, m);
      assert EnsureMap(st1) == st1;
      StepHeaderTo(st1, begin, r);
      RunStep(st1, begin, []);
      assert [begin] + [] == [begin];
    }
    assert Run(st, [""]) == Success(st1) by {
      RunBlank(st);
    }
    RunThen(st, [""], [begin], st1, RowsState(n + 2, 0, m));
    assert [""] + [begin] == ["", begin];
  }

  // ---------------------------------------------------------------------
  // Rows
  // ---------------------------------------------------------------------

  /** Ids a row may hold: ids of `catalog` that fit a ushort. */
  predicate RowIds(row: seq<TileDefinition>, catalog: seq<TileDefinition>) {
    forall j :: 0 <= j < |row| ==> 0 <= row[j].id < 0x1_0000 && row[j].id in Ids(catalog)
  }

  /** A saved row needs no trimming and splits into the numerals of its
      ids, each of which parses back to the id. */
  lemma RowLineShape(row: seq<TileDefinition>)
    requires |row| > 0
    requires forall j :: 0 <= j < |row| ==> 0 <= row[j].id < 0x1_0000
    ensures |Trim(RowLine(row))| > 0
    ensures Split(Trim(RowLine(row))) == RowTokens(row)
    ensures forall j :: 0 <= j < |row| ==> ParseU16(RowTokens(row)[j]) == Some(row[j].id)
  {
    var tokens := RowTokens(row);
    forall j | 0 <= j < |row|
      ensures IsToken(tokens[j]) && !IsWhiteSpace(tokens[j][0])
      ensures !IsWhiteSpace(tokens[j][|tokens[j]| - 1])
      ensures ParseU16(tokens[j]) == Some(row[j].id)
    {
      assert tokens[j] == NatToString(row[j].id);
      NumeralIsToken(row[j].id);
      ParseU16NatToString(row[j].id as u16);
    }
    LineOfTokens(tokens);
  }

  /** BodyLine on a line whose first `width` tokens parse: the next row is
      replaced by their ids. */
  lemma BodyLineParsed(st: LoadState, tokens: seq<string>, ids: seq<int>)
    requires StateInv(st) && st.readingData && st.built.Some?
    requires st.dataRow < st.built.value.height && |tokens| >= st.built.value.width
    requires ParseRow(tokens, st.built.value.width, st.built.value.catalog) == Success(ids)
    ensures var m := st.built.value;
      && BodyLine(st, tokens).Success?
      && BodyLine(st, tokens).value == st.(built := Some(m.(grid := m.grid[st.dataRow := ids])),
           dataRow := st.dataRow + 1, readingData := st.dataRow + 1 != m.height)
  {
  }

  /** BodyLine on a saved row: the row is replaced by the row's ids. */
  lemma BodyRow(n: nat, i: nat, m: Map, row: seq<TileDefinition>)
    requires Holdable(m) && i < m.height && |row| == m.width && RowIds(row, m.catalog)
    ensures Holdable(m.(grid := m.grid[i := Ids(row)]))
    ensures |Trim(RowLine(row))| > 0
    ensures BodyLine(RowsState(n, i, m), Split(Trim(RowLine(row)))) ==
      Success(RowsState(n, i + 1, m.(grid := m.grid[i := Ids(row)])))
  {
    var cur := RowsState(n, i, m);
    var tokens := Split(Trim(RowLine(row)));
    var target := m.grid[i := Ids(row)];
    ReplaceRow(m, i, row);
    assert |Trim(RowLine(row))| > 0 && |tokens| == m.width
      && forall j :: 0 <= j < m.width ==> CellToken(tokens[j], m.catalog) && ParseU16(tokens[j]).value == row[j].id by {
      RowLineShape(row);
    }
    assert ParseRow(tokens, m.width, m.catalog).Success?;
    assert ParseRow(tokens, m.width, m.catalog).value == Ids(row) by {
      var ids := ParseRow(tokens, m.width, m.catalog).value;
      assert |ids| == |Ids(row)| && forall j :: 0 <= j < |ids| ==> ids[j] == Ids(row)[j];
    }
    assert BodyLine(cur, tokens).Success? && BodyLine(cur, tokens).value == RowsState(n, i + 1, m.(grid := target)) by {
      BodyLineParsed(cur, tokens, Ids(row));
      assert cur.(built := Some(m.(grid := target)), dataRow := i + 1, readingData := i + 1 != m.height)
        == RowsState(n, i + 1, m.(grid := target));
    }
  }

  /** Step in body mode is BodyLine on the line's tokens. */
  lemma StepRowsState(n: nat, i: nat, m: Map, line: string, r: Result<LoadState, LoadError>)
    requires Holdable(m) && i < m.height
    requires |Trim(line)| > 0 && BodyLine(RowsState(n + 1, i, m), Split(Trim(line))) == r
    ensures Step(RowsState(n, i, m), line) == r
  {
    var st := RowsState(n, i, m);
    assert EnsureMap(st) == st;
    assert st.(lineNumber := st.lineNumber + 1) == RowsState(n + 1, i, m);
    StepBodyTo(st, line, r);
  }

  /** Step on a saved row. */
  lemma StepRow(n: nat, i: nat, m: Map, row: seq<TileDefinition>)
    requires Holdable(m) && i < m.height && |row| == m.width && RowIds(row, m.catalog)
    ensures Holdable(m.(grid := m.grid[i := Ids(row)]))
    ensures Step(RowsState(n, i, m), RowLine(row)) ==
      Success(RowsState(n + 1, i + 1, m.(grid := m.grid[i := Ids(row)])))
  {
    BodyRow(n + 1, i, m, row);
    StepRowsState(n, i, m, RowLine(row), Success(RowsState(n + 1, i + 1, m.(grid := m.grid[i := Ids(row)]))));
  }

  /** A saved row as a file of one line. */
  lemma RunRow(n: nat, i: nat, m: Map, row: seq<TileDefinition>)
    requires Holdable(m) && i < m.height && |row| == m.width && RowIds(row, m.catalog)
    ensures Holdable(m.(grid := m.grid[i := Ids(row)]))
    ensures Run(RowsState(n, i, m), [RowLine(row)]) ==
      Success(RowsState(n + 1, i + 1, m.(grid := m.grid[i := Ids(row)])))
  {
    StepRow(n, i, m, row);
    RunStep(RowsState(n, i, m), RowLine(row), []);
    assert [RowLine(row)] + [] == [RowLine(row)];
  }

  /** The rows still to be read, from row i on, as a saved map's rows. */
  predicate RowsAhead(i: nat, m: Map, target: Grid, rows: seq<seq<TileDefinition>>)
    requires Holdable(m)
  {
    && i <= m.height && |target| == m.height && |rows| == m.height - i
    && (forall k :: 0 <= k < i ==> m.grid[k] == target[k])
    && forall k :: 0 <= k < |rows| ==>
         |rows[k]| == m.width && RowIds(rows[k], m.catalog) && Ids(rows[k]) == target[i + k]
  }

  /** Reading the remaining rows fills in `target`. */
  predicate LoadsRows(n: nat, i: nat, m: Map, target: Grid, rows: seq<seq<TileDefinition>>)
    requires Holdable(m) && i <= m.height
  {
    && Holdable(m.(grid := target))
    && Run(RowsState(n, i, m), RowLines(rows)) == Success(RowsState(n + |rows|, m.height, m.(grid := target)))
  }

  /** Replacing a row by the ids of a saved row keeps the map holdable. */
  lemma ReplaceRow(m: Map, i: nat, row: seq<TileDefinition>)
    requires Holdable(m) && i < m.height && |row| == m.width && RowIds(row, m.catalog)
    ensures Holdable(m.(grid := m.grid[i := Ids(row)]))
  {
    var g := m.grid[i := Ids(row)];
    assert forall j :: 0 <= j < |row| ==> Ids(row)[j] in Ids(m.catalog);
    assert forall k, j :: 0 <= k < |g| && 0 <= j < |g[k]| ==> g[k][j] in Ids(m.catalog);
  }

  /** After reading row i, the rows from i + 1 on are still ahead. */
  lemma RowsAheadTail(i: nat, m: Map, target: Grid, rows: seq<seq<TileDefinition>>)
    requires Holdable(m) && RowsAhead(i, m, target, rows) && |rows| > 0
    ensures i < m.height && |rows[0]| == m.width && RowIds(rows[0], m.catalog)
    ensures Holdable(m.(grid := m.grid[i := Ids(rows[0])]))
    ensures RowsAhead(i + 1, m.(grid := m.grid[i := Ids(rows[0])]), target, rows[1..])
  {
    var m1 := m.(grid := m.grid[i := Ids(rows[0])]);
    ReplaceRow(m, i, rows[0]);
    assert Ids(m1.catalog) == Ids(m.catalog);
    forall k | 0 <= k < |rows[1..]|
      ensures |rows[1..][k]| == m.width && RowIds(rows[1..][k], m.catalog) && Ids(rows[1..][k]) == target[i + 1 + k]
    {
      assert rows[1..][k] == rows[k + 1];
    }
  }

  lemma RowLinesCons(rows: seq<seq<TileDefinition>>)
    requires |rows| > 0
    ensures RowLines(rows) == [RowLine(rows[0])] + RowLines(rows[1..])
  {
    assert |RowLines(rows)| == 1 + |RowLines(rows[1..])|;
  }

  /** The first row's line, then the rest's. */
  lemma LoadsRowsCons(n: nat, i: nat, m: Map, target: Grid, rows: seq<seq<TileDefinition>>)
    requires Holdable(m) && i < m.height && |rows| > 0
    requires |rows[0]| == m.width && RowIds(rows[0], m.catalog)
    requires Holdable(m.(grid := m.grid[i := Ids(rows[0])]))
    requires LoadsRows(n + 1, i + 1, m.(grid := m.grid[i := Ids(rows[0])]), target, rows[1..])
    ensures LoadsRows(n, i, m, target, rows)
  {
    var m1 := m.(grid := m.grid[i := Ids(rows[0])]);
    var st := RowsState(n, i, m);
    var st1 := RowsState(n + 1, i + 1, m1);
    var final := RowsState(n + |rows|, m.height, m.(grid := target));
    var rest := RowLines(rows[1..]);
    assert m1.(grid := target) == m.(grid := target);
    assert Run(st1, rest).Success? && Run(st1, rest).value == final by {
      assert RowsState(n + 1 + |rows[1..]|, m1.height, m1.(grid := target)) == final;
    }
    assert Run(st, [RowLine(rows[0])]) == Success(st1) by {
      RunRow(n, i, m, rows[0]);
    }
    RowLinesCons(rows);
    RunThen(st, [RowLine(rows[0])], rest, st1, final);
  }

  /** Reading the rows from row i on fills the grid in with `target`. */
  lemma {:induction false} RunRows(n: nat, i: nat, m: Map, target: Grid, rows: seq<seq<TileDefinition>>)
    requires Holdable(m) && RowsAhead(i, m, target, rows)
    ensures i <= m.height && LoadsRows(n, i, m, target, rows)
    decreases |rows|
  {
    if |rows| == 0 {
      assert m.grid == target;
      assert m.(grid := target) == m;
      assert RowLines(rows) == [];
    } else {
      var m1 := m.(grid := m.grid[i := Ids(rows[0])]);
      RowsAheadTail(i, m, target, rows);
      RunRows(n + 1, i + 1, m1, target, rows[1..]);
      LoadsRowsCons(n, i, m, target, rows);
    }
  }

  // ---------------------------------------------------------------------
  // The closing comment
  // ---------------------------------------------------------------------

  /** The closing comment Save writes, as a `# <text>` line. */
  lemma GeneratedCommentShape(text: string)
    requires text == "Generated by CrapEditor 0.001."
    ensures GeneratedComment == "# " + text && |text| > 0 && IsTrimmed(text)
  {
  }

  /** After the last row, a comment is only kept as pending. */
  lemma StepTail(n: nat, m: Map, line: string, text: string)
    requires Holdable(m) && line == "# " + text && |text| > 0 && IsTrimmed(text)
    ensures Step(RowsState(n, m.height, m), line) ==
      Success(RowsState(n + 1, m.height, m).(lastComment := Some(text)))
  {
    var st := RowsState(n, m.height, m);
    StepComment(st, text);
    assert EnsureMap(st) == st;
    assert st.(lineNumber := n + 1, lastComment := Some(text)) == RowsState(n + 1, m.height, m).(lastComment := Some(text));
  }

  /** After the last row, a blank line and a comment leave the map and the
      row count alone. */
  lemma RunTail(n: nat, m: Map, line: string, text: string)
    requires Holdable(m) && line == "# " + text && |text| > 0 && IsTrimmed(text)
    ensures Run(RowsState(n, m.height, m), ["", line]) ==
      Success(RowsState(n + 2, m.height, m).(lastComment := Some(text)))
  {
    var st := RowsState(n, m.height, m);
    var st1 := RowsState(n + 1, m.height, m);
    var end := RowsState(n + 2, m.height, m).(lastComment := Some(text));
    assert Run(st1, [line]) == Success(end) by {
      StepTail(n + 1, m, line, text);
      RunStep(st1, line, []);
      assert [line] + [] == [line];
    }
    assert Run(st, [""]) == Success(st1) by {
      RunBlank(st);
      assert st.(lineNumber := n + 1) == st1;
    }
    RunThen(st, [""], [line], st1, end);
    assert [""] + [line] == ["", line];
  }

  // ---------------------------------------------------------------------
  // The whole file
  // ---------------------------------------------------------------------

  /** A map whose saved file loads back: one the loader may hold, whose
      definitions after Null are savable. */
  predicate Savable(m: Map) {
    && Holdable(m)
    && forall k :: 1 <= k < |m.catalog| ==> SavableDefinition(m.catalog[k])
  }

  /** Every id of a savable map's catalog fits a ushort. */
  lemma SavableIds(m: Map)
    requires Savable(m)
    ensures forall d :: d in m.catalog ==> 0 <= d.id < 0x1_0000
  {
    forall d | d in m.catalog
      ensures 0 <= d.id < 0x1_0000
    {
      var k :| 0 <= k < |m.catalog| && m.catalog[k] == d;
      if k > 0 {
        assert SavableDefinition(m.catalog[k]);
      }
    }
  }

  /** The map the loader holds once it has read the definitions of map
      `m`'s file: every cell Null, and m's catalog with colours resolved. */
  function Defined(m: Map, hash: string -> int): Map {
    NewMap(m.width, m.height).(catalog := ResolveAll(m.catalog, hash))
  }

  /** The first three lines of a saved file. */
  function HeadLines(m: Map): seq<string> {
    ["x " + NatToString(m.width), "y " + NatToString(m.height), ""]
  }

  /** Null's two lines come first. */
  lemma NullLinesFirst(m: Map, hash: string -> int)
    requires Savable(m)
    ensures DefinitionLines(m.catalog[1..], hash).Success?
    ensures DefinitionLines(m.catalog, hash) ==
      Success([CommentLine(Null.name, Black), DefinitionLine(Null)] + DefinitionLines(m.catalog[1..], hash).value)
  {
    forall k | 0 <= k < |m.catalog[1..]|
      ensures GetColor(m.catalog[1..][k], hash).Some?
    {
      assert m.catalog[1..][k] == m.catalog[k + 1];
      assert SavableDefinition(m.catalog[k + 1]);
    }
    assert m.catalog[0] == Null;
    DefinitionLinesCons(m.catalog, hash);
  }

  /** The definitions after Null are fresh for a map holding only Null. */
  lemma FreshAfterNull(m: Map)
    requires Savable(m)
    ensures FreshSavable(NewMap(m.width, m.height), m.catalog[1..])
  {
    var ds := m.catalog[1..];
    assert Ids(NewMap(m.width, m.height).catalog) == [0];
    forall k | 0 <= k < |ds|
      ensures SavableDefinition(ds[k]) && ds[k].id !in Ids(NewMap(m.width, m.height).catalog)
    {
      assert ds[k] == m.catalog[k + 1];
    }
  }

  /** Null resolves to itself, so resolving the rest after it resolves the
      whole catalog. */
  lemma DefinedCatalog(m: Map, hash: string -> int)
    requires Savable(m)
    ensures var empty := NewMap(m.width, m.height);
      empty.(catalog := empty.catalog + ResolveAll(m.catalog[1..], hash)) == Defined(m, hash)
  {
    ResolveAllCons(m.catalog, hash);
    assert m.catalog[0] == Null;
    assert Resolve(Null, hash) == Null;
  }

  /** Null's two lines, then the rest's, give the resolved catalog. */
  lemma RunCatalog(m: Map, hash: string -> int)
    requires Savable(m)
    ensures DefinitionLines(m.catalog, hash).Success?
    ensures Holdable(Defined(m, hash))
    ensures Run(HeaderState(3, m.width, m.height, None), DefinitionLines(m.catalog, hash).value) ==
      Success(MapState(3 + 2 * |m.catalog|, None, Defined(m, hash)))
  {
    var empty := NewMap(m.width, m.height);
    var ds := m.catalog[1..];
    var st := HeaderState(3, m.width, m.height, None);
    var pair := [CommentLine(Null.name, Black), DefinitionLine(Null)];
    var final := empty.(catalog := empty.catalog + ResolveAll(ds, hash));
    var end := MapState(5 + 2 * |ds|, None, final);
    assert Run(st, pair) == Success(MapState(5, None, empty)) by {
      RunNullPair(st, m.width, m.height, Null, Black, hash);
    }
    assert LoadsDefinitions(5, empty, ds, hash) by {
      FreshAfterNull(m);
      RunDefinitions(5, empty, ds, hash);
    }
    var rest := DefinitionLines(ds, hash).value;
    assert Holdable(final) && Run(MapState(5, None, empty), rest).Success?
      && Run(MapState(5, None, empty), rest).value == end;
    assert DefinitionLines(m.catalog, hash) == Success(pair + rest) by {
      NullLinesFirst(m, hash);
    }
    assert Run(st, pair + rest) == Success(end) by {
      RunThen(st, pair, rest, MapState(5, None, empty), end);
    }
    assert end == MapState(3 + 2 * |m.catalog|, None, Defined(m, hash)) by {
      DefinedCatalog(m, hash);
    }
  }

  /** The dimensions, then the definitions. */
  lemma RunHead(st: LoadState, m: Map, hash: string -> int)
    requires st == Start && Savable(m)
    ensures DefinitionLines(m.catalog, hash).Success?
    ensures Holdable(Defined(m, hash))
    ensures Run(st, HeadLines(m) + DefinitionLines(m.catalog, hash).value) ==
      Success(MapState(3 + 2 * |m.catalog|, None, Defined(m, hash)))
  {
    var mid := HeaderState(3, m.width, m.height, None);
    RunDimensions(st, m.width, m.height);
    RunCatalog(m, hash);
    RunThen(st, HeadLines(m), DefinitionLines(m.catalog, hash).value, mid,
      MapState(3 + 2 * |m.catalog|, None, Defined(m, hash)));
  }

  /** The rows of a savable map's view are the rows RunRows reads into the
      map holding its definitions. */
  lemma SavedRowsAhead(m: Map, hash: string -> int)
    requires Savable(m) && Holdable(Defined(m, hash))
    ensures RowsAhead(0, Defined(m, hash), m.grid, Project(m).rows)
  {
    var dm := Defined(m, hash);
    var rows := Project(m).rows;
    SavableIds(m);
    assert Ids(dm.catalog) == Ids(m.catalog);
    forall k | 0 <= k < |rows|
      ensures |rows[k]| == dm.width && RowIds(rows[k], dm.catalog) && Ids(rows[k]) == m.grid[k]
    {
      assert |rows[k]| == |m.grid[k]|;
      forall j | 0 <= j < |rows[k]|
        ensures 0 <= rows[k][j].id < 0x1_0000 && rows[k][j].id in Ids(dm.catalog)
      {
        assert rows[k][j] in m.catalog;
        assert rows[k][j].id == m.grid[k][j];
      }
    }
  }

  /** `begin`, then every row, fill the grid in. */
  lemma RunBody(n: nat, m: Map, hash: string -> int)
    requires Savable(m) && Holdable(Defined(m, hash))
    ensures Holdable(Defined(m, hash).(grid := m.grid))
    ensures Run(MapState(n, None, Defined(m, hash)), ["", "begin"] + RowLines(Project(m).rows)) ==
      Success(RowsState(n + 2 + m.height, m.height, Defined(m, hash).(grid := m.grid)))
  {
    var dm := Defined(m, hash);
    var rows := Project(m).rows;
    var end := RowsState(n + 2 + m.height, m.height, dm.(grid := m.grid));
    RunBegin(n, dm, "begin");
    var st2 := RowsState(n + 2, 0, dm);
    assert Holdable(dm.(grid := m.grid)) && Run(st2, RowLines(rows)).Success? && Run(st2, RowLines(rows)).value == end by {
      SavedRowsAhead(m, hash);
      RunRows(n + 2, 0, dm, m.grid, rows);
      assert RowsState(n + 2 + |rows|, dm.height, dm.(grid := m.grid)) == end;
    }
    RunThen(MapState(n, None, dm), ["", "begin"], RowLines(rows), st2, end);
  }

  /** A sequence made of five consecutive slices. */
  lemma FiveParts<T>(r: seq<T>, p1: seq<T>, p2: seq<T>, p3: seq<T>, p4: seq<T>, p5: seq<T>)
    requires |r| == |p1| + |p2| + |p3| + |p4| + |p5|
    requires r[..|p1|] == p1 && r[|p1|..|p1| + |p2|] == p2
    requires r[|p1| + |p2|..|p1| + |p2| + |p3|] == p3
    requires r[|p1| + |p2| + |p3|..|p1| + |p2| + |p3| + |p4|] == p4
    requires r[|r| - |p5|..] == p5
    ensures r == p1 + p2 + (p3 + p4) + p5
  {
    var q := p1 + p2 + (p3 + p4) + p5;
    forall k | 0 <= k < |r|
      ensures r[k] == q[k]
    {
      if k < |p1| {
        assert r[k] == r[..|p1|][k];
      } else if k < |p1| + |p2| {
        assert r[k] == r[|p1|..|p1| + |p2|][k - |p1|];
      } else if k < |p1| + |p2| + |p3| {
        assert r[k] == r[|p1| + |p2|..|p1| + |p2| + |p3|][k - |p1| - |p2|];
      } else if k < |p1| + |p2| + |p3| + |p4| {
        assert r[k] == r[|p1| + |p2| + |p3|..|p1| + |p2| + |p3| + |p4|][k - |p1| - |p2| - |p3|];
      } else {
        assert r[k] == r[|r| - |p5|..][k - (|r| - |p5|)];
      }
    }
  }

  /** A saved file in its five parts. */
  lemma SavedSplit(v: MapView, defs: seq<string>, r: seq<string>)
    requires SavedFile(v, defs, r)
    ensures r == r[..3] + defs + (["", "begin"] + RowLines(v.rows)) + ["", GeneratedComment]
  {
    FiveParts(r, r[..3], defs, ["", "begin"], RowLines(v.rows), ["", GeneratedComment]);
  }

  /** Everything up to the last row of map `m`'s saved file. */
  lemma RunFront(st: LoadState, m: Map, hash: string -> int)
    requires st == Start && Savable(m)
    ensures DefinitionLines(m.catalog, hash).Success?
    ensures Holdable(Defined(m, hash).(grid := m.grid))
    ensures var front := HeadLines(m) + DefinitionLines(m.catalog, hash).value + (["", "begin"] + RowLines(Project(m).rows));
      Run(st, front) == Success(RowsState(|front|, m.height, Defined(m, hash).(grid := m.grid)))
  {
    var defs := DefinitionLines(m.catalog, hash).value by { RunCatalog(m, hash); }
    var dm := Defined(m, hash);
    var loaded := dm.(grid := m.grid);
    var body := ["", "begin"] + RowLines(Project(m).rows);
    var n := 3 + 2 * |m.catalog|;
    var s1 := MapState(n, None, dm);
    var s2 := RowsState(n + 2 + m.height, m.height, loaded);
    assert Holdable(dm) && Run(st, HeadLines(m) + defs).Success? && Run(st, HeadLines(m) + defs).value == s1 by {
      RunHead(st, m, hash);
    }
    assert Holdable(loaded) && Run(s1, body).Success? && Run(s1, body).value == s2 by {
      RunBody(n, m, hash);
    }
    var front := HeadLines(m) + defs + body;
    assert Run(st, front) == Success(s2) by {
      RunThen(st, HeadLines(m) + defs, body, s1, s2);
    }
    assert RowsState(|front|, m.height, loaded) == s2;
  }

  /** The state after the last line of map `m`'s saved file. */
  lemma RunSaved(st: LoadState, m: Map, hash: string -> int, lines: seq<string>, text: string)
    requires st == Start && Savable(m)
    requires GeneratedComment == "# " + text && |text| > 0 && IsTrimmed(text)
    requires DefinitionLines(m.catalog, hash).Success?
    requires SavedFile(Project(m), DefinitionLines(m.catalog, hash).value, lines)
    ensures Holdable(Defined(m, hash).(grid := m.grid))
    ensures var loaded := Defined(m, hash).(grid := m.grid);
      Run(st, lines) == Success(RowsState(|lines|, m.height, loaded).(lastComment := Some(text)))
  {
    var defs := DefinitionLines(m.catalog, hash).value;
    var loaded := Defined(m, hash).(grid := m.grid);
    var front := HeadLines(m) + defs + (["", "begin"] + RowLines(Project(m).rows));
    var s2 := RowsState(|front|, m.height, loaded);
    var s3 := RowsState(|lines|, m.height, loaded).(lastComment := Some(text));
    assert lines == front + ["", GeneratedComment] by {
      SavedSplit(Project(m), defs, lines);
      assert lines[..3] == HeadLines(m);
    }
    assert Holdable(loaded) && Run(st, front).Success? && Run(st, front).value == s2 by {
      RunFront(st, m, hash);
    }
    assert Run(s2, ["", GeneratedComment]).Success? && Run(s2, ["", GeneratedComment]).value == s3 by {
      RunTail(|front|, loaded, GeneratedComment, text);
      assert |lines| == |front| + 2;
    }
    RunThen(st, front, ["", GeneratedComment], s2, s3);
  }

  /** Saving a savable map and loading the file back gives the map, with
      every colour resolved and with the name and path the load took from
      the file path. */
  lemma LoadSaveRoundTrip(m: Map, path: string, baseName: string -> string, hash: string -> int)
    requires Savable(m) && path != ""
    ensures Save(Project(m), path, hash).Success?
    ensures Load(path, baseName, Save(Project(m), path, hash).value) ==
      Success(m.(catalog := ResolveAll(m.catalog, hash), name := Some(baseName(path)), filePath := Some(path)))
  {
    RunCatalog(m, hash);
    var lines := Save(Project(m), path, hash).value;
    var text := "Generated by CrapEditor 0.001.";
    GeneratedCommentShape(text);
    RunSaved(Start, m, hash, lines, text);
    var loaded := Defined(m, hash).(grid := m.grid);
    assert loaded == m.(catalog := ResolveAll(m.catalog, hash), name := None, filePath := None);
  }
}
