/** The `.m` text codec. Load is a fold of a line-by-line state machine over
    the file's lines (header mode, body mode, a pending-comment register, an
    auto-name counter); Save writes the fixed line sequence Load reads. */
module FileOps {
  import opened Basics
  import opened Text
  import opened TileDefinitions
  import opened Tiles
  import opened Maps

  // ---------------------------------------------------------------------
  // Errors
  // ---------------------------------------------------------------------

  /** Why Load fails. Line numbers are 1-based physical line numbers, blank
      lines included; column numbers are 0-based. The last four are not
      raised on purpose: in the C# code they surface as a
      NullReferenceException (the map was never created) or an
      ArgumentOutOfRangeException (Substring(0, -1)). */
  datatype LoadError =
    | MissingPath
    | InvalidX(line: nat)
    | InvalidY(line: nat)
    | InvalidTileDefinition(line: nat)
    | Redefinition(id: int, line: nat)
    | UnexpectedDataRow(line: nat)
    | InvalidDataWidth(expected: nat, got: nat, line: nat)
    | InvalidTileId(line: nat, column: nat)
    | UnexpectedEndOfFile
    | TileBeforeMap(line: nat)
    | RowBeforeMap(line: nat)
    | NoMapAtEnd
    | AnnotationOnlyComment(line: nat)
  {
    /** The line number the error names, if it names one. */
    function Line(): Option<nat> {
      if MissingPath? || UnexpectedEndOfFile? || NoMapAtEnd? then None else Some(line)
    }
  }

  // ---------------------------------------------------------------------
  // The colour annotation {c:'#RRGGBB'} at the end of a comment
  // ---------------------------------------------------------------------

  /** The regular expression \{c:'#([^']+)'\}$ matches `c` at index p. */
  predicate AnnotationAt(c: string, p: int) {
    && 0 <= p && p + 8 <= |c|
    && c[p..p + 5] == "{c:'#"
    && c[|c| - 2..] == "'}"
    && forall i :: p + 5 <= i < |c| - 2 ==> c[i] != '\''
  }

  /** The text the annotation's capture group holds. */
  function AnnotationDigits(c: string, p: nat): string
    requires AnnotationAt(c, p)
  {
    c[p + 5..|c| - 2]
  }

  /** Index of the last quote of s before `end`. */
  function LastQuoteBefore(s: string, end: nat): (r: Option<nat>)
    requires end <= |s|
    ensures r.Some? ==> r.value < end && s[r.value] == '\''
    ensures r.Some? ==> forall i :: r.value < i < end ==> s[i] != '\''
    ensures r.None? ==> forall i :: 0 <= i < end ==> s[i] != '\''
    decreases end
  {
    if end == 0 then None
    else if s[end - 1] == '\'' then Some(end - 1)
    else LastQuoteBefore(s, end - 1)
  }

  /** An annotation's opening quote is the last quote before the closing
      one, so there is at most one match. */
  lemma AnnotationQuote(c: string, p: nat)
    requires AnnotationAt(c, p)
    ensures |c| >= 8 && c[|c| - 2..] == "'}"
    ensures LastQuoteBefore(c, |c| - 2) == Some(p + 3)
  {
    assert c[p + 3] == c[p..p + 5][3] == '\'';
    assert c[p + 4] == c[p..p + 5][4] == '#';
    var q := LastQuoteBefore(c, |c| - 2);
    assert q.Some?;
  }

  /** Without the closing `'}` there is no match. */
  lemma NoAnnotationWithoutClose(c: string)
    requires |c| < 8 || c[|c| - 2..] != "'}"
    ensures forall p :: !AnnotationAt(c, p)
  {
  }

  /** Every match opens at the last quote before the closing one, and the
      text three characters before that quote decides whether it matches. */
  lemma AnnotationAtLastQuote(c: string, q: Option<nat>)
    requires |c| >= 8 && c[|c| - 2..] == "'}"
    requires LastQuoteBefore(c, |c| - 2) == q
    ensures q.None? ==> forall p :: !AnnotationAt(c, p)
    ensures q.Some? ==> forall p :: AnnotationAt(c, p) ==> p + 3 == q.value
    ensures q.Some? && 3 <= q.value && q.value + 5 <= |c| && c[q.value - 3..q.value + 2] == "{c:'#" ==>
      AnnotationAt(c, q.value - 3)
  {
    forall p | AnnotationAt(c, p)
      ensures q == Some(p + 3)
    {
      AnnotationQuote(c, p);
    }
    if q.Some? && 3 <= q.value && q.value + 5 <= |c| && c[q.value - 3..q.value + 2] == "{c:'#" {
      assert c[q.value - 3..q.value - 3 + 5] == c[q.value - 3..q.value + 2];
    }
  }

  /** Finds where the annotation regular expression matches, if it does. */
  function FindAnnotation(c: string): (r: Option<nat>)
    ensures r.Some? ==> AnnotationAt(c, r.value)
    ensures forall p :: AnnotationAt(c, p) ==> r == Some(p)
  {
    if |c| < 8 || c[|c| - 2..] != "'}" then
      NoAnnotationWithoutClose(c);
      None
    else
      var q := LastQuoteBefore(c, |c| - 2);
      AnnotationAtLastQuote(c, q);
      if q.Some? && 3 <= q.value && q.value + 5 <= |c| && c[q.value - 3..q.value + 2] == "{c:'#" then
        Some(q.value - 3)
      else
        None
  }

  /** (byte)(v >> 16), (byte)((v >> 8) & 0xff), (byte)(v & 0xff). */
  function UnpackColour(v: nat): Rgb {
    Rgb((v / 0x1_0000) % 0x100, (v / 0x100) % 0x100, v % 0x100)
  }

  /** The colour annotation `c` carries at index p with hex value v. */
  predicate ColourAnnotated(c: string, p: nat, v: nat) {
    AnnotationAt(c, p) && ParseHexU32(AnnotationDigits(c, p)) == Some(v)
  }

  // ---------------------------------------------------------------------
  // Loading
  // ---------------------------------------------------------------------

  /** A definition a `t` line creates, and the auto-name counter after it. */
  datatype Named = Named(definition: TileDefinition, unnamedCount: u16)

  /** Name, colour and path of a new definition from the pending comment.
      None stands for the crash when the comment is nothing but the
      annotation (Substring(0, -1)). */
  function NewDefinition(id: int, path: string, comment: Option<string>, unnamedCount: u16): (r: Option<Named>)
    ensures r.Some? ==> r.value.definition.id == id && r.value.definition.path == Some(path)
    // no comment: the next auto name; the ushort counter wraps
    ensures comment.None? || comment == Some("") ==>
      && r.Some?
      && r.value.unnamedCount == (unnamedCount + 1) % 0x1_0000
      && r.value.definition.name == Some("Unnamed " + NatToString(r.value.unnamedCount))
      && r.value.definition.color.None?
    // an annotated comment: the text before the annotation, minus one character
    ensures forall p: nat, v: nat :: comment.Some? && ColourAnnotated(comment.value, p, v) ==>
      && (r.None? <==> p == 0)
      && (r.Some? ==> r.value.definition.name == Some(comment.value[..p - 1]))
      && (r.Some? ==> r.value.definition.color == Some(UnpackColour(v)))
      && (r.Some? ==> r.value.unnamedCount == unnamedCount)
    // any other comment: the whole comment, colour left to be derived
    ensures comment.Some? && comment.value != "" &&
            (forall p: nat, v: nat :: !ColourAnnotated(comment.value, p, v)) ==>
      && r.Some?
      && r.value.definition.name == comment
      && r.value.definition.color.None?
      && r.value.unnamedCount == unnamedCount
  {
    if comment.None? || comment.value == "" then
      var k: u16 := (unnamedCount + 1) % 0x1_0000;
      Some(Named(TileDefinition(id, Some("Unnamed " + NatToString(k)), Some(path), None), k))
    else
      var c := comment.value;
      var plain := Some(Named(TileDefinition(id, Some(c), Some(path), None), unnamedCount));
      match FindAnnotation(c)
      case None => plain
      case Some(p) =>
        match ParseHexU32(AnnotationDigits(c, p))
        case None => plain
        case Some(v) =>
          assert ColourAnnotated(c, p, v);
          assert forall p': nat, v': nat :: ColourAnnotated(c, p', v') ==> p' == p && v' == v;
          if p == 0 then None
          else Some(Named(TileDefinition(id, Some(c[..p - 1]), Some(path), Some(UnpackColour(v))), unnamedCount))
  }

  /** The loader's local variables. */
  datatype LoadState = LoadState(
    lineNumber: nat,
    lastComment: Option<string>,
    readingData: bool,
    dataRow: nat,
    width: u16,
    height: u16,
    unnamedCount: u16,
    built: Option<Map>)

  const Start := LoadState(0, None, false, 0, 0, 0, 0, None)

  /** What holds between lines: a map, once created, is valid and non-empty,
      and no more rows have been read than it has. */
  predicate StateInv(st: LoadState) {
    match st.built
    case None => st.dataRow == 0 && (st.readingData ==> st.width == 0 || st.height == 0)
    case Some(m) => Valid(m) && m.width > 0 && m.height > 0 && st.dataRow <= m.height
  }

  /** Both states have a map or neither has, with the same dimensions. */
  predicate SameShape(a: LoadState, b: LoadState) {
    && a.built.Some? == b.built.Some?
    && (a.built.Some? ==> a.built.value.width == b.built.value.width && a.built.value.height == b.built.value.height)
  }

  /** The map is created on the first non-blank line after both dimensions
      are non-zero. */
  function EnsureMap(st: LoadState): (r: LoadState)
    requires StateInv(st)
    ensures StateInv(r)
  {
    if st.built.None? && st.width > 0 && st.height > 0 then st.(built := Some(NewMap(st.width, st.height)))
    else st
  }

  /** What every header line except a comment does last: `begin` switches
      to body mode, and the pending comment is cleared. */
  function EndHeaderLine(st: LoadState, tokens: seq<string>): LoadState
    requires |tokens| > 0
  {
    st.(readingData := tokens[0] == "begin", lastComment := None)
  }

  /** A `t <id> <path>` line; st.lineNumber is this line's number. */
  function TileLine(st: LoadState, tokens: seq<string>): (r: Result<LoadState, LoadError>)
    requires StateInv(st)
    ensures r.Failure? ==> r.error.Line() == Some(st.lineNumber)
    ensures r.Success? ==> StateInv(r.value) && SameShape(st, r.value)
    ensures r.Success? ==> r.value == st.(built := r.value.built, unnamedCount := r.value.unnamedCount)
    ensures r.Success? && st.built.Some? ==> r.value.built.value.grid == st.built.value.grid
  {
    var n := st.lineNumber;
    if |tokens| < 3 || ParseU16(tokens[1]).None? then Failure(InvalidTileDefinition(n))
    else
      var id := ParseU16(tokens[1]).value;
      if id == 0 then Success(st)
      else if st.built.None? then Failure(TileBeforeMap(n))
      else
        var m := st.built.value;
        if GetTileDefinition(m, id).Some? then Failure(Redefinition(id, n))
        else
          match NewDefinition(id, tokens[2], st.lastComment, st.unnamedCount)
          case None => Failure(AnnotationOnlyComment(n))
          case Some(named) =>
            Success(st.(built := Some(AddDefinition(m, named.definition)), unnamedCount := named.unnamedCount))
  }

  /** What a `t` line does: a malformed line or an unparsable id is an
      error; id 0 is ignored, since Null can never be redefined; any other
      id needs the map to exist and must be new, and is then added with its
      path, leaving every other id's definition alone. The definition added
      and the auto-name counter are NewDefinition's, built from the pending
      comment; a comment that is only an annotation is the crash. */
  lemma TileLineSpec(st: LoadState, tokens: seq<string>)
    requires StateInv(st)
    ensures var r := TileLine(st, tokens);
      && (|tokens| < 3 || ParseU16(tokens[1]).None? ==> r == Failure(InvalidTileDefinition(st.lineNumber)))
      && (|tokens| >= 3 && ParseU16(tokens[1]) == Some(0) ==> r == Success(st))
      && (|tokens| >= 3 && ParseU16(tokens[1]).Some? && ParseU16(tokens[1]).value != 0 ==>
            var id := ParseU16(tokens[1]).value;
            && (st.built.None? ==> r == Failure(TileBeforeMap(st.lineNumber)))
            && (st.built.Some? && id in Ids(st.built.value.catalog) ==> r == Failure(Redefinition(id, st.lineNumber)))
            && (st.built.Some? && id !in Ids(st.built.value.catalog) ==>
                  var nd := NewDefinition(id, tokens[2], st.lastComment, st.unnamedCount);
                  && (nd.None? ==> r == Failure(AnnotationOnlyComment(st.lineNumber)))
                  && (nd.Some? ==>
                        && r.Success?
                        && Lookup(r.value.built.value.catalog, id) == Some(nd.value.definition)
                        && r.value.unnamedCount == nd.value.unnamedCount))
            && (r.Success? ==>
                  && st.built.Some? && id !in Ids(st.built.value.catalog)
                  && Lookup(r.value.built.value.catalog, id).Some?
                  && Lookup(r.value.built.value.catalog, id).value.path == Some(tokens[2])
                  && forall other :: other != id ==>
                       Lookup(r.value.built.value.catalog, other) == Lookup(st.built.value.catalog, other)))
  {
  }

  /** A header-mode line, already trimmed and non-blank; st.lineNumber is
      its number. Dispatch is on the line's first character. */
  function HeaderLine(st: LoadState, line: string): (r: Result<LoadState, LoadError>)
    requires StateInv(st) && !st.readingData
    // the map has already been created if it can be
    requires st.built.None? ==> st.width == 0 || st.height == 0
    requires |line| > 0 && IsTrimmed(line)
    ensures r.Failure? ==> r.error.Line() == Some(st.lineNumber)
    ensures r.Success? ==> StateInv(r.value) && SameShape(st, r.value) && r.value.lineNumber == st.lineNumber
    ensures r.Success? ==> r.value.dataRow == st.dataRow
    ensures r.Success? && st.built.Some? ==> r.value.built.value.grid == st.built.value.grid
  {
    var tokens := Split(line);
    var n := st.lineNumber;
    match line[0]
    case '#' => Success(st.(lastComment := if |line| > 1 then Some(Trim(line[1..])) else None))
    case 'x' =>
      if |tokens| < 2 || ParseU16(tokens[1]).None? then Failure(InvalidX(n))
      else Success(EndHeaderLine(st.(width := ParseU16(tokens[1]).value), tokens))
    case 'y' =>
      if |tokens| < 2 || ParseU16(tokens[1]).None? then Failure(InvalidY(n))
      else Success(EndHeaderLine(st.(height := ParseU16(tokens[1]).value), tokens))
    case 't' =>
      var next :- TileLine(st, tokens);
      Success(EndHeaderLine(next, tokens))
    case _ => Success(EndHeaderLine(st, tokens))
  }

  /** What a header line does, by its first character: a comment only sets
      the pending comment; every other line clears it and enters body mode
      exactly when its first token is `begin`; `x` and `y` set one dimension
      each and fail on a missing or unparsable number; only `t` lines touch
      the map and the auto-name counter. */
  lemma HeaderLineSpec(st: LoadState, line: string)
    requires StateInv(st) && !st.readingData
    requires st.built.None? ==> st.width == 0 || st.height == 0
    requires |line| > 0 && IsTrimmed(line)
    ensures var r := HeaderLine(st, line);
      && (line[0] == '#' ==>
            r == Success(st.(lastComment := if |line| > 1 then Some(Trim(line[1..])) else None)))
      && (line[0] != '#' && r.Success? ==>
            r.value.lastComment.None? && (r.value.readingData <==> Split(line)[0] == "begin"))
      && (line[0] == 'x' ==>
            var tokens := Split(line);
            && (r.Failure? <==> |tokens| < 2 || ParseU16(tokens[1]).None?)
            && (r.Success? ==> r.value.width == ParseU16(tokens[1]).value && r.value.height == st.height))
      && (line[0] == 'y' ==>
            var tokens := Split(line);
            && (r.Failure? <==> |tokens| < 2 || ParseU16(tokens[1]).None?)
            && (r.Success? ==> r.value.height == ParseU16(tokens[1]).value && r.value.width == st.width))
      && (line[0] !in "xy" && r.Success? ==> r.value.width == st.width && r.value.height == st.height)
      && (line[0] !in "#t" && r.Success? ==> r.value.built == st.built)
      && (line[0] != 't' && r.Success? ==> r.value.unnamedCount == st.unnamedCount)
  {
  }

  /** A body-row token: a ushort naming a catalog entry. */
  predicate CellToken(token: string, catalog: seq<TileDefinition>) {
    ParseU16(token).Some? && ParseU16(token).value in Ids(catalog)
  }

  /** The ids of the first n tokens, or the first column that is not a
      known id. */
  function ParseRow(tokens: seq<string>, n: nat, catalog: seq<TileDefinition>): (r: Result<seq<int>, nat>)
    requires n <= |tokens|
    ensures r.Success? <==> forall j :: 0 <= j < n ==> CellToken(tokens[j], catalog)
    ensures r.Success? ==>
      |r.value| == n && forall j :: 0 <= j < n ==> r.value[j] == ParseU16(tokens[j]).value
    ensures r.Failure? ==>
      r.error < n && !CellToken(tokens[r.error], catalog) &&
      forall j :: 0 <= j < r.error ==> CellToken(tokens[j], catalog)
    decreases n
  {
    if n == 0 then Success([])
    else
      var prefix :- ParseRow(tokens, n - 1, catalog);
      if CellToken(tokens[n - 1], catalog) then Success(prefix + [ParseU16(tokens[n - 1]).value])
      else Failure(n - 1)
  }

  /** A body-mode line, already trimmed and non-blank; st.lineNumber is its
      number. */
  function BodyLine(st: LoadState, tokens: seq<string>): (r: Result<LoadState, LoadError>)
    requires StateInv(st) && st.readingData
    ensures r.Failure? ==> r.error.Line() == Some(st.lineNumber)
    ensures r.Success? ==> StateInv(r.value) && SameShape(st, r.value) && r.value.lineNumber == st.lineNumber
  {
    var n := st.lineNumber;
    if st.built.None? then Failure(RowBeforeMap(n))
    else
      var m := st.built.value;
      if st.dataRow >= m.height then Failure(UnexpectedDataRow(n))
      else if |tokens| < m.width then Failure(InvalidDataWidth(m.width, |tokens|, n))
      else
        match ParseRow(tokens, m.width, m.catalog)
        case Failure(column) => Failure(InvalidTileId(n, column))
        case Success(ids) =>
          var m' := m.(grid := m.grid[st.dataRow := ids]);
          assert Valid(m');
          var next := st.dataRow + 1;
          Success(st.(built := Some(m'), dataRow := next, readingData := next != m.height))
  }

  /** What a body line does: it needs the map, a row still to fill, at
      least `width` tokens and a known id in each of the first `width`
      columns (the first bad column is reported); it then replaces the next
      row with those ids, leaves every other row and the catalog alone, and
      leaves body mode after the last row. */
  lemma BodyLineSpec(st: LoadState, tokens: seq<string>)
    requires StateInv(st) && st.readingData
    ensures var r := BodyLine(st, tokens);
      && (st.built.None? ==> r == Failure(RowBeforeMap(st.lineNumber)))
      && (st.built.Some? ==>
            var m := st.built.value;
            && (st.dataRow >= m.height ==> r == Failure(UnexpectedDataRow(st.lineNumber)))
            && (st.dataRow < m.height && |tokens| < m.width ==>
                  r == Failure(InvalidDataWidth(m.width, |tokens|, st.lineNumber)))
            && (r.Success? <==>
                  st.dataRow < m.height && |tokens| >= m.width &&
                  forall j :: 0 <= j < m.width ==> CellToken(tokens[j], m.catalog))
            && (r.Failure? && st.dataRow < m.height && |tokens| >= m.width ==>
                  r.error.InvalidTileId? && r.error.column < m.width &&
                  !CellToken(tokens[r.error.column], m.catalog) &&
                  forall j :: 0 <= j < r.error.column ==> CellToken(tokens[j], m.catalog))
            && (r.Success? ==>
                  && r.value == st.(built := r.value.built, dataRow := st.dataRow + 1,
                                    readingData := st.dataRow + 1 < m.height)
                  && r.value.built.value == m.(grid := r.value.built.value.grid)
                  && r.value.built.value.grid[st.dataRow] ==
                       seq(m.width, j requires 0 <= j < m.width => ParseU16(tokens[j]).value)
                  && forall i :: 0 <= i < m.height && i != st.dataRow ==>
                       r.value.built.value.grid[i] == m.grid[i]))
  {
    if st.built.Some? && st.dataRow < st.built.value.height && |tokens| >= st.built.value.width {
      var m := st.built.value;
      var r := ParseRow(tokens, m.width, m.catalog);
      if r.Success? {
        assert r.value == seq(m.width, j requires 0 <= j < m.width => ParseU16(tokens[j]).value);
      }
    }
  }

  /** One physical line of the file. */
  function Step(st: LoadState, raw: string): (r: Result<LoadState, LoadError>)
    requires StateInv(st)
    ensures r.Success? ==> StateInv(r.value) && r.value.lineNumber == st.lineNumber + 1
    ensures r.Failure? ==> r.error.Line() == Some(st.lineNumber + 1)
    // blank lines only advance the line counter
    ensures AllWhiteSpace(raw) ==> r == Success(st.(lineNumber := st.lineNumber + 1))
    // a map, once created, keeps its dimensions
    ensures r.Success? && st.built.Some? ==> SameShape(st, r.value)
    // the map appears at the first non-blank line after both dimensions are set
    ensures r.Success? && st.built.None? && !AllWhiteSpace(raw) && st.width > 0 && st.height > 0 ==>
      && r.value.built.Some?
      && r.value.built.value.width == st.width && r.value.built.value.height == st.height
      && r.value.built.value.grid == NewMap(st.width, st.height).grid
    ensures r.Success? && st.built.None? && (AllWhiteSpace(raw) || st.width == 0 || st.height == 0) ==>
      r.value.built.None?
  {
    var n := st.lineNumber + 1;
    var line := Trim(raw);
    if |line| == 0 then Success(st.(lineNumber := n))
    else
      var cur := EnsureMap(st).(lineNumber := n);
      if !cur.readingData then HeaderLine(cur, line) else BodyLine(cur, Split(line))
  }

  /** The fold of Step over the lines. */
  function Run(st: LoadState, lines: seq<string>): (r: Result<LoadState, LoadError>)
    requires StateInv(st)
    ensures r.Success? ==> StateInv(r.value) && r.value.lineNumber == st.lineNumber + |lines|
    ensures r.Failure? && r.error.Line().Some? ==>
      st.lineNumber < r.error.Line().value <= st.lineNumber + |lines|
    decreases |lines|
  {
    if |lines| == 0 then Success(st)
    else
      var next :- Step(st, lines[0]);
      Run(next, lines[1..])
  }

  /** What Load does after the last line. */
  function Finish(st: LoadState, path: string, baseName: string -> string): (r: Result<Map, LoadError>)
    requires StateInv(st)
    ensures st.built.None? ==> r == Failure(NoMapAtEnd)
    ensures st.built.Some? ==> (r.Success? <==> st.dataRow == st.built.value.height)
    ensures st.built.Some? && r.Failure? ==> r == Failure(UnexpectedEndOfFile)
    ensures r.Success? ==>
      && Valid(r.value) && r.value.width > 0 && r.value.height > 0
      && r.value == st.built.value.(name := Some(baseName(path)), filePath := Some(path))
  {
    if st.built.None? then Failure(NoMapAtEnd)
    else if st.dataRow < st.built.value.height then Failure(UnexpectedEndOfFile)
    else Success(st.built.value.(name := Some(baseName(path)), filePath := Some(path)))
  }

  /** Load: the lines of the file at `path`; `baseName` is Path.GetFileName. */
  function Load(path: string, baseName: string -> string, lines: seq<string>): (r: Result<Map, LoadError>)
    ensures path == "" ==> r == Failure(MissingPath)
    ensures r.Success? ==>
      && Valid(r.value) && r.value.width > 0 && r.value.height > 0
      && r.value.name == Some(baseName(path)) && r.value.filePath == Some(path)
    ensures r.Failure? && r.error.Line().Some? ==> 1 <= r.error.Line().value <= |lines|
  {
    if path == "" then Failure(MissingPath)
    else
      var st :- Run(Start, lines);
      Finish(st, path, baseName)
  }

  // ---------------------------------------------------------------------
  // Saving
  // ---------------------------------------------------------------------

  /** Why Save throws: no destination, or reading the colour of a definition
      with neither a colour nor a name (a NullReferenceException).
      ColourOfUnnamed carries the lines already written when the Color
      getter threw: the StreamWriter has truncated the file, and disposing
      of it flushes them. */
  datatype SaveError = MissingDestination | ColourOfUnnamed(id: int, written: seq<string>)

  const GeneratedComment := "# Generated by CrapEditor 0.001."

  /** The name a comment line shows: "unnamed" for a null or empty name. */
  function DisplayName(name: Option<string>): (r: string)
    ensures name.None? || name.value == "" ==> r == "unnamed"
    ensures name.Some? && name.value != "" ==> r == name.value
  {
    if name.None? || name.value == "" then "unnamed" else name.value
  }

  /** The path a `t` line shows: the null tile's path for a null or empty
      path. */
  function SavedPath(path: Option<string>): (r: string)
    ensures path.None? || path.value == "" ==> r == NullPath
    ensures path.Some? && path.value != "" ==> r == path.value
  {
    if path.None? || path.value == "" then NullPath else path.value
  }

  /** {c:'#rrggbb'} in lower-case hex. */
  function AnnotationOf(c: Rgb): string {
    "{c:'#" + Hex2(c.r) + Hex2(c.g) + Hex2(c.b) + "'}"
  }

  function CommentText(name: Option<string>, c: Rgb): string {
    DisplayName(name) + " " + AnnotationOf(c)
  }

  function CommentLine(name: Option<string>, c: Rgb): string {
    "# " + CommentText(name, c)
  }

  function DefinitionLine(d: TileDefinition): string {
    "t " + IntToString(d.id) + " " + SavedPath(d.path)
  }

  /** The two lines the loop writes for one definition: `# <name>
      {c:'#rrggbb'}` and `t <id> <path>`. */
  predicate WritesDefinition(d: TileDefinition, hash: string -> int, comment: string, line: string) {
    && GetColor(d, hash).Some?
    && comment == CommentLine(d.name, GetColor(d, hash).value.colour)
    && line == DefinitionLine(d)
  }

  /** `lines` are what the loop writes for the definitions `ds`: two lines
      for each, in order. */
  predicate WritesDefinitions(ds: seq<TileDefinition>, hash: string -> int, lines: seq<string>) {
    InPairs(ds, lines, (d, comment, line) => WritesDefinition(d, hash, comment, line))
  }

  /** The loop stopped at definition k, the first without a colour, having
      written the lines of the definitions before it. */
  predicate StoppedAt(ds: seq<TileDefinition>, hash: string -> int, e: SaveError) {
    && e.ColourOfUnnamed?
    && |e.written| % 2 == 0
    && var k := |e.written| / 2;
    && k < |ds| && GetColor(ds[k], hash).None? && e.id == ds[k].id
    && WritesDefinitions(ds[..k], hash, e.written)
  }

  /** The comment and `t` line of each definition, in order, or where the
      loop throws. */
  function DefinitionLines(ds: seq<TileDefinition>, hash: string -> int): (r: Result<seq<string>, SaveError>)
    ensures r.Success? <==> forall i :: 0 <= i < |ds| ==> GetColor(ds[i], hash).Some?
    ensures r.Success? ==> WritesDefinitions(ds, hash, r.value)
    ensures r.Failure? ==> StoppedAt(ds, hash, r.error)
    decreases |ds|
  {
    if |ds| == 0 then Success([])
    else
      var d := ds[0];
      match GetColor(d, hash)
      case None => Failure(ColourOfUnnamed(d.id, []))
      case Some(read) =>
        var pair := [CommentLine(d.name, read.colour), DefinitionLine(d)];
        match DefinitionLines(ds[1..], hash)
        case Failure(e) =>
          StoppedLater(ds, hash, pair, e);
          Failure(ColourOfUnnamed(e.id, pair + e.written))
        case Success(rest) =>
          assert (pair + rest)[2..] == rest;
          Success(pair + rest)
  }

  /** A stop in the tail, after the first definition's two lines, is a stop
      one definition further on. */
  lemma StoppedLater(ds: seq<TileDefinition>, hash: string -> int, pair: seq<string>, e: SaveError)
    requires |ds| > 0 && |pair| == 2 && WritesDefinition(ds[0], hash, pair[0], pair[1])
    requires StoppedAt(ds[1..], hash, e)
    ensures StoppedAt(ds, hash, ColourOfUnnamed(e.id, pair + e.written))
  {
    var k := |e.written| / 2;
    var written := pair + e.written;
    assert |written| / 2 == k + 1;
    assert ds[k + 1] == ds[1..][k];
    TakeTail(ds, k);
    InPairsCons(ds[..k + 1], pair, e.written, (d, comment, line) => WritesDefinition(d, hash, comment, line));
  }

  /** The written lines, definition by definition: the comment line at 2i,
      the `t` line at 2i + 1. */
  lemma WritesDefinitionsIndexed(ds: seq<TileDefinition>, hash: string -> int, lines: seq<string>)
    requires WritesDefinitions(ds, hash, lines)
    ensures |lines| == 2 * |ds|
    ensures forall i :: 0 <= i < |ds| ==> WritesDefinition(ds[i], hash, lines[2 * i], lines[2 * i + 1])
  {
    var P := (d, comment, line) => WritesDefinition(d, hash, comment, line);
    InPairsLength(ds, lines, P);
    forall i | 0 <= i < |ds|
      ensures WritesDefinition(ds[i], hash, lines[2 * i], lines[2 * i + 1])
    {
      InPairsAt(ds, lines, P, i);
    }
  }

  /** The numerals of a row's definition ids. */
  function RowTokens(row: seq<TileDefinition>): (tokens: seq<string>)
    ensures |tokens| == |row| && forall j :: 0 <= j < |row| ==> tokens[j] == IntToString(row[j].id)
  {
    seq(|row|, j requires 0 <= j < |row| => IntToString(row[j].id))
  }

  /** One grid row: the ids of its definitions, separated by spaces. */
  function RowLine(row: seq<TileDefinition>): string {
    Join(RowTokens(row))
  }

  /** One line per grid row, in order. */
  function RowLines(rows: seq<seq<TileDefinition>>): (lines: seq<string>)
    ensures |lines| == |rows| && forall i :: 0 <= i < |rows| ==> lines[i] == RowLine(rows[i])
  {
    seq(|rows|, i requires 0 <= i < |rows| => RowLine(rows[i]))
  }

  /** The dimensions and the blank line after them, the first lines
      written. */
  function DimensionLines(v: MapView): seq<string> {
    ["x " + NatToString(v.width), "y " + NatToString(v.height), ""]
  }

  /** The layout of a saved file, given the definitions' lines: the
      dimensions and a blank line, the definitions, a blank line and
      `begin`, one line per row, and a closing comment after a blank line. */
  predicate SavedFile(v: MapView, defs: seq<string>, r: seq<string>) {
    && |r| == 7 + |defs| + |v.rows|
    && r[..3] == DimensionLines(v)
    && r[3..3 + |defs|] == defs
    && r[3 + |defs|..5 + |defs|] == ["", "begin"]
    && r[5 + |defs|..5 + |defs| + |v.rows|] == RowLines(v.rows)
    && r[|r| - 2..] == ["", GeneratedComment]
  }

  /** The saved file once the definitions' lines are known. */
  function SavedLines(v: MapView, defs: seq<string>): (r: seq<string>)
    ensures SavedFile(v, defs, r)
  {
    var head := DimensionLines(v);
    var rows := RowLines(v.rows);
    var r := head + defs + ["", "begin"] + rows + ["", GeneratedComment];
    assert r[..3] == head;
    assert r[3..3 + |defs|] == defs;
    assert r[3 + |defs|..5 + |defs|] == ["", "begin"];
    assert r[5 + |defs|..5 + |defs| + |rows|] == rows;
    assert r[|r| - 2..] == ["", GeneratedComment];
    r
  }

  /** Save: the lines written to `path`. `hash` is string.GetHashCode,
      needed for definitions whose colour is still to be derived. */
  function Save(v: MapView, path: string, hash: string -> int): (r: Result<seq<string>, SaveError>)
    ensures r.Success? <==>
      path != "" && forall i :: 0 <= i < |v.definitions| ==> GetColor(v.definitions[i], hash).Some?
    ensures path == "" ==> r == Failure(MissingDestination)
    ensures r.Success? ==>
      && DefinitionLines(v.definitions, hash).Success?
      && WritesDefinitions(v.definitions, hash, DefinitionLines(v.definitions, hash).value)
      && SavedFile(v, DefinitionLines(v.definitions, hash).value, r.value)
    ensures path != "" && r.Failure? ==>
      && r.error.ColourOfUnnamed?
      && |r.error.written| >= 3 && r.error.written[..3] == DimensionLines(v)
      && StoppedAt(v.definitions, hash, ColourOfUnnamed(r.error.id, r.error.written[3..]))
  {
    if path == "" then Failure(MissingDestination)
    else
      match DefinitionLines(v.definitions, hash)
      case Failure(e) =>
        var written := DimensionLines(v) + e.written;
        assert written[..3] == DimensionLines(v) && written[3..] == e.written;
        Failure(ColourOfUnnamed(e.id, written))
      case Success(defs) => Success(SavedLines(v, defs))
  }
}
