# Map editor core in Dafny

A model of the core of a small tile-map editor: the map (a grid of tiles
and a catalog of tile definitions keyed by id), the tile definition with its
colour derived from the name's hash code and cached on first read, the `.m`
text format written by `FileOps.Save` and read by `FileOps.Load`, and the
editor's view model, which keeps the grid rectangular when the dimensions
change and builds the window title.

Modules, one per source concern:

- `Basics` — `Option`, `Result`, `byte`, `u16`.
- `Text` — the string primitives the codec relies on: `String.Trim` (with
  .NET's white-space set), `Split` on spaces and tabs dropping empty entries,
  `string.Join(" ", …)`, decimal numerals, `ushort.TryParse`, hex
  `uint.TryParse` and the `x2` byte format.
- `TileDefinitions` — `TileDefinition`, its setters, the `Color` getter that
  derives and caches a colour, `ColourFromString`.
- `Tiles` — the grid (rows of cells; a cell holds the id of the definition
  it shows) and the `Tile.Definition` setter.
- `Maps` — `Map`, its constructors, `GetTileDefinition`, the catalog's `Add`,
  the `Width`/`Height` auto-properties and the read-only map interface
  (`MapView`) the serialiser consumes.
- `FileOps` — `Load` as a fold of a line-by-line state machine over the
  file's lines, ending in `Finish`; `Save` as the list of lines it writes.
- `RoundTrip` — loading a saved map gives the map back, proved line group
  by line group.
- `MapViewModels` — the view model's constructor, `ResizeList`,
  `UpdateMapData`, the `Height`/`Width` setters, `WindowTitle` and the
  read-only map interface.

Things the source takes from its environment are parameters:
`string.GetHashCode` is `hash: string -> int`, `Path.GetFileName` is
`baseName: string -> string`, the file read by `Load` is the sequence of its
lines, and the file written by `Save` is the sequence of lines returned.
Exceptions are `Failure` values; the ones the code raises by accident (a
null map dereferenced, `Substring(0, -1)`, `GetHashCode` on a null name) get
their own error constructors.

Behaviours of the code worth noting:

- After `height` rows the loader goes back to header mode
  (Model/FileOps.cs:121), so later lines are parsed as header lines, and a
  further `begin` followed by a row fails with `UnexpectedDataRow`.
- `Map.Width` and `Map.Height` are plain auto-properties and do not resize
  the grid (Model/Map.cs:101-104); resizing happens only in the view model.
- `new Map(w, h)` makes no positivity check; only the loader's "both
  dimensions non-zero" condition keeps loaded maps non-empty.
- A `t` line before both dimensions are set, a data row before the map
  exists, a file with no map at all, and a comment that is only a colour
  annotation are crashes in the code (`TileBeforeMap`, `RowBeforeMap`,
  `NoMapAtEnd`, `AnnotationOnlyComment`), not a parse error with a message.
- The name taken from an annotated comment drops the one character before
  the annotation, whatever it is (`Substring(0, index - 1)`), not
  specifically a space. The code drops one UTF-16 code unit; the model,
  whose strings are sequences of code points, drops one code point (see
  "## Left out").
- The colour derived from a name uses the runtime's `GetHashCode`, whose
  value is not fixed by the program; the model takes it as a parameter.
- Only the last of several consecutive comments is pending for the next
  `t` line; every non-comment header line clears it.
- The `MapViewModel.WindowTitle` getter tests for an empty name twice, so
  its "Unnamed file" text is never produced.

## Model

| member | source | states |
|---|---|---|
| Text.TrimStart | Model/FileOps.cs:42 | the result is what is left after the longest all-white-space prefix: everything dropped is white space and the first character kept is not |
| Text.TrimEnd | Model/FileOps.cs:42 | the result is a prefix of the line, everything dropped is white space, and its last character is not white space |
| Text.Trim | Model/FileOps.cs:42-43 | the trimmed line has no white space at either end, and it is empty exactly when the raw line is all white space (the blank-line skip) |
| Text.TrimPadded | Model/FileOps.cs:42 | trimming a trimmed core with white space around it gives back exactly the core |
| Text.Split | Model/FileOps.cs:44 | every token is non-empty and free of spaces and tabs, and a line that does not start with a separator has a first token starting with the line's first character |
| Text.SplitLayout | Model/FileOps.cs:44 | a line splits into exactly the tokens it is made of when separated by runs of spaces and tabs: any run, empty or not, before the first token and after the last, and a non-empty run between each two |
| Text.SplitInterleave | Model/FileOps.cs:44 | tokens laid out with separator runs around them split back into those tokens |
| Text.GapsSplit | Model/FileOps.cs:44 | every line is its tokens with separator runs around them, the runs between tokens non-empty |
| Text.SplitJoin | Model/FileOps.cs:44 | splitting tokens joined with single spaces gives back the tokens, so the loader's tokenising undoes the saver's `string.Join(" ", …)` |
| Text.NatToString | Model/FileOps.cs:153-154 | the numeral is a non-empty string of decimal digits that denotes the number and has no leading zero unless the number is 0 |
| Text.ParseU16Sound | Model/FileOps.cs:58 | whatever `ushort.TryParse` accepts is white space (U+0009 to U+000D, space), an optional `+` or `-`, at least one decimal digit, white space and trailing NULs, and the value is that numeral's |
| Text.ParseU16Layout | Model/FileOps.cs:58 | any string of that layout parses to its digits' value when that is below 65536 and the sign is not `-` on a non-zero value, and fails otherwise |
| Text.ParseU16Digits | Model/FileOps.cs:114 | a plain digit string parses to its value when that is below 65536 |
| Text.ParseU16NatToString | Model/FileOps.cs:58 | parsing the printed form of a ushort gives the ushort back |
| Text.ParseHexU32Sound | Model/FileOps.cs:86 | whatever the `HexNumber` parse accepts is white space, at least one hex digit of either case, white space and trailing NULs, with no sign, and the value is that numeral's, below 2^32 |
| Text.ParseHexU32Layout | Model/FileOps.cs:86 | any string of that layout parses to its digits' value when that is below 2^32, and fails otherwise |
| Text.ParseHexU32Digits | Model/FileOps.cs:86 | a plain hex digit string parses to its value when that is below 2^32 |
| Text.Hex2 | Model/FileOps.cs:160 | the `x2` form of a byte is two lower-case hex digits (0-9, a-f) that denote the byte and contain no quote |
| Text.HexValueAppendByte | Model/FileOps.cs:160 | appending a byte's `x2` form multiplies the value read so far by 256 and adds the byte |
| TileDefinitions.GetBytes | Model/TileDefinition.cs:98 | the four bytes are the little-endian two's-complement pattern of the 32-bit hash: their value is the hash modulo 2^32 |
| TileDefinitions.ColourFromHash | Model/TileDefinition.cs:96-100 | red, green and blue are the hash's three low bytes: r + 256 g + 65536 b agrees with the hash modulo 2^24 |
| TileDefinitions.ColourFromString | Model/TileDefinition.cs:96-100 | a colour is derived exactly when the string is not null |
| TileDefinitions.GetColor | Model/TileDefinition.cs:81-84 | the read fails exactly when neither a colour nor a name is present; otherwise the definition afterwards holds the returned colour and is otherwise unchanged |
| TileDefinitions.SetColor | Model/TileDefinition.cs:85-88 | the assigned colour replaces any stored one; id, name and path are kept |
| TileDefinitions.SettersChangeOneField | Model/TileDefinition.cs:25-74 | the Id, Name and Path setters each change only their own field, and assigning the current value changes nothing |
| TileDefinitions.ReadAfterSet | Model/TileDefinition.cs:79-89 | after a colour is assigned, a read returns it and changes nothing |
| TileDefinitions.ColourCachedOnFirstRead | Model/TileDefinition.cs:83 | the first read derives the colour from the name's hash; a later read returns the same colour even after the name has changed |
| TileDefinitions.Resolve | Model/FileOps.cs:160 | the colour Save reads for a definition, cached: an assigned colour is kept, a missing one is derived from the name, id, name and path are kept |
| Tiles.Filled | Model/Map.cs:52-57 | `h` rows of `w` cells, each showing the given definition |
| Tiles.Paint | Model/Tile.cs:29-35 | the painted cell shows the new definition, the grid keeps its shape and every other cell is unchanged |
| Tiles.PaintSameIsNoOp | Model/Tile.cs:31 | assigning a cell the definition it already shows changes nothing |
| Tiles.PaintRow | Model/FileOps.cs:110-118 | painting the first n cells of a row in column order sets those cells, leaves the rest of the row and every other row unchanged |
| Tiles.PaintRowReplaces | Model/FileOps.cs:109-118 | painting a whole row cell by cell is the same as replacing the row by the parsed ids |
| Maps.Lookup | Model/Map.cs:93 | the dictionary lookup succeeds exactly when the id is a catalog key, and returns the catalog's entry for that id |
| Maps.NewMap | Model/Map.cs:44-58 | the new map has the given dimensions, every cell showing Null, a catalog holding only Null under id 0, and no name or path; it satisfies the map invariant |
| Maps.DefaultMap | Model/Map.cs:36-37 | the parameterless constructor gives a valid 40 by 40 map of Null cells |
| Maps.GetTileDefinition | Model/Map.cs:90-94 | the result is null exactly when no catalog entry has the id, and otherwise the entry with that id |
| Maps.AddDefinition | Model/FileOps.cs:94 | adding a definition under a new id keeps the map valid, makes the id look up to it, leaves every other id's lookup, the grid and the dimensions unchanged |
| Maps.SetWidth | Model/Map.cs:101 | setting the width leaves the grid, the catalog, the height, name and path as they were |
| Maps.SetHeight | Model/Map.cs:104 | setting the height leaves the grid, the catalog, the width, name and path as they were |
| Maps.DefinitionRows | Model/Map.cs:130 | each cell is replaced by the catalog definition its id looks up to, keeping the grid's shape |
| Maps.Project | Model/Map.cs:117-132 | the read-only interface shows the map's dimensions, the catalog's values in order, and each cell's definition, of the same shape as the grid |
| FileOps.FindAnnotation | Model/FileOps.cs:15 | the index found is a match of `\{c:'#([^']+)'\}$`, and any match is at that index, so a match exists exactly when one is found |
| FileOps.NewDefinition | Model/FileOps.cs:75-94 | no comment gives the next auto name `Unnamed <k>` (ushort wrap-around) and no colour; an annotated comment gives the text before it minus one character and the annotated colour, or the crash when the annotation starts the comment; any other comment is the name, colour left to be derived |
| FileOps.TileLine | Model/FileOps.cs:65-96 | a failure names the line; a success changes only the map's catalog and the auto-name counter, never the dimensions or the grid |
| FileOps.TileLineSpec | Model/FileOps.cs:65-96 | a short line or bad id fails, id 0 is ignored, a `t` line before the map crashes, a known id is a redefinition error; for a new id, a comment that is only an annotation crashes, and otherwise NewDefinition's definition (name, colour and auto-name from the pending comment, the line's path) is added under the id, the counter becomes NewDefinition's, and every other id keeps its definition |
| FileOps.HeaderLine | Model/FileOps.cs:49-101 | a failure names the line; a success keeps the map's shape, grid and row counter |
| FileOps.HeaderLineSpec | Model/FileOps.cs:49-101 | a comment only sets the pending comment; other lines clear it and enter body mode exactly on `begin`; `x`/`y` set one dimension and fail exactly on a missing or unparsable number; only `t` lines touch the map and the counter |
| FileOps.ParseRow | Model/FileOps.cs:110-117 | the row parses exactly when each of the first `width` tokens is a ushort naming a catalog entry; the ids are those values, and a failure reports the first bad column |
| FileOps.BodyLine | Model/FileOps.cs:104-121 | a failure names the line; a success keeps the map's shape and the line number |
| FileOps.BodyLineSpec | Model/FileOps.cs:104-121 | a row past the last, too few tokens, or an unknown id in the first `width` columns fails with the matching error; otherwise the next row becomes the parsed ids, all else stays, and body mode ends after the last row |
| FileOps.Step | Model/FileOps.cs:39-122 | blank lines only advance the line counter; the map appears at the first non-blank line after both dimensions are non-zero with those dimensions and Null cells, and keeps its shape; errors name this line |
| FileOps.Run | Model/FileOps.cs:39-123 | the line counter ends at the number of lines read, and any error names a line within the ones read |
| FileOps.Finish | Model/FileOps.cs:125-133 | no map is a crash; with a map the load succeeds exactly when every row was read, otherwise "unexpected end of file"; the result is the valid map with the file's name and path |
| FileOps.Load | Model/FileOps.cs:22-134 | an empty path fails; a loaded map is valid, non-empty and carries the file's base name and path; a reported line number is a line of the file |
| FileOps.SavedLines | Model/FileOps.cs:153-171 | the file is the two dimension lines and a blank, the definitions' lines, a blank and `begin`, one line per row, a blank and the closing comment |
| FileOps.DisplayName | Model/FileOps.cs:160 | a null or empty name is shown as `unnamed`, any other name as itself |
| FileOps.SavedPath | Model/FileOps.cs:161 | a null or empty path is written as the Null tile's path, any other path as itself |
| FileOps.DefinitionLines | Model/FileOps.cs:158-162 | writing succeeds exactly when every definition's colour can be read, and then writes for each definition in order `# <name> {c:'#rrggbb'}` with the colour read and `t <id> <path>`; otherwise it stops at the first definition whose colour cannot be read, carrying its id and the lines of the definitions before it |
| FileOps.WritesDefinitionsIndexed | Model/FileOps.cs:158-162 | the definitions' lines are two per definition, the comment line of definition i at 2i and its `t` line at 2i + 1 |
| FileOps.Save | Model/FileOps.cs:142-173 | saving fails on an empty path and succeeds exactly when every definition's colour can be read, and then writes the saved-file layout; a colour that cannot be read stops it after the dimension lines, a blank and the lines of the definitions before the failing one, which stay in the file |
| RoundTrip.RunConcat | Model/FileOps.cs:39-123 | reading a + b is reading a, then reading b from where a left off; an error in a is the error of the whole |
| RoundTrip.UnsetPathReadBack | Model/FileOps.cs:161 | a definition without a path is written with Null's path, and the line splits back into `t`, the id and `data/tiles/null`, which is not Null's path (that ends in a space) |
| RoundTrip.RunDimensions | Model/FileOps.cs:153-156 | the saved `x`, `y` and blank lines set the dimensions and create no map yet |
| RoundTrip.StepComment | Model/FileOps.cs:53-55 | a header-mode `# <text>` line makes `text` the pending comment and changes nothing else |
| RoundTrip.UnpackPack | Model/FileOps.cs:88 | unpacking the 24-bit value the annotation spells gives back the colour |
| RoundTrip.AnnotationDigitsValue | Model/FileOps.cs:160 | the saved annotation's six hex digits parse to the packed colour |
| RoundTrip.SavedCommentAnnotated | Model/FileOps.cs:160 | the comment Save writes has an annotation match right after the name and a space, whose digits parse to a value that unpacks to the colour |
| RoundTrip.StepIgnoredDefinition | Model/FileOps.cs:71 | a `t 0 <path>` line only clears the pending comment |
| RoundTrip.RunNullPair | Model/FileOps.cs:158-162 | the Null definition's two lines create the map with only Null in its catalog |
| RoundTrip.NewDefinitionOfSaved | Model/FileOps.cs:82-91 | the loader rebuilds a savable definition from its saved comment: same name, the written colour, the counter untouched |
| RoundTrip.RunDefinitionPair | Model/FileOps.cs:158-162 | a savable definition's two lines add it, with the colour Save read, to the catalog |
| RoundTrip.RunDefinitions | Model/FileOps.cs:158-162 | the lines of all definitions after Null add them, colours resolved and in order |
| RoundTrip.RunBegin | Model/FileOps.cs:164-165 | the blank line and `begin` switch to body mode at row 0 |
| RoundTrip.RowLineShape | Model/FileOps.cs:168 | a saved row line needs no trimming, splits into the numerals of its ids, and each numeral parses to its id |
| RoundTrip.BodyRow | Model/FileOps.cs:104-121 | reading a saved row replaces the next grid row by the row's ids and advances the row counter |
| RoundTrip.RunRows | Model/FileOps.cs:167-168 | reading the saved rows from row i on fills the grid in with the saved map's rows and ends body mode |
| RoundTrip.RunTail | Model/FileOps.cs:170-171 | after the last row the blank line and closing comment only leave a pending comment |
| RoundTrip.LoadSaveRoundTrip | Model/FileOps.cs:22-173 | saving a savable map succeeds, and loading the lines back gives the same dimensions, grid and catalog (colours resolved), with the name and path taken from the file path |
| MapViewModels.Resized | MapViewModel.cs:131-143 | the list has `count` elements: the old ones kept in order as far as they go, then the fill value |
| MapViewModels.ResizeList | MapViewModel.cs:131-143 | removing from the end while too long, else appending while too short, gives the resized list |
| MapViewModels.UpdateMapData | MapViewModel.cs:104-122 | afterwards the grid is `height` rows of `width` cells, each the old cell where it existed and Null elsewhere; nothing but the grid changes |
| MapViewModels.SetHeight | MapViewModel.cs:150-162 | assigning the current height changes nothing; another height resizes the grid to it, keeping surviving cells |
| MapViewModels.SetWidth | MapViewModel.cs:165-177 | assigning the current width changes nothing; another width resizes the grid to it, keeping surviving cells |
| MapViewModels.ResizedGrid | MapViewModel.cs:104-122 | the resized grid is each old row cut or padded with Null, then new rows of Null |
| MapViewModels.ShrinkThenGrow | MapViewModel.cs:150-162 | shrinking the height and growing it back loses the dropped rows: they return as rows of Null |
| MapViewModels.ResizeKeepsCellsDefined | MapViewModel.cs:114 | with Null in the catalog, resizing keeps every cell referring to a catalog definition |
| MapViewModels.WindowTitle | MapViewModel.cs:53-61 | the title is `CrapEditor` exactly when the name is null or empty, and `CrapEditor : <name>` otherwise |
| MapViewModels.View | MapViewModel.cs:204-219 | the read-only interface shows the view model's dimensions, its definitions, and each cell's definition |
| MapViewModels.ResizeKeepsSavable | MapViewModel.cs:150-177 | a savable map stays savable when the Width or Height setter resizes it to non-zero dimensions, and the read-only interface handed to Save is the resized map's |
| MapViewModels.ResizedSaveLoads | MainWindow.xaml.cs:101-104 | saving the view model after a width change and loading the file back gives the resized grid, the catalog with colours resolved, and the file's name and path |
| MapViewModels.FromMapView | MapViewModel.cs:32-43 | a view model built from a valid map shows through the read-only interface exactly what the map shows, and draws with Null |

`CrapEditor` is `MainWindow.DEFAULT_TITLE` (MainWindow.xaml.cs:18).

## Left out

- File I/O: `Load` reads the file's lines (as `StreamReader.ReadLine` splits them) and `Save` returns the lines `StreamWriter` would write; when `Save` fails part-way, the error carries the lines written before the failure, which are what the truncated file holds once the writer is disposed.
- FileOps.NewDefinition: strings are sequences of Unicode code points, not UTF-16 code units. When the character before `{c:` lies outside the Basic Multilingual Plane, `Substring(0, index - 1)` removes only its low surrogate and keeps a lone high surrogate in the name; the model removes the whole character.
- A null path is treated like an empty one; both raise `ArgumentNullException` in the code.
- `Save`'s null-map check: the read-only view passed in always exists.
- The regular-expression engine: the one pattern used is matched by a hand-written predicate.
- Text.ParseU16: `ushort.TryParse(string)` reads signs from the current culture; the model takes them to be `+` and `-`, as in the invariant culture.
- `string.GetHashCode` and `Path.GetFileName` are parameters: the runtime does not fix the first, and the second is a foreign call.
- The alpha channel of `Color` (always opaque) and everything about rendering.
- Change notification (`ObservableObject`, `RaisePropertyChanged`) and the view model's `updated` flag: they have no effect on the model's state.
- Object identity: a tile holds a reference to its definition, the model holds the definition's id; the `Tile.Definition` setter's reference comparison becomes an id comparison.
- `Dictionary.Values` enumerates in insertion order here because nothing is ever removed; the catalog is a sequence in insertion order.
- Save's side effect of caching derived colours into the map's definitions: the round trip states the result with `Resolve` applied instead.
- RoundTrip.LoadSaveRoundTrip: stated for savable maps only. Outside them the map does not come back unchanged: a null or empty name is saved as `unnamed` and comes back as that name; a null or empty path is saved as the Null tile's path `data/tiles/null ` and comes back as `data/tiles/null`, without the trailing space that trimming the line removes (RoundTrip.UnsetPathReadBack); a name that starts with white space or holds a line break, a path holding white space, or an id outside 1..65535 after Null is read back differently or not at all; and a definition with neither colour nor name makes Save fail (FileOps.Save's contract).
- MapViewModels.FromMap: requires a non-empty catalog; on an empty one the code throws when reading the first definition.
- The view model's `Name`, `FilePath` and `CurrentTile` setters and the collection getters: plain field access.
- The WPF window, `DesignMap`, the `IMap` interface declarations and `ObservableObject` are not part of this model, apart from `MainWindow.DEFAULT_TITLE`.
- Exception message texts: each error constructor carries the values the message would show.
