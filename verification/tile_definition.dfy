/** A catalogued tile type: id, name, asset path and a colour that is either
    assigned or derived once from the name's hash code and then cached. */
module TileDefinitions {
  import opened Basics

  datatype Rgb = Rgb(r: byte, g: byte, b: byte)

  const Black := Rgb(0, 0, 0)

  /** A tile definition. `name` and `path` are nullable strings. `color` is
      the stored colour: None until one is assigned or first derived. */
  datatype TileDefinition = TileDefinition(
    id: int,
    name: Option<string>,
    path: Option<string>,
    color: Option<Rgb>)

  /** BitConverter.GetBytes of a 32-bit int: its two's complement bit
      pattern as four little-endian bytes. */
  function GetBytes(h: int): (bytes: seq<byte>)
    ensures |bytes| == 4
    ensures (bytes[0] as int) + 0x100 * (bytes[1] as int) + 0x1_0000 * (bytes[2] as int)
            + 0x100_0000 * (bytes[3] as int)
            == h % 0x1_0000_0000
  {
    var v := h % 0x1_0000_0000;
    var v1 := v / 0x100;
    var v2 := v1 / 0x100;
    [v % 0x100, v1 % 0x100, v2 % 0x100, v2 / 0x100]
  }

  /** ColourFromString once the string's hash code is known: the first three
      bytes of the hash become red, green and blue. */
  function ColourFromHash(h: int): (c: Rgb)
    ensures (h - ((c.r as int) + 0x100 * (c.g as int) + 0x1_0000 * (c.b as int))) % 0x100_0000 == 0
  {
    var bytes := GetBytes(h);
    var c := Rgb(bytes[0], bytes[1], bytes[2]);
    var q := h / 0x1_0000_0000;
    assert h == 0x1_0000_0000 * q + h % 0x1_0000_0000;
    assert h - ((c.r as int) + 0x100 * (c.g as int) + 0x1_0000 * (c.b as int))
      == 0x100_0000 * (0x100 * q + bytes[3]);
    c
  }

  /** ColourFromString(str) for a nullable string; None stands for the
      NullReferenceException that calling GetHashCode on null raises.
      `hash` is string.GetHashCode, which the runtime does not fix. */
  function ColourFromString(hash: string -> int, s: Option<string>): (c: Option<Rgb>)
    ensures c.Some? <==> s.Some?
  {
    match s
    case None => None
    case Some(str) => Some(ColourFromHash(hash(str)))
  }

  /** What one read of the Color property returns, and the definition as it
      stands afterwards (the read may cache a derived colour). */
  datatype ColorRead = ColorRead(colour: Rgb, after: TileDefinition)

  /** The Color getter. None stands for the crash of deriving a colour from
      a null name. */
  function GetColor(d: TileDefinition, hash: string -> int): (r: Option<ColorRead>)
    ensures r.None? <==> d.color.None? && d.name.None?
    ensures r.Some? ==> r.value.after == d.(color := Some(r.value.colour))
  {
    match d.color
    case Some(c) => Some(ColorRead(c, d))
    case None =>
      match ColourFromString(hash, d.name)
      case None => None
      case Some(c) => Some(ColorRead(c, d.(color := Some(c))))
  }

  /** The Color setter: replaces whatever colour was stored. */
  function SetColor(d: TileDefinition, c: Rgb): (r: TileDefinition)
    ensures r.color == Some(c)
    ensures r.id == d.id && r.name == d.name && r.path == d.path
  {
    d.(color := Some(c))
  }

  /** The Id setter; assigning the current value is a no-op. */
  function SetId(d: TileDefinition, id: int): (r: TileDefinition) {
    if d.id == id then d else d.(id := id)
  }

  /** The Name setter; assigning the current value is a no-op. */
  function SetName(d: TileDefinition, name: Option<string>): (r: TileDefinition) {
    if d.name == name then d else d.(name := name)
  }

  /** The Path setter; assigning the current value is a no-op. */
  function SetPath(d: TileDefinition, path: Option<string>): (r: TileDefinition) {
    if d.path == path then d else d.(path := path)
  }

  /** Each setter changes its own field to the new value and nothing else. */
  lemma SettersChangeOneField(d: TileDefinition, id: int, name: Option<string>, path: Option<string>)
    ensures SetId(d, id) == TileDefinition(id, d.name, d.path, d.color)
    ensures SetName(d, name) == TileDefinition(d.id, name, d.path, d.color)
    ensures SetPath(d, path) == TileDefinition(d.id, d.name, path, d.color)
    ensures SetId(d, d.id) == d && SetName(d, d.name) == d && SetPath(d, d.path) == d
  {
  }

  /** An assigned colour is what every later read returns. */
  lemma ReadAfterSet(d: TileDefinition, c: Rgb, hash: string -> int)
    ensures GetColor(SetColor(d, c), hash) == Some(ColorRead(c, SetColor(d, c)))
  {
  }

  /** Without an assigned colour the first read derives it from the name;
      a later read returns the cached colour even after the name changed. */
  lemma ColourCachedOnFirstRead(d: TileDefinition, hash: string -> int, newName: Option<string>)
    requires d.color.None? && d.name.Some?
    ensures GetColor(d, hash).Some?
    ensures GetColor(d, hash).value.colour == ColourFromHash(hash(d.name.value))
    ensures var later := SetName(GetColor(d, hash).value.after, newName);
      GetColor(later, hash) == Some(ColorRead(GetColor(d, hash).value.colour, later))
  {
  }

  /** The colour the serialiser writes for a definition, with the read's
      caching applied; a definition with neither colour nor name is left as
      it is. */
  function Resolve(d: TileDefinition, hash: string -> int): (r: TileDefinition)
    ensures r.id == d.id && r.name == d.name && r.path == d.path
    ensures d.color.Some? ==> r == d
    ensures d.color.None? && d.name.Some? ==> r.color == Some(ColourFromHash(hash(d.name.value)))
  {
    match GetColor(d, hash)
    case Some(read) => read.after
    case None => d
  }

  function ResolveAll(ds: seq<TileDefinition>, hash: string -> int): (rs: seq<TileDefinition>)
    ensures |rs| == |ds| && forall i :: 0 <= i < |ds| ==> rs[i] == Resolve(ds[i], hash)
  {
    seq(|ds|, i requires 0 <= i < |ds| => Resolve(ds[i], hash))
  }
}
