/** The string primitives the loader and the serialiser rely on: trimming,
    splitting into tokens, and decimal and hexadecimal numerals. */
module Text {
  import opened Basics

  // ---------------------------------------------------------------------
  // White space and trimming
  // ---------------------------------------------------------------------

  /** The characters .NET's char.IsWhiteSpace accepts, which String.Trim
      removes from both ends. */
  predicate IsWhiteSpace(c: char) {
    || c == ' '
    || ('\t' <= c <= '\r')
    || c == '\U{85}'
    || c == '\U{A0}'
    || c == '\U{1680}'
    || ('\U{2000}' <= c <= '\U{200A}')
    || c == '\U{2028}'
    || c == '\U{2029}'
    || c == '\U{202F}'
    || c == '\U{205F}'
    || c == '\U{3000}'
  }

  predicate AllWhiteSpace(s: string) {
    forall i :: 0 <= i < |s| ==> IsWhiteSpace(s[i])
  }

  /** No white space at either end (the empty string qualifies). */
  predicate IsTrimmed(s: string) {
    |s| > 0 ==> !IsWhiteSpace(s[0]) && !IsWhiteSpace(s[|s| - 1])
  }

  /** Drops leading white space: the result is the longest suffix of `s`
      that does not start with white space. */
  function TrimStart(s: string): (r: string)
    ensures |r| <= |s|
    ensures AllWhiteSpace(s[..|s| - |r|])
    ensures |r| > 0 ==> !IsWhiteSpace(r[0])
    decreases |s|
  {
    if |s| > 0 && IsWhiteSpace(s[0]) then TrimStart(s[1..]) else s
  }

  /** What TrimStart keeps is a suffix of its argument. */
  lemma {:induction false} TrimStartSuffix(s: string)
    ensures TrimStart(s) == s[|s| - |TrimStart(s)|..]
    decreases |s|
  {
    if |s| > 0 && IsWhiteSpace(s[0]) {
      TrimStartSuffix(s[1..]);
    }
  }

  /** Drops trailing white space: the result is the longest prefix of `s`
      that does not end with white space. */
  function TrimEnd(s: string): (r: string)
    ensures |r| <= |s| && r == s[..|r|]
    ensures AllWhiteSpace(s[|r|..])
    ensures |r| > 0 ==> !IsWhiteSpace(r[|r| - 1])
    decreases |s|
  {
    if |s| > 0 && IsWhiteSpace(s[|s| - 1]) then TrimEnd(s[..|s| - 1]) else s
  }

  /** String.Trim. */
  function Trim(s: string): (r: string)
    ensures |r| <= |s|
    ensures IsTrimmed(r)
    ensures r == "" <==> AllWhiteSpace(s)
  {
    var t := TrimStart(s);
    TrimStartSuffix(s);
    var r := TrimEnd(t);
    assert r == "" ==> AllWhiteSpace(s) by {
      if r == "" {
        assert s == s[..|s| - |t|] + t;
        assert t == t[..0] + t[0..];
      }
    }
    r
  }

  lemma {:induction false} TrimStartPadded(w: string, s: string)
    requires AllWhiteSpace(w)
    requires |s| > 0 ==> !IsWhiteSpace(s[0])
    ensures TrimStart(w + s) == s
    decreases |w|
  {
    if |w| > 0 {
      assert (w + s)[1..] == w[1..] + s;
      TrimStartPadded(w[1..], s);
    } else {
      assert w + s == s;
    }
  }

  lemma {:induction false} TrimEndPadded(s: string, w: string)
    requires AllWhiteSpace(w)
    requires |s| > 0 ==> !IsWhiteSpace(s[|s| - 1])
    ensures TrimEnd(s + w) == s
    decreases |w|
  {
    if |w| > 0 {
      assert (s + w)[..|s + w| - 1] == s + w[..|w| - 1];
      TrimEndPadded(s, w[..|w| - 1]);
    } else {
      assert s + w == s;
    }
  }

  /** Trim removes exactly the white space around a trimmed core: together
      with Trim's own contract this pins the result down completely. */
  lemma TrimPadded(w1: string, s: string, w2: string)
    requires AllWhiteSpace(w1) && AllWhiteSpace(w2)
    requires IsTrimmed(s)
    ensures Trim(w1 + s + w2) == s
  {
    if |s| == 0 {
      assert AllWhiteSpace(w1 + s + w2);
    } else {
      assert w1 + s + w2 == w1 + (s + w2);
      assert (s + w2)[0] == s[0];
      TrimStartPadded(w1, s + w2);
      TrimEndPadded(s, w2);
    }
  }

  /** A trimmed string is its own trim. */
  lemma TrimTrimmed(s: string)
    requires IsTrimmed(s)
    ensures Trim(s) == s
  {
    TrimPadded("", s, "");
    assert "" + s + "" == s;
  }

  // ---------------------------------------------------------------------
  // Tokens: String.Split(new[] {' ', '\t'}, RemoveEmptyEntries)
  // ---------------------------------------------------------------------

  predicate IsSeparator(c: char) {
    c == ' ' || c == '\t'
  }

  /** A non-empty run of non-separator characters. */
  predicate IsToken(t: string) {
    |t| > 0 && forall i :: 0 <= i < |t| ==> !IsSeparator(t[i])
  }

  /** Index of the first separator in `s`, or |s| if there is none. */
  function TokenEnd(s: string): (k: nat)
    ensures k <= |s|
    ensures forall i :: 0 <= i < k ==> !IsSeparator(s[i])
    ensures k < |s| ==> IsSeparator(s[k])
    decreases |s|
  {
    if |s| == 0 || IsSeparator(s[0]) then 0 else 1 + TokenEnd(s[1..])
  }

  /** Splits on spaces and tabs, dropping empty entries. */
  function Split(s: string): (tokens: seq<string>)
    ensures forall i :: 0 <= i < |tokens| ==> IsToken(tokens[i])
    ensures |s| > 0 && !IsSeparator(s[0]) ==> |tokens| > 0 && |tokens[0]| > 0 && tokens[0][0] == s[0]
    decreases |s|
  {
    if |s| == 0 then []
    else if IsSeparator(s[0]) then Split(s[1..])
    else
      var k := TokenEnd(s);
      [s[..k]] + Split(s[k..])
  }

  /** The tokens joined by single spaces (string.Join(" ", ...)). */
  function Join(tokens: seq<string>): string
    decreases |tokens|
  {
    if |tokens| == 0 then ""
    else if |tokens| == 1 then tokens[0]
    else tokens[0] + " " + Join(tokens[1..])
  }

  lemma TokenEndOfToken(t: string, rest: string)
    requires IsToken(t)
    requires |rest| > 0 ==> IsSeparator(rest[0])
    ensures TokenEnd(t + rest) == |t|
  {
    var s := t + rest;
    assert forall i :: 0 <= i < |t| ==> s[i] == t[i];
    if |rest| > 0 {
      assert s[|t|] == rest[0];
    }
  }

  /** Split undoes Join when every token is a genuine token. */
  lemma {:induction false} SplitJoin(tokens: seq<string>)
    requires forall i :: 0 <= i < |tokens| ==> IsToken(tokens[i])
    ensures Split(Join(tokens)) == tokens
    decreases |tokens|
  {
    if |tokens| == 0 {
    } else if |tokens| == 1 {
      var t := tokens[0];
      TokenEndOfToken(t, "");
      assert t + "" == t;
      assert t[..|t|] == t;
      assert t[|t|..] == "";
    } else {
      var t := tokens[0];
      var rest := " " + Join(tokens[1..]);
      var s := t + rest;
      assert Join(tokens) == s;
      TokenEndOfToken(t, rest);
      assert s[..|t|] == t;
      assert s[|t|..] == rest;
      assert rest[1..] == Join(tokens[1..]);
      SplitJoin(tokens[1..]);
      assert Split(rest) == Split(Join(tokens[1..]));
      assert tokens == [t] + tokens[1..];
    }
  }

  predicate AllSeparators(g: string) {
    forall i :: 0 <= i < |g| ==> IsSeparator(g[i])
  }

  /** The tokens with the separator runs `gaps` around and between them:
      gaps[0] + tokens[0] + gaps[1] + ... + tokens[n - 1] + gaps[n]. */
  function Interleave(gaps: seq<string>, tokens: seq<string>): string
    requires |gaps| == |tokens| + 1
    decreases |tokens|
  {
    if |tokens| == 0 then gaps[0] else gaps[0] + tokens[0] + Interleave(gaps[1..], tokens[1..])
  }

  /** Tokens with runs of separators around them, the runs between two
      tokens non-empty. */
  predicate Separated(gaps: seq<string>, tokens: seq<string>) {
    && |gaps| == |tokens| + 1
    && (forall i :: 0 <= i < |tokens| ==> IsToken(tokens[i]))
    && (forall i :: 0 <= i < |gaps| ==> AllSeparators(gaps[i]))
    && (forall i :: 0 < i < |tokens| ==> |gaps[i]| > 0)
  }

  /** Separators in front do not change the split. */
  lemma {:induction false} SplitAfterSeparators(g: string, rest: string)
    requires AllSeparators(g)
    ensures Split(g + rest) == Split(rest)
    decreases |g|
  {
    if |g| > 0 {
      assert (g + rest)[0] == g[0];
      assert (g + rest)[1..] == g[1..] + rest;
      SplitAfterSeparators(g[1..], rest);
    } else {
      assert g + rest == rest;
    }
  }

  /** Interleaving a non-empty run of separators after the first starts
      with a separator. */
  lemma InterleaveStart(gaps: seq<string>, tokens: seq<string>)
    requires Separated(gaps, tokens)
    ensures |gaps[0]| > 0 ==> |Interleave(gaps, tokens)| > 0 && IsSeparator(Interleave(gaps, tokens)[0])
  {
    if |gaps[0]| > 0 && |tokens| > 0 {
      assert Interleave(gaps, tokens) == gaps[0] + (tokens[0] + Interleave(gaps[1..], tokens[1..]));
    }
  }

  /** Splitting tokens laid out between runs of separators gives the
      tokens back. */
  lemma {:induction false} SplitInterleave(gaps: seq<string>, tokens: seq<string>)
    requires Separated(gaps, tokens)
    ensures Split(Interleave(gaps, tokens)) == tokens
    decreases |tokens|
  {
    if |tokens| == 0 {
      assert gaps[0] == gaps[0] + "";
      SplitAfterSeparators(gaps[0], "");
    } else {
      var t := tokens[0];
      var rest := Interleave(gaps[1..], tokens[1..]);
      assert Separated(gaps[1..], tokens[1..]);
      assert Interleave(gaps, tokens) == gaps[0] + (t + rest);
      SplitAfterSeparators(gaps[0], t + rest);
      assert |rest| > 0 ==> IsSeparator(rest[0]) by {
        if |tokens| > 1 {
          InterleaveStart(gaps[1..], tokens[1..]);
        }
      }
      TokenEndOfToken(t, rest);
      var s := t + rest;
      assert s[0] == t[0];
      assert s[..|t|] == t;
      assert s[|t|..] == rest;
      SplitInterleave(gaps[1..], tokens[1..]);
      assert tokens == [t] + tokens[1..];
    }
  }

  /** The separator runs around and between the tokens of `s`. */
  function Gaps(s: string): (gaps: seq<string>)
    ensures |gaps| == |Split(s)| + 1
    ensures |s| > 0 && IsSeparator(s[0]) ==> |gaps[0]| > 0
    decreases |s|
  {
    if |s| == 0 then [""]
    else if IsSeparator(s[0]) then
      var g := Gaps(s[1..]);
      [[s[0]] + g[0]] + g[1..]
    else
      [""] + Gaps(s[TokenEnd(s)..])
  }

  /** Re-association with a head element in front. */
  lemma ConsAssoc<T>(c: T, a: seq<T>, b: seq<T>, x: seq<T>)
    ensures ([c] + a) + b + x == [c] + (a + b + x)
  {
  }

  /** A separator added to the first run adds it in front of the whole. */
  lemma InterleaveFirst(c: char, gaps: seq<string>, tokens: seq<string>)
    requires |gaps| == |tokens| + 1
    ensures Interleave([[c] + gaps[0]] + gaps[1..], tokens) == [c] + Interleave(gaps, tokens)
  {
    var gaps' := [[c] + gaps[0]] + gaps[1..];
    assert gaps'[0] == [c] + gaps[0];
    assert gaps'[1..] == gaps[1..];
    if |tokens| > 0 {
      ConsAssoc(c, gaps[0], tokens[0], Interleave(gaps[1..], tokens[1..]));
    }
  }

  /** The gaps of `s` and its split lay `s` out again. */
  lemma {:induction false} GapsSplit(s: string)
    ensures Separated(Gaps(s), Split(s))
    ensures Interleave(Gaps(s), Split(s)) == s
    decreases |s|, 1
  {
    if |s| == 0 {
    } else if IsSeparator(s[0]) {
      GapsSeparatorStep(s);
    } else {
      GapsTokenStep(s);
    }
  }

  /** GapsSplit's step over a separator. */
  lemma {:induction false} GapsSeparatorStep(s: string)
    requires |s| > 0 && IsSeparator(s[0])
    ensures Separated(Gaps(s), Split(s))
    ensures Interleave(Gaps(s), Split(s)) == s
    decreases |s|, 0
  {
    GapsSplit(s[1..]);
    var g := Gaps(s[1..]);
    var ts := Split(s);
    assert ts == Split(s[1..]);
    InterleaveFirst(s[0], g, ts);
    assert s == [s[0]] + s[1..];
    assert AllSeparators([s[0]] + g[0]);
    assert Gaps(s) == [[s[0]] + g[0]] + g[1..];
    assert forall i :: 1 <= i < |Gaps(s)| ==> Gaps(s)[i] == g[i];
  }

  /** GapsSplit's step over a token. */
  lemma {:induction false} GapsTokenStep(s: string)
    requires |s| > 0 && !IsSeparator(s[0])
    ensures Separated(Gaps(s), Split(s))
    ensures Interleave(Gaps(s), Split(s)) == s
    decreases |s|, 0
  {
    var k := TokenEnd(s);
    var t := s[..k];
    GapsSplit(s[k..]);
    var g := Gaps(s[k..]);
    var ts := Split(s[k..]);
    assert Split(s) == [t] + ts;
    assert Gaps(s) == [""] + g;
    assert Interleave(Gaps(s), Split(s)) == "" + t + Interleave(g, ts);
    assert "" + t == t;
    assert s == t + s[k..];
    assert IsToken(t);
    assert |ts| > 0 ==> |g[0]| > 0;
    assert forall i :: 1 <= i < |Gaps(s)| ==> Gaps(s)[i] == g[i - 1];
    assert forall i :: 1 <= i < |Split(s)| ==> Split(s)[i] == ts[i - 1];
  }

  /** Split(s) is exactly the tokens that `s` lays out between runs of
      spaces and tabs, with optional runs at either end. */
  lemma SplitLayout(s: string, tokens: seq<string>)
    ensures Split(s) == tokens <==> exists gaps :: Separated(gaps, tokens) && Interleave(gaps, tokens) == s
  {
    if Split(s) == tokens {
      GapsSplit(s);
    }
    if exists gaps :: Separated(gaps, tokens) && Interleave(gaps, tokens) == s {
      var gaps :| Separated(gaps, tokens) && Interleave(gaps, tokens) == s;
      SplitInterleave(gaps, tokens);
    }
  }

  /** A join of tokens starts and ends with a non-separator character. */
  lemma {:induction false} JoinEnds(tokens: seq<string>)
    requires |tokens| > 0
    requires forall i :: 0 <= i < |tokens| ==> IsToken(tokens[i])
    ensures |Join(tokens)| > 0
    ensures IsToken(tokens[0]) && Join(tokens)[0] == tokens[0][0]
    ensures var last := tokens[|tokens| - 1];
      IsToken(last) && Join(tokens)[|Join(tokens)| - 1] == last[|last| - 1]
    decreases |tokens|
  {
    if |tokens| > 1 {
      JoinEnds(tokens[1..]);
    }
  }

  // ---------------------------------------------------------------------
  // Decimal numerals
  // ---------------------------------------------------------------------

  predicate IsDigit(c: char) {
    '0' <= c <= '9'
  }

  predicate AllDigits(s: string) {
    forall i :: 0 <= i < |s| ==> IsDigit(s[i])
  }

  function DigitChar(d: nat): char
    requires d < 10
  {
    ('0' as int + d) as char
  }

  /** The number a string of decimal digits denotes. */
  function DecimalValue(s: string): nat
    requires AllDigits(s)
    decreases |s|
  {
    if |s| == 0 then 0
    else DecimalValue(s[..|s| - 1]) * 10 + (s[|s| - 1] as int - '0' as int)
  }

  /** n.ToString() for a non-negative number: the shortest decimal numeral
      denoting n. */
  function NatToString(n: nat): (s: string)
    ensures |s| > 0 && AllDigits(s)
    ensures DecimalValue(s) == n
    ensures s[0] == '0' ==> n == 0
    decreases n
  {
    if n < 10 then [DigitChar(n)]
    else
      var prefix := NatToString(n / 10);
      var s := prefix + [DigitChar(n % 10)];
      assert s[..|s| - 1] == prefix;
      s
  }

  /** int.ToString(): a minus sign before the magnitude of a negative number. */
  function IntToString(n: int): string {
    if n < 0 then "-" + NatToString(-n) else NatToString(n)
  }

  // ---------------------------------------------------------------------
  // The runs the number parser reads
  // ---------------------------------------------------------------------

  /** The character classes the number parser reads in runs. NumberWhite is
      the white space it skips around a number: U+0009 to U+000D and the
      space. */
  datatype CharClass = NumberWhite | Decimal | Hexadecimal

  predicate InClass(c: char, k: CharClass) {
    match k
    case NumberWhite => c == ' ' || '\t' <= c <= '\r'
    case Decimal => IsDigit(c)
    case Hexadecimal => IsHexDigit(c)
  }

  predicate AllIn(s: string, k: CharClass) {
    forall i :: 0 <= i < |s| ==> InClass(s[i], k)
  }

  predicate AllNul(s: string) {
    forall i :: 0 <= i < |s| ==> s[i] == '\0'
  }

  /** What the number scanner is reading: leading white space, the
      character after a sign, digits, or trailing white space. */
  datatype Phase = Leading | Signed | InDigits | Trailing

  /** The sign and digits a scan has read. */
  datatype Numeral = Numeral(sign: string, digits: string)

  /** A scan's result with one more digit read in front. */
  function WithDigit(c: char, r: Option<Numeral>): Option<Numeral> {
    if r.None? then None else Some(Numeral(r.value.sign, [c] + r.value.digits))
  }

  /** A scan's result with the sign read in front. */
  function WithSign(c: char, r: Option<Numeral>): Option<Numeral> {
    if r.None? then None else Some(Numeral([c], r.value.digits))
  }

  /** The runtime's number scanner, one character at a time, for
      NumberStyles.Integer (k = Decimal, a sign allowed) and
      NumberStyles.HexNumber (k = Hexadecimal, no sign). Once digits have
      been read, a string that ends in NULs ends there. */
  function Scan(s: string, k: CharClass, phase: Phase): Option<Numeral>
    decreases |s|
  {
    if |s| == 0 then
      if phase == InDigits || phase == Trailing then Some(Numeral("", "")) else None
    else
      var c := s[0];
      match phase
      case Leading =>
        if InClass(c, NumberWhite) then Scan(s[1..], k, Leading)
        else if k == Decimal && (c == '+' || c == '-') then WithSign(c, Scan(s[1..], k, Signed))
        else if InClass(c, k) then WithDigit(c, Scan(s[1..], k, InDigits))
        else None
      case Signed =>
        if InClass(c, k) then WithDigit(c, Scan(s[1..], k, InDigits)) else None
      case InDigits =>
        if InClass(c, k) then WithDigit(c, Scan(s[1..], k, InDigits))
        else if InClass(c, NumberWhite) then Scan(s[1..], k, Trailing)
        else if AllNul(s) then Some(Numeral("", ""))
        else None
      case Trailing =>
        if InClass(c, NumberWhite) then Scan(s[1..], k, Trailing)
        else if AllNul(s) then Some(Numeral("", ""))
        else None
  }

  /** The layout a scan in class k accepts: white space, a sign (decimal
      only), at least one digit, white space, and NULs. */
  predicate NumeralLayout(s: string, k: CharClass, lead: string, sign: string, digits: string, trail: string, nuls: string) {
    && s == lead + sign + digits + trail + nuls
    && AllIn(lead, NumberWhite)
    && (sign == "" || (k == Decimal && (sign == "+" || sign == "-")))
    && |digits| > 0 && AllIn(digits, k)
    && AllIn(trail, NumberWhite)
    && AllNul(nuls)
  }

  /** The digit classes: neither holds white space, NUL or a sign. */
  predicate DigitClass(k: CharClass) {
    k == Decimal || k == Hexadecimal
  }

  /** Trailing white space and NULs end the scan. */
  lemma {:induction false} TrailingComplete(trail: string, nuls: string, k: CharClass)
    requires AllIn(trail, NumberWhite) && AllNul(nuls)
    ensures Scan(trail + nuls, k, Trailing) == Some(Numeral("", ""))
    decreases |trail|
  {
    var s := trail + nuls;
    if |trail| > 0 {
      assert s[0] == trail[0];
      assert s[1..] == trail[1..] + nuls;
      TrailingComplete(trail[1..], nuls, k);
    } else {
      assert s == nuls;
    }
  }

  /** Digits of class k, then white space and NULs, are read in full. */
  lemma {:induction false} DigitsComplete(ds: string, trail: string, nuls: string, k: CharClass)
    requires DigitClass(k)
    requires AllIn(ds, k) && AllIn(trail, NumberWhite) && AllNul(nuls)
    ensures Scan(ds + trail + nuls, k, InDigits) == Some(Numeral("", ds))
    decreases |ds|
  {
    var s := ds + trail + nuls;
    if |ds| > 0 {
      assert s[0] == ds[0];
      assert s[1..] == ds[1..] + trail + nuls;
      assert ds == [ds[0]] + ds[1..];
      DigitsComplete(ds[1..], trail, nuls, k);
    } else if |trail| > 0 {
      assert s == trail + nuls;
      assert s[1..] == trail[1..] + nuls;
      TrailingComplete(trail[1..], nuls, k);
    } else {
      assert s == nuls;
    }
  }

  /** A string in the layout of class k scans to its sign and digits. */
  lemma {:induction false} LeadingComplete(s: string, k: CharClass, lead: string, sign: string, ds: string, trail: string, nuls: string)
    requires DigitClass(k)
    requires NumeralLayout(s, k, lead, sign, ds, trail, nuls)
    ensures Scan(s, k, Leading) == Some(Numeral(sign, ds))
    decreases |lead|
  {
    if |lead| > 0 {
      assert s[0] == lead[0];
      assert s[1..] == lead[1..] + sign + ds + trail + nuls;
      LeadingComplete(s[1..], k, lead[1..], sign, ds, trail, nuls);
    } else if sign != "" {
      assert s == sign + (ds + trail + nuls);
      assert s[0] == sign[0] && s[1..] == ds + trail + nuls;
      DigitsComplete(ds, trail, nuls, k);
      assert s[1..][0] == ds[0];
      assert [sign[0]] == sign;
    } else {
      assert s == ds + trail + nuls;
      DigitsComplete(ds, trail, nuls, k);
      assert s[0] == ds[0];
    }
  }

  /** A scan from trailing white space accepts only white space then
      NULs. */
  lemma {:induction false} TrailingSound(s: string, k: CharClass)
    ensures var r := Scan(s, k, Trailing);
      r.Some? ==> (r.value == Numeral("", "") &&
        exists trail, nuls :: s == trail + nuls && AllIn(trail, NumberWhite) && AllNul(nuls))
    decreases |s|
  {
    if Scan(s, k, Trailing).Some? {
      if |s| == 0 || (!InClass(s[0], NumberWhite) && AllNul(s)) {
        assert s == "" + s && AllIn("", NumberWhite);
      } else {
        TrailingSound(s[1..], k);
        var trail, nuls :| s[1..] == trail + nuls && AllIn(trail, NumberWhite) && AllNul(nuls);
        assert s == ([s[0]] + trail) + nuls;
        AllInCons(s[0], trail, NumberWhite);
      }
    }
  }

  /** A scan from the digits accepts only digits of class k, white space,
      then NULs, and reads those digits. */
  lemma {:induction false} DigitsSound(s: string, k: CharClass)
    ensures var r := Scan(s, k, InDigits);
      r.Some? ==> exists ds, trail, nuls ::
        && s == ds + trail + nuls && AllIn(ds, k) && AllIn(trail, NumberWhite) && AllNul(nuls)
        && r.value == Numeral("", ds)
    decreases |s|
  {
    var r := Scan(s, k, InDigits);
    if r.Some? {
      if |s| == 0 || (!InClass(s[0], k) && !InClass(s[0], NumberWhite) && AllNul(s)) {
        assert s == "" + "" + s && AllIn("", k) && AllIn("", NumberWhite);
      } else if InClass(s[0], k) {
        DigitsStep(s, k);
      } else {
        TrailingSound(s[1..], k);
        var trail, nuls :| s[1..] == trail + nuls && AllIn(trail, NumberWhite) && AllNul(nuls);
        assert s == "" + ([s[0]] + trail) + nuls;
        assert AllIn([s[0]] + trail, NumberWhite) && AllIn("", k);
      }
    }
  }

  /** DigitsSound's step over a digit. */
  lemma {:induction false} DigitsStep(s: string, k: CharClass)
    requires |s| > 0 && InClass(s[0], k)
    requires Scan(s, k, InDigits).Some?
    ensures exists ds, trail, nuls ::
      && s == ds + trail + nuls && AllIn(ds, k) && AllIn(trail, NumberWhite) && AllNul(nuls)
      && Scan(s, k, InDigits).value == Numeral("", ds)
    decreases |s|, 0
  {
    DigitsSound(s[1..], k);
    var ds, trail, nuls :| && s[1..] == ds + trail + nuls && AllIn(ds, k) && AllIn(trail, NumberWhite) && AllNul(nuls)
      && Scan(s[1..], k, InDigits).value == Numeral("", ds);
    ConsParts(s, ds, trail, nuls);
    AllInCons(s[0], ds, k);
  }

  /** A scan from the start accepts only strings in the layout of class k,
      and reads their sign and digits. */
  lemma {:induction false} LeadingSound(s: string, k: CharClass)
    ensures var r := Scan(s, k, Leading);
      r.Some? ==> exists lead, sign, ds, trail, nuls ::
        NumeralLayout(s, k, lead, sign, ds, trail, nuls) && r.value == Numeral(sign, ds)
    decreases |s|, 1
  {
    if Scan(s, k, Leading).Some? {
      if InClass(s[0], NumberWhite) {
        LeadingWhiteStep(s, k);
      } else if k == Decimal && (s[0] == '+' || s[0] == '-') {
        SignedSound(s, k);
      } else {
        LeadingDigitStep(s, k);
      }
    }
  }

  /** LeadingSound's step over white space. */
  lemma {:induction false} LeadingWhiteStep(s: string, k: CharClass)
    requires |s| > 0 && InClass(s[0], NumberWhite)
    requires Scan(s, k, Leading).Some?
    ensures exists lead, sign, ds, trail, nuls ::
      NumeralLayout(s, k, lead, sign, ds, trail, nuls) && Scan(s, k, Leading).value == Numeral(sign, ds)
    decreases |s|, 0
  {
    var c := s[0];
    assert Scan(s, k, Leading) == Scan(s[1..], k, Leading);
    LeadingSound(s[1..], k);
    var lead, sign, ds, trail, nuls :| NumeralLayout(s[1..], k, lead, sign, ds, trail, nuls)
      && Scan(s[1..], k, Leading).value == Numeral(sign, ds);
    ConsParts5(s, lead, sign, ds, trail, nuls);
    AllInCons(c, lead, NumberWhite);
    assert NumeralLayout(s, k, [c] + lead, sign, ds, trail, nuls);
  }

  /** LeadingSound's step over the first digit. */
  lemma LeadingDigitStep(s: string, k: CharClass)
    requires |s| > 0 && !InClass(s[0], NumberWhite) && !(k == Decimal && (s[0] == '+' || s[0] == '-'))
    requires Scan(s, k, Leading).Some?
    ensures exists lead, sign, ds, trail, nuls ::
      NumeralLayout(s, k, lead, sign, ds, trail, nuls) && Scan(s, k, Leading).value == Numeral(sign, ds)
  {
    assert InClass(s[0], k);
    assert Scan(s, k, Leading) == Scan(s, k, InDigits);
    DigitsSound(s, k);
    var ds, trail, nuls :| && s == ds + trail + nuls && AllIn(ds, k) && AllIn(trail, NumberWhite) && AllNul(nuls)
      && Scan(s, k, InDigits).value == Numeral("", ds);
    Unpadded(ds + trail + nuls);
    assert |ds| > 0 by {
      DigitsNonEmpty(s, k);
    }
    assert AllIn("", NumberWhite);
    assert NumeralLayout(s, k, "", "", ds, trail, nuls);
  }

  /** A scan that starts on a digit reads at least that digit. */
  lemma DigitsNonEmpty(s: string, k: CharClass)
    requires |s| > 0 && InClass(s[0], k) && Scan(s, k, InDigits).Some?
    ensures |Scan(s, k, InDigits).value.digits| > 0
  {
  }

  /** LeadingSound's step over a sign. */
  lemma SignedSound(s: string, k: CharClass)
    requires |s| > 0 && k == Decimal && (s[0] == '+' || s[0] == '-')
    requires Scan(s, k, Leading).Some?
    ensures exists lead, sign, ds, trail, nuls ::
      NumeralLayout(s, k, lead, sign, ds, trail, nuls) && Scan(s, k, Leading).value == Numeral(sign, ds)
  {
    var c := s[0];
    var t := s[1..];
    assert Scan(t, k, Signed).Some?;
    assert Scan(t, k, Signed) == Scan(t, k, InDigits);
    DigitsSound(t, k);
    var ds, trail, nuls :| && t == ds + trail + nuls && AllIn(ds, k) && AllIn(trail, NumberWhite) && AllNul(nuls)
      && Scan(t, k, InDigits).value == Numeral("", ds);
    assert |ds| > 0 by {
      DigitsNonEmpty(t, k);
    }
    SignParts(s, ds, trail, nuls);
    assert [c] == "+" || [c] == "-";
    assert AllIn("", NumberWhite);
    assert NumeralLayout(s, k, "", [c], ds, trail, nuls);
  }

  /** A sequence is its head followed by the parts of its tail. */
  lemma ConsParts<T>(s: seq<T>, a: seq<T>, b: seq<T>, c: seq<T>)
    requires |s| > 0 && s[1..] == a + b + c
    ensures s == ([s[0]] + a) + b + c
  {
    assert s == [s[0]] + s[1..];
  }

  lemma ConsParts5<T>(s: seq<T>, a: seq<T>, b: seq<T>, c: seq<T>, d: seq<T>, e: seq<T>)
    requires |s| > 0 && s[1..] == a + b + c + d + e
    ensures s == ([s[0]] + a) + b + c + d + e
  {
    assert s == [s[0]] + s[1..];
  }

  /** A head followed by the parts of the tail, with no white space in
      front. */
  lemma SignParts<T>(s: seq<T>, a: seq<T>, b: seq<T>, c: seq<T>)
    requires |s| > 0 && s[1..] == a + b + c
    ensures s == [] + [s[0]] + a + b + c
  {
    assert s == [s[0]] + s[1..];
    assert [] + [s[0]] == [s[0]];
  }

  /** Empty parts in front leave a sequence as it is. */
  lemma Unpadded<T>(s: seq<T>)
    ensures s == [] + s && s == [] + [] + s
  {
  }

  lemma AllInCons(c: char, x: string, k: CharClass)
    requires InClass(c, k) && AllIn(x, k)
    ensures AllIn([c] + x, k)
  {
    assert forall i :: 1 <= i < |x| + 1 ==> ([c] + x)[i] == x[i - 1];
  }

  /** The digits a scan reads are of its class. */
  lemma ScanDigits(s: string, k: CharClass)
    requires Scan(s, k, Leading).Some?
    ensures AllIn(Scan(s, k, Leading).value.digits, k)
  {
    LeadingSound(s, k);
  }

  // ---------------------------------------------------------------------
  // ushort.TryParse
  // ---------------------------------------------------------------------

  /** The layout NumberStyles.Integer accepts: white space, an optional
      sign, at least one digit, white space, and then NUL characters, which
      the runtime ignores at the end of a string. */
  predicate IntegerLayout(s: string, lead: string, sign: string, digits: string, trail: string, nuls: string) {
    && s == lead + sign + digits + trail + nuls
    && AllIn(lead, NumberWhite)
    && (sign == "" || sign == "+" || sign == "-")
    && |digits| > 0 && AllDigits(digits)
    && AllIn(trail, NumberWhite)
    && AllNul(nuls)
  }

  /** The ushort a numeral of that layout stands for: its digits' value when
      that fits, and a minus sign only in front of zero. */
  function U16Value(sign: string, digits: string): Option<u16>
    requires AllDigits(digits)
  {
    var v := DecimalValue(digits);
    if v < 0x1_0000 && (sign != "-" || v == 0) then Some(v) else None
  }

  /** Decimal digits, as the class and as the predicate on strings. */
  lemma DecimalRun(s: string)
    ensures AllIn(s, Decimal) <==> AllDigits(s)
  {
  }

  /** ushort.TryParse(s) with the invariant culture's signs. */
  function ParseU16(s: string): Option<u16> {
    var r := Scan(s, Decimal, Leading);
    if r.None? then None
    else
      ScanDigits(s, Decimal);
      DecimalRun(r.value.digits);
      U16Value(r.value.sign, r.value.digits)
  }

  /** Whatever the parse accepts is a numeral of the Integer layout, and its
      value is that numeral's. */
  lemma ParseU16Sound(s: string)
    ensures ParseU16(s).Some? ==> exists lead, sign, digits, trail, nuls ::
      IntegerLayout(s, lead, sign, digits, trail, nuls) && ParseU16(s) == U16Value(sign, digits)
  {
    if ParseU16(s).Some? {
      LeadingSound(s, Decimal);
      var lead, sign, ds, trail, nuls :| NumeralLayout(s, Decimal, lead, sign, ds, trail, nuls)
        && Scan(s, Decimal, Leading).value == Numeral(sign, ds);
      DecimalRun(ds);
      assert IntegerLayout(s, lead, sign, ds, trail, nuls);
    }
  }

  /** Every way of reading `s` in the Integer layout gives the parse's
      result: the parse accepts exactly the numerals of that layout whose
      value fits, with a minus sign only on zero. */
  lemma ParseU16Layout(s: string, lead: string, sign: string, digits: string, trail: string, nuls: string)
    requires IntegerLayout(s, lead, sign, digits, trail, nuls)
    ensures ParseU16(s) == U16Value(sign, digits)
  {
    DecimalRun(digits);
    LeadingComplete(s, Decimal, lead, sign, digits, trail, nuls);
  }

  /** A plain digit string parses to its value when it fits. */
  lemma ParseU16Digits(s: string)
    requires |s| > 0 && AllDigits(s) && DecimalValue(s) < 0x1_0000
    ensures ParseU16(s) == Some(DecimalValue(s))
  {
    assert s == "" + "" + s + "" + "";
    ParseU16Layout(s, "", "", s, "", "");
  }

  /** Printing a ushort and parsing it back gives the number. */
  lemma ParseU16NatToString(n: u16)
    ensures ParseU16(NatToString(n)) == Some(n)
  {
    ParseU16Digits(NatToString(n));
  }

  // ---------------------------------------------------------------------
  // Hexadecimal numerals
  // ---------------------------------------------------------------------

  predicate IsHexDigit(c: char) {
    IsDigit(c) || 'a' <= c <= 'f' || 'A' <= c <= 'F'
  }

  predicate AllHexDigits(s: string) {
    forall i :: 0 <= i < |s| ==> IsHexDigit(s[i])
  }

  function HexDigitValue(c: char): (d: nat)
    requires IsHexDigit(c)
    ensures d < 16
  {
    if IsDigit(c) then c as int - '0' as int
    else if 'a' <= c <= 'f' then c as int - 'a' as int + 10
    else c as int - 'A' as int + 10
  }

  /** The number a string of hexadecimal digits (either case) denotes. */
  function HexValue(s: string): nat
    requires AllHexDigits(s)
    decreases |s|
  {
    if |s| == 0 then 0
    else HexValue(s[..|s| - 1]) * 16 + HexDigitValue(s[|s| - 1])
  }

  /** The layout NumberStyles.HexNumber accepts: white space, at least one
      hex digit of either case, white space, then NUL characters. */
  predicate HexLayout(s: string, lead: string, digits: string, trail: string, nuls: string) {
    && s == lead + digits + trail + nuls
    && AllIn(lead, NumberWhite)
    && |digits| > 0 && AllHexDigits(digits)
    && AllIn(trail, NumberWhite)
    && AllNul(nuls)
  }

  /** The uint a hex numeral stands for, when it fits. */
  function U32Value(digits: string): Option<nat>
    requires AllHexDigits(digits)
  {
    if HexValue(digits) < 0x1_0000_0000 then Some(HexValue(digits)) else None
  }

  /** Hexadecimal digits, as the class and as the predicate on strings. */
  lemma HexadecimalRun(s: string)
    ensures AllIn(s, Hexadecimal) <==> AllHexDigits(s)
  {
  }

  /** uint.TryParse(s, NumberStyles.HexNumber, ...). */
  function ParseHexU32(s: string): Option<nat> {
    var r := Scan(s, Hexadecimal, Leading);
    if r.None? then None
    else
      ScanDigits(s, Hexadecimal);
      HexadecimalRun(r.value.digits);
      U32Value(r.value.digits)
  }

  /** Whatever the parse accepts is a numeral of the HexNumber layout, and
      its value is that numeral's, below 2^32. */
  lemma ParseHexU32Sound(s: string)
    ensures ParseHexU32(s).Some? ==> exists lead, digits, trail, nuls ::
      HexLayout(s, lead, digits, trail, nuls) && ParseHexU32(s) == U32Value(digits)
    ensures ParseHexU32(s).Some? ==> ParseHexU32(s).value < 0x1_0000_0000
  {
    if ParseHexU32(s).Some? {
      LeadingSound(s, Hexadecimal);
      var lead, sign, ds, trail, nuls :| NumeralLayout(s, Hexadecimal, lead, sign, ds, trail, nuls)
        && Scan(s, Hexadecimal, Leading).value == Numeral(sign, ds);
      HexadecimalRun(ds);
      assert s == lead + ds + trail + nuls;
      assert HexLayout(s, lead, ds, trail, nuls);
    }
  }

  /** Every way of reading `s` in the HexNumber layout gives the parse's
      result: the parse accepts exactly those numerals whose value fits. */
  lemma ParseHexU32Layout(s: string, lead: string, digits: string, trail: string, nuls: string)
    requires HexLayout(s, lead, digits, trail, nuls)
    ensures ParseHexU32(s) == U32Value(digits)
  {
    HexadecimalRun(digits);
    assert s == lead + "" + digits + trail + nuls;
    LeadingComplete(s, Hexadecimal, lead, "", digits, trail, nuls);
  }

  /** A plain hex digit string parses to its value when it fits. */
  lemma ParseHexU32Digits(s: string)
    requires |s| > 0 && AllHexDigits(s) && HexValue(s) < 0x1_0000_0000
    ensures ParseHexU32(s) == Some(HexValue(s))
  {
    assert s == "" + s + "" + "";
    ParseHexU32Layout(s, "", s, "", "");
  }

  /** The digits the `x` formats write: 0-9 and a-f. */
  predicate IsLowerHexDigit(c: char) {
    IsDigit(c) || 'a' <= c <= 'f'
  }

  /** The lower-case hex digit for d. */
  function LowerHexDigit(d: nat): (c: char)
    requires d < 16
    ensures IsLowerHexDigit(c) && IsHexDigit(c) && HexDigitValue(c) == d
    ensures c != '\''
  {
    if d < 10 then DigitChar(d) else ('a' as int + d - 10) as char
  }

  /** The "x2" format of a byte: two lower-case hex digits. */
  function Hex2(b: byte): (s: string)
    ensures |s| == 2 && AllHexDigits(s)
    ensures IsLowerHexDigit(s[0]) && IsLowerHexDigit(s[1])
    ensures HexValue(s) == b
    ensures forall i :: 0 <= i < |s| ==> s[i] != '\''
  {
    var s := [LowerHexDigit(b / 16), LowerHexDigit(b % 16)];
    assert HexValue(s[..1]) == b / 16 by {
      assert s[..1][..0] == [];
    }
    s
  }

  /** Appending the x2 form of a byte shifts the value up by a byte. */
  lemma HexValueAppendByte(a: string, b: byte)
    requires AllHexDigits(a)
    ensures AllHexDigits(a + Hex2(b))
    ensures HexValue(a + Hex2(b)) == HexValue(a) * 256 + b
  {
    var h := Hex2(b);
    var s := a + h;
    assert s[..|s| - 1] == a + [h[0]];
    assert (a + [h[0]])[..|a|] == a;
    assert HexValue(h) == HexDigitValue(h[0]) * 16 + HexDigitValue(h[1]) by {
      assert h[..1] == [h[0]];
      assert [h[0]][..0] == "";
    }
  }
}
