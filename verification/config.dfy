/**
 * `ConversionConfig`: the settings of the Markdown to Word direction, the
 * merge of a front matter mapping into them (`_update_config_from_dict`)
 * and the decoding of a heading colour such as "#2E75B6".
 */
module Config {
  import opened Wrappers

  /** A setting's value, as the YAML loader or a default supplies it.
      Fractional numbers are kept as their literal text. */
  datatype Value =
    | Str(s: string)
    | Int(i: int)
    | Float(literal: string)
    | Bool(b: bool)
    | IntKeyed(entries: map<int, Value>)
    | StrKeyed(byName: map<string, Value>)
    | Null

  /** The names of the dataclass fields, the settings the merge assigns. */
  const Fields: set<string> := {
    "font_name", "font_size", "line_spacing", "heading_font", "heading_colors",
    "heading_sizes", "heading_spacing_before", "heading_spacing_after",
    "paragraph_spacing_after", "paragraph_first_line_indent", "list_spacing",
    "list_indent", "table_style", "table_autofit", "code_font", "code_size",
    "code_background", "use_builtin_styles", "custom_style_map"
  }

  /** The default colour of each heading level. */
  const DefaultHeadingColors: map<int, Value> := map[
    1 := Str("#2E75B6"), 2 := Str("#C55A11"), 3 := Str("#70AD47"),
    4 := Str("#7030A0"), 5 := Str("#264478"), 6 := Str("#E7E6E6")]

  const DefaultHeadingSizes: map<int, Value> := map[
    1 := Int(16), 2 := Int(14), 3 := Int(12), 4 := Int(11), 5 := Int(11), 6 := Int(10)]
  const DefaultSpacingBefore: map<int, Value> := map[
    1 := Int(12), 2 := Int(10), 3 := Int(8), 4 := Int(6), 5 := Int(6), 6 := Int(4)]
  const DefaultSpacingAfter: map<int, Value> := map[
    1 := Int(6), 2 := Int(6), 3 := Int(4), 4 := Int(4), 5 := Int(2), 6 := Int(2)]

  /** The field defaults, with the dictionaries `__post_init__` fills in. */
  const Defaults: map<string, Value> := map[
    "font_name" := Str("Calibri"),
    "font_size" := Int(11),
    "line_spacing" := Float("1.15"),
    "heading_font" := Str("Calibri"),
    "heading_colors" := IntKeyed(DefaultHeadingColors),
    "heading_sizes" := IntKeyed(DefaultHeadingSizes),
    "heading_spacing_before" := IntKeyed(DefaultSpacingBefore),
    "heading_spacing_after" := IntKeyed(DefaultSpacingAfter),
    "paragraph_spacing_after" := Int(6),
    "paragraph_first_line_indent" := Float("0.0"),
    "list_spacing" := Int(0),
    "list_indent" := Float("0.25"),
    "table_style" := Str("Table Grid"),
    "table_autofit" := Bool(true),
    "code_font" := Str("Consolas"),
    "code_size" := Int(9),
    "code_background" := Str("#F5F5F5"),
    "use_builtin_styles" := Bool(true),
    "custom_style_map" := StrKeyed(map[])]

  /** A setting's value; a name missing from the map (which a valid
      configuration never lacks) reads as None. */
  function Setting(values: map<string, Value>, name: string): Value {
    if name in values then values[name] else Null
  }

  /** Where the exponent of a float literal starts, or its length. */
  function ExponentAt(literal: string): (r: nat)
    ensures r <= |literal|
    ensures forall i :: 0 <= i < r ==> literal[i] != 'e' && literal[i] != 'E'
  {
    if literal == [] || literal[0] == 'e' || literal[0] == 'E' then 0
    else 1 + ExponentAt(literal[1..])
  }

  /** A float literal denoting zero: its mantissa has a digit and no digit
      other than '0'. */
  predicate FloatZero(literal: string) {
    var m := literal[..ExponentAt(literal)];
    && (exists i :: 0 <= i < |m| && m[i] == '0')
    && forall i :: 0 <= i < |m| ==> m[i] in "0._+-"
  }

  /** Python's truth value of a setting, as `if self.config.…` tests it. */
  predicate Truthy(v: Value) {
    match v
    case Str(s) => s != []
    case Int(i) => i != 0
    case Float(literal) => !FloatZero(literal)
    case Bool(b) => b
    case IntKeyed(m) => m != map[]
    case StrKeyed(m) => m != map[]
    case Null => false
  }

  /** The settings after merging `d`: a key that names a setting takes its
      value from `d`, every other setting keeps its value, and keys that
      name no setting are ignored. */
  function Merged(values: map<string, Value>, d: map<string, Value>): (r: map<string, Value>)
    ensures r.Keys == values.Keys
  {
    map k | k in values :: if k in d then d[k] else values[k]
  }

  class ConversionConfig {
    var values: map<string, Value>

    /** Every setting is present, and nothing else. */
    predicate Valid()
      reads this
    {
      values.Keys == Fields
    }

    constructor()
      ensures values == Defaults && Valid()
    {
      values := Defaults;
    }

    /** `_update_config_from_dict`: `setattr` for every key the config has.
        The dictionary's iteration order does not matter, as the keys are
        distinct. */
    method UpdateFromDict(configDict: map<string, Value>)
      modifies this
      ensures values == Merged(old(values), configDict)
      ensures values.Keys == old(values).Keys
      ensures old(Valid()) ==> Valid()
    {
      var pending := configDict.Keys;
      while pending != {}
        invariant pending <= configDict.Keys
        invariant values == Merged(old(values), configDict - pending)
        decreases |pending|
      {
        var key :| key in pending;
        if key in values {
          values := values[key := configDict[key]];
        }
        pending := pending - {key};
        assert values == Merged(old(values), configDict - pending);
      }
      assert configDict - {} == configDict;
    }
  }

  lemma DefaultsValid()
    ensures Defaults.Keys == Fields
  {
  }

  /** A merge keeps every setting present. */
  lemma MergedValid(values: map<string, Value>, d: map<string, Value>)
    requires values.Keys == Fields
    ensures Merged(values, d).Keys == Fields
  {
  }

  /** Exactly the settings named by a key of `d` change. */
  lemma MergedChangesNamedKeys(values: map<string, Value>, d: map<string, Value>, k: string)
    requires k in values
    ensures k in d ==> Merged(values, d)[k] == d[k]
    ensures k !in d ==> Merged(values, d)[k] == values[k]
  {
  }

  /** Keys that name no setting change nothing. */
  lemma MergedIgnoresUnknown(values: map<string, Value>, d: map<string, Value>)
    requires forall k :: k in d ==> k !in values
    ensures Merged(values, d) == values
  {
  }

  /** Merging the same mapping twice is merging it once. */
  lemma MergedIdempotent(values: map<string, Value>, d: map<string, Value>)
    ensures Merged(Merged(values, d), d) == Merged(values, d)
  {
  }

  // ---------------------------------------------------------------------
  // Heading colours

  /** A hexadecimal digit's value, either case. */
  function HexDigit(c: char): (r: Option<nat>)
    ensures r.Some? ==> r.value < 16
  {
    if '0' <= c <= '9' then Some(c as int - '0' as int)
    else if 'A' <= c <= 'F' then Some(c as int - 'A' as int + 10)
    else if 'a' <= c <= 'f' then Some(c as int - 'a' as int + 10)
    else None
  }

  /** `int(s, 16)` on a string of hexadecimal digits; None (a ValueError)
      for the empty string or any other character. */
  function ParseHex(s: string): (r: Option<nat>)
    ensures r.Some? ==> s != [] && r.value < Power16(|s|)
  {
    if s == [] then None
    else if |s| == 1 then HexDigit(s[0])
    else
      match (ParseHex(s[..|s| - 1]), HexDigit(s[|s| - 1]))
      case (Some(h), Some(d)) => Some(16 * h + d)
      case _ => None
  }

  function Power16(n: nat): (r: nat)
    ensures r >= 1
  {
    if n == 0 then 1 else 16 * Power16(n - 1)
  }

  /** Python's `s[i:j]` for `0 <= i <= j`: the bounds are clamped. */
  function Slice(s: string, i: nat, j: nat): (r: string)
    requires i <= j
    ensures |r| <= j - i
  {
    if i >= |s| then [] else if j >= |s| then s[i..] else s[i..j]
  }

  /** `s.replace('#', '')`. */
  function RemoveHash(s: string): (r: string)
    ensures '#' !in r
    ensures |r| <= |s|
  {
    if s == [] then []
    else if s[0] == '#' then RemoveHash(s[1..])
    else [s[0]] + RemoveHash(s[1..])
  }

  /** The colour `_configure_heading_style` sets: the three two-digit
      pairs of the text without '#', or None when any pair fails to parse
      (the ValueError that leaves the colour unset). */
  function DecodeColor(c: string): (r: Option<(nat, nat, nat)>)
    ensures r.Some? ==> r.value.0 < 256 && r.value.1 < 256 && r.value.2 < 256
  {
    var h := RemoveHash(c);
    match (ParseHex(Slice(h, 0, 2)), ParseHex(Slice(h, 2, 4)), ParseHex(Slice(h, 4, 6)))
    case (Some(red), Some(green), Some(blue)) =>
      assert Power16(2) == 256;
      Some((red, green, blue))
    case _ => None
  }

  function UpperHexDigit(d: nat): char
    requires d < 16
  {
    "0123456789ABCDEF"[d]
  }

  /** The "#RRGGBB" spelling of a colour. */
  function EncodeColor(red: nat, green: nat, blue: nat): string
    requires red < 256 && green < 256 && blue < 256
  {
    "#" + Pair(red) + Pair(green) + Pair(blue)
  }

  function Pair(n: nat): string
    requires n < 256
  {
    [UpperHexDigit(n / 16), UpperHexDigit(n % 16)]
  }

  lemma PairParses(n: nat)
    requires n < 256
    ensures |Pair(n)| == 2 && ParseHex(Pair(n)) == Some(n)
  {
    HexDigitUpper(n / 16);
    HexDigitUpper(n % 16);
    ParseHexTwo(UpperHexDigit(n / 16), UpperHexDigit(n % 16));
  }

  /** Every upper-case hexadecimal digit reads back as its value. */
  lemma HexDigitUpper(d: nat)
    requires d < 16
    ensures HexDigit(UpperHexDigit(d)) == Some(d)
  {
  }

  /** Two digits read as the first times 16 plus the second. */
  lemma ParseHexTwo(a: char, b: char)
    requires HexDigit(a).Some? && HexDigit(b).Some?
    ensures ParseHex([a, b]) == Some(16 * HexDigit(a).value + HexDigit(b).value)
  {
    assert [a, b][..1] == [a];
  }

  lemma RemoveHashKeeps(s: string)
    requires '#' !in s
    ensures RemoveHash(s) == s
  {
    if s != [] {
      assert '#' !in s[1..] by {
        forall i | 0 <= i < |s[1..]| ensures s[1..][i] != '#' {
          assert s[1..][i] == s[i + 1];
        }
      }
      RemoveHashKeeps(s[1..]);
    }
  }

  /** Every colour written as "#RRGGBB" decodes to itself. */
  lemma DecodeEncode(red: nat, green: nat, blue: nat)
    requires red < 256 && green < 256 && blue < 256
    ensures DecodeColor(EncodeColor(red, green, blue)) == Some((red, green, blue))
  {
    var h := Pair(red) + Pair(green) + Pair(blue);
    assert EncodeColor(red, green, blue) == "#" + h;
    PairParses(red);
    PairParses(green);
    PairParses(blue);
    RemoveHashKeeps(h);
    assert RemoveHash("#" + h) == RemoveHash(h) by {
      assert ("#" + h)[1..] == h;
    }
    assert Slice(h, 0, 2) == Pair(red);
    assert Slice(h, 2, 4) == Pair(green);
    assert Slice(h, 4, 6) == Pair(blue);
  }

  /** A colour given without '#' decodes the same. */
  lemma DecodeIgnoresHash(c: string)
    ensures DecodeColor("#" + c) == DecodeColor(c)
  {
    assert ("#" + c)[1..] == c;
  }

  /** A colour with four or fewer characters besides '#', such as "#FFF",
      leaves an empty third pair and is not applied. */
  lemma ShortColourSkipped(c: string)
    requires |RemoveHash(c)| <= 4
    ensures DecodeColor(c) == None
  {
  }

  /** The colour is applied exactly when, after removing '#', at least
      five characters remain and the first six (or five) are hex digits:
      `int(h[4:6], 16)` accepts the one digit a five-character text leaves. */
  lemma DecodeColorSomeIff(c: string)
    ensures DecodeColor(c).Some? <==>
              |RemoveHash(c)| >= 5 && forall i :: 0 <= i < |RemoveHash(c)| && i < 6 ==> IsHexDigit(RemoveHash(c)[i])
  {
    var h := RemoveHash(c);
    if |h| >= 5 {
      var p0, p1, p2 := Slice(h, 0, 2), Slice(h, 2, 4), Slice(h, 4, 6);
      assert p0 == h[0..2] && p1 == h[2..4];
      assert p2 == if |h| == 5 then h[4..5] else h[4..6];
      ParseHexShort(p0);
      ParseHexShort(p1);
      ParseHexShort(p2);
      if forall i :: 0 <= i < |h| && i < 6 ==> IsHexDigit(h[i]) {
        assert forall i :: 0 <= i < |p0| ==> p0[i] == h[i];
        assert forall i :: 0 <= i < |p1| ==> p1[i] == h[2 + i];
        assert forall i :: 0 <= i < |p2| ==> p2[i] == h[4 + i];
      } else {
        var i :| 0 <= i < |h| && i < 6 && !IsHexDigit(h[i]);
        if i < 2 { assert p0[i] == h[i]; }
        else if i < 4 { assert p1[i - 2] == h[i]; }
        else { assert p2[i - 4] == h[i]; }
      }
    } else {
      ShortColourSkipped(c);
    }
  }

  /** A text of one or two characters parses as hex exactly when each is a
      hex digit. */
  lemma ParseHexShort(s: string)
    requires 1 <= |s| <= 2
    ensures ParseHex(s).Some? <==> forall i :: 0 <= i < |s| ==> IsHexDigit(s[i])
  {
    if |s| == 2 {
      assert s[..1] == [s[0]];
    }
  }

  predicate IsHexDigit(c: char) {
    HexDigit(c).Some?
  }

  /** A '#' followed by six hexadecimal digits decodes. */
  lemma SixDigitsDecode(c: string)
    requires |c| == 7 && c[0] == '#'
    requires forall i :: 1 <= i < 7 ==> IsHexDigit(c[i])
    ensures DecodeColor(c).Some?
  {
    var h := c[1..];
    assert '#' !in h;
    RemoveHashKeeps(h);
    assert RemoveHash(c) == RemoveHash(h);
    TwoDigitsParse(Slice(h, 0, 2));
    TwoDigitsParse(Slice(h, 2, 4));
    TwoDigitsParse(Slice(h, 4, 6));
  }

  lemma TwoDigitsParse(s: string)
    requires |s| == 2 && IsHexDigit(s[0]) && IsHexDigit(s[1])
    ensures ParseHex(s).Some?
  {
    assert s[..1][0] == s[0];
  }

  /** The default heading colours all decode. */
  lemma DefaultColoursDecode()
    ensures forall level :: level in DefaultHeadingColors ==>
              DefaultHeadingColors[level].Str? && DecodeColor(DefaultHeadingColors[level].s).Some?
  {
    forall level | level in DefaultHeadingColors
      ensures DefaultHeadingColors[level].Str? && DecodeColor(DefaultHeadingColors[level].s).Some?
    {
      SixDigitsDecode(DefaultHeadingColors[level].s);
    }
  }
}
