/** The strict accessors that read scalar and list-valued fields out of the
    two project documents. An XML element is reduced to the lookups the
    accessors make: its attributes, and for each child path the texts of
    the elements that path selects. */
module XmlFields {
  import opened Types

  /** `children[path]` lists, in document order, the text of each element
      the path selects; `None` stands for an element without text. A path
      that selects nothing may be absent from the map. */
  datatype Element = Element(attributes: map<string, string>, children: map<string, seq<Option<string>>>)

  /** The texts of the elements `path` selects under `e`. */
  function Select(e: Element, path: string): seq<Option<string>> {
    if path in e.children then e.children[path] else []
  }

  /** An element whose only content is one child at `path` holding `t`. */
  function Leaf(path: string, t: string): Element {
    Element(map[], map[path := [Some(t)]])
  }

  // ---------------------------------------------------------------------
  // text
  // ---------------------------------------------------------------------

  /** The text of attribute `name` or of the single child `name`. A missing
      attribute is an error unless `nullable`; a child path must select
      exactly one element, except that `nullable` lets it select none. */
  function Text(e: Element, name: string, isAttribute: bool, nullable: bool): (r: Result<Option<string>>)
    ensures isAttribute ==> (r.Ok? <==> nullable || name in e.attributes)
    ensures isAttribute && r.Ok? ==> (r.value.Some? <==> name in e.attributes)
    ensures isAttribute && r.Ok? && name in e.attributes ==> r.value == Some(e.attributes[name])
    ensures !isAttribute ==> (r.Ok? <==> |Select(e, name)| == 1 || (nullable && |Select(e, name)| == 0))
    ensures !isAttribute && r.Ok? && |Select(e, name)| == 1 ==> r.value == Select(e, name)[0]
    ensures !isAttribute && r.Ok? && |Select(e, name)| == 0 ==> r.value == None
  {
    if isAttribute then
      if name in e.attributes then Ok(Some(e.attributes[name]))
      else if nullable then Ok(None)
      else Err(MissingAttribute(name))
    else
      var value := Select(e, name);
      if |value| == 0 && nullable then Ok(None)
      else if |value| != 1 then Err(TagCount(name, |value|))
      else Ok(value[0])
  }

  // ---------------------------------------------------------------------
  // strict_bool
  // ---------------------------------------------------------------------

  /** "0" is false, "1" is true; anything else, a missing text included, is an error. */
  function StrictBool(e: Element, name: string, nullable: bool): (r: Result<bool>)
    ensures r == Ok(false) <==> Text(e, name, false, nullable) == Ok(Some("0"))
    ensures r == Ok(true) <==> Text(e, name, false, nullable) == Ok(Some("1"))
    ensures Text(e, name, false, nullable).Err? ==> r == Err(Text(e, name, false, nullable).error)
  {
    match Text(e, name, false, nullable)
    case Err(err) => Err(err)
    case Ok(value) =>
      if value == Some("0") then Ok(false)
      else if value == Some("1") then Ok(true)
      else Err(NotBoolean(name))
  }

  /** The text the project files use for a flag. */
  function BoolText(b: bool): string {
    if b then "1" else "0"
  }

  lemma StrictBoolRoundTrip(name: string, b: bool, nullable: bool)
    ensures StrictBool(Leaf(name, BoolText(b)), name, nullable) == Ok(b)
  {
    assert Select(Leaf(name, BoolText(b)), name) == [Some(BoolText(b))];
  }

  // ---------------------------------------------------------------------
  // strict_hex
  // ---------------------------------------------------------------------

  predicate StartsWith(s: string, prefix: string) {
    |prefix| <= |s| && s[..|prefix|] == prefix
  }

  /** Python's `str.isspace`, the whitespace `str.strip()` and `int()`
      remove: the ASCII controls 9-13 and 28-31, the space, and the Unicode
      spaces and line and paragraph separators. */
  predicate IsSpace(c: char) {
    var n := c as int;
    || n == 0x20 || (0x09 <= n <= 0x0D) || (0x1C <= n <= 0x1F)
    || n == 0x85 || n == 0xA0 || n == 0x1680 || (0x2000 <= n <= 0x200A)
    || n == 0x2028 || n == 0x2029 || n == 0x202F || n == 0x205F || n == 0x3000
  }

  predicate IsHexDigit(c: char) {
    ('0' <= c <= '9') || ('a' <= c <= 'f') || ('A' <= c <= 'F')
  }

  function DigitValue(c: char): (d: nat)
    requires IsHexDigit(c)
    ensures d < 16
  {
    if '0' <= c <= '9' then c as int - '0' as int
    else if 'a' <= c <= 'f' then c as int - 'a' as int + 10
    else c as int - 'A' as int + 10
  }

  /** The value of a string of hexadecimal digits, most significant first. */
  function HexValue(ds: string): nat
    requires forall i :: 0 <= i < |ds| ==> IsHexDigit(ds[i])
  {
    if ds == [] then 0 else HexValue(ds[..|ds| - 1]) * 16 + DigitValue(ds[|ds| - 1])
  }

  /** The string with its trailing whitespace removed. */
  function TrimEnd(s: string): (r: string)
    ensures |r| <= |s| && r == s[..|r|]
    ensures r == [] || !IsSpace(r[|r| - 1])
    ensures forall i :: |r| <= i < |s| ==> IsSpace(s[i])
  {
    if s != [] && IsSpace(s[|s| - 1]) then TrimEnd(s[..|s| - 1]) else s
  }

  /** What `int(s, 16)` accepts after the "0x" prefix: hexadecimal digits,
      each single underscore standing between digits or right after the
      prefix, then optional whitespace. */
  predicate IsHexBody(body: string) {
    var b := TrimEnd(body);
    && b != []
    && b[|b| - 1] != '_'
    && (forall i :: 0 <= i < |b| ==> IsHexDigit(b[i]) || b[i] == '_')
    && (forall i :: 0 <= i < |b| - 1 ==> !(b[i] == '_' && b[i + 1] == '_'))
  }

  /** The digits of a string with its underscores dropped. */
  function Digits(s: string): (r: string)
    ensures |r| <= |s|
    ensures forall c :: c in r <==> c in s && c != '_'
    ensures (forall i :: 0 <= i < |s| ==> IsHexDigit(s[i]) || s[i] == '_') ==>
              forall i :: 0 <= i < |r| ==> IsHexDigit(r[i])
  {
    if s == [] then [] else Digits(s[..|s| - 1]) + (if s[|s| - 1] == '_' then [] else [s[|s| - 1]])
  }

  /** Reads a hexadecimal number that must be written with a "0x" prefix. */
  function StrictHex(e: Element, name: string): (r: Result<nat>)
    ensures r.Ok? ==> exists s :: Text(e, name, false, false) == Ok(Some(s)) && StartsWith(s, "0x") && IsHexBody(s[2..])
    ensures (exists s :: Text(e, name, false, false) == Ok(Some(s)) && !StartsWith(s, "0x")) ==> r == Err(NotHex(name))
    ensures Text(e, name, false, false) == Ok(None) ==> r == Err(NoText(name))
    ensures forall s :: Text(e, name, false, false) == Ok(Some(s)) && StartsWith(s, "0x") && IsHexBody(s[2..]) ==>
      r == Ok(HexValue(Digits(TrimEnd(s[2..]))))
  {
    match Text(e, name, false, false)
    case Err(err) => Err(err)
    case Ok(None) => Err(NoText(name))
    case Ok(Some(s)) =>
      if !StartsWith(s, "0x") || !IsHexBody(s[2..]) then Err(NotHex(name))
      else Ok(HexValue(Digits(TrimEnd(s[2..]))))
  }

  /** Lower-case hexadecimal digits of `n`, without leading zeros. */
  function HexDigits(n: nat): (ds: string)
    ensures ds != []
    ensures forall i :: 0 <= i < |ds| ==> IsHexDigit(ds[i]) && ds[i] != '_'
  {
    var d := "0123456789abcdef"[n % 16];
    if n < 16 then [d] else HexDigits(n / 16) + [d]
  }

  lemma {:induction false} HexValueOfHexDigits(n: nat)
    ensures HexValue(HexDigits(n)) == n
  {
    var ds := HexDigits(n);
    assert DigitValue(ds[|ds| - 1]) == n % 16;
    if n >= 16 {
      HexValueOfHexDigits(n / 16);
      assert ds[..|ds| - 1] == HexDigits(n / 16);
    }
  }

  lemma {:induction false} DigitsWithoutUnderscore(s: string)
    requires forall i :: 0 <= i < |s| ==> s[i] != '_'
    ensures Digits(s) == s
  {
    if s != [] {
      DigitsWithoutUnderscore(s[..|s| - 1]);
    }
  }

  /** Writing a number as "0x" and its hexadecimal digits and reading it
      back with `strict_hex` gives the number. */
  lemma StrictHexRoundTrip(name: string, n: nat)
    ensures StrictHex(Leaf(name, "0x" + HexDigits(n)), name) == Ok(n)
  {
    var s := "0x" + HexDigits(n);
    var e := Leaf(name, s);
    assert Select(e, name) == [Some(s)];
    assert s[2..] == HexDigits(n);
    assert StartsWith(s, "0x");
    assert TrimEnd(s[2..]) == HexDigits(n);
    DigitsWithoutUnderscore(HexDigits(n));
    HexValueOfHexDigits(n);
  }

  /** Any non-empty string of hexadecimal digits after "0x", whatever their
      case and however many leading zeros, reads as its value. */
  lemma StrictHexReadsDigits(name: string, ds: string)
    requires ds != [] && forall i :: 0 <= i < |ds| ==> IsHexDigit(ds[i])
    ensures StrictHex(Leaf(name, "0x" + ds), name) == Ok(HexValue(ds))
  {
    var s := "0x" + ds;
    var e := Leaf(name, s);
    assert Select(e, name) == [Some(s)];
    assert Text(e, name, false, false) == Ok(Some(s));
    assert s[2..] == ds;
    assert StartsWith(s, "0x");
    assert !IsSpace(ds[|ds| - 1]);
    assert TrimEnd(ds) == ds;
    assert IsHexBody(ds);
    DigitsWithoutUnderscore(ds);
  }

  /** `k` zero digits. */
  function Zeros(k: nat): (z: string)
    ensures |z| == k && forall i :: 0 <= i < k ==> z[i] == '0'
  {
    seq(k, i => '0')
  }

  /** A digit written in upper case. */
  function UpperDigit(c: char): char {
    if 'a' <= c <= 'f' then (c as int - 32) as char else c
  }

  /** The digits written in upper case. */
  function Upper(ds: string): (us: string)
    ensures |us| == |ds| && forall i :: 0 <= i < |ds| ==> us[i] == UpperDigit(ds[i])
  {
    seq(|ds|, i requires 0 <= i < |ds| => UpperDigit(ds[i]))
  }

  lemma {:induction false} HexValueOfZeros(k: nat)
    ensures HexValue(Zeros(k)) == 0
  {
    if k > 0 {
      HexValueOfZeros(k - 1);
      assert Zeros(k)[..k - 1] == Zeros(k - 1);
    }
  }

  /** Leading zeros do not change the value. */
  lemma {:induction false} HexValueLeadingZeros(k: nat, ds: string)
    requires forall i :: 0 <= i < |ds| ==> IsHexDigit(ds[i])
    ensures forall i :: 0 <= i < |Zeros(k) + ds| ==> IsHexDigit((Zeros(k) + ds)[i])
    ensures HexValue(Zeros(k) + ds) == HexValue(ds)
  {
    var z := Zeros(k) + ds;
    if ds == [] {
      assert z == Zeros(k);
      HexValueOfZeros(k);
    } else {
      var init := ds[..|ds| - 1];
      HexValueLeadingZeros(k, init);
      assert z[..|z| - 1] == Zeros(k) + init;
    }
  }

  /** The case of the letter digits does not change the value. */
  lemma {:induction false} HexValueUpper(ds: string)
    requires forall i :: 0 <= i < |ds| ==> IsHexDigit(ds[i])
    ensures forall i :: 0 <= i < |Upper(ds)| ==> IsHexDigit(Upper(ds)[i])
    ensures HexValue(Upper(ds)) == HexValue(ds)
  {
    if ds != [] {
      var init := ds[..|ds| - 1];
      HexValueUpper(init);
      assert Upper(ds)[..|ds| - 1] == Upper(init);
    }
  }

  /** "0x", any number of zeros, then hexadecimal digits: read as the value
      of the digits. */
  lemma StrictHexReadsPadded(name: string, k: nat, ds: string)
    requires ds != [] && forall i :: 0 <= i < |ds| ==> IsHexDigit(ds[i])
    ensures StrictHex(Leaf(name, "0x" + Zeros(k) + ds), name) == Ok(HexValue(ds))
  {
    var z := Zeros(k) + ds;
    assert "0x" + Zeros(k) + ds == "0x" + z by {
      assert |"0x" + Zeros(k) + ds| == |"0x" + z|;
    }
    assert StrictHex(Leaf(name, "0x" + z), name) == Ok(HexValue(z)) by {
      HexValueLeadingZeros(k, ds);
      StrictHexReadsDigits(name, z);
    }
    HexValueLeadingZeros(k, ds);
  }

  /** "0x", any number of zeros, then the digits of `n` in lower or in upper
      case: each spelling reads as `n`. */
  lemma StrictHexSpellings(name: string, k: nat, n: nat)
    ensures StrictHex(Leaf(name, "0x" + Zeros(k) + HexDigits(n)), name) == Ok(n)
    ensures StrictHex(Leaf(name, "0x" + Zeros(k) + Upper(HexDigits(n))), name) == Ok(n)
  {
    var ds := HexDigits(n);
    HexValueOfHexDigits(n);
    StrictHexReadsPadded(name, k, ds);
    HexValueUpper(ds);
    StrictHexReadsPadded(name, k, Upper(ds));
  }

  /** A flash address as the project files write it, with a leading zero. */
  lemma StrictHexAddressExample(name: string)
    ensures StrictHex(Leaf(name, "0x08000000"), name) == Ok(0x0800_0000)
  {
    assert "0x08000000" == "0x" + "08000000";
    StrictHexReadsDigits(name, "08000000");
    HexValueOfAddress();
  }

  lemma HexValueOfAddress()
    ensures HexValue("08000000") == 0x0800_0000
  {
    assert "0"[..0] == [];
    assert HexValue("0") == 0;
    assert "08"[..1] == "0";
    assert HexValue("08") == 8;
    assert "080"[..2] == "08";
    assert HexValue("080") == 0x80;
    assert "0800"[..3] == "080";
    assert HexValue("0800") == 0x800;
    assert "08000"[..4] == "0800";
    assert HexValue("08000") == 0x8000;
    assert "080000"[..5] == "08000";
    assert HexValue("080000") == 0x8_0000;
    assert "0800000"[..6] == "080000";
    assert HexValue("0800000") == 0x80_0000;
    assert "08000000"[..7] == "0800000";
  }

  /** An underscore after the prefix and trailing whitespace are accepted,
      as `int(..., 16)` accepts them. */
  lemma StrictHexUnderscoreExample(name: string)
    ensures StrictHex(Leaf(name, "0x_1F "), name) == Ok(31)
  {
    var s := "0x_1F ";
    var e := Leaf(name, s);
    assert Select(e, name) == [Some(s)];
    assert Text(e, name, false, false) == Ok(Some(s));
    assert StartsWith(s, "0x");
    assert s[2..] == "_1F ";
    UnderscoreBody();
  }

  lemma UnderscoreBody()
    ensures TrimEnd("_1F ") == "_1F" && IsHexBody("_1F ")
    ensures HexValue(Digits("_1F")) == 31
  {
    UnderscoreTrim();
    var b := "_1F";
    assert IsHexBody("_1F ") by {
      assert b[0] == '_' && b[1] == '1' && b[2] == 'F';
      assert forall i :: 0 <= i < |b| ==> IsHexDigit(b[i]) || b[i] == '_';
      assert forall i :: 0 <= i < |b| - 1 ==> !(b[i] == '_' && b[i + 1] == '_');
    }
    UnderscoreDigits();
    assert HexValue("1F") == 31 by {
      assert "1F"[..1] == "1";
      assert "1"[..0] == [];
    }
  }

  lemma UnderscoreTrim()
    ensures TrimEnd("_1F ") == "_1F"
  {
    var s := "_1F ";
    assert s[..3] == "_1F";
    assert IsSpace(s[3]) && !IsSpace(s[2]);
    assert TrimEnd(s) == TrimEnd(s[..3]);
  }

  lemma UnderscoreDigits()
    ensures Digits("_1F") == "1F"
  {
    var b := "_1F";
    assert b[..2] == "_1" && "_1"[..1] == "_" && "_"[..0] == [];
    assert Digits("_") == [];
    assert Digits("_1") == "1";
  }

  // ---------------------------------------------------------------------
  // The list-valued fields: str.split with an explicit separator, then str.strip
  // ---------------------------------------------------------------------

  /** `s.split(sep)`: the pieces between occurrences of `sep`, empty ones included. */
  function Split(s: string, sep: char): (r: seq<string>)
    ensures |r| >= 1
  {
    if s == [] then [""]
    else
      var rest := Split(s[1..], sep);
      if s[0] == sep then [""] + rest else [[s[0]] + rest[0]] + rest[1..]
  }

  /** `sep.join(parts)`. */
  function Join(parts: seq<string>, sep: char): string {
    if |parts| == 0 then ""
    else if |parts| == 1 then parts[0]
    else parts[0] + [sep] + Join(parts[1..], sep)
  }

  /** Splitting never yields a piece holding the separator, and joining the
      pieces with it gives the string back. */
  lemma {:induction false} JoinSplit(s: string, sep: char)
    ensures forall p :: p in Split(s, sep) ==> sep !in p
    ensures Join(Split(s, sep), sep) == s
  {
    if s != [] {
      JoinSplit(s[1..], sep);
      if s[0] != sep {
        JoinSplitStep(s, sep);
      } else {
        assert s == [sep] + s[1..];
      }
    }
  }

  /** The step of `JoinSplit` for a string that starts inside its first piece. */
  lemma JoinSplitStep(s: string, sep: char)
    requires s != [] && s[0] != sep
    requires forall p :: p in Split(s[1..], sep) ==> sep !in p
    requires Join(Split(s[1..], sep), sep) == s[1..]
    ensures forall p :: p in Split(s, sep) ==> sep !in p
    ensures Join(Split(s, sep), sep) == s
  {
    var rest := Split(s[1..], sep);
    var first := [s[0]] + rest[0];
    var tail := rest[1..];
    assert Split(s, sep) == [first] + tail;
    assert rest[0] in rest;
    forall p | p in [first] + tail
      ensures sep !in p
    {
      if p != first {
        assert p in rest;
      }
    }
    if tail == [] {
      assert [first] + tail == [first];
    } else {
      assert ([first] + tail)[1..] == tail;
      assert Join(rest, sep) == rest[0] + [sep] + Join(tail, sep);
    }
    assert s == [s[0]] + s[1..];
  }

  /** Joining pieces free of the separator and splitting again gives the pieces back. */
  lemma {:induction false} SplitJoin(parts: seq<string>, sep: char)
    requires |parts| >= 1
    requires forall i :: 0 <= i < |parts| ==> sep !in parts[i]
    ensures Split(Join(parts, sep), sep) == parts
  {
    if |parts| == 1 {
      SplitNoSeparator(parts[0], sep);
    } else {
      SplitJoin(parts[1..], sep);
      SplitAfterPiece(parts[0], Join(parts[1..], sep), sep);
      assert [parts[0]] + parts[1..] == parts;
    }
  }

  lemma {:induction false} SplitNoSeparator(p: string, sep: char)
    requires sep !in p
    ensures Split(p, sep) == [p]
  {
    if p != [] {
      SplitNoSeparator(p[1..], sep);
      assert [p[0]] + p[1..] == p;
    }
  }

  lemma {:induction false} SplitAfterPiece(p: string, tail: string, sep: char)
    requires sep !in p
    ensures Split(p + [sep] + tail, sep) == [p] + Split(tail, sep)
  {
    if p == [] {
      assert p + [sep] + tail == [sep] + tail;
      assert ([sep] + tail)[1..] == tail;
    } else {
      SplitAfterPiece(p[1..], tail, sep);
      assert (p + [sep] + tail)[1..] == p[1..] + [sep] + tail;
      assert [p[0]] + p[1..] == p;
    }
  }

  /** `s.strip()`: `s` without its leading and trailing whitespace. */
  function Strip(s: string): (r: string)
    ensures |r| <= |s|
    ensures r == [] || (!IsSpace(r[0]) && !IsSpace(r[|r| - 1]))
    ensures r == [] ==> forall k :: 0 <= k < |s| ==> IsSpace(s[k])
    ensures forall c :: c in r ==> c in s
    ensures r != [] ==> LeadingSpaces(s) + |r| <= |s| && r == s[LeadingSpaces(s)..LeadingSpaces(s) + |r|]
    ensures forall k :: LeadingSpaces(s) + |r| <= k < |s| ==> IsSpace(s[k])
  {
    var t := TrimEnd(s);
    var i := LeadingSpaces(t);
    if t == [] then t
    else
      LeadingSpacesOfPrefix(s, |t|);
      t[i..]
  }

  /** The number of whitespace characters `s` starts with. */
  function LeadingSpaces(s: string): (n: nat)
    ensures n <= |s|
    ensures forall k :: 0 <= k < n ==> IsSpace(s[k])
    ensures n < |s| ==> !IsSpace(s[n])
  {
    if s != [] && IsSpace(s[0]) then 1 + LeadingSpaces(s[1..]) else 0
  }

  /** A prefix that does not consist of whitespace only starts with as
      much whitespace as the whole string. */
  lemma {:induction false} LeadingSpacesOfPrefix(s: string, m: nat)
    requires m <= |s| && LeadingSpaces(s[..m]) < m
    ensures LeadingSpaces(s[..m]) == LeadingSpaces(s)
  {
    if IsSpace(s[0]) {
      assert s[..m][1..] == s[1..][..m - 1];
      LeadingSpacesOfPrefix(s[1..], m - 1);
    }
  }

  lemma StripIdempotent(s: string)
    ensures Strip(Strip(s)) == Strip(s)
  {
    var r := Strip(s);
    assert TrimEnd(r) == r;
    assert r != [] ==> LeadingSpaces(r) == 0;
  }

  /** `[x.strip() for x in s.split(sep)]`. */
  function StripAll(parts: seq<string>): (r: seq<string>)
    ensures |r| == |parts|
    ensures forall i :: 0 <= i < |r| ==> r[i] == Strip(parts[i])
  {
    if parts == [] then [] else [Strip(parts[0])] + StripAll(parts[1..])
  }

  /** A list field read the way MiscControls, Define, IncludePath and the
      linker's Misc are: one child must match, and its text must be present. */
  function SplitField(e: Element, path: string, sep: char): (r: Result<seq<string>>)
    ensures r.Ok? <==> exists s :: Text(e, path, false, false) == Ok(Some(s))
    ensures forall s :: Text(e, path, false, false) == Ok(Some(s)) ==> r == Ok(StripAll(Split(s, sep)))
  {
    match Text(e, path, false, false)
    case Err(err) => Err(err)
    case Ok(None) => Err(NoText(path))
    case Ok(Some(s)) => Ok(StripAll(Split(s, sep)))
  }

  /** A list field read the way Undefine is: a missing text counts as "". */
  function SplitFieldOrEmpty(e: Element, path: string, sep: char): (r: Result<seq<string>>)
    ensures r.Ok? <==> Text(e, path, false, false).Ok?
    ensures Text(e, path, false, false) == Ok(None) ==> r == Ok([""])
    ensures forall s :: Text(e, path, false, false) == Ok(Some(s)) ==> r == Ok(StripAll(Split(s, sep)))
  {
    match Text(e, path, false, false)
    case Err(err) => Err(err)
    case Ok(None) =>
      assert Split("", sep) == [""] && Strip("") == "";
      assert StripAll([""]) == [""];
      Ok(StripAll(Split("", sep)))
    case Ok(Some(s)) => Ok(StripAll(Split(s, sep)))
  }

  /** The separators of the list fields. */
  const MiscSeparator: char := ','
  const DefineSeparator: char := ' '
  const UndefineSeparator: char := ' '
  const IncludePathSeparator: char := ';'

  /** `str.split` gives one piece more than there are separators. */
  lemma {:induction false} SplitCount(s: string, sep: char)
    ensures |Split(s, sep)| == multiset(s)[sep] + 1
  {
    if s != [] {
      SplitCount(s[1..], sep);
      assert s == [s[0]] + s[1..];
      assert multiset(s) == multiset([s[0]]) + multiset(s[1..]);
    }
  }

  /** Every stripped piece of a list field is free of the separator and of
      surrounding whitespace, and there is one piece per separator plus one. */
  lemma SplitFieldPieces(e: Element, path: string, sep: char, s: string)
    requires Text(e, path, false, false) == Ok(Some(s))
    ensures SplitField(e, path, sep).Ok?
    ensures |SplitField(e, path, sep).value| == |Split(s, sep)| == multiset(s)[sep] + 1
    ensures forall p :: p in SplitField(e, path, sep).value ==> sep !in p && Strip(p) == p
  {
    SplitCount(s, sep);
    JoinSplit(s, sep);
    var ps := SplitField(e, path, sep).value;
    forall p | p in ps
      ensures sep !in p && Strip(p) == p
    {
      var i :| 0 <= i < |ps| && ps[i] == p;
      var q := Split(s, sep)[i];
      assert q in Split(s, sep) && p == Strip(q);
      StripIdempotent(q);
    }
  }

  /** The miscellaneous controls split at commas. */
  lemma MiscControlsExample()
    ensures SplitField(Leaf("MiscControls", "a, b"), "MiscControls", MiscSeparator) == Ok(["a", "b"])
  {
    StripOneCharacter('a');
    StripSpaceThenCharacter('b');
    assert Join(["a", " b"], ',') == "a, b";
    ListFieldExample("MiscControls", ["a", " b"], ',', ["a", "b"]);
  }

  /** Definitions split at spaces. */
  lemma DefineExample()
    ensures SplitField(Leaf("Define", "A B"), "Define", DefineSeparator) == Ok(["A", "B"])
  {
    StripOneCharacter('A');
    StripOneCharacter('B');
    assert Join(["A", "B"], ' ') == "A B";
    ListFieldExample("Define", ["A", "B"], ' ', ["A", "B"]);
  }

  /** Un-definitions split at spaces too. */
  lemma UndefineExample()
    ensures SplitFieldOrEmpty(Leaf("Undefine", "U V"), "Undefine", UndefineSeparator) == Ok(["U", "V"])
  {
    StripOneCharacter('U');
    StripOneCharacter('V');
    assert Join(["U", "V"], ' ') == "U V";
    ListFieldExample("Undefine", ["U", "V"], ' ', ["U", "V"]);
  }

  /** Include paths split at semicolons. */
  lemma IncludePathExample()
    ensures SplitField(Leaf("IncludePath", "i;j"), "IncludePath", IncludePathSeparator) == Ok(["i", "j"])
  {
    StripOneCharacter('i');
    StripOneCharacter('j');
    assert Join(["i", "j"], ';') == "i;j";
    ListFieldExample("IncludePath", ["i", "j"], ';', ["i", "j"]);
  }

  lemma StripOneCharacter(c: char)
    requires !IsSpace(c)
    ensures Strip([c]) == [c]
  {
  }

  lemma StripSpaceThenCharacter(c: char)
    requires !IsSpace(c)
    ensures Strip([' ', c]) == [c]
  {
  }

  /** The field whose text is `parts` joined by `sep` reads as the pieces,
      each stripped. */
  lemma ListFieldExample(path: string, parts: seq<string>, sep: char, stripped: seq<string>)
    requires |parts| >= 1 && |parts| == |stripped|
    requires forall i :: 0 <= i < |parts| ==> sep !in parts[i] && Strip(parts[i]) == stripped[i]
    ensures SplitField(Leaf(path, Join(parts, sep)), path, sep) == Ok(stripped)
    ensures SplitFieldOrEmpty(Leaf(path, Join(parts, sep)), path, sep) == Ok(stripped)
  {
    var e := Leaf(path, Join(parts, sep));
    assert Select(e, path) == [Some(Join(parts, sep))];
    assert Text(e, path, false, false) == Ok(Some(Join(parts, sep)));
    SplitJoin(parts, sep);
    assert StripAll(parts) == stripped;
  }

  /** A Define element whose text is missing makes the as-written reader
      fail, while the Undefine reader yields one empty piece. */
  lemma EmptyDefineRaises(path: string)
    ensures SplitField(Element(map[], map[path := [None]]), path, DefineSeparator) == Err(NoText(path))
    ensures SplitFieldOrEmpty(Element(map[], map[path := [None]]), path, DefineSeparator) == Ok([""])
  {
    assert Select(Element(map[], map[path := [None]]), path) == [None];
  }
}
