/** The initials badge every screen draws for a user without a photo: the
    initials of the user's name, and a pastel colour whose hue is the string
    hash of the name (whose `<< 5` step wraps to 32 bits), reduced with JavaScript's truncating `%`. */
module Avatar {
  import opened Base
  import opened Text

  /** The exception `undefined.toUpperCase()` raises. */
  datatype Failure = TypeError

  /** `s[0]` as a string operand: the first character, or the text
      "undefined" that an out-of-range index turns into under `+`. */
  function CharAt0(s: string): (r: string)
    ensures s != [] ==> r == [s[0]]
    ensures s == [] ==> r == "undefined"
  {
    if s == [] then "undefined" else [s[0]]
  }

  /** The pieces of a text that neither starts nor ends with a space, split at
      spaces: the first piece starts with the text's first character, the last
      piece with the character after the last space, and there is one piece
      exactly when the text has no space. */
  lemma SplitPieces(t: string)
    requires t != [] && t[0] != ' ' && t[|t| - 1] != ' '
    ensures var parts := Split(t, ' ');
      && parts[0] != [] && parts[0][0] == t[0]
      && AfterLast(t, ' ') < |t|
      && parts[|parts| - 1] != [] && parts[|parts| - 1][0] == t[AfterLast(t, ' ')]
      && (|parts| == 1 <==> ' ' !in t)
  {
    SplitEnds(t, ' ');
    var k := AfterLast(t, ' ');
    assert k < |t|;
  }

  /** What `getInitials` makes of the pieces of the trimmed name. */
  function InitialsOfPieces(parts: seq<string>): (r: Result<string, Failure>)
    requires |parts| >= 1
    ensures |parts| == 1 && parts[0] == "" ==> r == Err(TypeError)
    ensures parts[0] != "" && parts[|parts| - 1] != "" ==>
      r == Ok(if |parts| == 1 then [ToUpper(parts[0][0])] else [ToUpper(parts[0][0]), ToUpper(parts[|parts| - 1][0])])
  {
    if |parts| == 1 then
      if parts[0] == "" then Err(TypeError)
      else
        var r := UpperCase([parts[0][0]]);
        assert r == [ToUpper(parts[0][0])];
        Ok(r)
    else
      var r := UpperCase(CharAt0(parts[0]) + CharAt0(parts[|parts| - 1]));
      assert parts[0] != [] && parts[|parts| - 1] != [] ==>
        r == [ToUpper(parts[0][0]), ToUpper(parts[|parts| - 1][0])];
      Ok(r)
  }

  /** The initials of a text that neither starts nor ends with a space. */
  lemma PiecesInitials(t: string)
    requires t != [] && t[0] != ' ' && t[|t| - 1] != ' '
    ensures AfterLast(t, ' ') < |t|
    ensures InitialsOfPieces(Split(t, ' '))
         == Ok(if ' ' in t then [ToUpper(t[0]), ToUpper(t[AfterLast(t, ' ')])] else [ToUpper(t[0])])
  {
    SplitPieces(t);
  }

  /** `getInitials(name)`: nothing for an empty name; a throw when the trimmed
      name is empty; else the upper-cased first character of the trimmed name,
      followed by the first character of its last space-separated word when it
      has more than one. */
  function Initials(name: string): (r: Result<string, Failure>)
    ensures name == "" ==> r == Ok("")
    ensures name != "" && Trim(name) == "" ==> r == Err(TypeError)
    ensures Trim(name) != "" ==>
      var t := Trim(name);
      && AfterLast(t, ' ') < |t|
      && r == Ok(if ' ' in t then [ToUpper(t[0]), ToUpper(t[AfterLast(t, ' ')])] else [ToUpper(t[0])])
  {
    if name == "" then Ok("")
    else
      var t := Trim(name);
      if t == [] then
        assert Split(t, ' ') == [[]];
        InitialsOfPieces(Split(t, ' '))
      else
        PiecesInitials(t);
        InitialsOfPieces(Split(t, ' '))
  }

  /** `getInitials` throws exactly on the names that are not empty but blank. */
  lemma InitialsThrowsIffBlank(name: string)
    ensures Initials(name).Err? <==> name != "" && AllWhitespace(name)
  {
    TrimEmptyIffBlank(name);
  }

  /** `s.charCodeAt(i)` for every `i < s.length`: the UTF-16 code units. A
      character below U+10000 is one unit, its own code; any other is the
      surrogate pair that encodes it. */
  function CodeUnits(s: string): (units: seq<int>)
    ensures |units| >= |s|
    ensures forall i :: 0 <= i < |units| ==> 0 <= units[i] < 0x1_0000
    ensures (forall i :: 0 <= i < |s| ==> s[i] as int < 0x1_0000) ==>
      |units| == |s| && forall i :: 0 <= i < |s| ==> units[i] == s[i] as int
    ensures |s| == 1 && s[0] as int >= 0x1_0000 ==>
      var c := s[0] as int - 0x1_0000;
      && units == [0xD800 + c / 0x400, 0xDC00 + c % 0x400]
      && 0xD800 <= units[0] < 0xDC00 <= units[1] < 0xE000
  {
    if s == [] then [] else CharUnits(s[0]) + CodeUnits(s[1..])
  }

  /** One character in UTF-16: itself, or a surrogate pair above the basic plane. */
  function CharUnits(ch: char): (units: seq<int>)
    ensures ch as int < 0x1_0000 ==> units == [ch as int]
    ensures ch as int >= 0x1_0000 ==>
      var c := ch as int - 0x1_0000;
      && units == [0xD800 + c / 0x400, 0xDC00 + c % 0x400]
      && 0xD800 <= units[0] < 0xDC00 <= units[1] < 0xE000
  {
    var c := ch as int;
    if c < 0x1_0000 then [c]
    else [0xD800 + (c - 0x1_0000) / 0x400, 0xDC00 + (c - 0x1_0000) % 0x400]
  }

  /** The code units of a concatenation are those of its parts, one after the other. */
  lemma {:induction false} CodeUnitsAppend(s: string, t: string)
    ensures CodeUnits(s + t) == CodeUnits(s) + CodeUnits(t)
  {
    if s != [] {
      assert (s + t)[0] == s[0] && (s + t)[1..] == s[1..] + t;
      CodeUnitsAppend(s[1..], t);
      calc {
        CodeUnits(s + t);
        CharUnits(s[0]) + CodeUnits(s[1..] + t);
        CharUnits(s[0]) + (CodeUnits(s[1..]) + CodeUnits(t));
        (CharUnits(s[0]) + CodeUnits(s[1..])) + CodeUnits(t);
      }
    } else {
      assert s + t == t;
    }
  }

  const TwoTo32: int := 0x1_0000_0000

  /** ECMAScript ToInt32 on an integral number. */
  function ToInt32(x: int): (r: int)
    ensures -0x8000_0000 <= r < 0x8000_0000
    ensures (x - r) % TwoTo32 == 0
  {
    var m := x % TwoTo32;
    if m >= 0x8000_0000 then m - TwoTo32 else m
  }

  /** `x << 5`: the operand is taken as a 32-bit integer and the product wraps. */
  function ShiftLeft5(x: int): (r: int)
    ensures -0x8000_0000 <= r < 0x8000_0000
    ensures exists k :: 32 * x - r == k * TwoTo32
  {
    var y := ToInt32(x);
    var r := ToInt32(y * 32);
    assert exists k :: 32 * x - r == k * TwoTo32 by {
      ToInt32Congruent(x);
      var a :| x - y == a * TwoTo32;
      ToInt32Congruent(y * 32);
      var b :| y * 32 - r == b * TwoTo32;
      assert 32 * x - r == (32 * a + b) * TwoTo32;
    }
    r
  }

  /** One round of the loop: `hash = code + ((hash << 5) - hash)`. Only the shift
      wraps; the subtraction and the addition are exact. */
  function HashStep(hash: int, unit: int): int {
    unit + (ShiftLeft5(hash) - hash)
  }

  /** The value of `hash` after the loop has read `units`. It agrees with the
      polynomial hash modulo 2^32: the familiar `hash * 31 + c` string hash,
      kept exact between the shifts. */
  function Hash(units: seq<int>): (h: int)
    ensures exists k :: h - Poly31(units) == k * TwoTo32
  {
    if units == [] then
      assert 0 - Poly31(units) == 0 * TwoTo32;
      0
    else
      var init := units[..|units| - 1];
      var u := units[|units| - 1];
      var h0 := Hash(init);
      assert exists k :: HashStep(h0, u) - Poly31(units) == k * TwoTo32 by {
        var a :| h0 - Poly31(init) == a * TwoTo32;
        HashStepCongruent(h0, u);
        var b :| HashStep(h0, u) - (31 * h0 + u) == b * TwoTo32;
        assert HashStep(h0, u) - Poly31(units) == (b + 31 * a) * TwoTo32;
      }
      HashStep(h0, u)
  }

  /** The textbook polynomial string hash with multiplier 31. */
  function Poly31(units: seq<int>): int {
    if units == [] then 0 else 31 * Poly31(units[..|units| - 1]) + units[|units| - 1]
  }

  lemma ToInt32Congruent(x: int)
    ensures exists k :: x - ToInt32(x) == k * TwoTo32
  {
    var r := ToInt32(x);
    var k := (x - r) / TwoTo32;
    assert x - r == k * TwoTo32;
  }

  /** Each round multiplies by 31 and adds the code unit, modulo 2^32. */
  lemma HashStepCongruent(h: int, u: int)
    ensures exists k :: HashStep(h, u) - (31 * h + u) == k * TwoTo32
  {
    ToInt32Congruent(h);
    var a :| h - ToInt32(h) == a * TwoTo32;
    ToInt32Congruent(ToInt32(h) * 32);
    var b :| ToInt32(h) * 32 - ShiftLeft5(h) == b * TwoTo32;
    assert HashStep(h, u) - (31 * h + u) == (-32 * a - b) * TwoTo32;
  }

  /** The hash grows by at most 2^31 + 2^16 in magnitude per code unit, so for
      any name shorter than 2^21 code units it stays below 2^53, where the
      floating-point arithmetic of the loop is exact. */
  lemma {:induction false} HashBound(units: seq<int>)
    requires forall i :: 0 <= i < |units| ==> 0 <= units[i] < 0x1_0000
    ensures -|units| * 0x8001_0000 <= Hash(units) <= |units| * 0x8001_0000
    ensures |units| <= 0x20_0000 ==> -0x20_0000_0000_0000 < Hash(units) < 0x20_0000_0000_0000
  {
    if units != [] {
      var init := units[..|units| - 1];
      HashBound(init);
      assert -0x8000_0000 <= units[|units| - 1] + ShiftLeft5(Hash(init)) < 0x8001_0000;
    }
    if |units| <= 0x20_0000 {
      assert |units| * 0x8001_0000 <= 0x20_0000 * 0x8001_0000;
    }
  }

  /** `hash % 360`: the remainder truncated toward zero, carrying the sign of
      the hash. */
  function Hue(hash: int): (h: int)
    ensures -360 < h < 360
    ensures hash >= 0 ==> h >= 0
    ensures hash <= 0 ==> h <= 0
    ensures (hash - h) % 360 == 0
  {
    if hash >= 0 then hash % 360 else -((-hash) % 360)
  }

  /** `hsl(h, 70%, 85%)` */
  datatype Color = Hsl(hue: int, saturation: int, lightness: int)

  /** The colour `stringToColor(name)` picks. */
  function ColorOf(name: string): (c: Color)
    ensures -360 < c.hue < 360 && c.saturation == 70 && c.lightness == 85
    ensures (Hash(CodeUnits(name)) - c.hue) % 360 == 0
    ensures Hash(CodeUnits(name)) >= 0 ==> c.hue >= 0
    ensures Hash(CodeUnits(name)) <= 0 ==> c.hue <= 0
  {
    Hsl(Hue(Hash(CodeUnits(name))), 70, 85)
  }

  /** `stringToColor(str)` */
  method StringToColor(str: string) returns (c: Color)
    ensures c == ColorOf(str)
  {
    var units := CodeUnits(str);
    var hash := 0;
    var i := 0;
    while i < |units|
      invariant 0 <= i <= |units|
      invariant hash == Hash(units[..i])
    {
      assert units[..i + 1][..i] == units[..i];
      hash := units[i] + (ShiftLeft5(hash) - hash);
      i := i + 1;
    }
    assert units[..i] == units;
    var h := if hash >= 0 then hash % 360 else -((-hash) % 360);
    c := Hsl(h, 70, 85);
  }
}
