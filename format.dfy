/** What a result card shows besides the name and the glyph: the code-point
    label (`Result.compose`) and the HTML entity (`Result.get_html_entity`). */
module Format {
  import opened Text
  import opened Numerals
  import Lists

  datatype Option<T> = None | Some(value: T)

  const AMPERSAND: CodePoint := 38   // '&'
  const HASH: CodePoint := 35        // '#'
  const SEMICOLON: CodePoint := 59   // ';'

  predicate IsAlphanumeric(x: CodePoint)
  {
    48 <= x <= 57 || 65 <= x <= 90 || 97 <= x <= 122
  }

  /** The shape of `html.entities.codepoint2name`: each name is a non-empty run
      of ASCII letters and digits, and no two code points share a name. */
  ghost predicate WellFormedNames(names: map<CodePoint, Str>)
  {
    && (forall c :: c in names ==> names[c] != [] && forall k :: 0 <= k < |names[c]| ==> IsAlphanumeric(names[c][k]))
    && (forall c, d :: c in names && d in names && names[c] == names[d] ==> c == d)
  }

  /** One code point's reference: `&name;` when it has a name, else `&#decimal;`. */
  function EntityOf(c: CodePoint, names: map<CodePoint, Str>): Str
  {
    [AMPERSAND] + (if c in names then names[c] else [HASH] + ToNumeral(c, 10)) + [SEMICOLON]
  }

  /** `get_html_entity`: the references of the glyph's code points, concatenated. */
  function HtmlEntity(glyph: Str, names: map<CodePoint, Str>): Str
  {
    if glyph == [] then [] else EntityOf(glyph[0], names) + HtmlEntity(glyph[1..], names)
  }

  /** Each code point contributes a reference of at least two characters, so the
      entity is empty only for the empty glyph, and otherwise runs from `&` to `;`. */
  lemma {:induction false} HtmlEntityShape(glyph: Str, names: map<CodePoint, Str>)
    ensures |HtmlEntity(glyph, names)| >= 2 * |glyph|
    ensures glyph == [] <==> HtmlEntity(glyph, names) == []
    ensures glyph != [] ==> HtmlEntity(glyph, names)[0] == AMPERSAND
    ensures glyph != [] ==> HtmlEntity(glyph, names)[|HtmlEntity(glyph, names)| - 1] == SEMICOLON
    decreases |glyph|
  {
    if glyph != [] {
      HtmlEntityShape(glyph[1..], names);
      var head := EntityOf(glyph[0], names);
      assert head[0] == AMPERSAND && head[|head| - 1] == SEMICOLON;
    }
  }

  /** The references of a concatenation are the concatenated references. */
  lemma {:induction false} HtmlEntityAppend(a: Str, b: Str, names: map<CodePoint, Str>)
    ensures HtmlEntity(a + b, names) == HtmlEntity(a, names) + HtmlEntity(b, names)
    decreases |a|
  {
    if a == [] {
      assert a + b == b;
    } else {
      HtmlEntityAppend(a[1..], b, names);
      HtmlEntityCons(a[0], a[1..] + b, names);
      assert [a[0]] + (a[1..] + b) == a + b;
      Lists.AppendAssoc(EntityOf(a[0], names), HtmlEntity(a[1..], names), HtmlEntity(b, names));
    }
  }

  lemma HtmlEntityCons(c: CodePoint, t: Str, names: map<CodePoint, Str>)
    ensures HtmlEntity([c] + t, names) == EntityOf(c, names) + HtmlEntity(t, names)
  {
    assert ([c] + t)[1..] == t;
  }

  /** The first position of `x` in `s`, or -1. */
  function IndexOf(s: Str, x: CodePoint): (k: int)
    ensures -1 <= k < |s|
    ensures k >= 0 ==> s[k] == x && x !in s[..k]
    ensures k < 0 ==> x !in s
  {
    if s == [] then -1
    else if s[0] == x then 0
    else
      var k := IndexOf(s[1..], x);
      assert k >= 0 ==> s[..k + 1] == [s[0]] + s[1..][..k];
      if k < 0 then -1 else k + 1
  }

  /** The code point a reference body (between `&` and `;`) stands for. */
  ghost function DecodeReference(body: Str, names: map<CodePoint, Str>): Option<CodePoint>
  {
    if |body| >= 2 && body[0] == HASH && AllDigits(body[1..], 10) then
      var v := ParseNumeral(body[1..], 10);
      if v < 0x11_0000 then Some(v) else None
    else if exists c :: c in names && names[c] == body then
      var c :| c in names && names[c] == body;
      Some(c)
    else None
  }

  /** Reads a concatenation of `&...;` references back into code points. */
  ghost function DecodeEntities(s: Str, names: map<CodePoint, Str>): Option<Str>
    decreases |s|
  {
    if s == [] then Some([])
    else if s[0] != AMPERSAND then None
    else
      var k := IndexOf(s, SEMICOLON);
      if k < 1 then None
      else match DecodeReference(s[1..k], names)
        case None => None
        case Some(c) =>
          match DecodeEntities(s[k + 1..], names)
          case None => None
          case Some(rest) => Some([c] + rest)
  }

  /** The first `;` in `a + [;] + b` is the one after `a` when `a` has none. */
  lemma IndexOfAfter(a: Str, b: Str)
    requires SEMICOLON !in a
    ensures IndexOf(a + [SEMICOLON] + b, SEMICOLON) == |a|
  {
    var s := a + [SEMICOLON] + b;
    var k := IndexOf(s, SEMICOLON);
    assert s[|a|] == SEMICOLON;
    assert s[..|a|] == a;
  }

  /** Each reference decodes to its code point. */
  lemma DecodeOneReference(c: CodePoint, names: map<CodePoint, Str>)
    requires WellFormedNames(names)
    ensures var body := if c in names then names[c] else [HASH] + ToNumeral(c, 10);
            SEMICOLON !in body && DecodeReference(body, names) == Some(c)
  {
    if c in names {
      var body := names[c];
      assert IsAlphanumeric(body[0]);
      assert forall k :: 0 <= k < |body| ==> body[k] != SEMICOLON by {
        forall k | 0 <= k < |body| ensures body[k] != SEMICOLON {
          assert IsAlphanumeric(body[k]);
        }
      }
    } else {
      var digits := ToNumeral(c, 10);
      var body := [HASH] + digits;
      assert body[1..] == digits;
      ParseToNumeral(c, 10);
      forall k | 0 <= k < |digits| ensures digits[k] != SEMICOLON {
        assert IsDigit(digits[k], 10);
      }
    }
  }

  /** Decoding what `get_html_entity` writes gives the glyph back. */
  lemma {:induction false} HtmlEntityRoundTrip(glyph: Str, names: map<CodePoint, Str>)
    requires WellFormedNames(names)
    ensures DecodeEntities(HtmlEntity(glyph, names), names) == Some(glyph)
    decreases |glyph|
  {
    if glyph != [] {
      var c := glyph[0];
      var body := if c in names then names[c] else [HASH] + ToNumeral(c, 10);
      var rest := HtmlEntity(glyph[1..], names);
      DecodeOneReference(c, names);
      HtmlEntityRoundTrip(glyph[1..], names);
      DecodeStep(body, rest, names, c, glyph[1..]);
      assert HtmlEntity(glyph, names) == [AMPERSAND] + body + [SEMICOLON] + rest;
      assert [c] + glyph[1..] == glyph;
    }
  }

  /** Decoding `&body;rest` reads `body` as one reference, then decodes `rest`. */
  lemma DecodeStep(body: Str, rest: Str, names: map<CodePoint, Str>, c: CodePoint, tail: Str)
    requires body != [] && SEMICOLON !in body
    requires DecodeReference(body, names) == Some(c)
    requires DecodeEntities(rest, names) == Some(tail)
    ensures DecodeEntities([AMPERSAND] + body + [SEMICOLON] + rest, names) == Some([c] + tail)
  {
    var s := [AMPERSAND] + body + [SEMICOLON] + rest;
    IndexOfAfter([AMPERSAND] + body, rest);
    assert s == ([AMPERSAND] + body) + [SEMICOLON] + rest;
    assert s[1..|body| + 1] == body;
    assert s[|body| + 2..] == rest;
  }

  /** The code-point label of a result card: for a one-code-point glyph, its
      upper-case hexadecimal value zero-filled to 4 digits, or to 8 when it needs
      more than 4; empty for a longer glyph. */
  function CodeLabel(glyph: Str): (code: Str)
    ensures |glyph| != 1 ==> code == []
    ensures |glyph| == 1 ==> |code| == (if glyph[0] <= 0xFFFF then 4 else 8)
    ensures |glyph| == 1 ==> AllDigits(code, 16) && ParseNumeral(code, 16) == glyph[0]
  {
    if |glyph| == 1 then
      var hex := ToNumeral(glyph[0], 16);
      CodeLabelFacts(glyph[0]);
      ZFill(hex, if |hex| > 4 then 8 else 4)
    else []
  }

  lemma CodeLabelFacts(c: CodePoint)
    ensures |ToNumeral(c, 16)| <= 4 <==> c <= 0xFFFF
    ensures |ToNumeral(c, 16)| <= 8
    ensures var hex := ToNumeral(c, 16);
            var width := if |hex| > 4 then 8 else 4;
            AllDigits(ZFill(hex, width), 16) && ParseNumeral(ZFill(hex, width), 16) == c
  {
    var hex := ToNumeral(c, 16);
    assert Pow(16, 4) == 0x1_0000 by {
      assert Pow(16, 2) == 256;
    }
    assert Pow(16, 8) == 0x1_0000_0000 by {
      assert Pow(16, 4) == 0x1_0000;
      assert Pow(16, 6) == 0x100_0000;
    }
    NumeralLength(c, 16, 4);
    NumeralLength(c, 16, 8);
    var width := if |hex| > 4 then 8 else 4;
    ParseToNumeral(c, 16);
    ParseLeadingZeros(width - |hex|, hex, 16);
  }

  /** The entity label of a result card: `get_html_entity()` for a
      one-code-point glyph, empty for a longer glyph. */
  function EntityLabel(glyph: Str, names: map<CodePoint, Str>): (entity: Str)
    ensures |glyph| != 1 ==> entity == []
    ensures |glyph| == 1 ==> |entity| >= 2 && entity[0] == AMPERSAND && entity[|entity| - 1] == SEMICOLON
  {
    if |glyph| == 1 then
      assert HtmlEntity(glyph, names) == EntityOf(glyph[0], names) + [];
      HtmlEntity(glyph, names)
    else []
  }

  /** The entity label of a one-code-point glyph decodes back to that code point. */
  lemma EntityLabelDecodes(glyph: Str, names: map<CodePoint, Str>)
    requires |glyph| == 1 && WellFormedNames(names)
    ensures DecodeEntities(EntityLabel(glyph, names), names) == Some(glyph)
  {
    HtmlEntityRoundTrip(glyph, names);
  }
}
