/**
 The XML text escaper of the Open Graph image generator.

 `EscapeXml` is the escaper as written: five successive one-character
 replacements, ampersand first. `EscapeEach` is an independent per-character
 reference definition, and `Unescape` is the inverse entity mapping. The
 lemmas show that the two escapers agree, that the output is well-formed
 (no bare markup character, every ampersand opens one of the five predefined
 entities of section 4.6 of XML 1.0, Fifth Edition), and that escaping is a
 bijection between all strings and the well-escaped ones.
 */
module XmlEscape {

  /** The five characters that have a predefined entity. */
  predicate IsSpecial(c: char) {
    c == '&' || c == '<' || c == '>' || c == '"' || c == '\''
  }

  predicate NoSpecial(t: string) {
    forall i :: 0 <= i < |t| ==> !IsSpecial(t[i])
  }

  /** Python's `str.replace(old, new)` for a one-character `old`: every
      occurrence of `c` in `s`, left to right, becomes `rep`. */
  function Replace(s: string, c: char, rep: string): (r: string)
    ensures c !in s ==> r == s
  {
    if s == [] then []
    else (if s[0] == c then rep else [s[0]]) + Replace(s[1..], c, rep)
  }

  /** The escaper as the generator writes it. The ampersand is replaced first,
      so the ampersands introduced by the later entities are left alone. */
  function EscapeXml(text: string): (r: string)
  {
    Replace(Replace(Replace(Replace(Replace(
      text, '&', "&amp;"), '<', "&lt;"), '>', "&gt;"), '"', "&quot;"), '\'', "&apos;")
  }

  /** Reference definition: the entity (or the character itself) for one character. */
  function EscapeChar(c: char): (e: string) {
    match c
    case '&' => "&amp;"
    case '<' => "&lt;"
    case '>' => "&gt;"
    case '"' => "&quot;"
    case '\'' => "&apos;"
    case _ => [c]
  }

  /** Reference definition: escape each character independently, in order. */
  function EscapeEach(t: string): (r: string) {
    if t == [] then [] else EscapeChar(t[0]) + EscapeEach(t[1..])
  }

  /** True when `s` opens with one of the five predefined entities. */
  predicate BeginsEntity(s: string) {
    "&amp;" <= s || "&lt;" <= s || "&gt;" <= s || "&quot;" <= s || "&apos;" <= s
  }

  /** A well-escaped string: no bare `<`, `>`, `"` or `'`, and every `&`
      opens one of the five predefined entities. */
  predicate IsEscaped(s: string) {
    && (forall i :: 0 <= i < |s| ==> s[i] != '<' && s[i] != '>' && s[i] != '"' && s[i] != '\'')
    && (forall i :: 0 <= i < |s| && s[i] == '&' ==> BeginsEntity(s[i..]))
  }

  /** The inverse entity mapping: each predefined entity becomes its character,
      every other character is kept. */
  function Unescape(s: string): (r: string)
    ensures |r| <= |s|
    decreases |s|
  {
    if s == [] then []
    else if "&amp;" <= s then ['&'] + Unescape(s[5..])
    else if "&lt;" <= s then ['<'] + Unescape(s[4..])
    else if "&gt;" <= s then ['>'] + Unescape(s[4..])
    else if "&quot;" <= s then ['"'] + Unescape(s[6..])
    else if "&apos;" <= s then ['\''] + Unescape(s[6..])
    else [s[0]] + Unescape(s[1..])
  }

  // ---------------------------------------------------------------------
  // The as-written escaper agrees with the per-character reference
  // ---------------------------------------------------------------------

  lemma {:induction false} ReplaceAppend(a: string, b: string, c: char, rep: string)
    ensures Replace(a + b, c, rep) == Replace(a, c, rep) + Replace(b, c, rep)
    decreases |a|
  {
    if a == [] {
      assert a + b == b;
    } else {
      assert (a + b)[0] == a[0];
      assert (a + b)[1..] == a[1..] + b;
      ReplaceAppend(a[1..], b, c, rep);
    }
  }

  /** Escaping distributes over concatenation. */
  lemma EscapeXmlAppend(a: string, b: string)
    ensures EscapeXml(a + b) == EscapeXml(a) + EscapeXml(b)
  {
    var a1, b1 := Replace(a, '&', "&amp;"), Replace(b, '&', "&amp;");
    ReplaceAppend(a, b, '&', "&amp;");
    var a2, b2 := Replace(a1, '<', "&lt;"), Replace(b1, '<', "&lt;");
    ReplaceAppend(a1, b1, '<', "&lt;");
    var a3, b3 := Replace(a2, '>', "&gt;"), Replace(b2, '>', "&gt;");
    ReplaceAppend(a2, b2, '>', "&gt;");
    var a4, b4 := Replace(a3, '"', "&quot;"), Replace(b3, '"', "&quot;");
    ReplaceAppend(a3, b3, '"', "&quot;");
    ReplaceAppend(a4, b4, '\'', "&apos;");
  }

  /** A replacement whose text does not hold `c` leaves no `c` behind. */
  lemma {:induction false} ReplaceRemovesAll(s: string, c: char, rep: string)
    requires c !in rep
    ensures c !in Replace(s, c, rep)
    decreases |s|
  {
    if s != [] {
      ReplaceRemovesAll(s[1..], c, rep);
    }
  }

  lemma ReplaceSingle(c: char, d: char, rep: string)
    ensures Replace([c], d, rep) == if c == d then rep else [c]
  {
    assert [c][1..] == [];
  }

  /** On one character the replacement chain yields exactly that character's entity. */
  lemma EscapeXmlChar(c: char)
    ensures EscapeXml([c]) == EscapeChar(c)
  {
    match c
    case '&' => EscapeXmlAmp(c);
    case '<' => EscapeXmlLt(c);
    case '>' => EscapeXmlGt(c);
    case '"' => EscapeXmlQuot(c);
    case '\'' => EscapeXmlApos(c);
    case _ =>
      ReplaceSingle(c, '&', "&amp;");
      ReplaceSingle(c, '<', "&lt;");
      ReplaceSingle(c, '>', "&gt;");
      ReplaceSingle(c, '"', "&quot;");
      ReplaceSingle(c, '\'', "&apos;");
  }

  // One straight-line lemma per special character: stated for a symbolic
  // `c`, each keeps the solver from unfolding the chain on literal strings.

  /** The four stages after the ampersand leave a string without their characters alone. */
  lemma LaterStagesKeep(e: string)
    requires '<' !in e && '>' !in e && '"' !in e && '\'' !in e
    ensures Replace(Replace(Replace(Replace(e, '<', "&lt;"), '>', "&gt;"), '"', "&quot;"), '\'', "&apos;") == e
  {
  }

  lemma EscapeXmlAmp(c: char)
    requires c == '&'
    ensures EscapeXml([c]) == "&amp;"
  {
    ReplaceSingle(c, '&', "&amp;");
    LaterStagesKeep("&amp;");
  }

  lemma EscapeXmlLt(c: char)
    requires c == '<'
    ensures EscapeXml([c]) == "&lt;"
  {
    var s0: string := [c];
    var s1 := Replace(s0, '&', "&amp;");
    ReplaceSingle(c, '&', "&amp;");
    var s2 := Replace(s1, '<', "&lt;");
    ReplaceSingle(c, '<', "&lt;");
    assert s2 == "&lt;";
    var s3 := Replace(s2, '>', "&gt;");
    assert s3 == "&lt;";
    var s4 := Replace(s3, '"', "&quot;");
    assert s4 == "&lt;";
  }

  lemma EscapeXmlGt(c: char)
    requires c == '>'
    ensures EscapeXml([c]) == "&gt;"
  {
    var s0: string := [c];
    var s1 := Replace(s0, '&', "&amp;");
    ReplaceSingle(c, '&', "&amp;");
    var s2 := Replace(s1, '<', "&lt;");
    ReplaceSingle(c, '<', "&lt;");
    var s3 := Replace(s2, '>', "&gt;");
    ReplaceSingle(c, '>', "&gt;");
    assert s3 == "&gt;";
    var s4 := Replace(s3, '"', "&quot;");
    assert s4 == "&gt;";
  }

  lemma EscapeXmlQuot(c: char)
    requires c == '"'
    ensures EscapeXml([c]) == "&quot;"
  {
    var s0: string := [c];
    var s1 := Replace(s0, '&', "&amp;");
    ReplaceSingle(c, '&', "&amp;");
    var s2 := Replace(s1, '<', "&lt;");
    ReplaceSingle(c, '<', "&lt;");
    var s3 := Replace(s2, '>', "&gt;");
    ReplaceSingle(c, '>', "&gt;");
    var s4 := Replace(s3, '"', "&quot;");
    ReplaceSingle(c, '"', "&quot;");
    assert s4 == "&quot;";
  }

  lemma EscapeXmlApos(c: char)
    requires c == '\''
    ensures EscapeXml([c]) == "&apos;"
  {
    var s0: string := [c];
    var s1 := Replace(s0, '&', "&amp;");
    ReplaceSingle(c, '&', "&amp;");
    var s2 := Replace(s1, '<', "&lt;");
    ReplaceSingle(c, '<', "&lt;");
    var s3 := Replace(s2, '>', "&gt;");
    ReplaceSingle(c, '>', "&gt;");
    var s4 := Replace(s3, '"', "&quot;");
    ReplaceSingle(c, '"', "&quot;");
    ReplaceSingle(c, '\'', "&apos;");
  }

  /** The chain of five replacements, ampersand first, escapes each character
      independently: the `&` of an entity inserted by a later stage is never
      reached by the ampersand stage, so no entity is escaped a second time. */
  lemma {:induction false} EscapeXmlIsPerCharacter(t: string)
    ensures EscapeXml(t) == EscapeEach(t)
    decreases |t|
  {
    if t != [] {
      assert t == [t[0]] + t[1..];
      EscapeXmlAppend([t[0]], t[1..]);
      EscapeXmlChar(t[0]);
      EscapeXmlIsPerCharacter(t[1..]);
    }
  }

  // ---------------------------------------------------------------------
  // Well-formedness of the output
  // ---------------------------------------------------------------------

  lemma IsEscapedAppend(a: string, b: string)
    requires IsEscaped(a) && IsEscaped(b)
    ensures IsEscaped(a + b)
  {
    var s := a + b;
    forall i | 0 <= i < |s| && s[i] == '&'
      ensures BeginsEntity(s[i..])
    {
      if i < |a| {
        assert s[i..] == a[i..] + b;
        assert a[i] == '&';
        var e := a[i..];
        assert BeginsEntity(e);
      } else {
        assert s[i..] == b[i - |a|..];
        assert b[i - |a|] == '&';
      }
    }
  }

  lemma EscapeCharIsEscaped(c: char)
    ensures IsEscaped(EscapeChar(c))
  {
    var e := EscapeChar(c);
    if c == '&' || c == '<' || c == '>' || c == '"' || c == '\'' {
      assert e[0] == '&' && e[0..] == e;
      forall i | 0 < i < |e|
        ensures e[i] != '&'
      {
      }
    }
  }

  lemma {:induction false} EscapeEachIsEscaped(t: string)
    ensures IsEscaped(EscapeEach(t))
    decreases |t|
  {
    if t != [] {
      EscapeCharIsEscaped(t[0]);
      EscapeEachIsEscaped(t[1..]);
      IsEscapedAppend(EscapeChar(t[0]), EscapeEach(t[1..]));
    }
  }

  /** The escaped output contains no `<`, `>`, `"` or `'`, and every `&` in it
      opens exactly one of `&amp;`, `&lt;`, `&gt;`, `&quot;`, `&apos;`. */
  lemma EscapeXmlIsEscaped(t: string)
    ensures IsEscaped(EscapeXml(t))
  {
    EscapeXmlIsPerCharacter(t);
    EscapeEachIsEscaped(t);
  }

  // ---------------------------------------------------------------------
  // Round trips
  // ---------------------------------------------------------------------

  /** Unescaping a string that opens with entity `e` of `c` yields `c` and
      unescapes the remainder. */
  lemma UnescapeEntity(s: string, c: char, e: string, rest: string)
    requires IsSpecial(c) && e == EscapeChar(c) && s == e + rest
    ensures Unescape(s) == [c] + Unescape(rest)
  {
    assert e <= s && s[|e|..] == rest;
    if c != '&' {
      assert s[1] != 'a' || s[2] != 'm';
    }
  }

  lemma UnescapeEscapeChar(c: char, rest: string)
    ensures Unescape(EscapeChar(c) + rest) == [c] + Unescape(rest)
  {
    var s := EscapeChar(c) + rest;
    if IsSpecial(c) {
      UnescapeEntity(s, c, EscapeChar(c), rest);
    } else {
      assert s[0] == c && s[1..] == rest;
    }
  }

  lemma {:induction false} UnescapeEscapeEach(t: string)
    ensures Unescape(EscapeEach(t)) == t
    decreases |t|
  {
    if t != [] {
      UnescapeEscapeChar(t[0], EscapeEach(t[1..]));
      UnescapeEscapeEach(t[1..]);
      assert t == [t[0]] + t[1..];
    }
  }

  /** Applying the inverse entity mapping to the escaped text gives back the input. */
  lemma EscapeXmlRoundTrip(t: string)
    ensures Unescape(EscapeXml(t)) == t
  {
    EscapeXmlIsPerCharacter(t);
    UnescapeEscapeEach(t);
  }

  lemma IsEscapedSuffix(s: string, k: nat)
    requires IsEscaped(s) && k <= |s|
    ensures IsEscaped(s[k..])
  {
    var t := s[k..];
    forall i | 0 <= i < |t| && t[i] == '&'
      ensures BeginsEntity(t[i..])
    {
      assert t[i] == s[k + i];
      assert t[i..] == s[k + i..];
    }
  }

  lemma EscapeEachCons(c: char, rest: string)
    ensures EscapeEach([c] + rest) == EscapeChar(c) + EscapeEach(rest)
  {
    assert ([c] + rest)[1..] == rest;
  }

  /** One step of re-escaping: a well-escaped `s` that opens with the entity
      `e` of `c` re-escapes to itself when its remainder does. */
  lemma EscapeEachUnescapeStep(s: string, c: char, e: string)
    requires e == EscapeChar(c) && e <= s
    requires Unescape(s) == [c] + Unescape(s[|e|..])
    requires EscapeEach(Unescape(s[|e|..])) == s[|e|..]
    ensures EscapeEach(Unescape(s)) == s
  {
    EscapeEachCons(c, Unescape(s[|e|..]));
    assert s == e + s[|e|..];
  }

  lemma {:induction false} EscapeEachUnescape(s: string)
    requires IsEscaped(s)
    ensures EscapeEach(Unescape(s)) == s
    decreases |s|
  {
    if s == [] {
    } else if s[0] == '&' {
      assert BeginsEntity(s) by { assert s[0..] == s; }
      if "&amp;" <= s {
        IsEscapedSuffix(s, 5);
        EscapeEachUnescape(s[5..]);
        EscapeEachUnescapeStep(s, '&', "&amp;");
      } else if "&lt;" <= s {
        IsEscapedSuffix(s, 4);
        EscapeEachUnescape(s[4..]);
        EscapeEachUnescapeStep(s, '<', "&lt;");
      } else if "&gt;" <= s {
        IsEscapedSuffix(s, 4);
        EscapeEachUnescape(s[4..]);
        EscapeEachUnescapeStep(s, '>', "&gt;");
      } else if "&quot;" <= s {
        IsEscapedSuffix(s, 6);
        EscapeEachUnescape(s[6..]);
        EscapeEachUnescapeStep(s, '"', "&quot;");
      } else {
        IsEscapedSuffix(s, 6);
        EscapeEachUnescape(s[6..]);
        EscapeEachUnescapeStep(s, '\'', "&apos;");
      }
    } else {
      assert !IsSpecial(s[0]);
      IsEscapedSuffix(s, 1);
      EscapeEachUnescape(s[1..]);
      EscapeEachUnescapeStep(s, s[0], [s[0]]);
    }
  }

  /** A string is well escaped exactly when it is the escape of its own unescaping,
      so the escaper is a bijection from all strings onto the well-escaped ones. */
  lemma EscapedCharacterization(s: string)
    ensures IsEscaped(s) <==> EscapeXml(Unescape(s)) == s
  {
    EscapeXmlIsPerCharacter(Unescape(s));
    if IsEscaped(s) {
      EscapeEachUnescape(s);
    }
    EscapeXmlIsEscaped(Unescape(s));
  }

  // ---------------------------------------------------------------------
  // Pass-through
  // ---------------------------------------------------------------------

  lemma {:induction false} EscapeEachLength(t: string)
    ensures |EscapeEach(t)| >= |t|
    ensures |EscapeEach(t)| == |t| ==> NoSpecial(t)
    decreases |t|
  {
    if t != [] {
      EscapeEachLength(t[1..]);
      if |EscapeEach(t)| == |t| {
        assert |EscapeChar(t[0])| == 1;
        forall i | 0 <= i < |t|
          ensures !IsSpecial(t[i])
        {
          if i > 0 {
            assert t[i] == t[1..][i - 1];
          }
        }
      }
    }
  }

  /** Text without any of the five special characters is returned unchanged, and
      only such text is: the output has the input's length exactly when no
      character needed an entity. */
  lemma EscapeXmlPassThrough(t: string)
    ensures EscapeXml(t) == t <==> NoSpecial(t)
    ensures |EscapeXml(t)| == |t| <==> NoSpecial(t)
    ensures |EscapeXml(t)| >= |t|
  {
    EscapeXmlIsPerCharacter(t);
    EscapeEachLength(t);
  }

  /** The two strings the generator escapes, its title and its subtitle, need no entity. */
  lemma GeneratorTextsUnchanged(title: string, subtitle: string)
    requires title == "POINTILISM"
    requires subtitle == "A calm, monochrome surface to explore."
    ensures EscapeXml(title) == title && EscapeXml(subtitle) == subtitle
  {
    assert NoSpecial(title);
    assert NoSpecial(subtitle);
    EscapeXmlPassThrough(title);
    EscapeXmlPassThrough(subtitle);
  }
}
