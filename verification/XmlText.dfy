/** Escaping of XML attribute values, and its undoing by five global replacements. */
module XmlText {
  import opened Bytes
  import opened Text

  /** The five predefined entities (section 4.6 of XML 1.0), in the order in which they are replaced back. */
  function Entity(k: nat): (p: string)
    requires k < 5
    ensures p != "" && p[0] == '&' && '&' !in p[1..]
  {
    ["&lt;", "&gt;", "&quot;", "&apos;", "&amp;"][k]
  }

  function EntityChar(k: nat): (c: char)
    requires k < 5
  {
    "<>\"'&"[k]
  }

  predicate Special(c: char) { c == '&' || c == '<' || c == '>' || c == '"' || c == '\'' }

  function EscapeChar(c: char): (s: string) {
    match c
    case '&' => "&amp;"
    case '<' => "&lt;"
    case '>' => "&gt;"
    case '"' => "&quot;"
    case '\'' => "&apos;"
    case _ => [c]
  }

  function Escaped(s: string): (r: string) {
    if s == "" then "" else EscapeChar(s[0]) + Escaped(s[1..])
  }

  lemma {:induction false} EscapedAppend(a: string, b: string)
    ensures Escaped(a + b) == Escaped(a) + Escaped(b)
  {
    if a == "" {
      assert a + b == b;
    } else {
      assert (a + b)[1..] == a[1..] + b;
      EscapedAppend(a[1..], b);
    }
  }

  lemma {:induction false} EscapedPlain(s: string)
    requires forall c :: c in s ==> !Special(c)
    ensures Escaped(s) == s
  {
    if s != "" {
      assert s[0] in s;
      EscapedPlain(s[1..]);
      assert s == [s[0]] + s[1..];
    }
  }

  /** Character by character into a buffer, unless there is nothing to escape. */
  method EscapeXml(s: string) returns (out: string)
    ensures out == Escaped(s)
  {
    if !exists c :: c in s && Special(c) {
      EscapedPlain(s);
      return s;
    }
    out := "";
    for i := 0 to |s|
      invariant out == Escaped(s[..i])
    {
      var c := s[i];
      out := out + EscapeChar(c);
      assert s[..i + 1] == s[..i] + [c];
      EscapedAppend(s[..i], [c]);
      assert Escaped([c]) == EscapeChar(c) + Escaped([c][1..]);
    }
    assert s[..|s|] == s;
  }

  function UnescapeXml(s: string): (r: string) {
    if '&' !in s then s
    else Replace(Replace(Replace(Replace(Replace(s, "&lt;", "<"), "&gt;", ">"), "&quot;", "\""), "&apos;", "'"),
                 "&amp;", "&")
  }

  lemma EscapeCharIsInert(c: char)
    ensures forall d :: d in EscapeChar(c) ==> d !in "<>\"'"
  {
  }

  /** Escaped text can stand between double quotes inside a tag. */
  lemma {:induction false} EscapedIsInert(s: string)
    ensures forall c :: c in Escaped(s) ==> c !in "<>\"'"
  {
    if s != "" {
      EscapedIsInert(s[1..]);
      EscapeCharIsInert(s[0]);
    }
  }

  // ---- Half-escaped text: entities from number `k` on are still escaped, earlier ones already replaced ----

  function EscapeCharFrom(k: nat, c: char): (s: string)
    requires k <= 5
  {
    if k <= 4 && c == '&' then "&amp;"
    else if k <= 3 && c == '\'' then "&apos;"
    else if k <= 2 && c == '"' then "&quot;"
    else if k <= 1 && c == '>' then "&gt;"
    else if k == 0 && c == '<' then "&lt;"
    else [c]
  }

  function EscapedFrom(k: nat, s: string): (r: string)
    requires k <= 5
  {
    if s == "" then "" else EscapeCharFrom(k, s[0]) + EscapedFrom(k, s[1..])
  }

  lemma {:induction false} EscapedFromEnds(s: string)
    ensures EscapedFrom(0, s) == Escaped(s) && EscapedFrom(5, s) == s
  {
    if s != "" {
      EscapedFromEnds(s[1..]);
      assert s == [s[0]] + s[1..];
    }
  }

  /** Replacing one entity in the text of one half-escaped character, with anything behind it. */
  lemma ReplaceOne(k: nat, c: char, rest: string)
    requires k < 5
    ensures Replace(EscapeCharFrom(k, c) + rest, Entity(k), [EntityChar(k)]) ==
            EscapeCharFrom(k + 1, c) + Replace(rest, Entity(k), [EntityChar(k)])
  {
    var p, r := Entity(k), [EntityChar(k)];
    var e := EscapeCharFrom(k, c);
    if c == EntityChar(k) {
      assert e == p && EscapeCharFrom(k + 1, c) == r;
      hide *;
      ReplaceHit(p, rest, r);
    } else {
      DistinctEntities(k, c, rest);
      hide *;
      ReplaceMiss(e, rest, p, r);
    }
  }

  /** The text of another character is not mistaken for entity `k`, and contains no further ampersand. */
  lemma DistinctEntities(k: nat, c: char, rest: string)
    requires k < 5 && c != EntityChar(k)
    ensures var e := EscapeCharFrom(k, c);
            && e != "" && '&' !in e[1..]
            && !(Entity(k) <= e + rest)
            && EscapeCharFrom(k + 1, c) == e
  {
    var e := EscapeCharFrom(k, c);
    var s := e + rest;
    assert s[0] == e[0];
    if |e| > 1 {
      assert s[1] == e[1] && s[2] == e[2];
      assert e[1] != Entity(k)[1] || e[2] != Entity(k)[2];
    } else {
      assert e[0] != '&';
    }
  }

  /** One replacement moves half-escaped text one step. */
  lemma {:induction false} ReplaceStage(k: nat, s: string)
    requires k < 5
    ensures Replace(EscapedFrom(k, s), Entity(k), [EntityChar(k)]) == EscapedFrom(k + 1, s)
  {
    if s != "" {
      ReplaceOne(k, s[0], EscapedFrom(k, s[1..]));
      ReplaceStage(k, s[1..]);
    }
  }

  lemma {:induction false} NoAmpersandNoEscape(s: string)
    requires '&' !in Escaped(s)
    ensures Escaped(s) == s
  {
    hide EscapeChar;
    if s != "" {
      PlainOrAmpersand(s[0]);
      assert EscapeChar(s[0])[0] in Escaped(s);
      NoAmpersandNoEscape(s[1..]);
      assert s == [s[0]] + s[1..];
    }
  }

  lemma PlainOrAmpersand(c: char)
    ensures EscapeChar(c) == [c] || (EscapeChar(c) != "" && EscapeChar(c)[0] == '&')
  {
  }

  /** The five replacements undo the escape for every text, including one that already contains entities. */
  lemma UnescapeInverts(s: string)
    ensures UnescapeXml(Escaped(s)) == s
  {
    if '&' !in Escaped(s) {
      NoAmpersandNoEscape(s);
    } else {
      EscapedFromEnds(s);
      ReplaceStage(0, s);
      ReplaceStage(1, s);
      ReplaceStage(2, s);
      ReplaceStage(3, s);
      ReplaceStage(4, s);
    }
  }

  // ---- Text that unescaping leaves alone ----

  lemma {:induction false} ReplaceShrinks(s: string, p: string, r: string)
    requires p != "" && |r| <= |p|
    ensures |Replace(s, p, r)| <= |s|
    decreases |s|
  {
    if s != "" {
      if p <= s {
        ReplaceShrinks(s[|p|..], p, r);
      } else {
        ReplaceShrinks(s[1..], p, r);
      }
    }
  }

  lemma UnescapeShrinks(s: string)
    ensures |UnescapeXml(s)| <= |s|
  {
    hide Replace;
    var a := Replace(s, "&lt;", "<");
    var b := Replace(a, "&gt;", ">");
    var c := Replace(b, "&quot;", "\"");
    var d := Replace(c, "&apos;", "'");
    ReplaceShrinks(s, "&lt;", "<");
    ReplaceShrinks(a, "&gt;", ">");
    ReplaceShrinks(b, "&quot;", "\"");
    ReplaceShrinks(c, "&apos;", "'");
    ReplaceShrinks(d, "&amp;", "&");
  }

  lemma {:induction false} ReplaceAbsent(s: string, p: string, r: string)
    requires p != "" && Find(s, p) == None
    ensures Replace(s, p, r) == s
    decreases |s|
  {
    if s != "" {
      assert p <= s ==> MatchAt(s, p, 0);
      ReplaceAbsent(s[1..], p, r);
      assert s == [s[0]] + s[1..];
    }
  }

  lemma {:induction false} ReplaceCuts(s: string, p: string, r: string)
    requires |r| < |p| && Find(s, p).Some?
    ensures |Replace(s, p, r)| < |s|
    decreases |s|
  {
    if p <= s {
      ReplaceShrinks(s[|p|..], p, r);
    } else {
      assert !MatchAt(s, p, 0);
      ReplaceCuts(s[1..], p, r);
    }
  }

  /** Nothing in the text reads as an entity. */
  predicate NoEntity(s: string) {
    && Find(s, "&lt;") == None && Find(s, "&gt;") == None && Find(s, "&quot;") == None
    && Find(s, "&apos;") == None && Find(s, "&amp;") == None
  }

  /** One replacement: the text stays, or becomes shorter. */
  lemma ReplaceFixes(s: string, p: string, r: string)
    requires |r| < |p|
    ensures Find(s, p) == None ==> Replace(s, p, r) == s
    ensures Find(s, p).Some? ==> |Replace(s, p, r)| < |s|
  {
    hide Replace, Find;
    if Find(s, p) == None {
      ReplaceAbsent(s, p, r);
    } else {
      ReplaceCuts(s, p, r);
    }
  }

  /** Unescaping leaves exactly the texts without entities alone. */
  lemma UnescapeFixed(s: string)
    ensures UnescapeXml(s) == s <==> NoEntity(s)
  {
    hide Replace, Find;
    if '&' !in s {
      FindAbsent(s, "&lt;");
      FindAbsent(s, "&gt;");
      FindAbsent(s, "&quot;");
      FindAbsent(s, "&apos;");
      FindAbsent(s, "&amp;");
    } else {
      var a := Replace(s, "&lt;", "<");
      var b := Replace(a, "&gt;", ">");
      var c := Replace(b, "&quot;", "\"");
      var d := Replace(c, "&apos;", "'");
      ReplaceFixes(s, "&lt;", "<");
      ReplaceFixes(a, "&gt;", ">");
      ReplaceFixes(b, "&quot;", "\"");
      ReplaceFixes(c, "&apos;", "'");
      ReplaceFixes(d, "&amp;", "&");
    }
  }
}
