/**
  * The keyring reader's view of XML: no parser, only substring search.
  *
  * Elements are found by their opening tag and the next ` />`, attributes by the first `name="`. What that
  * search does on a tag written by the crate is worked out here exactly, for any list of attributes.
  */
module XmlScan {
  import opened Bytes
  import opened Text
  import opened XmlText

  predicate EndsWith(s: string, suffix: string) {
    |suffix| <= |s| && s[|s| - |suffix|..] == suffix
  }

  /** The text up to the next double quote, unescaped. */
  function QuotedValue(s: string): (r: Option<string>) {
    var end := Find(s, "\"");
    if end.None? then None else Some(UnescapeXml(s[..end.value]))
  }

  /** The value after the first `name="`. */
  function ExtractAttribute(xml: string, name: string): (r: Option<string>) {
    var pattern := name + "=\"";
    var start := Find(xml, pattern);
    if start.None? then None else QuotedValue(xml[start.value + |pattern|..])
  }

  lemma QuotedValueAt(v: string, rest: string)
    requires '"' !in v
    ensures QuotedValue(v + "\"" + rest) == Some(UnescapeXml(v))
  {
    FindAfter(v, "\"", rest);
    assert (v + "\"" + rest)[..|v|] == v;
  }

  /** Searching across the first quote: the name ends right before it, or the search goes on behind it. */
  lemma ExtractStep(x: string, y: string, name: string)
    requires '"' !in x && '"' !in name
    ensures ExtractAttribute(x + "\"" + y, name) ==
            if EndsWith(x, name + "=") then QuotedValue(y) else ExtractAttribute(y, name)
  {
    hide QuotedValue, Find, EndsWith;
    var q, s := name + "=", x + "\"" + y;
    var p := name + "=\"";
    assert p == q + "\"";
    if EndsWith(x, q) {
      FindBeforeQuote(x, y, q);
      assert s[|x| - |q| + |p|..] == y;
    } else {
      FindBehindQuote(x, y, q);
      var rest := Find(y, p);
      if rest.Some? {
        assert s[|x| + 1 + rest.value + |p|..] == y[rest.value + |p|..];
      }
    }
  }

  lemma FindBeforeQuote(x: string, y: string, q: string)
    requires '"' !in x && '"' !in q && EndsWith(x, q)
    ensures Find(x + "\"" + y, q + "\"") == Some(|x| - |q|)
  {
    var s, p, i := x + "\"" + y, q + "\"", |x| - |q|;
    assert s[i..i + |p|] == x[i..] + "\"";
    forall j: nat | j < i ensures !MatchAt(s, p, j) {
      assert s[j + |q|] == x[j + |q|];
      Mismatch(s, p, j, |q|);
    }
    FirstMatch(s, p, i);
  }

  lemma FindBehindQuote(x: string, y: string, q: string)
    requires '"' !in x && '"' !in q && !EndsWith(x, q)
    ensures Find(x + "\"" + y, q + "\"") ==
            Shifted(|x| + 1, Find(y, q + "\""))
  {
    hide MatchAt, Find, EndsWith;
    var s, p := x + "\"" + y, q + "\"";
    forall j: nat | j <= |x| ensures !MatchAt(s, p, j) {
      NoMatchUpToQuote(x, y, q, j);
    }
    assert s == (x + "\"") + y;
    FindShift(x + "\"", y, p);
  }

  lemma NoMatchUpToQuote(x: string, y: string, q: string, j: nat)
    requires '"' !in x && '"' !in q && !EndsWith(x, q) && j <= |x|
    ensures !MatchAt(x + "\"" + y, q + "\"", j)
  {
    var s, p := x + "\"" + y, q + "\"";
    if j + |q| < |x| {
      assert s[j + |q|] == x[j + |q|];
      Mismatch(s, p, j, |q|);
    } else if j + |q| == |x| {
      assert s[j..j + |p|] == x[j..] + "\"";
      SameEnd(x[j..], q, "\"");
    } else {
      assert s[|x|] == '"' && p[|x| - j] == q[|x| - j];
      Mismatch(s, p, j, |x| - j);
    }
  }

  lemma SameEnd(a: string, b: string, c: string)
    ensures a + c == b + c <==> a == b
  {
    if |a| == |b| {
      assert (a + c)[..|a|] == a && (b + c)[..|b|] == b;
    } else {
      assert |a + c| != |b + c|;
    }
  }

  // ---- Tags written as a list of attributes ----

  /** An attribute as it stands in the text: the value is already escaped. */
  datatype Attribute = Attribute(name: string, value: string)

  predicate NameOk(name: string) { name != "" && '"' !in name && ' ' !in name }

  predicate AttributeOk(a: Attribute) { NameOk(a.name) && '"' !in a.value }

  ghost predicate AttributesOk(attrs: seq<Attribute>) {
    forall i :: 0 <= i < |attrs| ==> AttributeOk(attrs[i])
  }

  function AttributeText(a: Attribute): (s: string) {
    " " + a.name + "=\"" + a.value + "\""
  }

  function AttributesText(attrs: seq<Attribute>): (s: string) {
    if attrs == [] then "" else AttributeText(attrs[0]) + AttributesText(attrs[1..])
  }

  lemma OneAttribute(a: Attribute)
    ensures AttributesText([a]) == AttributeText(a)
  {
    assert AttributesText([a]) == AttributeText(a) + AttributesText([a][1..]);
  }

  lemma {:induction false} AttributesTextAppend(a: seq<Attribute>, b: seq<Attribute>)
    ensures AttributesText(a + b) == AttributesText(a) + AttributesText(b)
  {
    if a == [] {
      assert a + b == b;
    } else {
      assert (a + b)[1..] == a[1..] + b;
      AttributesTextAppend(a[1..], b);
    }
  }

  /**
    * Which value the search returns: that of the first attribute whose name ends in `name` -- unless an earlier
    * value ends in `name=`, in which case its closing quote is taken for an opening one.
    */
  function Looked(attrs: seq<Attribute>, name: string): (r: Option<string>) {
    if attrs == [] then None
    else if EndsWith(attrs[0].name, name) then Some(UnescapeXml(attrs[0].value))
    else if EndsWith(attrs[0].value, name + "=") then
      (if |attrs| == 1 then None else Some(UnescapeXml(" " + attrs[1].name + "=")))
    else Looked(attrs[1..], name)
  }

  lemma SuffixOfName(head: string, own: string, name: string)
    requires ' ' !in name && name != ""
    ensures EndsWith(head + " " + own + "=", name + "=") <==> EndsWith(own, name)
  {
    var x, q := head + " " + own + "=", name + "=";
    if |name| <= |own| {
      assert x[|x| - |q|..] == own[|own| - |name|..] + "=";
      SameEnd(own[|own| - |name|..], name, "=");
    } else if |q| <= |x| {
      var k := |name| - |own| - 1;
      assert x[|x| - |q|..][k] == ' ' && q[k] == name[k];
    }
  }

  /** The search on a tag: `head`, the attributes, and a tail without quotes. */
  lemma {:induction false} ExtractFromTag(head: string, attrs: seq<Attribute>, tail: string, name: string)
    requires '"' !in head && '"' !in tail && NameOk(name) && AttributesOk(attrs)
    ensures ExtractAttribute(head + AttributesText(attrs) + tail, name) == Looked(attrs, name)
    decreases |attrs|
  {
    hide ExtractAttribute, QuotedValue, EndsWith, UnescapeXml;
    var s := head + AttributesText(attrs) + tail;
    if attrs == [] {
      assert '"' !in s;
      NoQuoteNoAttribute(s, name);
    } else {
      var a, rest := attrs[0], AttributesText(attrs[1..]) + tail;
      assert AttributeOk(a);
      var x := head + " " + a.name + "=";
      assert s == x + "\"" + (a.value + "\"" + rest);
      ExtractStep(x, a.value + "\"" + rest, name);
      SuffixOfName(head, a.name, name);
      QuotedValueAt(a.value, rest);
      ExtractStep(a.value, rest, name);
      FirstQuoteOfRest(attrs[1..], tail);
      ExtractFromTag("", attrs[1..], tail, name);
      assert "" + AttributesText(attrs[1..]) + tail == rest;
    }
  }

  lemma NoQuoteNoAttribute(s: string, name: string)
    requires '"' !in s
    ensures ExtractAttribute(s, name) == None
  {
    var p := name + "=\"";
    NeverMatches(s, p, |p| - 1);
  }

  lemma TagFront(a: Attribute, more: string, tail: string)
    ensures AttributeText(a) + more + tail == " " + a.name + "=" + "\"" + (a.value + "\"" + (more + tail))
  {
  }

  lemma FirstQuoteOfRest(attrs: seq<Attribute>, tail: string)
    requires '"' !in tail && AttributesOk(attrs)
    ensures QuotedValue(AttributesText(attrs) + tail) ==
            if attrs == [] then None else Some(UnescapeXml(" " + attrs[0].name + "="))
  {
    if attrs == [] {
      assert AttributesText(attrs) + tail == tail;
      FindAbsent(tail, "\"");
    } else {
      hide QuotedValue, UnescapeXml;
      var a, more := attrs[0], AttributesText(attrs[1..]);
      assert AttributeOk(a);
      var x := " " + a.name + "=";
      assert AttributesText(attrs) == AttributeText(a) + more;
      hide AttributesText;
      TagFront(a, more, tail);
      QuotedValueAt(x, a.value + "\"" + (more + tail));
    }
  }

  // ---- Finding elements ----

  lemma CutBehind(a: string, b: string, i: nat, j: nat)
    requires i <= j <= |b|
    ensures (a + b)[|a| + i..|a| + j] == b[i..j]
    ensures (a + b)[|a| + j..] == b[j..]
  {
  }

  lemma CutInFront(a: string, b: string, i: nat, j: nat)
    requires i <= j <= |a|
    ensures (a + b)[i..j] == a[i..j]
    ensures (a + b)[j..] == a[j..] + b
  {
  }

  lemma CutTwice(a: string, pos: nat, i: nat, j: nat)
    requires pos + i <= pos + j <= |a|
    ensures a[pos..][i..j] == a[pos + i..pos + j]
    ensures a[pos..][j..] == a[pos + j..]
  {
  }

  /** The length of the element at the front: up to the first ` />`, else up to its closing tag. */
  function ElementLength(body: string, close: string): (r: Option<nat>)
    requires close != ""
    ensures r.Some? ==> 0 < r.value <= |body|
  {
    var short := Find(body, " />");
    if short.Some? then Some(short.value + 3)
    else
      var long := Find(body, close);
      if long.Some? then Some(long.value + |close|) else None
  }

  datatype Span = Span(begin: nat, end: nat)

  function FirstElement(xml: string, tag: string, close: string): (r: Option<Span>)
    requires close != ""
    ensures r.Some? ==> r.value.begin < r.value.end <= |xml|
  {
    var start := Find(xml, tag);
    if start.None? then None
    else
      var length := ElementLength(xml[start.value..], close);
      if length.None? then None else Some(Span(start.value, start.value + length.value))
  }

  function Parsed<T>(element: string, parse: string -> Option<T>): (r: seq<T>) {
    var e := parse(element);
    if e.Some? then [e.value] else []
  }

  /** What the element loop collects: the elements of one tag that parse, in order. */
  function Scan<T>(xml: string, tag: string, close: string, parse: string -> Option<T>): (r: seq<T>)
    requires close != ""
    decreases |xml|
  {
    var next := FirstElement(xml, tag, close);
    if next.None? then []
    else Parsed(xml[next.value.begin..next.value.end], parse) + Scan(xml[next.value.end..], tag, close, parse)
  }

  lemma ScanStep<T>(xml: string, tag: string, close: string, parse: string -> Option<T>)
    requires close != ""
    ensures var next := FirstElement(xml, tag, close);
            && (next.None? ==> Scan(xml, tag, close, parse) == [])
            && (next.Some? ==> Scan(xml, tag, close, parse) ==
                               Parsed(xml[next.value.begin..next.value.end], parse)
                               + Scan(xml[next.value.end..], tag, close, parse))
  {
  }

  /** The loop of the three element readers: search, cut out, parse, move on behind the element. */
  method ScanElements<T>(xml: string, tag: string, close: string, parse: string -> Option<T>) returns (found: seq<T>)
    requires close != ""
    ensures found == Scan(xml, tag, close, parse)
  {
    hide Scan, Find;
    found := [];
    var pos := 0;
    assert xml[0..] == xml;
    while true
      invariant 0 <= pos <= |xml|
      invariant Scan(xml, tag, close, parse) == found + Scan(xml[pos..], tag, close, parse)
      decreases |xml| - pos
    {
      var start := Find(xml[pos..], tag);
      if start.None? {
        ScanStep(xml[pos..], tag, close, parse);
        break;
      }
      var begin := pos + start.value;
      var end := begin;
      var short := Find(xml[begin..], " />");
      if short.Some? {
        end := begin + short.value + 3;
      } else {
        var long := Find(xml[begin..], close);
        if long.None? {
          NextElement(xml, pos, tag, close, parse);
          break;
        }
        end := begin + long.value + |close|;
      }
      var element := parse(xml[begin..end]);
      NextElement(xml, pos, tag, close, parse);
      assert Parsed(xml[begin..end], parse) == if element.Some? then [element.value] else [];
      if element.Some? {
        found := found + [element.value];
      }
      pos := end;
    }
  }

  /** One round of the loop, in positions of the whole text. */
  lemma NextElement<T>(xml: string, pos: nat, tag: string, close: string, parse: string -> Option<T>)
    requires close != "" && pos <= |xml| && Find(xml[pos..], tag).Some?
    ensures var begin := pos + Find(xml[pos..], tag).value;
            var length := ElementLength(xml[begin..], close);
            && (length.None? ==> Scan(xml[pos..], tag, close, parse) == [])
            && (length.Some? ==> Scan(xml[pos..], tag, close, parse) ==
                                 Parsed(xml[begin..begin + length.value], parse)
                                 + Scan(xml[begin + length.value..], tag, close, parse))
  {
    hide Scan, Find, Parsed, ElementLength;
    var rest := xml[pos..];
    var start := Find(rest, tag).value;
    CutTwice(xml, pos, 0, start);
    ScanStep(rest, tag, close, parse);
    var length := ElementLength(xml[pos + start..], close);
    if length.Some? {
      CutTwice(xml, pos, start, start + length.value);
    }
  }

  /** No `<` of `s` starts a tag whose name begins with `c`. */
  ghost predicate NoTag(s: string, c: char) {
    forall j :: 0 <= j < |s| && s[j] == '<' ==> j + 1 < |s| && s[j + 1] != c
  }

  lemma NoTagAppend(a: string, b: string, c: char)
    requires NoTag(a, c) && NoTag(b, c)
    ensures NoTag(a + b, c)
  {
    var s := a + b;
    forall j | 0 <= j < |s| && s[j] == '<' ensures j + 1 < |s| && s[j + 1] != c {
      if j < |a| {
        assert a[j] == '<' && s[j + 1] == a[j + 1];
      } else {
        assert b[j - |a|] == '<' && s[j + 1] == b[j - |a| + 1];
      }
    }
  }

  predicate TagOk(tag: string, close: string) { |tag| >= 2 && tag[0] == '<' && close != "" }

  ghost function Moved(k: nat, r: Option<Span>): (out: Option<Span>) {
    if r.None? then None else Some(Span(k + r.value.begin, k + r.value.end))
  }

  lemma FirstElementShift(a: string, b: string, tag: string, close: string)
    requires close != "" && forall j: nat :: j < |a| ==> !MatchAt(a + b, tag, j)
    ensures FirstElement(a + b, tag, close) == Moved(|a|, FirstElement(b, tag, close))
  {
    FindShift(a, b, tag);
    hide Find, MatchAt, ElementLength;
    var start := Find(b, tag);
    if start.Some? {
      assert (a + b)[|a| + start.value..] == b[start.value..];
    }
  }

  /** Where the tag starts nowhere in `a`, scanning `a + b` is scanning `b`. */
  lemma ScanShift<T>(a: string, b: string, tag: string, close: string, parse: string -> Option<T>)
    requires close != "" && forall j: nat :: j < |a| ==> !MatchAt(a + b, tag, j)
    ensures Scan(a + b, tag, close, parse) == Scan(b, tag, close, parse)
  {
    hide Scan, FirstElement, MatchAt, Parsed;
    FirstElementShift(a, b, tag, close);
    ScanStep(a + b, tag, close, parse);
    ScanStep(b, tag, close, parse);
    var next := FirstElement(b, tag, close);
    if next.Some? {
      CutBehind(a, b, next.value.begin, next.value.end);
    }
  }

  lemma NoTagNoMatch(a: string, b: string, tag: string, j: nat)
    requires |tag| >= 2 && tag[0] == '<' && NoTag(a, tag[1]) && j < |a|
    ensures !MatchAt(a + b, tag, j)
  {
    var s := a + b;
    assert s[j] == a[j];
    if a[j] == '<' {
      assert s[j + 1] == a[j + 1];
      Mismatch(s, tag, j, 1);
    } else {
      Mismatch(s, tag, j, 0);
    }
  }

  /** Text without the tag is passed over. */
  lemma ScanSkip<T>(a: string, b: string, tag: string, close: string, parse: string -> Option<T>)
    requires TagOk(tag, close) && NoTag(a, tag[1])
    ensures Scan(a + b, tag, close, parse) == Scan(b, tag, close, parse)
  {
    hide Scan, MatchAt, NoTag;
    forall j: nat | j < |a| ensures !MatchAt(a + b, tag, j) {
      NoTagNoMatch(a, b, tag, j);
    }
    ScanShift(a, b, tag, close, parse);
  }

  lemma FindSkip(a: string, b: string, tag: string)
    requires |tag| >= 2 && tag[0] == '<' && NoTag(a, tag[1])
    ensures Find(a + b, tag) == Shifted(|a|, Find(b, tag))
  {
    hide MatchAt, Find, NoTag;
    forall j: nat | j < |a| ensures !MatchAt(a + b, tag, j) {
      NoTagNoMatch(a, b, tag, j);
    }
    FindShift(a, b, tag);
  }

  /** The ` />` behind the text is the first one. */
  predicate Uncut(body: string) {
    Find(body + " />", " />") == Some(|body|)
  }

  lemma NoAngleUncut(body: string)
    requires '>' !in body
    ensures Uncut(body)
  {
    var s := body + " />";
    assert s[|body|..|body| + 3] == " />";
    forall j: nat | j < |body| ensures !MatchAt(s, " />", j) {
      assert s[j + 2] == if j + 2 < |body| then body[j + 2] else " />"[j + 2 - |body|];
      Mismatch(s, " />", j, 2);
    }
    FirstMatch(s, " />", |body|);
  }

  /** A self-closing element at the front is cut out whole. */
  lemma ScanElement<T>(body: string, rest: string, tag: string, close: string, parse: string -> Option<T>)
    requires TagOk(tag, close) && tag <= body && Uncut(body)
    ensures Scan(body + " />" + rest, tag, close, parse) ==
            Parsed(body + " />", parse) + Scan(rest, tag, close, parse)
  {
    var s := body + " />" + rest;
    assert MatchAt(s, tag, 0);
    assert s[0..] == s;
    SameFirst(body + " />", rest, " />", |body|);
    assert FirstElement(s, tag, close) == Some(Span(0, |body| + 3));
    hide FirstElement, MatchAt;
    assert s[0..|body| + 3] == body + " />";
    assert s[|body| + 3..] == rest;
  }

  /**
    * An element that ends with its closing tag, with no other closing tag in it, is cut out whole exactly when no
    * ` />` follows it anywhere; otherwise everything up to that one is taken for it.
    */
  lemma ScanLongElement<T>(body: string, rest: string, tag: string, close: string, parse: string -> Option<T>)
    requires TagOk(tag, close) && tag <= body && Find(body + close, close) == Some(|body|)
    ensures var text := body + close + rest;
            var end := Find(text, " />");
            && (end.None? ==>
                  Scan(text, tag, close, parse) == Parsed(body + close, parse) + Scan(rest, tag, close, parse))
            && (end.Some? ==> end.value + 3 <= |text|
                              && Scan(text, tag, close, parse)
                                 == Parsed(text[..end.value + 3], parse) + Scan(text[end.value + 3..], tag, close, parse))
  {
    hide Scan, Find, Parsed, FirstElement;
    var text := body + close + rest;
    LongFirst(body, rest, tag, close);
    ScanStep(text, tag, close, parse);
    LongParts(body, close, rest);
  }

  lemma LongParts(body: string, close: string, rest: string)
    ensures var text := body + close + rest;
            && text[0..|body| + |close|] == body + close && text[|body| + |close|..] == rest
            && text == body + (close + rest)
            && forall k :: 0 <= k <= |text| ==> text[0..k] == text[..k]
  {
  }

  lemma LongFirst(body: string, rest: string, tag: string, close: string)
    requires TagOk(tag, close) && tag <= body && Find(body + close, close) == Some(|body|)
    ensures var text := body + close + rest;
            var end := Find(text, " />");
            && (end.None? ==> FirstElement(text, tag, close) == Some(Span(0, |body| + |close|)))
            && (end.Some? ==> end.value + 3 <= |text| && FirstElement(text, tag, close) == Some(Span(0, end.value + 3)))
  {
    hide Find, MatchAt;
    var text := body + close + rest;
    LongParts(body, close, rest);
    TagInFront(body, close + rest, tag);
    SameFirst(body + close, rest, close, |body|);
    assert text[0..] == text;
    var end := Find(text, " />");
    if end.Some? {
      FindIsFirst(text, " />", end.value);
      MatchFits(text, " />", end.value);
    }
  }

  lemma MatchFits(s: string, p: string, i: nat)
    requires MatchAt(s, p, i)
    ensures i + |p| <= |s|
  {
  }

  lemma TagInFront(body: string, rest: string, tag: string)
    requires tag <= body
    ensures Find(body + rest, tag) == Some(0)
  {
    assert MatchAt(body + rest, tag, 0);
  }

  /** Empty, a lone newline, or text that ends with a closed element and a newline. */
  predicate EndsClosed(a: string) {
    a == "" || a == "\n" || EndsWith(a, " />\n")
  }

  predicate Inert(tag: string) {
    ' ' !in tag && '/' !in tag && '>' !in tag && '\n' !in tag
  }

  /** Such text is scanned on its own: nothing that follows it changes what is found in it, nor conversely. */
  lemma {:induction false} ScanClosed<T>(a: string, b: string, tag: string, close: string, parse: string -> Option<T>)
    requires TagOk(tag, close) && Inert(tag) && EndsClosed(a)
    ensures Scan(a + b, tag, close, parse) == Scan(a, tag, close, parse) + Scan(b, tag, close, parse)
    decreases |a|
  {
    hide Scan, FirstElement, MatchAt, EndsClosed, Inert, Parsed;
    FirstElementClosed(a, b, tag, close);
    var next := FirstElement(a, tag, close);
    ScanStep(a + b, tag, close, parse);
    ScanStep(a, tag, close, parse);
    if next.None? {
      ScanShift(a, b, tag, close, parse);
    } else {
      CutInFront(a, b, next.value.begin, next.value.end);
      ScanClosed(a[next.value.end..], b, tag, close, parse);
    }
  }

  /** The first element of closed text is the first one of every extension, and what follows it is closed too. */
  lemma FirstElementClosed(a: string, b: string, tag: string, close: string)
    requires TagOk(tag, close) && Inert(tag) && EndsClosed(a)
    ensures var next := FirstElement(a, tag, close);
            && (next.None? ==> forall j: nat :: j < |a| ==> !MatchAt(a + b, tag, j))
            && (next.Some? ==> FirstElement(a + b, tag, close) == next && EndsClosed(a[next.value.end..]))
  {
    hide Find, MatchAt, EndsClosed, ElementLength, Inert;
    var start := Find(a, tag);
    if start.None? {
      forall j: nat | j < |a| ensures !MatchAt(a + b, tag, j) {
        NoTagAcross(a, b, tag, j);
      }
    } else {
      SameFirst(a, b, tag, start.value);
      ClosedLength(a, b, tag, close);
      CutInFront(a, b, 0, start.value);
    }
  }

  lemma ClosedLength(a: string, b: string, tag: string, close: string)
    requires TagOk(tag, close) && Inert(tag) && EndsClosed(a) && Find(a, tag).Some?
    ensures var i := Find(a, tag).value;
            var length := ElementLength(a[i..], close);
            && length.Some? && ElementLength(a[i..] + b, close) == length
            && EndsClosed(a[i + length.value..])
  {
    hide Find, MatchAt, EndsClosed, Inert;
    var i := Find(a, tag).value;
    FindIsFirst(a, tag, i);
    FirstEnd(a, tag, i);
    var e := Find(a[i..], " />").value;
    FindIsFirst(a[i..], " />", e);
    MatchDrop(a, " />", i, e);
    StillClosed(a, i + e);
    SameFirst(a[i..], b, " />", e);
  }

  lemma MatchDrop(a: string, p: string, i: nat, e: nat)
    requires i <= |a| && MatchAt(a[i..], p, e)
    ensures MatchAt(a, p, i + e)
  {
    assert a[i + e..i + e + |p|] == a[i..][e..e + |p|];
  }

  /** The first occurrence stays the first when text is appended. */
  lemma SameFirst(a: string, b: string, p: string, i: nat)
    requires p != "" && Find(a, p) == Some(i)
    ensures Find(a + b, p) == Some(i)
  {
    var s := a + b;
    FindIsFirst(a, p, i);
    assert s[i..i + |p|] == a[i..i + |p|];
    forall j: nat | j < i ensures !MatchAt(s, p, j) {
      assert s[j..j + |p|] == a[j..j + |p|];
      FindIsFirst(a, p, j);
    }
    FirstMatch(s, p, i);
  }

  lemma NoTagAcross(a: string, b: string, tag: string, j: nat)
    requires |tag| >= 2 && Inert(tag) && EndsClosed(a) && Find(a, tag) == None && j < |a|
    ensures !MatchAt(a + b, tag, j)
  {
    hide Find, EndsClosed, MatchAt;
    ClosedLast(a);
    if j + |tag| <= |a| {
      FindIsFirst(a, tag, j);
      MatchInFront(a, b, tag, j);
    } else {
      Mismatch(a + b, tag, j, |a| - 1 - j);
    }
  }

  lemma ClosedLast(a: string)
    requires EndsClosed(a) && a != ""
    ensures a[|a| - 1] == '\n'
  {
    if |a| >= 4 {
      assert a[|a| - 4..][3] == a[|a| - 1];
    }
  }

  lemma MatchInFront(a: string, b: string, p: string, j: nat)
    requires j + |p| <= |a|
    ensures MatchAt(a + b, p, j) <==> MatchAt(a, p, j)
  {
    assert (a + b)[j..j + |p|] == a[j..j + |p|];
  }

  /** An element opened in closed text is also closed there. */
  lemma FirstEnd(a: string, tag: string, i: nat)
    requires |tag| >= 2 && Inert(tag) && EndsClosed(a) && MatchAt(a, tag, i)
    ensures Find(a[i..], " />").Some?
  {
    assert |a| >= 4 && a[|a| - 4..] == " />\n";
    assert i <= |a| - 4 by {
      if i > |a| - 4 {
        assert a[i] == a[|a| - 4..][i - (|a| - 4)];
        Mismatch(a, tag, i, 0);
      }
    }
    assert a[i..][|a| - 4 - i..|a| - 1 - i] == a[|a| - 4..][..3] == " />";
    FindIsFirst(a[i..], " />", |a| - 4 - i);
  }

  lemma StillClosed(a: string, e: nat)
    requires EndsClosed(a) && MatchAt(a, " />", e)
    ensures e + 3 <= |a| && EndsClosed(a[e + 3..])
  {
    var n := |a|;
    assert a[e] == ' ' && a[e + 1] == '/' && a[e + 2] == '>' by {
      assert a[e..e + 3] == " />";
    }
    assert a[n - 4..] == " />\n";
    assert a[n - 4] == ' ' && a[n - 3] == '/' && a[n - 2] == '>' && a[n - 1] == '\n';
    assert e == n - 4 || e + 3 <= n - 4;
    if e == n - 4 {
      assert a[e + 3..] == "\n";
    } else {
      assert a[e + 3..][|a[e + 3..]| - 4..] == a[n - 4..];
    }
  }
}
