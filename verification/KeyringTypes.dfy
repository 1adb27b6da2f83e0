/** Lines of the interface section, whose types are written without escaping: what the readers find in them. */
module KeyringTypes {
  import opened Bytes
  import opened Text
  import opened XmlText
  import opened XmlScan
  import opened Addresses
  import opened Keyring
  import opened KeyringTrip
  import opened KeyringEntries
  import opened KeyringInterfaces

  const GROUP: string := "<GroupAddress"

  // ---- An interface line around its type ----

  /** What follows the type in the line. */
  function TypeTail(i: Interface): (s: string) {
    TypeBack(i) + "\n"
  }

  function InterfaceText(i: Interface): (s: string) {
    LineText("<Interface", InterfaceAttributes(i))
  }

  lemma LineAroundType(i: Interface)
    ensures InterfaceText(i) == "  " + TypeFront(i) + (i.kind + TypeTail(i))
  {
    hide TypeFront, TypeBack, AttributesText, InterfaceAttributes;
    ElementAroundType(i);
    var f, k, b := TypeFront(i), i.kind, TypeBack(i);
    assert "  " + (f + k + b) + "\n" == "  " + f + (k + (b + "\n"));
  }

  lemma PlainFront(a: string)
    requires '<' !in a && '>' !in a
    ensures var f := "<Interface" + a + " Type=\"";
            && '>' !in f && f[|f| - 1] == '"' && "<Interface" <= f
            && f[0] == '<' && f[1] == 'I' && '<' !in f[1..]
  {
    var f := "<Interface" + a + " Type=\"";
    assert f[1..] == "Interface" + a + " Type=\"";
    assert '<' !in "Interface" && '<' !in " Type=\"";
  }

  lemma FrontIsPlain(i: Interface)
    ensures var f := TypeFront(i);
            && '>' !in f && f[|f| - 1] == '"' && "<Interface" <= f
            && f[0] == '<' && f[1] == 'I' && '<' !in f[1..]
  {
    NumeralsAreClean(i.address, 0, 0, []);
    var text := IndividualText(i.address);
    hide IndividualText;
    NoAngleInAttribute(text);
    hide AttributeText;
    PlainFront(AttributeText(Attribute("IndividualAddress", text)));
  }

  lemma NoAngleInAttribute(text: string)
    requires CleanValue(text)
    ensures var a := AttributeText(Attribute("IndividualAddress", text)); '<' !in a && '>' !in a
  {
    hide CleanName, CleanValue, AttributesText, AttributeText;
    InterfaceNames();
    PlainClean("IndividualAddress", text);
    CleanText(PlainAttribute("IndividualAddress", text));
    OneAttribute(Attribute("IndividualAddress", text));
  }

  lemma BackIsPlain(i: Interface)
    ensures '<' !in TypeBack(i)
    ensures '>' !in AttributesText(InterfaceTail(i))
  {
    hide InterfaceTail, AttributesText;
    InterfaceTailClean(i);
    CleanText(InterfaceTail(i));
  }

  lemma FrontHasNoTag(i: Interface, c: char)
    requires c != 'I'
    ensures NoTag("  " + TypeFront(i), c)
  {
    hide TypeFront;
    FrontIsPlain(i);
    var f := TypeFront(i);
    TagHead(f, c);
    hide NoTag;
    NoTagPlain("  ", c);
    NoTagAppend("  ", f, c);
  }

  lemma TailHasNoTag(i: Interface, c: char)
    ensures NoTag(TypeTail(i), c)
  {
    hide TypeBack, NoTag;
    BackIsPlain(i);
    NoTagPlain(TypeTail(i), c);
  }

  /** Readers of other elements see only the type and what follows it. */
  lemma ScanFromType<T>(i: Interface, tag: string, close: string, parse: string -> Option<T>)
    requires TagOk(tag, close) && tag[1] != 'I'
    ensures Scan(InterfaceText(i), tag, close, parse) == Scan(i.kind + TypeTail(i), tag, close, parse)
  {
    hide Scan, NoTag, TypeFront, TypeTail, InterfaceText;
    LineAroundType(i);
    FrontHasNoTag(i, tag[1]);
    ScanSkip("  " + TypeFront(i), i.kind + TypeTail(i), tag, close, parse);
  }

  // ---- Types without the tag ----

  lemma TagAbsent(kind: string, tail: string, tag: string, j: nat)
    requires tag != "" && '"' !in tag && Find(kind, tag) == None && tail != "" && tail[0] == '"' && j < |kind|
    ensures !MatchAt(kind + tail, tag, j)
  {
    var s := kind + tail;
    if j + |tag| <= |kind| {
      FindIsFirst(kind, tag, j);
      assert s[j..j + |tag|] == kind[j..j + |tag|];
    } else {
      assert s[|kind|] == '"';
      Mismatch(s, tag, j, |kind| - j);
    }
  }

  lemma ScanWithoutTag<T>(i: Interface, tag: string, close: string, parse: string -> Option<T>)
    requires TagOk(tag, close) && '"' !in tag && Find(i.kind, tag) == None
    ensures Scan(i.kind + TypeTail(i), tag, close, parse) == []
  {
    hide Scan, NoTag, Find, MatchAt;
    forall j: nat | j < |i.kind| ensures !MatchAt(i.kind + TypeTail(i), tag, j) {
      TagAbsent(i.kind, TypeTail(i), tag, j);
    }
    ScanShift(i.kind, TypeTail(i), tag, close, parse);
    TailHasNoTag(i, tag[1]);
    ScanSkip(TypeTail(i), "", tag, close, parse);
    assert TypeTail(i) + "" == TypeTail(i);
    ScanEmpty(tag, close, parse);
  }

  lemma ScanEmpty<T>(tag: string, close: string, parse: string -> Option<T>)
    requires TagOk(tag, close)
    ensures Scan("", tag, close, parse) == []
  {
  }

  // ---- Types without quotes ----

  /** The address a group or device reader looks for is not found behind a type without quotes. */
  lemma NoAddressBehind(v: string, i: Interface, name: string)
    requires '"' !in v && (name == "Address" || name == "IndividualAddress")
    ensures ExtractAttribute(v + TypeBack(i), name) in {None, Some(Gap("Host")), Some(Gap("UserID"))}
  {
    AddressNames(name);
    hide ExtractAttribute, EndsWith, Gap, AttributesText, InterfaceTail, QuotedValue, CleanName, NameOk, DifferentEnds;
    var rest := AttributesText(InterfaceTail(i)) + " />";
    assert v + TypeBack(i) == v + "\"" + rest;
    ExtractStep(v, rest, name);
    FirstValueBehind(i);
    NoAddressInTail(i, name);
  }

  lemma NoAddressInTail(i: Interface, name: string)
    requires CleanName(name) && NameOk(name) && (name == "Address" || name == "IndividualAddress")
    ensures ExtractAttribute(AttributesText(InterfaceTail(i)) + " />", name) in {None, Some(Gap("UserID"))}
  {
    AddressNames(name);
    hide ExtractAttribute, EndsWith, Gap, AttributesText, InterfaceTail, CleanName, NameOk, DifferentEnds, AttributesOk;
    hide Credentials, Looked;
    var tail := InterfaceTail(i);
    InterfaceTailClean(i);
    CleanText(tail);
    ExtractFromTag("", tail, " />", name);
    assert "" + AttributesText(tail) + " />" == AttributesText(tail) + " />";
    PastHost(i, name);
    NoAddressInCredentials(i, name);
  }

  lemma AddressNames(name: string)
    requires name == "Address" || name == "IndividualAddress"
    ensures CleanName(name) && NameOk(name) && '"' !in name
    ensures DifferentEnds("Host", name) && DifferentEnds("UserID", name) && DifferentEnds("UserPassword", name)
    ensures DifferentEnds("DeviceAuthentication", name) && DifferentEnds("BackboneKey", name)
  {
    GroupNames();
    DeviceNames();
    CleanNameOk(name);
  }

  lemma NoAddressInCredentials(i: Interface, name: string)
    requires DifferentEnds("UserID", name) && DifferentEnds("UserPassword", name)
    requires DifferentEnds("DeviceAuthentication", name) && DifferentEnds("BackboneKey", name)
    ensures Looked(Credentials(i), name) == None
  {
    hide Looked, EndsWith, KeyAttribute, PlainAttribute, Decimal, DifferentEnds;
    var b := KeyAttribute("BackboneKey", i.backboneKey);
    var d := KeyAttribute("DeviceAuthentication", i.deviceAuthentication) + b;
    var p := KeyAttribute("UserPassword", Some(i.userPassword)) + d;
    NumeralsAreTame(0, 0, i.userId, []);
    TameNumeral(Decimal(i.userId), name);
    PastPlain("UserID", Decimal(i.userId), p, name);
    PastKey("UserPassword", Some(i.userPassword), d, name);
    PastKey("DeviceAuthentication", i.deviceAuthentication, b, name);
    PastKey("BackboneKey", i.backboneKey, [], name);
    assert b + [] == b;
    NothingFound(name);
  }

  lemma GapIsNoAddress(name: string)
    requires name == "Host" || name == "UserID"
    ensures ParseGroup(Gap(name)) == None && ParseIndividual(Gap(name)) == None
  {
    SplitNone(Gap(name), '/');
    SplitNone(Gap(name), '.');
  }

  /** Nothing cut out of a line with a type without quotes, from inside the type on, is a group or a device. */
  ghost predicate Deaf<T>(i: Interface, parse: string -> Option<T>) {
    && (forall e: string :: '"' !in e ==> parse(e) == None)
    && (forall v: string :: '"' !in v ==> parse(v + TypeBack(i)) == None)
  }

  lemma GroupReaderIsDeaf(i: Interface)
    ensures Deaf(i, ParseGroupElement)
  {
    hide ExtractAttribute, TypeBack, ParseGroup, Gap, KeyOf;
    GapIsNoAddress("Host");
    GapIsNoAddress("UserID");
    forall e: string | '"' !in e ensures ParseGroupElement(e) == None {
      NoQuoteNoAttribute(e, "Address");
    }
    forall v: string | '"' !in v ensures ParseGroupElement(v + TypeBack(i)) == None {
      NoAddressBehind(v, i, "Address");
    }
  }

  lemma DeviceReaderIsDeaf(i: Interface)
    ensures Deaf(i, ParseDeviceElement)
  {
    hide ExtractAttribute, TypeBack, ParseIndividual, Gap, KeyOf;
    GapIsNoAddress("Host");
    GapIsNoAddress("UserID");
    forall e: string | '"' !in e ensures ParseDeviceElement(e) == None {
      NoQuoteNoAttribute(e, "IndividualAddress");
    }
    forall v: string | '"' !in v ensures ParseDeviceElement(v + TypeBack(i)) == None {
      NoAddressBehind(v, i, "IndividualAddress");
    }
  }

  /** The first ` />` from a position inside a text without quotes: inside that text, or the one that ends the line. */
  lemma EndOfElement(u: string, i: Interface)
    requires '"' !in u
    ensures var e := Find(u + TypeTail(i), " />");
            && e.Some?
            && (e.value + 3 <= |u| || (u + TypeTail(i))[..e.value + 3] == u + TypeBack(i))
  {
    hide AttributesText, InterfaceTail, Find, TypeTail, TypeBack;
    BackIsPlain(i);
    TailText(u, i);
    EndOfLine(u, AttributesText(InterfaceTail(i)));
  }

  lemma EndOfLine(u: string, t: string)
    requires '>' !in t
    ensures var s := u + "\"" + t + " />" + "\n";
            var e := Find(s, " />");
            && e.Some?
            && (e.value + 3 <= |u| || s[..e.value + 3] == u + ("\"" + t + " />"))
  {
    hide Find, MatchAt;
    var s, last := u + "\"" + t + " />" + "\n", |u| + 1 + |t|;
    LineEnd(u, t);
    FindIsFirst(s, " />", last);
    var e := Find(s, " />").value;
    FindIsFirst(s, " />", e);
    EndsAt(u, t, e);
  }

  lemma TailText(u: string, i: Interface)
    ensures var t := AttributesText(InterfaceTail(i));
            && u + TypeTail(i) == u + "\"" + t + " />" + "\n"
            && u + TypeBack(i) == u + ("\"" + t + " />")
  {
    hide AttributesText, InterfaceTail;
  }

  lemma LineEnd(u: string, t: string)
    ensures var s := u + "\"" + t + " />" + "\n";
            && MatchAt(s, " />", |u| + 1 + |t|)
            && s[..|u| + 1 + |t| + 3] == u + ("\"" + t + " />")
  {
    var s, last := u + "\"" + t + " />" + "\n", |u| + 1 + |t|;
    assert s[last..last + 3] == " />";
  }

  lemma EndsAt(u: string, t: string, e: nat)
    requires '>' !in t && MatchAt(u + "\"" + t + " />" + "\n", " />", e)
    ensures e + 3 <= |u| || e == |u| + 1 + |t|
  {
    var s := u + "\"" + t + " />" + "\n";
    assert s[e..e + 3] == " />";
    assert s[e] == ' ' && s[e + 1] == '/' && s[e + 2] == '>';
    assert s[|u|] == '"';
    assert forall k :: 0 <= k < |t| ==> s[|u| + 1 + k] == t[k];
  }

  /** Whatever tags a type without quotes contains, a deaf reader finds nothing in its line. */
  lemma {:induction false} QuietType<T(!new)>(
    u: string, i: Interface, tag: string, close: string, parse: string -> Option<T>)
    requires TagOk(tag, close) && '"' !in tag && '"' !in u && Deaf(i, parse)
    ensures Scan(u + TypeTail(i), tag, close, parse) == []
    decreases |u|
  {
    hide Scan, Find, MatchAt, TypeBack, Deaf, NoTag, Parsed;
    var s := u + TypeTail(i);
    if Find(u, tag) == None {
      ScanWithoutTag(i.(kind := u), tag, close, parse);
      TailIgnoresType(i, u);
    } else {
      var b := Find(u, tag).value;
      SameFirst(u, TypeTail(i), tag, b);
      ScanStep(s, tag, close, parse);
      EndOfElement(u[b..], i);
      assert s[b..] == u[b..] + TypeTail(i);
      var e := Find(s[b..], " />").value;
      assert FirstElement(s, tag, close) == Some(Span(b, b + e + 3));
      if e + 3 <= |u[b..]| {
        assert s[b..b + e + 3] == u[b..b + e + 3] && s[b + e + 3..] == u[b + e + 3..] + TypeTail(i);
        DeafParses(i, parse, u[b..b + e + 3], "");
        QuietType(u[b + e + 3..], i, tag, close, parse);
      } else {
        assert s[b..b + e + 3] == s[b..][..e + 3] == u[b..] + TypeBack(i);
        assert s[b + e + 3..] == "\n";
        DeafParses(i, parse, "", u[b..]);
        ScanNewline(tag, close, parse);
      }
    }
  }

  lemma TailIgnoresType(i: Interface, u: string)
    ensures TypeTail(i.(kind := u)) == TypeTail(i)
  {
  }

  lemma DeafParses<T>(i: Interface, parse: string -> Option<T>, e: string, v: string)
    requires Deaf(i, parse) && '"' !in e && '"' !in v
    ensures Parsed(e, parse) == [] && Parsed(v + TypeBack(i), parse) == []
  {
    hide TypeBack;
  }

  lemma ScanNewline<T>(tag: string, close: string, parse: string -> Option<T>)
    requires TagOk(tag, close)
    ensures Scan("\n", tag, close, parse) == []
  {
    ScanSkip("\n", "", tag, close, parse);
    assert "\n" + "" == "\n";
    ScanEmpty(tag, close, parse);
  }

  // ---- Types that contain no group ----

  /** A type a group reader passes over: it does not contain the tag, or it contains no quote. */
  predicate Harmless(kind: string) {
    Find(kind, GROUP) == None || '"' !in kind
  }

  lemma HarmlessType(i: Interface)
    requires Harmless(i.kind)
    ensures GroupsIn(i.kind + TypeTail(i)) == []
  {
    hide Scan, Find, TypeTail, Deaf;
    GroupTagIsInert();
    if Find(i.kind, GROUP) == None {
      ScanWithoutTag(i, GROUP, "</GroupAddress>", ParseGroupElement);
    } else {
      GroupReaderIsDeaf(i);
      QuietType(i.kind, i, GROUP, "</GroupAddress>", ParseGroupElement);
    }
  }

  lemma GroupTagIsInert()
    ensures Inert(GROUP) && TagOk(GROUP, "</GroupAddress>") && GROUP[1] == 'G' && '"' !in GROUP
  {
  }

  // ---- The interface reader ----

  /** The interface reader reads a line to its end only if no ` />` stands in the type. */
  lemma UncutAround(front: string, kind: string, back: string)
    requires '>' !in front && front != "" && front[|front| - 1] == '"' && Find(kind, " />") == None
    requires '>' !in back && back != "" && back[0] == '"'
    ensures Uncut(front + kind + back)
  {
    var body := front + kind + back;
    var s := body + " />";
    assert s[|body|..|body| + 3] == " />";
    forall j: nat | j < |body| ensures !MatchAt(s, " />", j) {
      NoEndAt(front, kind, back, j);
    }
    FirstMatch(s, " />", |body|);
  }

  lemma NoEndAt(front: string, kind: string, back: string, j: nat)
    requires '>' !in front && front != "" && front[|front| - 1] == '"' && Find(kind, " />") == None
    requires '>' !in back && back != "" && back[0] == '"' && j < |front + kind + back|
    ensures !MatchAt(front + kind + back + " />", " />", j)
  {
    var s, n, m := front + kind + back + " />", |front|, |front| + |kind|;
    if j + 2 < n {
      assert s[j + 2] == front[j + 2];
      Mismatch(s, " />", j, 2);
    } else if j < n {
      assert s[n - 1] == '"';
      Mismatch(s, " />", j, n - 1 - j);
    } else if j + 3 <= m {
      FindIsFirst(kind, " />", j - n);
      assert s[j..j + 3] == kind[j - n..j - n + 3];
    } else if j <= m {
      assert s[m] == '"';
      Mismatch(s, " />", j, m - j);
    } else {
      assert s[j + 2] == if j + 2 < m + |back| then back[j + 2 - m] else " />"[j + 2 - m - |back|];
      Mismatch(s, " />", j, 2);
    }
  }

  lemma InterfaceUncut(i: Interface)
    requires Find(i.kind, " />") == None
    ensures Uncut("<Interface" + AttributesText(InterfaceAttributes(i)))
  {
    hide Find, Uncut, AttributesText, InterfaceAttributes, InterfaceTail, TypeFront;
    ElementAroundType(i);
    FrontIsPlain(i);
    BackIsPlain(i);
    var back := "\"" + AttributesText(InterfaceTail(i));
    var body := "<Interface" + AttributesText(InterfaceAttributes(i));
    assert body + " />" == TypeFront(i) + i.kind + back + " />";
    SameEnd(body, TypeFront(i) + i.kind + back, " />");
    UncutAround(TypeFront(i), i.kind, back);
  }

  /** A type that reaches the reader in one piece. */
  predicate PlainType(kind: string) {
    '"' !in kind && Find(kind, " />") == None
  }

  /** The text the reader takes for the type and what follows it, when the type is not plain, never gives the type. */
  lemma MangledText(kind: string, back: string, y: string)
    requires !PlainType(kind) && back != "" && back[0] == '"'
    requires Find(kind + back, " />").Some? && y == (kind + back)[..Find(kind + back, " />").value + 3]
    ensures OrElse(QuotedValue(y), "Unknown") != kind
  {
    hide Find, QuotedValue, MatchAt;
    var p := Find(kind + back, " />").value;
    if Find(kind, " />").Some? {
      SameFirst(kind, back, " />", Find(kind, " />").value);
      assert y == kind[..p + 3];
      if '"' in y {
        QuotedIsShorter(y, "");
        assert y + "" == y;
      } else {
        NoQuoteNoValue(y);
        SpaceInside(kind, p);
      }
    } else {
      EndBehindQuote(kind, back, p);
      assert y == kind + back[..p + 3 - |kind|];
      QuotedIsShorter(kind, back[..p + 3 - |kind|]);
    }
  }

  lemma NoQuoteNoValue(y: string)
    requires '"' !in y
    ensures QuotedValue(y) == None
  {
    FindAbsent(y, "\"");
  }

  lemma SpaceInside(kind: string, p: nat)
    requires Find(kind, " />") == Some(p)
    ensures kind != "Unknown"
  {
    FindIsFirst(kind, " />", p);
    assert kind[p] == kind[p..p + 3][0] == ' ';
    assert ' ' !in "Unknown";
  }

  lemma NotAcrossQuote(s: string, n: nat, p: nat)
    requires MatchAt(s, " />", p) && n < |s| && s[n] == '"'
    ensures p + 3 <= n || p > n
  {
    assert s[p..p + 3] == " />";
    assert s[p] == ' ' && s[p + 1] == '/' && s[p + 2] == '>';
  }

  lemma EndBehindQuote(kind: string, back: string, p: nat)
    requires Find(kind, " />") == None && Find(kind + back, " />") == Some(p) && back != "" && back[0] == '"'
    ensures p > |kind|
  {
    hide Find;
    var s := kind + back;
    FindIsFirst(s, " />", p);
    NotAcrossQuote(s, |kind|, p);
    if p + 3 <= |kind| {
      FindIsFirst(kind, " />", p);
    }
  }

  /** The first interface read from a line whose type is not plain has another type. */
  lemma MangledType(i: Interface, rest: string)
    requires !PlainType(i.kind)
    ensures var found := Scan(InterfaceText(i) + rest, "<Interface", "</Interface>", ParseInterfaceElement);
            found != [] && found[0].kind != i.kind
  {
    var tag, close := "<Interface", "</Interface>";
    var front, back := TypeFront(i), TypeTail(i) + rest;
    hide Scan, Find, InterfaceText, TypeFront, TypeTail, ParseInterfaceElement, QuotedValue, PlainType;
    LineAroundType(i);
    var s := front + (i.kind + back);
    assert InterfaceText(i) + rest == "  " + s;
    NoTagPlain("  ", 'I');
    ScanSkip("  ", s, tag, close, ParseInterfaceElement);
    FrontIsPlain(i);
    TailStarts(i, rest);
    var p := Find(i.kind + back, " />").value;
    var y := (i.kind + back)[..p + 3];
    CutAt(front, i.kind + back, p);
    ScanStep(s, tag, close, ParseInterfaceElement);
    assert s[0..|front| + p + 3] == front + y;
    MangledText(i.kind, back, y);
    FrontIsRead(i, y);
  }

  lemma TailStarts(i: Interface, rest: string)
    ensures var back := TypeTail(i) + rest;
            back != "" && back[0] == '"' && Find(i.kind + back, " />").Some?
  {
    var t := AttributesText(InterfaceTail(i));
    hide AttributesText, InterfaceTail, Find;
    var s, at := i.kind + (TypeTail(i) + rest), |i.kind| + 1 + |t|;
    assert s == i.kind + "\"" + t + " />" + "\n" + rest;
    assert s[at..at + 3] == " />";
    FindIsFirst(s, " />", at);
  }

  /** Behind a front without `>` that ends in a quote, the first ` />` is that of the rest. */
  lemma CutAt(front: string, rest: string, p: nat)
    requires '>' !in front && "<Interface" <= front && front[|front| - 1] == '"' && Find(rest, " />") == Some(p)
    ensures FirstElement(front + rest, "<Interface", "</Interface>") == Some(Span(0, |front| + p + 3))
  {
    var s := front + rest;
    hide Find, MatchAt;
    forall j: nat | j < |front| ensures !MatchAt(s, " />", j) {
      if j + 2 < |front| {
        assert s[j + 2] == front[j + 2];
        Mismatch(s, " />", j, 2);
      } else {
        assert s[|front| - 1] == '"';
        Mismatch(s, " />", j, |front| - 1 - j);
      }
    }
    FindShift(front, rest, " />");
    StartsWith(s, "<Interface");
    assert s[0..] == s;
  }

  lemma StartsWith(s: string, tag: string)
    requires tag <= s
    ensures Find(s, tag) == Some(0)
  {
    assert MatchAt(s, tag, 0);
  }
}
