/** Interfaces: entries whose free texts can shadow an attribute, and whose type is written without escaping. */
module KeyringInterfaces {
  import opened Bytes
  import opened Text
  import opened XmlText
  import opened XmlScan
  import opened Addresses
  import opened Keyring
  import opened KeyringTrip
  import opened KeyringEntries

  /** The type or the host ends in `name=`. */
  predicate Hidden(i: Interface, name: string) {
    EndsWith(i.kind, name + "=") || EndsWith(i.host, name + "=")
  }

  /**
    * What the reader makes of a written interface: the type is unescaped although it was not escaped, and an
    * attribute hidden by the type or the host falls back to its default.
    */
  function InterfaceAsRead(i: Interface): (r: Interface) {
    Interface(
      i.address,
      UnescapeXml(i.kind),
      if EndsWith(i.kind, "Host=") then Gap("Host") else i.host,
      if Hidden(i, "UserID") then 1 else i.userId,
      if Hidden(i, "UserPassword") then Zeros(16) else i.userPassword,
      if Hidden(i, "DeviceAuthentication") then None else i.deviceAuthentication,
      if Hidden(i, "BackboneKey") then None else i.backboneKey)
  }

  lemma PastType(i: Interface, name: string)
    requires DifferentEnds("IndividualAddress", name) && DifferentEnds("Type", name)
    ensures Looked(InterfaceAttributes(i), name)
            == if EndsWith(i.kind, name + "=") then Some(Gap("Host")) else Looked(InterfaceTail(i), name)
  {
    hide Looked, EndsWith, IndividualText, InterfaceTail, PlainAttribute, Gap, CleanName;
    NumeralsAreTame(i.address, 0, 0, []);
    TameNumeral(IndividualText(i.address), name);
    PastPlain("IndividualAddress", IndividualText(i.address), PlainAttribute("Type", i.kind) + InterfaceTail(i), name);
    if EndsWith(i.kind, name + "=") {
      HostComesFirst(i);
      Shadowed("Type", i.kind, InterfaceTail(i), name);
    } else {
      PastPlain("Type", i.kind, InterfaceTail(i), name);
    }
  }

  lemma HostComesFirst(i: Interface)
    ensures InterfaceTail(i) != [] && InterfaceTail(i)[0].name == "Host" && CleanName("Host")
    ensures Credentials(i) != [] && Credentials(i)[0].name == "UserID" && CleanName("UserID")
  {
  }

  ghost function Credentials(i: Interface): (r: seq<Attribute>) {
    PlainAttribute("UserID", Decimal(i.userId))
    + (KeyAttribute("UserPassword", Some(i.userPassword))
       + (KeyAttribute("DeviceAuthentication", i.deviceAuthentication)
          + KeyAttribute("BackboneKey", i.backboneKey)))
  }

  lemma TailIsHostAndCredentials(i: Interface)
    ensures InterfaceTail(i) == PlainAttribute("Host", Escaped(i.host)) + Credentials(i)
  {
  }

  lemma PastHost(i: Interface, name: string)
    requires CleanName(name) && DifferentEnds("Host", name)
    ensures Looked(InterfaceTail(i), name)
            == if EndsWith(i.host, name + "=") then Some(Gap("UserID")) else Looked(Credentials(i), name)
  {
    hide Looked, EndsWith, PlainAttribute, Credentials, CleanName, InterfaceTail, Gap;
    TailIsHostAndCredentials(i);
    EscapedShadow(i.host, name);
    if EndsWith(i.host, name + "=") {
      HostComesFirst(i);
      Shadowed("Host", Escaped(i.host), Credentials(i), name);
    } else {
      PastPlain("Host", Escaped(i.host), Credentials(i), name);
    }
  }

  lemma CredentialLookups(i: Interface)
    ensures var c := Credentials(i);
            && Looked(c, "UserID") == Some(Decimal(i.userId))
            && KeyOf(Looked(c, "UserPassword")) == Some(i.userPassword)
            && KeyOf(Looked(c, "DeviceAuthentication")) == i.deviceAuthentication
            && KeyOf(Looked(c, "BackboneKey")) == i.backboneKey
  {
    var id := Decimal(i.userId);
    NumeralsAreTame(0, 0, i.userId, []);
    assert UnescapeXml(id) == id;
    hide Looked, EndsWith, KeyOf, Decimal, PlainAttribute, KeyAttribute, UnescapeXml;
    var p, da, bk := Some(i.userPassword), i.deviceAuthentication, i.backboneKey;
    var b := KeyAttribute("BackboneKey", bk);
    var d := KeyAttribute("DeviceAuthentication", da) + b;
    var k := KeyAttribute("UserPassword", p) + d;
    assert b == b + [];
    HitPlain("UserID", id, k);
    TameNumeral(id, "UserPassword");
    PastPlain("UserID", id, k, "UserPassword");
    HitKey("UserPassword", p, d);
    TameNumeral(id, "DeviceAuthentication");
    PastPlain("UserID", id, k, "DeviceAuthentication");
    PastKey("UserPassword", p, d, "DeviceAuthentication");
    HitKey("DeviceAuthentication", da, b);
    PastKey("BackboneKey", bk, [], "DeviceAuthentication");
    NothingFound("DeviceAuthentication");
    TameNumeral(id, "BackboneKey");
    PastPlain("UserID", id, k, "BackboneKey");
    PastKey("UserPassword", p, d, "BackboneKey");
    PastKey("DeviceAuthentication", da, b, "BackboneKey");
    HitKey("BackboneKey", bk, []);
    NothingFound("BackboneKey");
  }

  lemma InterfaceTexts(i: Interface)
    ensures var a := InterfaceAttributes(i);
            && Looked(a, "IndividualAddress") == Some(IndividualText(i.address))
            && Looked(a, "Type") == Some(UnescapeXml(i.kind))
            && Looked(a, "Host") == Some(InterfaceAsRead(i).host)
  {
    var text := IndividualText(i.address);
    NumeralsAreTame(i.address, 0, 0, []);
    assert UnescapeXml(text) == text;
    UnescapeInverts(i.host);
    assert "Host" + "=" == "Host=";
    hide Looked, EndsWith, IndividualText, PlainAttribute, UnescapeXml, InterfaceTail, Credentials, Escaped, Gap, Hidden;
    var rest := PlainAttribute("Type", i.kind) + InterfaceTail(i);
    HitPlain("IndividualAddress", text, rest);
    TameNumeral(text, "Type");
    PastPlain("IndividualAddress", text, rest, "Type");
    HitPlain("Type", i.kind, InterfaceTail(i));
    PastType(i, "Host");
    TailIsHostAndCredentials(i);
    HitPlain("Host", Escaped(i.host), Credentials(i));
  }

  /** Behind the type and the host: the credential, or a gap that is neither a number nor a key. */
  lemma InterfaceLookup(i: Interface, name: string)
    requires CleanName(name) && DifferentEnds("Host", name)
    requires DifferentEnds("IndividualAddress", name) && DifferentEnds("Type", name)
    ensures var seen := Looked(InterfaceAttributes(i), name);
            if Hidden(i, name) then seen.Some? && ParseU8(seen.value) == None && KeyOf(seen) == None
            else seen == Looked(Credentials(i), name)
  {
    hide Looked, EndsWith, InterfaceAttributes, InterfaceTail, Credentials, CleanName, ParseU8, KeyOf;
    PastType(i, name);
    PastHost(i, name);
    GapIsNothing("Host");
    GapIsNothing("UserID");
  }

  lemma GapIsNothing(name: string)
    requires name == "Host" || name == "UserID"
    ensures ParseU8(Gap(name)) == None && KeyOf(Some(Gap(name))) == None
  {
    GapIsNoKey(name);
    GapUnescaped(name);
    assert !IsDigit(Gap(name)[0]);
  }

  lemma InterfaceKeys(i: Interface)
    ensures var a := InterfaceAttributes(i);
            && OrElse((var id := Looked(a, "UserID"); if id.None? then None else ParseU8(id.value)), 1)
               == InterfaceAsRead(i).userId
            && OrElse(KeyOf(Looked(a, "UserPassword")), Zeros(16)) == InterfaceAsRead(i).userPassword
            && KeyOf(Looked(a, "DeviceAuthentication")) == InterfaceAsRead(i).deviceAuthentication
            && KeyOf(Looked(a, "BackboneKey")) == InterfaceAsRead(i).backboneKey
  {
    hide Looked, KeyOf, Decimal, InterfaceAttributes, InterfaceTail, Credentials, CleanName, Hidden, ParseU8;
    hide UnescapeXml, EndsWith, Gap;
    InterfaceNames();
    CredentialLookups(i);
    ParseDecimal(i.userId);
    InterfaceLookup(i, "UserID");
    InterfaceLookup(i, "UserPassword");
    InterfaceLookup(i, "DeviceAuthentication");
    InterfaceLookup(i, "BackboneKey");
  }

  function InterfaceElement(i: Interface): (s: string) {
    "<Interface" + AttributesText(InterfaceAttributes(i)) + " />"
  }

  lemma InterfaceNamesOk()
    ensures NameOk("IndividualAddress") && NameOk("Type") && NameOk("Host") && NameOk("UserID")
    ensures NameOk("UserPassword") && NameOk("DeviceAuthentication") && NameOk("BackboneKey")
  {
    hide CleanName, NameOk;
    InterfaceNames();
    CleanNameOk("IndividualAddress");
    CleanNameOk("Type");
    CleanNameOk("Host");
    CleanNameOk("UserID");
    CleanNameOk("UserPassword");
    CleanNameOk("DeviceAuthentication");
    CleanNameOk("BackboneKey");
  }

  lemma InterfaceOk(i: Interface)
    requires '"' !in i.kind
    ensures AttributesOk(InterfaceAttributes(i))
  {
    hide CleanName, IndividualText, InterfaceTail;
    InterfaceNames();
    InterfaceTailClean(i);
    CleanText(InterfaceTail(i));
    NumeralsAreClean(i.address, 0, 0, []);
    CleanNameOk("IndividualAddress");
    CleanNameOk("Type");
  }

  /** What comes back, for every interface whose type contains no quote. */
  lemma InterfaceReadBack(i: Interface)
    requires '"' !in i.kind
    ensures ParseInterfaceElement(InterfaceElement(i)) == Some(InterfaceAsRead(i))
  {
    hide Looked, KeyOf, Decimal, InterfaceAttributes, AttributesText, ExtractAttribute, AttributesOk, NameOk;
    hide IndividualText, ParseIndividual, ParseU8, UnescapeXml, Hidden, EndsWith, Gap;
    InterfaceTexts(i);
    InterfaceKeys(i);
    InterfaceOk(i);
    IndividualTextRoundTrip(i.address);
    InterfaceNamesOk();
    var attrs := InterfaceAttributes(i);
    TagAttribute("<Interface", attrs, "IndividualAddress");
    TagAttribute("<Interface", attrs, "Type");
    TagAttribute("<Interface", attrs, "Host");
    TagAttribute("<Interface", attrs, "UserID");
    TagAttribute("<Interface", attrs, "UserPassword");
    TagAttribute("<Interface", attrs, "DeviceAuthentication");
    TagAttribute("<Interface", attrs, "BackboneKey");
  }

  // ---- Interfaces with any type ----

  /** The text of an interface in front of its type, and behind it. */
  function TypeFront(i: Interface): (s: string) {
    "<Interface" + AttributeText(Attribute("IndividualAddress", IndividualText(i.address))) + " Type=\""
  }

  function TypeBack(i: Interface): (s: string) {
    "\"" + AttributesText(InterfaceTail(i)) + " />"
  }

  lemma TypePosition(i: Interface)
    ensures var attrs := InterfaceAttributes(i);
            && |attrs| >= 2 && attrs[0] == Attribute("IndividualAddress", IndividualText(i.address))
            && attrs[1] == Attribute("Type", i.kind) && attrs[2..] == InterfaceTail(i)
  {
    hide IndividualText, InterfaceTail;
  }

  lemma TwoAttributes(attrs: seq<Attribute>)
    requires |attrs| >= 2
    ensures AttributesText(attrs) == AttributeText(attrs[0]) + (AttributeText(attrs[1]) + AttributesText(attrs[2..]))
  {
    assert attrs[1..][1..] == attrs[2..] && attrs[1..][0] == attrs[1];
  }

  lemma AroundType(front: string, kind: string, back: string)
    ensures "<Interface" + (front + (AttributeText(Attribute("Type", kind)) + back)) + " />"
            == "<Interface" + front + " Type=\"" + kind + ("\"" + back + " />")
  {
  }

  lemma ElementAroundType(i: Interface)
    ensures InterfaceElement(i) == TypeFront(i) + i.kind + TypeBack(i)
  {
    hide IndividualText, InterfaceTail, InterfaceAttributes, AttributesText, AttributeText;
    TypePosition(i);
    TwoAttributes(InterfaceAttributes(i));
    AroundType(AttributeText(Attribute("IndividualAddress", IndividualText(i.address))), i.kind,
               AttributesText(InterfaceTail(i)));
  }

  lemma FrontText(text: string, y: string)
    ensures "<Interface" + AttributeText(Attribute("IndividualAddress", text)) + " Type=\"" + y
            == "<Interface IndividualAddress=" + "\"" + (text + "\"" + (" Type=" + "\"" + y))
  {
    assert "<Interface" + (" " + "IndividualAddress" + "=\"") == "<Interface IndividualAddress=" + "\"";
    assert " Type=\"" == " Type=" + "\"";
  }

  /** Whatever stands behind `Type="`: the address is read, and the type is the text up to the next quote. */
  lemma FrontIsRead(i: Interface, y: string)
    ensures var r := ParseInterfaceElement(TypeFront(i) + y);
            r.Some? && r.value.address == i.address && r.value.kind == OrElse(QuotedValue(y), "Unknown")
  {
    hide IndividualText, ParseIndividual, QuotedValue, KeyOf, ParseU8, ExtractAttribute, AttributeText;
    var text := IndividualText(i.address);
    NumeralsAreTame(i.address, 0, 0, []);
    NumeralsAreClean(i.address, 0, 0, []);
    IndividualTextRoundTrip(i.address);
    TameNumeral(text, "Type");
    assert "Type" + "=" == "Type=";
    SearchFront(text, y);
    FrontText(text, y);
  }

  lemma SearchFront(text: string, y: string)
    requires '"' !in text && '&' !in text && !EndsWith(text, "Type=")
    ensures var s := "<Interface IndividualAddress=" + "\"" + (text + "\"" + (" Type=" + "\"" + y));
            && ExtractAttribute(s, "IndividualAddress") == Some(text)
            && ExtractAttribute(s, "Type") == QuotedValue(y)
  {
    hide ExtractAttribute, QuotedValue, EndsWith;
    var x, rest := "<Interface IndividualAddress=", text + "\"" + (" Type=" + "\"" + y);
    FrontEnds();
    ExtractStep(x, rest, "IndividualAddress");
    QuotedValueAt(text, " Type=" + "\"" + y);
    ExtractStep(x, rest, "Type");
    ExtractStep(text, " Type=" + "\"" + y, "Type");
    ExtractStep(" Type=", y, "Type");
  }

  lemma FrontEnds()
    ensures EndsWith("<Interface IndividualAddress=", "IndividualAddress" + "=")
    ensures !EndsWith("<Interface IndividualAddress=", "Type" + "=")
    ensures EndsWith(" Type=", "Type" + "=") && "Type" + "=" == "Type="
    ensures '"' !in "<Interface IndividualAddress=" && '"' !in "IndividualAddress" && '"' !in "Type" && '"' !in " Type="
  {
    var x := "<Interface IndividualAddress=";
    assert x[|x| - 18..] == "IndividualAddress=";
    assert x[|x| - 5..][0] == 'r';
    assert " Type="[1..] == "Type=";
  }

  lemma QuoteIsFound(s: string)
    requires '"' in s
    ensures Find(s, "\"").Some? && Find(s, "\"").value < |s|
  {
    var i :| 0 <= i < |s| && s[i] == '"';
    assert s[i..i + 1] == "\"";
    FindIsFirst(s, "\"", i);
  }

  /** A quote in the type ends it: what is read is shorter. */
  lemma QuotedIsShorter(kind: string, more: string)
    requires '"' in kind
    ensures var v := QuotedValue(kind + more); v.Some? && |v.value| < |kind|
  {
    QuoteIsFound(kind);
    var q := Find(kind, "\"").value;
    SameFirst(kind, more, "\"", q);
    UnescapeShrinks((kind + more)[..q]);
  }

  /** Nothing in the type reads as an entity, and every attribute a text hides has the value its absence stands for. */
  predicate InterfaceUnshadowed(i: Interface) {
    && NoEntity(i.kind)
    && (EndsWith(i.kind, "Host=") ==> i.host == Gap("Host"))
    && (Hidden(i, "UserID") ==> i.userId == 1)
    && (Hidden(i, "UserPassword") ==> i.userPassword == Zeros(16))
    && (Hidden(i, "DeviceAuthentication") ==> i.deviceAuthentication.None?)
    && (Hidden(i, "BackboneKey") ==> i.backboneKey.None?)
  }

  /** Every interface: it makes the round trip exactly when its type has no quote and nothing in it is shadowed. */
  lemma InterfaceRoundTrip(i: Interface)
    ensures ParseInterfaceElement(InterfaceElement(i)) == Some(i) <==> '"' !in i.kind && InterfaceUnshadowed(i)
  {
    hide ParseInterfaceElement, InterfaceElement, UnescapeXml, EndsWith, Hidden, Gap, TypeFront, TypeBack, QuotedValue;
    hide NoEntity;
    if '"' in i.kind {
      ElementAroundType(i);
      assert TypeFront(i) + i.kind + TypeBack(i) == TypeFront(i) + (i.kind + TypeBack(i));
      FrontIsRead(i, i.kind + TypeBack(i));
      QuotedIsShorter(i.kind, TypeBack(i));
    } else {
      InterfaceReadBack(i);
      UnescapeFixed(i.kind);
    }
  }

  // ---- What is read of every interface ----

  /** The search for an attribute in a type and what follows it: across each quote of the type in turn. */
  function SearchedFrom(kind: string, i: Interface, name: string): (r: Option<string>)
    decreases |kind|
  {
    var quote := Find(kind, "\"");
    if quote.None? then
      if EndsWith(kind, name + "=") then Some(Gap("Host")) else Looked(InterfaceTail(i), name)
    else
      var rest := kind[quote.value + 1..];
      if EndsWith(kind[..quote.value], name + "=") then QuotedValue(rest + TypeBack(i))
      else SearchedFrom(rest, i, name)
  }

  lemma FirstValueBehind(i: Interface)
    ensures QuotedValue(AttributesText(InterfaceTail(i)) + " />") == Some(Gap("Host"))
  {
    hide QuotedValue, AttributesText, InterfaceTail, UnescapeXml, Gap, CleanName, AttributesOk;
    InterfaceTailClean(i);
    CleanText(InterfaceTail(i));
    HostComesFirst(i);
    FirstQuoteOfRest(InterfaceTail(i), " />");
    GapUnescaped("Host");
  }

  lemma SearchTail(i: Interface, name: string)
    requires NameOk(name)
    ensures ExtractAttribute(AttributesText(InterfaceTail(i)) + " />", name) == Looked(InterfaceTail(i), name)
  {
    hide ExtractAttribute, AttributesText, InterfaceTail, AttributesOk, Looked;
    var tail := InterfaceTail(i);
    InterfaceTailClean(i);
    CleanText(tail);
    ExtractFromTag("", tail, " />", name);
    assert "" + AttributesText(tail) + " />" == AttributesText(tail) + " />";
  }

  lemma AtQuote(kind: string, q: nat)
    requires Find(kind, "\"") == Some(q)
    ensures '"' !in kind[..q] && kind == kind[..q] + "\"" + kind[q + 1..]
  {
    hide Find;
    FindIsFirst(kind, "\"", q);
    forall k | 0 <= k < q ensures kind[k] != '"' {
      FindIsFirst(kind, "\"", k);
      assert kind[k..k + 1] == [kind[k]];
    }
  }

  lemma {:induction false} SearchType(kind: string, i: Interface, name: string)
    requires NameOk(name)
    ensures ExtractAttribute(kind + TypeBack(i), name) == SearchedFrom(kind, i, name)
    decreases |kind|
  {
    hide ExtractAttribute, Find, EndsWith, QuotedValue, Looked, InterfaceTail, AttributesText, Gap;
    var quote := Find(kind, "\"");
    if quote.None? {
      if '"' in kind {
        QuoteIsFound(kind);
      }
      var rest := AttributesText(InterfaceTail(i)) + " />";
      assert kind + TypeBack(i) == kind + "\"" + rest;
      ExtractStep(kind, rest, name);
      FirstValueBehind(i);
      SearchTail(i, name);
    } else {
      AtQuote(kind, quote.value);
      var before, rest := kind[..quote.value], kind[quote.value + 1..];
      assert kind + TypeBack(i) == before + "\"" + (rest + TypeBack(i));
      ExtractStep(before, rest + TypeBack(i), name);
      SearchType(rest, i, name);
    }
  }

  /** An attribute other than address and type is searched behind the opening quote of the type. */
  lemma SearchBehindFront(i: Interface, y: string, name: string)
    requires NameOk(name) && DifferentEnds("IndividualAddress", name) && DifferentEnds("Type", name)
    ensures ExtractAttribute(TypeFront(i) + y, name) == ExtractAttribute(y, name)
  {
    hide ExtractAttribute, EndsWith, IndividualText, QuotedValue, AttributeText;
    var text := IndividualText(i.address);
    NumeralsAreTame(i.address, 0, 0, []);
    NumeralsAreClean(i.address, 0, 0, []);
    TameNumeral(text, name);
    FrontText(text, y);
    FrontEnds();
    OtherEnds("<Interface IndividualAddress", name);
    OtherEnds(" Type", name);
    assert "<Interface IndividualAddress" + "=" == "<Interface IndividualAddress=" && " Type" + "=" == " Type=";
    ExtractStep("<Interface IndividualAddress=", text + "\"" + (" Type=" + "\"" + y), name);
    ExtractStep(text, " Type=" + "\"" + y, name);
    ExtractStep(" Type=", y, name);
  }

  lemma OtherEnds(a: string, name: string)
    requires a != "" && name != "" && a[|a| - 1] != name[|name| - 1]
    ensures !EndsWith(a + "=", name + "=")
  {
    var x, q := a + "=", name + "=";
    if |q| <= |x| {
      assert x[|x| - |q|..][|q| - 2] == a[|a| - 1];
    }
  }

  /** What the reader makes of every interface. */
  function InterfaceAsSearched(i: Interface): (r: Interface) {
    var id := SearchedFrom(i.kind, i, "UserID");
    Interface(
      i.address,
      OrElse(QuotedValue(i.kind + TypeBack(i)), "Unknown"),
      OrElse(SearchedFrom(i.kind, i, "Host"), "0.0.0.0"),
      OrElse(if id.None? then None else ParseU8(id.value), 1),
      OrElse(KeyOf(SearchedFrom(i.kind, i, "UserPassword")), Zeros(16)),
      KeyOf(SearchedFrom(i.kind, i, "DeviceAuthentication")),
      KeyOf(SearchedFrom(i.kind, i, "BackboneKey")))
  }

  /** Every interface, whatever its type: what is read back, field by field. */
  lemma InterfaceSearched(i: Interface)
    ensures ParseInterfaceElement(InterfaceElement(i)) == Some(InterfaceAsSearched(i))
  {
    hide ExtractAttribute, InterfaceElement, TypeFront, TypeBack, QuotedValue, SearchedFrom, NameOk, ParseU8, KeyOf;
    hide ParseIndividual, DifferentEnds;
    InterfaceNamesOk();
    ElementAroundType(i);
    var y := i.kind + TypeBack(i);
    assert TypeFront(i) + i.kind + TypeBack(i) == TypeFront(i) + y;
    FrontIsRead(i, y);
    CredentialEnds();
    SearchBehindFront(i, y, "Host");
    SearchType(i.kind, i, "Host");
    SearchBehindFront(i, y, "UserID");
    SearchType(i.kind, i, "UserID");
    SearchBehindFront(i, y, "UserPassword");
    SearchType(i.kind, i, "UserPassword");
    SearchBehindFront(i, y, "DeviceAuthentication");
    SearchType(i.kind, i, "DeviceAuthentication");
    SearchBehindFront(i, y, "BackboneKey");
    SearchType(i.kind, i, "BackboneKey");
  }

  lemma CredentialEnds()
    ensures DifferentEnds("IndividualAddress", "Host") && DifferentEnds("Type", "Host")
    ensures DifferentEnds("IndividualAddress", "UserID") && DifferentEnds("Type", "UserID")
    ensures DifferentEnds("IndividualAddress", "UserPassword") && DifferentEnds("Type", "UserPassword")
    ensures DifferentEnds("IndividualAddress", "DeviceAuthentication") && DifferentEnds("Type", "DeviceAuthentication")
    ensures DifferentEnds("IndividualAddress", "BackboneKey") && DifferentEnds("Type", "BackboneKey")
  {
  }
}
