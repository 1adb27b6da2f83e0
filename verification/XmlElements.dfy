/** What a scan of closed text finds, told by the positions of tags and of ` />`. */
module XmlElements {
  import opened Bytes
  import opened Text
  import opened XmlScan

  /** A ` />` stands between two positions. */
  ghost predicate Ended(t: string, c: nat, b: nat) {
    exists e: nat :: c <= e && e + 3 <= b && MatchAt(t, " />", e)
  }

  /** A tag that begins an element: every tag before it has its ` />` before it too. */
  ghost predicate Opens(t: string, tag: string, b: nat) {
    MatchAt(t, tag, b) && forall c: nat :: c < b && MatchAt(t, tag, c) ==> Ended(t, c, b)
  }

  /** The text from a position to the first ` />` behind it. */
  function ElementAt(t: string, b: nat): (element: string)
    requires b <= |t|
  {
    var e := Find(t[b..], " />");
    if e.None? then t[b..] else t[b..b + e.value + 3]
  }

  /** No tag in the text begins an element that can be read. */
  ghost predicate NothingReadable<T>(t: string, tag: string, parse: string -> Option<T>) {
    forall b: nat :: b <= |t| && Opens(t, tag, b) ==> parse(ElementAt(t, b)) == None
  }

  lemma MatchShift(t: string, p: string, k: nat, i: nat)
    requires k <= |t|
    ensures MatchAt(t[k..], p, i) <==> MatchAt(t, p, k + i)
  {
    if k + i + |p| <= |t| {
      assert t[k..][i..i + |p|] == t[k + i..k + i + |p|];
    }
  }

  lemma EndedShift(t: string, k: nat, c: nat, b: nat)
    requires k <= |t|
    ensures Ended(t[k..], c, b) <==> Ended(t, k + c, k + b)
  {
    hide MatchAt;
    if Ended(t[k..], c, b) {
      var e: nat :| c <= e && e + 3 <= b && MatchAt(t[k..], " />", e);
      MatchShift(t, " />", k, e);
    }
    if Ended(t, k + c, k + b) {
      var e: nat :| k + c <= e && e + 3 <= k + b && MatchAt(t, " />", e);
      MatchShift(t, " />", k, e - k);
    }
  }

  /** The first element of the text: its tag, and where it ends. */
  ghost predicate First(t: string, tag: string, b: nat, e: nat) {
    && |tag| >= 2 && Inert(tag) && b <= e && e + 3 <= |t|
    && MatchAt(t, tag, b) && (forall c: nat :: c < b ==> !MatchAt(t, tag, c))
    && Find(t[b..], " />") == Some(e - b) && MatchAt(t, " />", e)
  }

  lemma NoTagInEnd(t: string, tag: string, e: nat, c: nat)
    requires |tag| >= 2 && Inert(tag) && MatchAt(t, " />", e) && e < c < e + 3
    ensures !MatchAt(t, tag, c)
  {
    assert t[e..e + 3] == " />";
    assert t[c] == " />"[c - e];
    Mismatch(t, tag, c, 0);
  }

  /** Behind the first element the same tags begin elements as in the rest on its own. */
  lemma OpensBehind(t: string, tag: string, b: nat, e: nat, n: nat)
    requires First(t, tag, b, e)
    ensures Opens(t, tag, e + 3 + n) <==> Opens(t[e + 3..], tag, n)
  {
    hide MatchAt, Find, Ended, Inert;
    var k := e + 3;
    MatchShift(t, tag, k, n);
    forall c: nat
      ensures MatchAt(t[k..], tag, c) <==> MatchAt(t, tag, k + c)
      ensures Ended(t[k..], c, n) <==> Ended(t, k + c, k + n)
    {
      MatchShift(t, tag, k, c);
      EndedShift(t, k, c, n);
    }
    forall c: nat | c < k && MatchAt(t, tag, c) ensures Ended(t, c, k + n) {
      if c > e {
        NoTagInEnd(t, tag, e, c);
      } else {
        EndsBehind(t, c, e, k + n);
      }
    }
    if Opens(t[k..], tag, n) {
      forall c: nat | c < k + n && MatchAt(t, tag, c) ensures Ended(t, c, k + n) {
        if c >= k {
          assert MatchAt(t[k..], tag, c - k);
        }
      }
    }
  }

  lemma EndsBehind(t: string, c: nat, e: nat, b: nat)
    requires c <= e && e + 3 <= b && MatchAt(t, " />", e)
    ensures Ended(t, c, b)
  {
  }

  /** No tag inside the first element begins another. */
  lemma NoneInside(t: string, tag: string, b: nat, e: nat, c: nat)
    requires First(t, tag, b, e) && b < c < e + 3
    ensures !Opens(t, tag, c)
  {
    hide MatchAt, Find, Inert;
    if Ended(t, b, c) {
      var x: nat :| b <= x && x + 3 <= c && MatchAt(t, " />", x);
      MatchShift(t, " />", b, x - b);
      FindIsFirst(t[b..], " />", x - b);
    }
  }

  /** The first element found in closed text. */
  lemma FirstFound(t: string, tag: string, close: string)
    requires TagOk(tag, close) && Inert(tag) && EndsClosed(t)
    ensures var next := FirstElement(t, tag, close);
            && (next.None? ==> forall c: nat :: !MatchAt(t, tag, c))
            && (next.Some? ==> next.value.end >= 3 && First(t, tag, next.value.begin, next.value.end - 3)
                               && EndsClosed(t[next.value.end..]))
  {
    hide Find, MatchAt, EndsClosed, Inert;
    var start := Find(t, tag);
    forall c: nat
      ensures start.None? ==> !MatchAt(t, tag, c)
      ensures start.Some? && c < start.value ==> !MatchAt(t, tag, c)
    {
      FindIsFirst(t, tag, c);
    }
    if start.Some? {
      FindIsFirst(t, tag, start.value);
      FirstEnd(t, tag, start.value);
      var e := Find(t[start.value..], " />").value;
      FindIsFirst(t[start.value..], " />", e);
      MatchDrop(t, " />", start.value, e);
      StillClosed(t, start.value + e);
    }
  }

  lemma ElementBehind(t: string, k: nat, n: nat)
    requires k + n <= |t|
    ensures ElementAt(t[k..], n) == ElementAt(t, k + n)
  {
    hide Find;
    assert t[k..][n..] == t[k + n..];
    var e := Find(t[k + n..], " />");
    if e.Some? && k + n + e.value + 3 <= |t| {
      CutTwice(t, k, n, n + e.value + 3);
    }
  }

  /** One element on: nothing readable in the text means an unreadable first element and nothing readable behind it. */
  lemma ReadableStep<T>(t: string, tag: string, b: nat, e: nat, parse: string -> Option<T>)
    requires First(t, tag, b, e)
    ensures NothingReadable(t, tag, parse)
            <==> parse(t[b..e + 3]) == None && NothingReadable(t[e + 3..], tag, parse)
  {
    hide MatchAt, Find, Ended, Inert, Opens;
    var k := e + 3;
    FirstOpens(t, tag, b, e);
    forall n: nat | k + n <= |t|
      ensures Opens(t, tag, k + n) <==> Opens(t[k..], tag, n)
      ensures ElementAt(t[k..], n) == ElementAt(t, k + n)
    {
      OpensBehind(t, tag, b, e, n);
      ElementBehind(t, k, n);
    }
    hide ElementAt, First;
    if parse(t[b..k]) == None && NothingReadable(t[k..], tag, parse) {
      forall c: nat | c <= |t| && Opens(t, tag, c) ensures parse(ElementAt(t, c)) == None {
        OneOfThree(t, tag, b, e, c);
        if c >= k {
          assert Opens(t[k..], tag, c - k);
        }
      }
    }
  }

  lemma FirstOpens(t: string, tag: string, b: nat, e: nat)
    requires First(t, tag, b, e)
    ensures Opens(t, tag, b) && ElementAt(t, b) == t[b..e + 3]
  {
    hide MatchAt, Find, Ended, Inert;
  }

  lemma OneOfThree(t: string, tag: string, b: nat, e: nat, c: nat)
    requires First(t, tag, b, e) && Opens(t, tag, c)
    ensures c == b || c >= e + 3
  {
    if b < c < e + 3 {
      NoneInside(t, tag, b, e, c);
    }
  }

  /** A scan of closed text finds nothing exactly when no tag in it begins an element that can be read. */
  lemma {:induction false} ScanFindsNothing<T>(t: string, tag: string, close: string, parse: string -> Option<T>)
    requires TagOk(tag, close) && Inert(tag) && EndsClosed(t)
    ensures Scan(t, tag, close, parse) == [] <==> NothingReadable(t, tag, parse)
    decreases |t|
  {
    hide Scan, FirstElement, First, EndsClosed, Inert, NothingReadable;
    FirstFound(t, tag, close);
    ScanStep(t, tag, close, parse);
    var next := FirstElement(t, tag, close);
    if next.None? {
      NothingOpens(t, tag, parse);
    } else {
      ReadableStep(t, tag, next.value.begin, next.value.end - 3, parse);
      ScanFindsNothing(t[next.value.end..], tag, close, parse);
    }
  }

  lemma NothingOpens<T>(t: string, tag: string, parse: string -> Option<T>)
    requires forall c: nat :: !MatchAt(t, tag, c)
    ensures NothingReadable(t, tag, parse)
  {
  }
}
