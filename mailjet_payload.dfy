/**
  What the Mailjet transport sends for a message, as functions of the message:
  the `to` and `from` strings, the list of body parts, and the two request
  payloads (multipart fields, or the legacy form body). The methods of
  `Transport.MailjetTransport` are proved to compute exactly these.
 */
module MailjetPayload {
  import opened Optional
  import opened PhpStrings
  import opened PhpArrays
  import opened SwiftMessage

  /** One part of the request: a plain field, or a file with its Content-Type header. */
  datatype Part =
    | Field(name: string, contents: string)
    | FilePart(name: string, contents: string, filename: string, contentType: string)

  /** The request body: multipart fields, or the legacy form-encoded array. */
  datatype Payload =
    | Multipart(fields: seq<Part>)
    | Form(to: string, from: string, subject: string, message: seq<(string, string)>)

  // ---------------------------------------------------------------------------
  // Addresses

  /** `Name <address>` when the display name is truthy, else the bare address. */
  function Format(address: string, display: Option<string>): string
  {
    if Truthy(display) then display.value + " <" + address + ">" else address
  }

  function FormatAll(cs: AddressMap): seq<string>
  {
    seq(|cs|, i requires 0 <= i < |cs| => Format(cs[i].0, cs[i].1))
  }

  /** Reads an entry back: the text between the last " <" and a closing ">" is the address. */
  function ParseNameAddr(s: string): (string, Option<string>)
  {
    if |s| == 0 || s[|s| - 1] != '>' then (s, None)
    else match LastIndexOf(s[..|s| - 1], '<')
      case Some(k) =>
        if 1 <= k && s[k - 1] == ' ' then (s[k + 1..|s| - 1], Some(s[..k - 1])) else (s, None)
      case None => (s, None)
  }

  /** What a reader of an entry sees of a display name: it only when truthy. */
  function Shown(display: Option<string>): Option<string>
  {
    if Truthy(display) then display else None
  }

  /** An address without angle brackets can be read back from its entry, with its display name when truthy. */
  lemma FormatRoundTrip(address: string, display: Option<string>)
    requires '<' !in address && '>' !in address
    ensures ParseNameAddr(Format(address, display)) == (address, Shown(display))
  {
    var s := Format(address, display);
    if Truthy(display) {
      var x := display.value + " ";
      assert s[..|s| - 1] == x + ['<'] + address;
      LastIndexOfAfter(x, '<', address);
      var k := |x|;
      assert s[k - 1] == ' ';
      assert s[k + 1..|s| - 1] == address;
      assert s[..k - 1] == display.value;
    } else if |s| > 0 {
      assert s[|s| - 1] in address;
    }
  }

  /** The merged recipient map: `array_merge` of To, Cc and Bcc. */
  function Contacts(m: Message): AddressMap
  {
    PutAll([], m.to + m.cc + m.bcc)
  }

  /** The `to` field. */
  function Recipients(m: Message): string
  {
    Join(FormatAll(Contacts(m)), ',')
  }

  /** The `from` field, None when the message has no sender. */
  function Sender(m: Message): Option<string>
  {
    if |m.from| == 0 then None else Some(Format(m.from[0].0, m.from[0].1))
  }

  lemma FormatAllAppend(a: AddressMap, b: AddressMap)
    ensures FormatAll(a + b) == FormatAll(a) + FormatAll(b)
  {
    var ab := a + b;
    assert forall i :: |a| <= i < |ab| ==> ab[i] == b[i - |a|];
  }

  /**
    With no address repeated, the `to` field lists To, then Cc, then Bcc, each
    in insertion order, separated by commas; no recipients give "".
   */
  lemma RecipientsInOrder(m: Message)
    requires DistinctKeys(m.to + m.cc + m.bcc)
    ensures Recipients(m) == Join(FormatAll(m.to) + FormatAll(m.cc) + FormatAll(m.bcc), ',')
    ensures |m.to| > 0 && |m.cc| > 0 && |m.bcc| > 0 ==>
      Recipients(m) == Join(FormatAll(m.to), ',') + "," + Join(FormatAll(m.cc), ',') + ","
                       + Join(FormatAll(m.bcc), ',')
    ensures |m.to| + |m.cc| + |m.bcc| == 0 ==> Recipients(m) == ""
  {
    PutAllDistinct(m.to + m.cc + m.bcc);
    FormatAllAppend(m.to, m.cc);
    FormatAllAppend(m.to + m.cc, m.bcc);
    if |m.to| > 0 && |m.cc| > 0 && |m.bcc| > 0 {
      JoinAppend(FormatAll(m.to), FormatAll(m.cc), ',');
      JoinAppend(FormatAll(m.to) + FormatAll(m.cc), FormatAll(m.bcc), ',');
    }
  }

  /** Addresses and display names that the entry format can carry unambiguously. */
  predicate Plain(cs: AddressMap) {
    forall e :: e in cs ==>
      '<' !in e.0 && '>' !in e.0 && ',' !in e.0 && (e.1.Some? ==> ',' !in e.1.value)
  }

  function AddressesOf(entries: seq<string>): seq<string>
  {
    seq(|entries|, i requires 0 <= i < |entries| => ParseNameAddr(entries[i]).0)
  }

  /**
    The merged map holds every address of To, Cc and Bcc exactly once, in the
    order of first occurrence, with the display name of its last occurrence.
   */
  lemma ContactsMerged(m: Message)
    ensures DistinctKeys(Contacts(m))
    ensures Keys(Contacts(m)) == Dedup(Keys(m.to + m.cc + m.bcc))
    ensures forall i :: 0 <= i < |Contacts(m)| ==>
      LastValue(m.to + m.cc + m.bcc, Contacts(m)[i].0) == Some(Contacts(m)[i].1)
  {
    var all := m.to + m.cc + m.bcc;
    var c := Contacts(m);
    PutAllFromEmpty(all);
    forall i | 0 <= i < |c|
      ensures LastValue(all, c[i].0) == Some(c[i].1)
    {
      var r := IndexOf(c, c[i].0);
      assert r == Some(i);
      assert Lookup(c, c[i].0) == Some(c[i].1);
    }
  }

  /**
    Split at the commas, the `to` field reads back as the merged map, entry by
    entry, when no address or display name holds a comma or an angle bracket
    in an address: each address once, at its first position, with the display
    name of its last occurrence (see ContactsMerged).
   */
  lemma RecipientsDeduplicated(m: Message)
    requires |m.to + m.cc + m.bcc| > 0 && Plain(m.to + m.cc + m.bcc)
    ensures var entries := Split(Recipients(m), ',');
      && AddressesOf(entries) == Dedup(Keys(m.to + m.cc + m.bcc))
      && |entries| == |Contacts(m)|
      && forall i :: 0 <= i < |entries| ==>
           ParseNameAddr(entries[i]) == (Contacts(m)[i].0, Shown(Contacts(m)[i].1))
  {
    var all := m.to + m.cc + m.bcc;
    var c := Contacts(m);
    PutAllFromEmpty(all);
    DedupSpec(Keys(all));
    assert |Keys(all)| > 0;
    var f := FormatAll(c);
    forall i | 0 <= i < |f| ensures ',' !in f[i] {
      assert c[i] in c;
    }
    JoinSplit(f, ',');
    forall i | 0 <= i < |f|
      ensures ParseNameAddr(f[i]) == (c[i].0, Shown(c[i].1))
    {
      assert c[i] in c;
      FormatRoundTrip(c[i].0, c[i].1);
    }
    assert AddressesOf(f) == Keys(c);
  }

  // ---------------------------------------------------------------------------
  // Body parts

  /** The part a child contributes, given the HTML as substituted so far. */
  function ChildPart(c: Child, html: string): Option<Part>
  {
    if Contains(html, c.id) then
      Some(FilePart("inlineattachment", c.body, c.filename, c.contentType))
    else match c.kind
      case Attachment => Some(FilePart("attachment", c.body, c.filename, c.contentType))
      case Image => Some(FilePart("attachment", c.body, c.filename, c.contentType))
      case MimePart => if c.contentType == "text/plain" then Some(Field("text", c.body)) else None
      case Other => None
  }

  /** The HTML after a child: its id replaced by its file name when the HTML refers to it. */
  function HtmlAfter(c: Child, html: string): string
  {
    if Contains(html, c.id) then ReplaceAll(html, c.id, c.filename) else html
  }

  function PartSeq(p: Option<Part>): seq<Part>
  {
    match p
    case Some(part) => [part]
    case None => []
  }

  datatype Encoded = Encoded(parts: seq<Part>, html: string)

  /** The parts of the children and the HTML after all of them, child by child. */
  function EncodeChildren(cs: seq<Child>, html: string): Encoded
  {
    if |cs| == 0 then Encoded([], html)
    else
      var before := EncodeChildren(cs[..|cs| - 1], html);
      var c := cs[|cs| - 1];
      Encoded(before.parts + PartSeq(ChildPart(c, before.html)), HtmlAfter(c, before.html))
  }

  /** The HTML after every substitution. */
  function FinalHtml(m: Message): string
  {
    EncodeChildren(m.children, m.body).html
  }

  /** The body parts: those of the children, then the HTML. */
  function Body(m: Message): seq<Part>
  {
    EncodeChildren(m.children, m.body).parts + [Field("html", FinalHtml(m))]
  }

  /** Children give at most one part each, none of them named "html". */
  lemma {:induction false} ChildPartsNamed(cs: seq<Child>, html: string)
    ensures |EncodeChildren(cs, html).parts| <= |cs|
    ensures forall p :: p in EncodeChildren(cs, html).parts ==>
      p.name == "inlineattachment" || p.name == "attachment" || p.name == "text"
    decreases |cs|
  {
    if |cs| > 0 {
      ChildPartsNamed(cs[..|cs| - 1], html);
    }
  }

  /**
    The body always ends with exactly one "html" part holding the substituted
    HTML, has at most one part per child before it, and is just the HTML part
    when there are no children.
   */
  lemma BodyEndsWithHtml(m: Message)
    ensures 1 <= |Body(m)| <= |m.children| + 1
    ensures Body(m)[|Body(m)| - 1] == Field("html", FinalHtml(m))
    ensures forall j :: 0 <= j < |Body(m)| - 1 ==> Body(m)[j].name != "html"
    ensures m.children == [] ==> Body(m) == [Field("html", m.body)]
  {
    var parts := EncodeChildren(m.children, m.body).parts;
    ChildPartsNamed(m.children, m.body);
    assert forall j :: 0 <= j < |parts| ==> Body(m)[j] == parts[j] && parts[j] in parts;
  }

  /**
    Children are encoded in order: the parts of the first `i` children are a
    prefix of those of the first `j`, and each child adds at most one part.
   */
  lemma {:induction false} PartsInChildOrder(cs: seq<Child>, html: string, i: nat, j: nat)
    requires i <= j <= |cs|
    ensures EncodeChildren(cs[..i], html).parts <= EncodeChildren(cs[..j], html).parts
    ensures i < |cs| ==>
      |EncodeChildren(cs[..i + 1], html).parts| <= |EncodeChildren(cs[..i], html).parts| + 1
    decreases j - i
  {
    if i < |cs| {
      assert cs[..i + 1][..i] == cs[..i];
    }
    if i < j {
      PartsInChildOrder(cs, html, i, j - 1);
      assert cs[..j][..j - 1] == cs[..j - 1];
    }
  }

  /**
    A child whose id occurs in the HTML as substituted so far becomes an
    "inlineattachment" part and every occurrence of the id in the HTML becomes
    the file name (ReplaceAllFirst: the text before the first occurrence is
    kept); when the file name is non-empty and shares no character with the
    id, no occurrence of the id is left.
   */
  lemma InlineRule(cs: seq<Child>, html: string, i: nat)
    requires i < |cs|
    requires Contains(EncodeChildren(cs[..i], html).html, cs[i].id)
    ensures var before := EncodeChildren(cs[..i], html);
      var after := EncodeChildren(cs[..i + 1], html);
      && after.parts == before.parts + [FilePart("inlineattachment", cs[i].body, cs[i].filename, cs[i].contentType)]
      && after.html == ReplaceAll(before.html, cs[i].id, cs[i].filename)
      && (|cs[i].filename| > 0 && Disjoint(cs[i].id, cs[i].filename) ==> !Contains(after.html, cs[i].id))
  {
    var c := cs[i];
    var before := EncodeChildren(cs[..i], html);
    assert cs[..i + 1][..i] == cs[..i];
    if |c.filename| > 0 && Disjoint(c.id, c.filename) {
      ReplaceAllRemoves(before.html, c.id, c.filename);
    }
  }

  /**
    A child whose id does not occur in the HTML leaves the HTML unchanged and is
    classified by kind: attachments and images become "attachment" parts, a
    `text/plain` MIME part a "text" field, anything else nothing.
   */
  lemma KindRule(cs: seq<Child>, html: string, i: nat)
    requires i < |cs|
    requires !Contains(EncodeChildren(cs[..i], html).html, cs[i].id)
    ensures var before := EncodeChildren(cs[..i], html);
      var after := EncodeChildren(cs[..i + 1], html);
      var c := cs[i];
      && after.html == before.html
      && ((c.kind == Attachment || c.kind == Image) ==>
            after.parts == before.parts + [FilePart("attachment", c.body, c.filename, c.contentType)])
      && (c.kind == MimePart && c.contentType == "text/plain" ==>
            after.parts == before.parts + [Field("text", c.body)])
      && (c.kind == Other || (c.kind == MimePart && c.contentType != "text/plain") ==>
            after.parts == before.parts)
  {
    assert cs[..i + 1][..i] == cs[..i];
  }

  // ---------------------------------------------------------------------------
  // Payloads

  /** Each part as a (name, contents) entry. */
  function NameContents(parts: seq<Part>): seq<(string, string)>
  {
    seq(|parts|, i requires 0 <= i < |parts| => (parts[i].name, parts[i].contents))
  }

  /** The legacy `message` array: each part's contents under its name, later parts overwriting. */
  function LegacyMessage(parts: seq<Part>): seq<(string, string)>
  {
    PutAll([], NameContents(parts))
  }

  /** The multipart fields: the body parts, then `to`, `from` and `subject`. */
  function MultipartFields(m: Message, to: string, from: string): seq<Part>
  {
    Body(m) + [Field("to", to), Field("from", from), Field("subject", m.subject)]
  }

  /** The payload for a message with a sender, by client generation. */
  function PayloadFor(m: Message, to: string, from: string, multipartClient: bool): Payload
  {
    if multipartClient then Multipart(MultipartFields(m, to, from))
    else Form(to, from, m.subject, LegacyMessage(Body(m)))
  }

  /**
    The legacy array holds, under every name, the contents of the last body
    part with that name; its names are distinct, and its last entry is the
    substituted HTML under "html".
   */
  lemma LegacyMessageAgrees(m: Message)
    ensures DistinctKeys(LegacyMessage(Body(m)))
    ensures forall name :: Lookup(LegacyMessage(Body(m)), name) == LastValue(NameContents(Body(m)), name)
    ensures |LegacyMessage(Body(m))| >= 1
    ensures LegacyMessage(Body(m))[|LegacyMessage(Body(m))| - 1] == ("html", FinalHtml(m))
  {
    var parts := EncodeChildren(m.children, m.body).parts;
    var html := Field("html", FinalHtml(m));
    var init := NameContents(parts);
    PutAllFromEmpty(NameContents(Body(m)));
    NameContentsAppend(parts, html);
    ChildPartsNamed(m.children, m.body);
    forall e | e in init
      ensures e.0 != "html"
    {
      var j :| 0 <= j < |init| && init[j] == e;
      assert parts[j] in parts;
    }
    PutAllAppendNew(init, "html", FinalHtml(m));
  }

  lemma NameContentsAppend(parts: seq<Part>, p: Part)
    ensures NameContents(parts + [p]) == NameContents(parts) + [(p.name, p.contents)]
  {
  }

  /**
    The legacy body keeps one entry per name: of two attachments that the HTML
    does not refer to, only the second reaches the request, and no file name
    or content type is sent.
   */
  lemma LegacyKeepsLastAttachment(m: Message, a: Child, b: Child)
    requires m.children == [a, b] && a.kind == Attachment && b.kind == Attachment
    requires !Contains(m.body, a.id) && !Contains(m.body, b.id)
    ensures LegacyMessage(Body(m)) == [("attachment", b.body), ("html", m.body)]
  {
    assert m.children[..1] == [a];
    assert [a][..0] == [];
    assert EncodeChildren([], m.body) == Encoded([], m.body);
    assert ChildPart(a, m.body) == Some(FilePart("attachment", a.body, a.filename, a.contentType));
    assert HtmlAfter(a, m.body) == m.body;
    var one := EncodeChildren([a], m.body);
    assert one == Encoded([FilePart("attachment", a.body, a.filename, a.contentType)], m.body);
    assert Body(m) == [FilePart("attachment", a.body, a.filename, a.contentType),
                       FilePart("attachment", b.body, b.filename, b.contentType),
                       Field("html", m.body)];
    var kvs := NameContents(Body(m));
    assert kvs == [("attachment", a.body), ("attachment", b.body), ("html", m.body)];
    assert kvs[..1] == [("attachment", a.body)];
    assert kvs[..2] == [("attachment", a.body), ("attachment", b.body)];
    assert kvs[..2][..1] == kvs[..1];
    assert kvs[..1][..0] == [];
    assert PutAll([], kvs[..1]) == [("attachment", a.body)];
    assert PutAll([], kvs[..2]) == [("attachment", b.body)];
  }
}
