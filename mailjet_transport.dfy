/**
  The Mailjet transport object: it holds the API key and secret, and for each
  message builds the request it posts to Mailjet's send endpoint. The POST
  itself, the framework's before/after hooks and the HTTP client are not
  modelled; `Send` returns the request it would post.
 */
module Transport {
  import opened Optional
  import opened PhpStrings
  import opened PhpArrays
  import opened SwiftMessage
  import opened MailjetPayload

  /** Guzzle's request options: the basic-auth pair and the body. */
  datatype Options = Options(auth: (string, string), payload: Payload)

  /** What `send` does: post `options` to `url` and report `recipients`, or fail for lack of a sender. */
  datatype Outcome =
    | Posted(url: string, options: Options, recipients: nat)
    | MissingSender

  class MailjetTransport {
    var key: string
    var secret: string
    const url: string

    constructor (key: string, secret: string)
      ensures this.key == key && this.secret == secret
      ensures url == "https://api.mailjet.com/v3/send/message"
    {
      this.key := key;
      this.secret := secret;
      url := "https://api.mailjet.com/v3/send/message";
    }

    method GetKey() returns (k: string)
      ensures k == key
    {
      k := key;
    }

    /** Replaces the key and returns it; the secret is untouched. */
    method SetKey(k: string) returns (r: string)
      modifies this`key
      ensures key == k && r == k
      ensures secret == old(secret)
    {
      key := k;
      r := key;
    }

    method GetSecret() returns (s: string)
      ensures s == secret
    {
      s := secret;
    }

    /** Replaces the secret and returns it; the key is untouched. */
    method SetSecret(s: string) returns (r: string)
      modifies this`secret
      ensures secret == s && r == s
      ensures key == old(key)
    {
      secret := s;
      r := secret;
    }

    /** The `to` field: the merged To, Cc and Bcc entries, comma-separated. */
    method GetTo(message: Message) returns (r: string)
      ensures r == Recipients(message)
    {
      var contacts := PutAll([], message.to + message.cc + message.bcc);
      var formatted: seq<string> := [];
      for i := 0 to |contacts|
        invariant formatted == FormatAll(contacts[..i])
      {
        var (address, display) := contacts[i];
        formatted := formatted + [Format(address, display)];
      }
      assert contacts[..|contacts|] == contacts;
      r := Join(formatted, ',');
    }

    /** The `from` field: the first sender, formatted; None when there is none. */
    method GetFrom(message: Message) returns (r: Option<string>)
      ensures r == Sender(message)
    {
      var formatted: seq<string> := [];
      for i := 0 to |message.from|
        invariant formatted == FormatAll(message.from[..i])
      {
        var (address, display) := message.from[i];
        formatted := formatted + [Format(address, display)];
      }
      r := if |formatted| > 0 then Some(formatted[0]) else None;
    }

    /** The body parts: one per child at most, in order, then the substituted HTML. */
    method GetBody(message: Message) returns (body: seq<Part>)
      ensures body == Body(message)
    {
      var children := message.children;
      body := [];
      var html := message.body;
      for i := 0 to |children|
        invariant Encoded(body, html) == EncodeChildren(children[..i], message.body)
      {
        assert children[..i + 1][..i] == children[..i];
        var child := children[i];
        if Contains(html, child.id) {
          html := ReplaceAll(html, child.id, child.filename);
          body := body + [FilePart("inlineattachment", child.body, child.filename, child.contentType)];
        } else {
          match child.kind
          case Attachment =>
            body := body + [FilePart("attachment", child.body, child.filename, child.contentType)];
          case Image =>
            body := body + [FilePart("attachment", child.body, child.filename, child.contentType)];
          case MimePart =>
            if child.contentType == "text/plain" {
              body := body + [Field("text", child.body)];
            }
          case Other =>
        }
      }
      assert children[..|children|] == children;
      body := body + [Field("html", html)];
    }

    /**
      The request for a message: the key and secret as basic auth, and either
      the multipart fields or, for an older client, the legacy form body; the
      recipient count is the size of To, Cc and Bcc together.
     */
    method Send(message: Message, multipartClient: bool) returns (r: Outcome)
      ensures |message.from| == 0 <==> r == MissingSender
      ensures r.Posted? ==>
        && r.url == url
        && r.options.auth == (key, secret)
        && r.options.payload == PayloadFor(message, Recipients(message), Sender(message).value, multipartClient)
        && r.recipients == |message.to| + |message.cc| + |message.bcc|
    {
      var auth := (key, secret);
      var to := GetTo(message);
      var from := GetFrom(message);
      if from.None? {
        return MissingSender;
      }
      var subject := message.subject;
      var body := GetBody(message);
      var payload: Payload;
      if multipartClient {
        var parts := GetBody(message);
        payload := Multipart(parts + [Field("to", to), Field("from", from.value), Field("subject", subject)]);
      } else {
        var formatted: seq<(string, string)> := [];
        for i := 0 to |body|
          invariant formatted == PutAll([], NameContents(body[..i]))
        {
          var part := body[i];
          assert NameContents(body[..i + 1])[..i] == NameContents(body[..i]);
          formatted := Put(formatted, part.name, part.contents);
        }
        assert body[..|body|] == body;
        payload := Form(to, from.value, subject, formatted);
      }
      r := Posted(url, Options(auth, payload), |message.to| + |message.cc| + |message.bcc|);
    }
  }
}
