# Mailjet transport for Laravel mail, modelled in Dafny

`MailjetTransport` is a Laravel mail transport. It turns a Swift Mailer message into a request to
Mailjet's send API, which is `https://api.mailjet.com/v3/send/message`. This project models how it
builds that request:

- the `to` field: To, Cc and Bcc merged with PHP's `array_merge`, each entry written as
  `Name <address>` or as the bare address, joined with commas;
- the `from` field: the first sender, in the same format;
- the body parts. Each child entity is either an inline attachment, because its content id occurs in
  the HTML (every occurrence is then replaced by the child's file name), or it is classified by its
  class: an attachment or image becomes an `attachment` part, a `text/plain` MIME part becomes a
  `text` part, and anything else is dropped. A single trailing `html` part follows;
- the request options: the `auth` pair and either the multipart field list or, for Guzzle clients
  older than version 6, a form body whose `message` array holds each part's contents under its name;
- the key and secret accessors.

The two payload branches are not equivalent. The legacy `message` array keeps one entry per part
name, so only the last attachment survives, and it sends no file names or content types
(`MailjetPayload.LegacyKeepsLastAttachment`). The model follows the code here.

Modules:

- `PhpStrings` models the string operations the code calls: the PHP built-ins `str_replace` and
  `implode`, the framework helper `str_contains` (false for an empty needle), and PHP truthiness.
  It also defines inverse views that state what their results mean:
  `LastIndexOf`, and `Split` as the inverse of `implode`.
- `PhpArrays` models PHP arrays with string keys as ordered entry lists. Assigning to a key that is
  already present overwrites it in place; assigning to a new key appends it. `array_merge` is that
  assignment applied entry by entry.
- `SwiftMessage` holds the message as the transport reads it. Address maps are (address, display
  name) lists. A child's runtime class becomes the tag `Attachment | Image | MimePart | Other`.
- `MailjetPayload` holds the specification functions (`Recipients`, `Sender`, `Body`,
  `LegacyMessage`, `PayloadFor`) and the lemmas about them.
- `Transport` holds the class `MailjetTransport`. It has `key` and `secret` fields. Its methods run
  the same loops as the PHP code and are proved to compute exactly the specification functions.

## Model

| member | source | states |
|---|---|---|
| `Transport.MailjetTransport.constructor` | src/Transport/MailjetTransport.php:48-54 | the new transport holds the given key and secret and the fixed send endpoint URL |
| `Transport.MailjetTransport.GetKey` | src/Transport/MailjetTransport.php:196-199 | returns the held key |
| `Transport.MailjetTransport.SetKey` | src/Transport/MailjetTransport.php:207-210 | the key becomes `k`, `k` is returned, and the secret is unchanged |
| `Transport.MailjetTransport.GetSecret` | src/Transport/MailjetTransport.php:217-220 | returns the held secret |
| `Transport.MailjetTransport.SetSecret` | src/Transport/MailjetTransport.php:228-231 | the secret becomes `s`, `s` is returned, and the key is unchanged |
| `Transport.MailjetTransport.GetTo` | src/Transport/MailjetTransport.php:106-119 | the loop over the merged contacts yields `Recipients(message)`, which is the comma-join of the formatted entries of `array_merge(To, Cc, Bcc)` |
| `Transport.MailjetTransport.GetFrom` | src/Transport/MailjetTransport.php:127-135 | the result is the formatted first sender; later senders are ignored; it is None (failure) when From is empty |
| `Transport.MailjetTransport.GetBody` | src/Transport/MailjetTransport.php:143-189 | the loop that threads the HTML through the children yields exactly `Body(message)` |
| `Transport.MailjetTransport.Send` | src/Transport/MailjetTransport.php:59-98 | fails exactly when there is no sender. Otherwise it posts to the held URL with auth `(key, secret)` and returns the To+Cc+Bcc count. The payload is the body parts followed by `to`, `from`, `subject`, or the legacy form body whose `message` array is built by the overwrite loop |
| `PhpStrings.ContainsIffOccurs` | src/Transport/MailjetTransport.php:150 | the containment test used to find inline children holds exactly when the id is non-empty and occurs at some index of the HTML; a child with an empty id is therefore never inline |
| `PhpStrings.ReplaceAllAbsent` | src/Transport/MailjetTransport.php:151 | `str_replace` leaves a string that lacks the id unchanged |
| `PhpStrings.ReplaceAllFirst` | src/Transport/MailjetTransport.php:151 | the text before the first occurrence is kept, that occurrence becomes the file name, and replacement continues after it without overlap |
| `PhpStrings.ReplaceAllSelf` | src/Transport/MailjetTransport.php:151 | replacing an id by itself leaves the HTML unchanged |
| `PhpStrings.ReplaceAllRemovesAt` | src/Transport/MailjetTransport.php:151 | with a non-empty replacement sharing no character with the id, no occurrence of the id starts at any index of the result |
| `PhpStrings.ReplaceAllRemoves` | src/Transport/MailjetTransport.php:151 | under the same condition, the substituted HTML no longer contains the id |
| `PhpStrings.ReplaceAllCanReform` | src/Transport/MailjetTransport.php:151 | the id can remain after substitution even though the file name does not contain it: `"abb"` with `ab` replaced by `a` gives `"ab"` |
| `PhpStrings.JoinSplit` | src/Transport/MailjetTransport.php:118 | when no entry holds a comma, splitting the `implode` result at commas gives back the entry list |
| `PhpStrings.SplitJoin` | src/Transport/MailjetTransport.php:118 | for every string, `implode` of its comma pieces gives the string back |
| `PhpStrings.JoinAppend` | src/Transport/MailjetTransport.php:118 | joining two non-empty lists puts exactly one comma between their joins |
| `PhpArrays.PutEffect` | src/Transport/MailjetTransport.php:82 | one `$a[$k] = $v` keeps an existing key in its place or appends a new one, makes `$k` read `$v` and leaves other keys' values alone |
| `PhpArrays.PutAllFromEmpty` | src/Transport/MailjetTransport.php:110-112 | `array_merge` over string keys gives distinct keys in first-occurrence order, each with the value of its last occurrence, and no other entries |
| `PhpArrays.PutAllDistinct` | src/Transport/MailjetTransport.php:110-112 | when no key repeats, `array_merge` is concatenation |
| `PhpArrays.DedupSpec` | src/Transport/MailjetTransport.php:110-112 | the first-occurrence key list has each key of the input exactly once |
| `MailjetPayload.FormatRoundTrip` | src/Transport/MailjetTransport.php:115 | an entry reads back to its address, plus its display name exactly when the name is PHP-truthy (null, "" and "0" give the bare address); the address must hold no angle brackets |
| `MailjetPayload.RecipientsInOrder` | src/Transport/MailjetTransport.php:106-119 | with no repeated address, `to` is the To entries, then Cc, then Bcc, comma-joined; no recipients give "" |
| `MailjetPayload.ContactsMerged` | src/Transport/MailjetTransport.php:110-112 | the merged recipients hold each address once, in first-occurrence order, with the display name of its last occurrence |
| `MailjetPayload.RecipientsDeduplicated` | src/Transport/MailjetTransport.php:110-118 | split at commas, `to` reads back as the merged recipients entry by entry, so an address in several of To/Cc/Bcc appears exactly once |
| `MailjetPayload.ChildPartsNamed` | src/Transport/MailjetTransport.php:148-181 | the children give at most one part each, named `inlineattachment`, `attachment` or `text` |
| `MailjetPayload.BodyEndsWithHtml` | src/Transport/MailjetTransport.php:143-188 | the body has between 1 and children+1 parts; the last is `html` with the substituted HTML, and no earlier part is named `html`; with no children it is exactly `[html: original body]` |
| `MailjetPayload.PartsInChildOrder` | src/Transport/MailjetTransport.php:148-181 | the parts of the first i children are a prefix of those of the first j, and each child adds at most one part |
| `MailjetPayload.InlineRule` | src/Transport/MailjetTransport.php:150-157 | a child whose id occurs in the HTML substituted so far adds an `inlineattachment` part with its body, file name and content type, and the HTML becomes `str_replace(id, filename, html)`. The id is then gone when the file name is non-empty and shares no character with the id |
| `MailjetPayload.KindRule` | src/Transport/MailjetTransport.php:158-179 | any other child leaves the HTML unchanged. An attachment or image adds an `attachment` part; a `text/plain` MIME part adds a `text` field with no file name or headers; anything else adds nothing |
| `MailjetPayload.LegacyMessageAgrees` | src/Transport/MailjetTransport.php:79-90 | the legacy `message` array has distinct names, holds under each name the contents of the last body part with that name, and ends with `html` holding the substituted HTML |
| `MailjetPayload.LegacyKeepsLastAttachment` | src/Transport/MailjetTransport.php:79-90 | of two attachments not referenced from the HTML, only the second reaches the legacy form body, without file name or content type |

## Left out

- The HTTP POST through Guzzle (src/Transport/MailjetTransport.php:93) is not modelled. `Send`
  returns the URL, options and recipient count it would post with. Transport errors are not modelled.
- The Guzzle version check (src/Transport/MailjetTransport.php:72) is the boolean parameter
  `multipartClient` of `Send`.
- The framework hooks `beforeSendPerformed` and `sendPerformed` are left out; they belong to a base
  class that is not part of this model. `numberOfRecipients` belongs to that class too; its result
  is taken to be the sum of the sizes of To, Cc and Bcc.
- src/TransportManager.php only reads configuration and calls the constructor; the injected HTTP
  client is not a field of the model.
- `Transport.MailjetTransport.GetFrom`: an empty From makes `$formatted[0]` an undefined index.
  Laravel's error handler turns that notice into an exception, so the model returns None and `Send`
  returns `MissingSender`. Plain PHP would go on with a null `from`; that is not modelled.
- `MailjetPayload.InlineRule`: it does not state "no occurrence of the id is left unless the file
  name contains it", because `str_replace` can re-form the id (`PhpStrings.ReplaceAllCanReform`).
  The lemma proves the removal under a sufficient condition instead.
- Every child carries a file name. The source calls `getFilename()` on whatever child is inline,
  which a `Swift_MimePart` does not have; that runtime error is not modelled.
- Addresses that PHP would turn into integer keys are treated as string keys. Those are the
  canonical decimal integers, such as `"5"` or `"-5"`, but not `"08"` or `"+5"`. `array_merge` would
  renumber them instead.
- Attachment bytes are opaque strings. The multipart `headers` array is reduced to its single
  `Content-Type` entry.
- The `to` format does not quote or escape anything. The read-back lemmas assume that addresses
  hold no `<`, `>` or `,` and that display names hold no `,`. Other inputs can make two different
  recipient lists give the same `to` string.
