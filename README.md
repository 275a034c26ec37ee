# Test cookie ticket format, in Dafny

This project models `TestCookieTicketFormat`, the data format the API's tests
use for their authentication cookies. The format is deliberately not secure.
`Protect` writes every claim of a ticket's principal as `type=value`. It joins
those texts with `&`, encodes the result as UTF-8 and then as Base64.
`Unprotect` undoes the layers. It splits the claim string on `&`, and each
segment on `=`. It then builds a ticket of the `Cookies` scheme around fresh
claims. Null or white-space text gives no ticket.

The model is pure: datatypes, functions and lemmas, in five modules.

- `Wrappers`: `Option` (a C# `null`), `Result` and `byte`.
- `Text`: `char.IsWhiteSpace`, `string.IsNullOrWhiteSpace`,
  `string.Split(char)` and `string.Join`.
- `Utf8`: `Encoding.UTF8.GetBytes` and `Encoding.UTF8.GetString`, over Unicode
  scalar values. Decoding replaces each maximal ill-formed subpart with U+FFFD.
- `Base64`: `Convert.ToBase64String` and a strict `Convert.FromBase64String`,
  following section 4 of RFC 4648. The arithmetic turns octets into 6-bit
  symbols and back; the alphabet then renders each symbol as one character.
- `TicketFormat`: tickets, principals, identities and claims; `Protect`,
  `Unprotect` and their `purpose` overloads; and the round-trip properties.

The two exceptions `Unprotect` can throw become values of the `Outcome`
datatype.

- `Failed(InvalidBase64)` stands for the `FormatException` of
  `Convert.FromBase64String`.
- `Failed(MissingClaimValue(k))` stands for the `IndexOutOfRangeException` on
  `claimParts[1]`. `k` is the index of the first segment without `=`.

The main results:

- Base64 decoding and encoding are inverse. Text decodes to `b` exactly when it
  is the encoding of `b`.
- UTF-8 decoding undoes encoding.
- Splitting undoes joining when no part holds the separator.
- A ticket whose claims are all free of `&` and `=`, and which has at least one
  claim, reads back as a cookie ticket. Its claims have the same types and
  values, in the same order, duplicates included. It is the only kind of ticket
  that reads back with its claim types and values intact; `RoundTripExactly`
  proves both directions.
- A ticket with no claims protects to empty text, which reads back as no ticket.
- The cookie that `CreateCookie` in the tests builds reads back as the very
  ticket it protected.

Three points of behaviour are easy to misread; the model follows the code in each:

- The scheme tag is `"Cookies"` (`CookieAuthenticationDefaults.AuthenticationScheme`),
  not `"cookie"`.
- The round trip does not hold for every claim set. It holds only for non-empty,
  separator-free claims, and then it also preserves their order.
- Undecodable text throws. It does not produce a separate "malformed" result.

## Model

| member | source | states |
|---|---|---|
| `Text.IsWhiteSpace` | Api.Tests/Sdk/TestCookieTicketFormat.cs:28 | no contract of its own; it is the Unicode White_Space set of `char.IsWhiteSpace`, and `TicketFormat.EncodedNotBlank` proves that no character of the Base64 alphabet or `=` belongs to it |
| `Text.IsNullOrWhiteSpace` | Api.Tests/Sdk/TestCookieTicketFormat.cs:28-31 | no contract of its own; its meaning is fixed by `TicketFormat.Unprotect` (exactly this text gives no ticket) and by `TicketFormat.EncodedNotBlank` and `TicketFormat.Protect` (protected text is blank only when the ticket has no claims) |
| `Text.Join` | Api.Tests/Sdk/TestCookieTicketFormat.cs:18 | no contract of its own; its meaning is fixed by `Text.Split` (joining the segments gives the text back), `Text.SplitJoin` (split undoes join) and `Text.CountJoin` (how many separators a join holds) |
| `Text.Split` | Api.Tests/Sdk/TestCookieTicketFormat.cs:35-37 | `Split` keeps empty segments: one more segment than there are separators, no segment holds the separator, joining the segments gives the text back, and the first segment is the text before the first separator |
| `Text.SplitJoin` | Api.Tests/Sdk/TestCookieTicketFormat.cs:18-35 | splitting the join of a non-empty list of separator-free parts gives exactly those parts back |
| `Text.CountJoin` | Api.Tests/Sdk/TestCookieTicketFormat.cs:18-35 | a join of n parts holds at least n-1 separators, and exactly n-1 if and only if no part holds one |
| `Utf8.Encode` | Api.Tests/Sdk/TestCookieTicketFormat.cs:19 | a string of n characters encodes to between n and 4·n bytes |
| `Utf8.Decode` | Api.Tests/Sdk/TestCookieTicketFormat.cs:34 | decoding never fails and yields at most one character per byte |
| `Utf8.DecodeStepEncodeChar` | Api.Tests/Sdk/TestCookieTicketFormat.cs:19-34 | the bytes of one character decode to that character and consume exactly those bytes, whatever follows |
| `Utf8.DecodeEncode` | Api.Tests/Sdk/TestCookieTicketFormat.cs:19-34 | decoding the UTF-8 bytes of a string gives the string back |
| `Base64.Encode` | Api.Tests/Sdk/TestCookieTicketFormat.cs:21 | the encoding of n octets has 4·⌈n/3⌉ characters, a multiple of four, empty only for no octets, and uses only the alphabet and `=` |
| `Base64.Decode` | Api.Tests/Sdk/TestCookieTicketFormat.cs:33 | text that decodes is made of alphabet characters and `=` only |
| `Base64.DecodeEncode` | Api.Tests/Sdk/TestCookieTicketFormat.cs:21-33 | decoding the encoding of any octets gives those octets |
| `Base64.EncodeDecode` | Api.Tests/Sdk/TestCookieTicketFormat.cs:21-33 | text that decodes is the encoding of what it decodes to: only canonical text is accepted |
| `Base64.DecodeIffEncode` | Api.Tests/Sdk/TestCookieTicketFormat.cs:21-33 | text decodes to `b` if and only if it is the encoding of `b` |
| `TicketFormat.AllClaims` | Api.Tests/Sdk/TestCookieTicketFormat.cs:17 | no contract of its own; `ClaimsPrincipal.Claims`, the claims of every identity in identity order; `TicketFormat.CookieTicket` proves it gives back exactly the claims of a one-identity ticket |
| `TicketFormat.Claims` | Api.Tests/Sdk/TestCookieTicketFormat.cs:17 | no contract of its own; `data.Principal.Claims`, fixed by `TicketFormat.CookieTicket` as for `AllClaims` |
| `TicketFormat.NewClaim` | Api.Tests/Sdk/TestCookieTicketFormat.cs:38 | no contract of its own; `new Claim(type, value)`, whose issuer and value type defaults `TicketFormat.ParseClaim`, `TicketFormat.Reissued` and `TicketFormat.ReissuedNew` state |
| `TicketFormat.ClaimText` | Api.Tests/Sdk/TestCookieTicketFormat.cs:17 | no contract of its own; `$"{x.Type}={x.Value}"`, whose parse-back is stated by `TicketFormat.ParsedClaimType`, `TicketFormat.ParsedClaimValue` and `TicketFormat.ParseClaimText` |
| `TicketFormat.ClaimTexts` | Api.Tests/Sdk/TestCookieTicketFormat.cs:17 | no contract of its own; one claim text per claim, in order, read back by `TicketFormat.ParseClaimTexts` |
| `TicketFormat.ClaimsString` | Api.Tests/Sdk/TestCookieTicketFormat.cs:17-18 | no contract of its own; the claim texts joined with `&`, which `TicketFormat.Protect` and `TicketFormat.ProtectLayers` show is exactly what the protected text decodes to |
| `TicketFormat.EncodedNotBlank` | Api.Tests/Sdk/TestCookieTicketFormat.cs:21-28 | text made only of Base64 alphabet characters and `=` is null-or-white-space exactly when it is empty, so a non-empty protected text passes the guard of `Unprotect` |
| `TicketFormat.CookieTicket` | Api.Tests/Sdk/TestCookieTicketFormat.cs:41-42 | the ticket built around a claim list has exactly those claims |
| `TicketFormat.Protect` | Api.Tests/Sdk/TestCookieTicketFormat.cs:15-22 | the protected text is made of Base64 alphabet characters and `=`, has a length that is a multiple of four, and Base64-decodes to the UTF-8 bytes of the claim string; it is empty, and it is null-or-white-space, exactly when the ticket has no claims |
| `TicketFormat.ProtectWithPurpose` | Api.Tests/Sdk/TestCookieTicketFormat.cs:24 | the purpose plays no part: the result is that of `Protect` |
| `TicketFormat.ParseClaim` | Api.Tests/Sdk/TestCookieTicketFormat.cs:37-38 | a segment yields a claim if and only if it holds `=`, and that claim has the issuer and value type of `new Claim(type, value)` |
| `TicketFormat.ParseClaimParts` | Api.Tests/Sdk/TestCookieTicketFormat.cs:37-38 | the claim type is the text before the first `=`, and the value the text between the first and the second `=` |
| `TicketFormat.ParseClaims` | Api.Tests/Sdk/TestCookieTicketFormat.cs:35-39 | every segment holds `=` if and only if parsing succeeds; on success there is one claim per segment, in order; on failure the error is the index of the first segment without `=` |
| `TicketFormat.ReadClaims` | Api.Tests/Sdk/TestCookieTicketFormat.cs:35-42 | the claim string gives a ticket if and only if every `&`-segment holds `=`; the ticket then has one claim more than the string has `&`, each parsed from its segment; otherwise the failure names a segment without `=` |
| `TicketFormat.Unprotect` | Api.Tests/Sdk/TestCookieTicketFormat.cs:26-45 | null or white-space text, and only that, gives no ticket; failing as invalid Base64 happens exactly for non-blank text that does not decode; a ticket read back has the `Cookies` scheme, no properties, one identity of the `Cookies` authentication type, and only claims as `new Claim` makes them |
| `TicketFormat.UnprotectWithPurpose` | Api.Tests/Sdk/TestCookieTicketFormat.cs:47 | the purpose plays no part: the result is that of `Unprotect` |
| `TicketFormat.NotBase64Fails` | Api.Tests/Sdk/TestCookieTicketFormat.cs:33 | non-blank text that is not the encoding of any octets fails as invalid Base64 |
| `TicketFormat.ProtectLayers` | Api.Tests/Sdk/TestCookieTicketFormat.cs:17-34 | Base64-decoding the protected text gives the UTF-8 bytes of the claim string, and UTF-8-decoding those gives the claim string |
| `TicketFormat.UnprotectProtect` | Api.Tests/Sdk/TestCookieTicketFormat.cs:15-42 | a ticket with claims is read back exactly as its claim string reads |
| `TicketFormat.EmptyTicketIsLost` | Api.Tests/Sdk/TestCookieTicketFormat.cs:17-30 | a ticket without claims protects to the empty text, which reads back as no ticket |
| `TicketFormat.Reissued` | Api.Tests/Sdk/TestCookieTicketFormat.cs:38 | the claims rebuilt from type and value keep every type and value, in order, and carry the defaults of `new Claim` |
| `TicketFormat.ReissuedNew` | Api.Tests/Sdk/TestCookieTicketFormat.cs:38 | claims that already carry the defaults of `new Claim` are rebuilt unchanged |
| `TicketFormat.ParsedClaimType` | Api.Tests/Sdk/TestCookieTicketFormat.cs:17-38 | the type parsed back from `type=value` is the original type if and only if that type holds no `=` |
| `TicketFormat.ParsedClaimValue` | Api.Tests/Sdk/TestCookieTicketFormat.cs:17-38 | when the type holds no `=`, the value parsed back is the original value if and only if that value holds no `=` |
| `TicketFormat.ParseClaimText` | Api.Tests/Sdk/TestCookieTicketFormat.cs:17-38 | the text of a claim always parses, and it parses to the claim's type and value if and only if neither holds `=` |
| `TicketFormat.ParseClaimTexts` | Api.Tests/Sdk/TestCookieTicketFormat.cs:35-39 | the texts of encodable claims parse back, in order, into those claims rebuilt |
| `TicketFormat.ClaimTextHasNoAmpersand` | Api.Tests/Sdk/TestCookieTicketFormat.cs:17 | the text of a claim whose type and value are free of separators holds no `&` |
| `TicketFormat.PlainWhenReadBack` | Api.Tests/Sdk/TestCookieTicketFormat.cs:17-38 | a claim whose text holds no `&` and parses back to its own type and value has no separator in its type or value |
| `TicketFormat.RoundTrip` | Api.Tests/Sdk/TestCookieTicketFormat.cs:15-45 | a ticket with at least one claim and no separator in any type or value reads back as a cookie ticket of the same claim types and values, in order |
| `TicketFormat.RoundTripExactly` | Api.Tests/Sdk/TestCookieTicketFormat.cs:15-45 | the protected text reads back as a ticket with the same claim types and values if and only if there is at least one claim and no type or value holds `&` or `=` |
| `TicketFormat.ProtectKeepsOnlyPairs` | Api.Tests/Sdk/TestCookieTicketFormat.cs:17 | tickets whose claims agree on types and values protect to the same text: issuers, value types, identities, scheme and properties are lost |
| `TicketFormat.CookieTicketReadsBack` | Api.Tests/Sdk/TestCookieTicketFormat.cs:15-45 | a cookie ticket of encodable claims made by `new Claim` reads back as itself |
| `TicketFormat.TestTicket` | Api.Tests/CookieAuthTests.cs:112-119 | no contract of its own; the ticket `CreateCookie` builds, claims `name=Some User` and `role=<role>` in one identity of the `Cookies` scheme, which `TicketFormat.TestCookieReadsBack` proves reads back as itself |
| `TicketFormat.TestCookieReadsBack` | Api.Tests/CookieAuthTests.cs:110-126 | the ticket `CreateCookie` protects, with claims `name=Some User` and `role=<role>`, reads back as that same ticket whenever the role holds no separator |

## Left out

- The authentication and authorization wiring of the API, the JWT bearer scheme, the policies, the hosting and the endpoint are not part of this model. Only the cookie ticket format is modelled.
- The cookie settings around the format are outside this model: the cookie lifetime, cookie chunking and the clearing of the inbound claim-type map. They are framework configuration, not part of the format.
- Strings are sequences of Unicode scalar values. A C# string is UTF-16 and may hold a lone surrogate, which `Encoding.UTF8.GetBytes` replaces with U+FFFD; such strings cannot be written here.
- `Base64.Decode` is strict. It rejects white space anywhere in the text (leading, trailing or embedded) and non-zero unused bits before the padding, both of which `Convert.FromBase64String` tolerates. The format's own output never has either, so no round-trip result depends on this.
- A claim has only a type, a value, a value type and an issuer. The original issuer, subject and property bag of a .NET `Claim` are not modelled. An identity has only an authentication type and claims; its name and role claim types, label, actor and bootstrap context are not modelled. `Protect` ignores all of these, as it does in the source.
- A ticket with a null principal is not modelled. `Protect` would throw a `NullReferenceException` on it.
- In the source, `Select` is lazy: the `IndexOutOfRangeException` for a segment without `=` is raised while `new ClaimsIdentity` enumerates the claims. The model reports the same first bad segment as a value and does not model when the exception is raised.
- Exceptions are values of `Outcome`. The exception types, their messages and stack traces are not modelled.
