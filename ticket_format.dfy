/** The test cookie ticket format: a ticket's claims written as `type=value` pairs
    joined with `&`, encoded as UTF-8 and then as Base64, and read back into a
    ticket of the "Cookies" scheme. */
module TicketFormat {
  import opened Wrappers
  import Text
  import Base64
  import Utf8

  /** `CookieAuthenticationDefaults.AuthenticationScheme`. */
  const CookieScheme: string := "Cookies"
  /** `ClaimsIdentity.DefaultIssuer`, the issuer of a claim built from type and value only. */
  const DefaultIssuer: string := "LOCAL AUTHORITY"
  /** `ClaimValueTypes.String`, the value type of a claim built from type and value only. */
  const StringValueType: string := "http://www.w3.org/2001/XMLSchema#string"

  const ClaimSeparator: char := '&'
  const PartSeparator: char := '='

  datatype Claim = Claim(claimType: string, value: string, valueType: string, issuer: string)

  /** A `ClaimsIdentity`; its authentication type may be null. */
  datatype Identity = Identity(authenticationType: Option<string>, claims: seq<Claim>)

  /** A `ClaimsPrincipal`: one or more identities. */
  datatype Principal = Principal(identities: seq<Identity>)

  /** An `AuthenticationTicket`: the principal, the scheme and the ticket properties. */
  datatype Ticket = Ticket(principal: Principal, authenticationScheme: string, properties: map<string, string>)

  /** Why `Unprotect` throws: the text is not Base64 (`FormatException`), or the
      segment at this index has no `=` (`IndexOutOfRangeException` on `claimParts[1]`). */
  datatype Error = InvalidBase64 | MissingClaimValue(segment: nat)

  /** What `Unprotect` does: returns null, throws, or returns a ticket. */
  datatype Outcome = NoTicket | Failed(error: Error) | Found(ticket: Ticket)

  /** `ClaimsPrincipal.Claims`: the claims of every identity, identity by identity. */
  function AllClaims(ids: seq<Identity>): seq<Claim>
  {
    if ids == [] then [] else ids[0].claims + AllClaims(ids[1..])
  }

  function Claims(t: Ticket): seq<Claim> {
    AllClaims(t.principal.identities)
  }

  /** The part of a claim that the format keeps. */
  function Pairs(cs: seq<Claim>): seq<(string, string)> {
    seq(|cs|, i requires 0 <= i < |cs| => (cs[i].claimType, cs[i].value))
  }

  /** `new Claim(type, value)`. */
  function NewClaim(claimType: string, value: string): Claim {
    Claim(claimType, value, StringValueType, DefaultIssuer)
  }

  /** The ticket `Unprotect` builds: one identity and the ticket itself of the cookie
      scheme, and no properties. */
  function CookieTicket(cs: seq<Claim>): (t: Ticket)
    ensures Claims(t) == cs
  {
    assert AllClaims([Identity(Some(CookieScheme), cs)]) == cs + [];
    Ticket(Principal([Identity(Some(CookieScheme), cs)]), CookieScheme, map[])
  }

  /** `$"{x.Type}={x.Value}"`. */
  function ClaimText(c: Claim): string {
    c.claimType + [PartSeparator] + c.value
  }

  function ClaimTexts(cs: seq<Claim>): seq<string> {
    seq(|cs|, i requires 0 <= i < |cs| => ClaimText(cs[i]))
  }

  /** The claim string: every claim's text, in order, joined with `&`. */
  function ClaimsString(t: Ticket): string {
    Text.Join(ClaimSeparator, ClaimTexts(Claims(t)))
  }

  /** Text free of both separators survives the format unchanged. */
  predicate IsPlain(s: string) {
    ClaimSeparator !in s && PartSeparator !in s
  }

  /** The claim lists the format reproduces: not empty, no separator in any type or value. */
  predicate IsEncodable(cs: seq<Claim>) {
    cs != [] && forall i :: 0 <= i < |cs| ==> IsPlain(cs[i].claimType) && IsPlain(cs[i].value)
  }

  lemma {:induction false} JoinNotEmpty(parts: seq<string>)
    ensures parts != [] && parts[0] != [] ==> Text.Join(ClaimSeparator, parts) != []
  {
  }

  /** Base64 text is blank only when it is empty: no character of the encoding is white space. */
  lemma {:induction false} EncodedNotBlank(s: string)
    requires forall i :: 0 <= i < |s| ==> Base64.IsEncodingChar(s[i])
    ensures Text.IsNullOrWhiteSpace(Some(s)) <==> s == []
  {
    if s != [] {
      assert Base64.IsEncodingChar(s[0]);
      assert !Text.IsWhiteSpace(s[0]);
    }
  }

  /** `Protect`: Base64 of the UTF-8 bytes of the claim string. */
  function Protect(t: Ticket): (s: string)
    ensures |s| % 4 == 0
    ensures forall i :: 0 <= i < |s| ==> Base64.IsEncodingChar(s[i])
    ensures s == [] <==> Claims(t) == []
    ensures Text.IsNullOrWhiteSpace(Some(s)) <==> Claims(t) == []
    ensures Base64.Decode(s) == Some(Utf8.Encode(ClaimsString(t)))
  {
    var bytes := Utf8.Encode(ClaimsString(t));
    JoinNotEmpty(ClaimTexts(Claims(t)));
    var s := Base64.Encode(bytes);
    EncodedNotBlank(s);
    Base64.DecodeEncode(bytes);
    s
  }

  /** `Protect(data, purpose)`: the purpose plays no part. */
  function ProtectWithPurpose(t: Ticket, purpose: Option<string>): (s: string)
    ensures s == Protect(t)
  {
    Protect(t)
  }

  /** A claim as `new Claim(type, value)` makes it. */
  predicate IsNewClaim(c: Claim) {
    c.issuer == DefaultIssuer && c.valueType == StringValueType
  }

  /** `segment.Split('=')` read as `new Claim(parts[0], parts[1])`; a segment without
      `=` leaves no `parts[1]`. */
  function ParseClaim(segment: string): (r: Option<Claim>)
    ensures r.Some? <==> PartSeparator in segment
    ensures r.Some? ==> IsNewClaim(r.value)
  {
    var parts := Text.Split(segment, PartSeparator);
    if |parts| < 2 then None else Some(NewClaim(parts[0], parts[1]))
  }

  /** The type is the text before the first `=` and the value the text between the
      first `=` and the next one: anything after a second `=` is dropped. */
  lemma {:induction false} ParseClaimParts(segment: string)
    requires PartSeparator in segment
    ensures
      var i := Text.FirstIndex(segment, PartSeparator);
      var rest := segment[i + 1..];
      ParseClaim(segment) == Some(NewClaim(segment[..i], rest[..Text.FirstIndex(rest, PartSeparator)]))
  {
    Text.SplitRest(segment, PartSeparator);
  }

  /** Index of the first segment without `=`, or the number of segments when every
      segment has one. */
  function FirstMissing(segments: seq<string>): (k: nat)
    ensures k <= |segments|
    ensures forall i :: 0 <= i < k ==> PartSeparator in segments[i]
    ensures k < |segments| ==> PartSeparator !in segments[k]
  {
    if segments == [] then 0
    else if PartSeparator !in segments[0] then 0
    else 1 + FirstMissing(segments[1..])
  }

  /** The claims of the segments, enumerated in order: the first segment without `=`
      stops the enumeration with an error. */
  function ParseClaims(segments: seq<string>): (r: Result<seq<Claim>, nat>)
    ensures r.Success? <==> forall i :: 0 <= i < |segments| ==> PartSeparator in segments[i]
    ensures r.Success? ==>
      |r.value| == |segments| && forall i :: 0 <= i < |segments| ==> ParseClaim(segments[i]) == Some(r.value[i])
    ensures r.Failure? ==>
      r.error < |segments| && PartSeparator !in segments[r.error]
      && forall i :: 0 <= i < r.error ==> PartSeparator in segments[i]
  {
    var k := FirstMissing(segments);
    if k < |segments| then Failure(k)
    else Success(seq(|segments|, i requires 0 <= i < |segments| => ParseClaim(segments[i]).value))
  }

  /** The claim-string layer of `Unprotect`: `claimsString.Split('&')`, one claim per
      segment, in order, inside a ticket of the cookie scheme. */
  function ReadClaims(text: string): (r: Outcome)
    ensures !r.NoTicket? && r != Failed(InvalidBase64)
    ensures r.Found? <==> forall i :: 0 <= i < |Text.Split(text, ClaimSeparator)| ==>
      PartSeparator in Text.Split(text, ClaimSeparator)[i]
    ensures r.Found? ==>
      var segments := Text.Split(text, ClaimSeparator);
      && |Claims(r.ticket)| == Text.Count(text, ClaimSeparator) + 1
      && forall i :: 0 <= i < |segments| ==> ParseClaim(segments[i]) == Some(Claims(r.ticket)[i])
    ensures r.Failed? ==>
      var segments := Text.Split(text, ClaimSeparator);
      && r.error.MissingClaimValue?
      && r.error.segment < |segments|
      && PartSeparator !in segments[r.error.segment]
  {
    match ParseClaims(Text.Split(text, ClaimSeparator))
    case Failure(k) => Failed(MissingClaimValue(k))
    case Success(cs) => Found(CookieTicket(cs))
  }

  /** `Unprotect`: no ticket for null or white-space text; otherwise Base64, then UTF-8,
      then the claim string. */
  function Unprotect(text: Option<string>): (r: Outcome)
    ensures r.NoTicket? <==> Text.IsNullOrWhiteSpace(text)
    ensures r == Failed(InvalidBase64) <==> !Text.IsNullOrWhiteSpace(text) && Base64.Decode(text.value).None?
    ensures r.Found? ==>
      && r.ticket.authenticationScheme == CookieScheme
      && r.ticket.properties == map[]
      && |r.ticket.principal.identities| == 1
      && r.ticket.principal.identities[0].authenticationType == Some(CookieScheme)
      && forall i :: 0 <= i < |Claims(r.ticket)| ==> IsNewClaim(Claims(r.ticket)[i])
  {
    if Text.IsNullOrWhiteSpace(text) then NoTicket
    else
      match Base64.Decode(text.value)
      case None => Failed(InvalidBase64)
      case Some(bytes) => ReadClaims(Utf8.Decode(bytes))
  }

  /** `Unprotect(protectedText, purpose)`: the purpose plays no part. */
  function UnprotectWithPurpose(text: Option<string>, purpose: Option<string>): (r: Outcome)
    ensures r == Unprotect(text)
  {
    Unprotect(text)
  }

  /** Text that is not the Base64 encoding of any bytes fails at the decoding step. */
  lemma {:induction false} NotBase64Fails(s: string)
    requires !Text.IsNullOrWhiteSpace(Some(s))
    requires forall b :: Base64.Encode(b) != s
    ensures Unprotect(Some(s)) == Failed(InvalidBase64)
  {
    if Base64.Decode(s).Some? {
      Base64.EncodeDecode(s);
      assert false;
    }
  }

  /** The layers of the format: the protected text is the Base64 encoding of the UTF-8
      bytes of the claim string, so undoing both layers gives the claim string back. */
  lemma {:induction false} ProtectLayers(t: Ticket)
    ensures Base64.Decode(Protect(t)) == Some(Utf8.Encode(ClaimsString(t)))
    ensures Utf8.Decode(Utf8.Encode(ClaimsString(t))) == ClaimsString(t)
  {
    Base64.DecodeEncode(Utf8.Encode(ClaimsString(t)));
    Utf8.DecodeEncode(ClaimsString(t));
  }

  /** The protected text of a ticket with claims is read back as its claim string. */
  lemma {:induction false} UnprotectProtect(t: Ticket)
    requires Claims(t) != []
    ensures Unprotect(Some(Protect(t))) == ReadClaims(ClaimsString(t))
  {
    ProtectLayers(t);
  }

  /** A ticket without claims protects to the empty text, which reads back as no ticket
      at all rather than as a ticket without claims. */
  lemma {:induction false} EmptyTicketIsLost(t: Ticket)
    requires Claims(t) == []
    ensures Protect(t) == []
    ensures Unprotect(Some(Protect(t))) == NoTicket
  {
  }

  /** The claims `Unprotect` rebuilds from a protected ticket: fresh claims with the same
      types and values. */
  function Reissued(cs: seq<Claim>): (r: seq<Claim>)
    ensures Pairs(r) == Pairs(cs)
    ensures forall i :: 0 <= i < |r| ==> IsNewClaim(r[i])
  {
    seq(|cs|, i requires 0 <= i < |cs| => NewClaim(cs[i].claimType, cs[i].value))
  }

  /** The type parsed from a claim's text is the claim's type exactly when that type
      has no `=`. */
  lemma {:induction false} ParsedClaimType(c: Claim)
    ensures ParseClaim(ClaimText(c)).Some?
    ensures ParseClaim(ClaimText(c)).value.claimType == c.claimType <==> PartSeparator !in c.claimType
  {
    var s := ClaimText(c);
    assert s[|c.claimType|] == PartSeparator;
    ParseClaimParts(s);
    Text.FirstIndexAround(c.claimType, PartSeparator, c.value);
  }

  /** When the type has no `=`, the value parsed from the claim's text is the claim's
      value exactly when that value has no `=` either. */
  lemma {:induction false} ParsedClaimValue(c: Claim)
    requires PartSeparator !in c.claimType
    ensures ParseClaim(ClaimText(c)).Some?
    ensures ParseClaim(ClaimText(c)).value.value == c.value <==> PartSeparator !in c.value
  {
    var s := ClaimText(c);
    assert s[|c.claimType|] == PartSeparator;
    ParseClaimParts(s);
    Text.FirstIndexAround(c.claimType, PartSeparator, c.value);
  }

  /** Claims that already carry the defaults of `new Claim` are reissued unchanged. */
  lemma {:induction false} ReissuedNew(cs: seq<Claim>)
    requires forall i :: 0 <= i < |cs| ==> IsNewClaim(cs[i])
    ensures Reissued(cs) == cs
  {
    forall i | 0 <= i < |cs|
      ensures Reissued(cs)[i] == cs[i]
    {
      assert IsNewClaim(cs[i]);
    }
  }

  /** Parsing one claim's text gives the claim back exactly when neither its type nor
      its value contains `=`. */
  lemma {:induction false} ParseClaimText(c: Claim)
    ensures ParseClaim(ClaimText(c)).Some?
    ensures ParseClaim(ClaimText(c)).value == NewClaim(c.claimType, c.value)
      <==> PartSeparator !in c.claimType && PartSeparator !in c.value
  {
    ParsedClaimType(c);
    if PartSeparator !in c.claimType {
      ParsedClaimValue(c);
    }
  }

  /** The claim texts of encodable claims parse back into their reissued claims. */
  lemma {:induction false} ParseClaimTexts(cs: seq<Claim>)
    requires IsEncodable(cs)
    ensures ParseClaims(ClaimTexts(cs)) == Success(Reissued(cs))
  {
    var texts := ClaimTexts(cs);
    forall i | 0 <= i < |cs|
      ensures ParseClaim(texts[i]) == Some(Reissued(cs)[i])
    {
      ParseClaimText(cs[i]);
    }
    var r := ParseClaims(texts);
    assert r.Success?;
    assert r.value == Reissued(cs);
  }

  /** The text of a claim with plain type and value has no `&`. */
  lemma {:induction false} ClaimTextHasNoAmpersand(c: Claim)
    requires IsPlain(c.claimType) && IsPlain(c.value)
    ensures ClaimSeparator !in ClaimText(c)
  {
    assert ClaimText(c) == c.claimType + ([PartSeparator] + c.value);
  }

  /** Round trip: a ticket whose claims are encodable reads back as a cookie ticket with
      the same claim types and values, in the same order, duplicates included. */
  lemma {:induction false} RoundTrip(t: Ticket)
    requires IsEncodable(Claims(t))
    ensures Unprotect(Some(Protect(t))) == Found(CookieTicket(Reissued(Claims(t))))
  {
    var cs := Claims(t);
    var texts := ClaimTexts(cs);
    var text := ClaimsString(t);
    UnprotectProtect(t);
    forall i | 0 <= i < |texts|
      ensures ClaimSeparator !in texts[i]
    {
      ClaimTextHasNoAmpersand(cs[i]);
    }
    Text.SplitJoin(ClaimSeparator, texts);
    assert Text.Split(text, ClaimSeparator) == texts;
    ParseClaimTexts(cs);
    assert ReadClaims(text) == Found(CookieTicket(Reissued(cs)));
  }

  /** A claim whose text has no `&` and parses back to a claim with the same type and
      value has no separator in its type or value. */
  lemma {:induction false} PlainWhenReadBack(c: Claim, read: Claim)
    requires ClaimSeparator !in ClaimText(c)
    requires ParseClaim(ClaimText(c)) == Some(read)
    requires read.claimType == c.claimType && read.value == c.value
    ensures IsPlain(c.claimType) && IsPlain(c.value)
  {
    ParseClaimText(c);
    assert read == NewClaim(c.claimType, c.value);
    var s := ClaimText(c);
    assert forall k :: 0 <= k < |c.claimType| ==> s[k] == c.claimType[k];
    assert forall k :: 0 <= k < |c.value| ==> s[|c.claimType| + 1 + k] == c.value[k];
  }

  /** The round trip holds exactly for encodable claims: with no claims the text reads
      back as no ticket, and a separator in a type or value changes the claims read back. */
  lemma {:induction false} RoundTripExactly(t: Ticket)
    ensures (Unprotect(Some(Protect(t))).Found?
             && Pairs(Claims(Unprotect(Some(Protect(t))).ticket)) == Pairs(Claims(t)))
      <==> IsEncodable(Claims(t))
  {
    var cs := Claims(t);
    var r := Unprotect(Some(Protect(t)));
    if IsEncodable(cs) {
      RoundTrip(t);
    } else if cs != [] && r.Found? && Pairs(Claims(r.ticket)) == Pairs(cs) {
      var texts := ClaimTexts(cs);
      var text := ClaimsString(t);
      var read := Claims(r.ticket);
      UnprotectProtect(t);
      assert |read| == |cs|;
      Text.CountJoin(ClaimSeparator, texts);
      assert forall i :: 0 <= i < |cs| ==> ClaimSeparator !in texts[i];
      Text.SplitJoin(ClaimSeparator, texts);
      forall i | 0 <= i < |cs|
        ensures IsPlain(cs[i].claimType) && IsPlain(cs[i].value)
      {
        assert Pairs(read)[i] == Pairs(cs)[i];
        assert texts[i] == ClaimText(cs[i]);
        PlainWhenReadBack(cs[i], read[i]);
      }
      assert false;
    }
  }

  /** Only claim types and values are protected: tickets whose claims agree on those
      protect to the same text, whatever their issuers, value types, identities,
      scheme and properties. */
  lemma {:induction false} ProtectKeepsOnlyPairs(t1: Ticket, t2: Ticket)
    requires Pairs(Claims(t1)) == Pairs(Claims(t2))
    ensures Protect(t1) == Protect(t2)
  {
    var c1, c2 := Claims(t1), Claims(t2);
    assert |c1| == |Pairs(c1)|;
    forall i | 0 <= i < |c1|
      ensures ClaimText(c1[i]) == ClaimText(c2[i])
    {
      assert Pairs(c1)[i] == Pairs(c2)[i];
    }
    assert ClaimTexts(c1) == ClaimTexts(c2);
  }

  /** A cookie ticket whose claims are encodable and carry the defaults of `new Claim`
      reads back as itself. */
  lemma {:induction false} CookieTicketReadsBack(cs: seq<Claim>)
    requires IsEncodable(cs)
    requires forall i :: 0 <= i < |cs| ==> IsNewClaim(cs[i])
    ensures Unprotect(Some(Protect(CookieTicket(cs)))) == Found(CookieTicket(cs))
  {
    RoundTrip(CookieTicket(cs));
    ReissuedNew(cs);
  }

  /** The ticket the cookie tests protect: claims `name=Some User` and `role=<role>`
      in one identity of the cookie scheme. */
  function TestTicket(role: string): Ticket {
    CookieTicket([NewClaim("name", "Some User"), NewClaim("role", role)])
  }

  /** The cookie the tests send reads back as the very ticket they protected. */
  lemma {:induction false} TestCookieReadsBack(role: string)
    requires IsPlain(role)
    ensures Unprotect(Some(Protect(TestTicket(role)))) == Found(TestTicket(role))
  {
    var cs := [NewClaim("name", "Some User"), NewClaim("role", role)];
    assert IsPlain("name") && IsPlain("Some User") && IsPlain("role");
    assert IsEncodable(cs);
    CookieTicketReadsBack(cs);
  }
}
