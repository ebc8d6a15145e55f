/** Signing an outbound request (internal/httpsig/sign.go), and that the other side accepts what was signed. */
module Signer {
  import opened Wrappers
  import opened Text
  import opened SignatureHeader
  import opened SignatureCheck
  import opened SignatureBody
  import Letters
  import SigningText

  const DEFAULT_HEADERS := ["(request-target)", "host", "date", "digest"]
  const GET_HEADERS := ["(request-target)", "host", "date"]

  datatype SignError = NoMaterial | NoValue(name: string) | SigningFailed

  /** The request as it goes out, with what is set on it before signing: the Date unless there is one, the host from the
      URL unless there is one, and the Digest of a body. */
  function Prepared(r: SigningText.Request, urlHost: string, date: string, digest: Option<string>): SigningText.Request
  {
    var h1 := if SigningText.Get(r, "date") == "" then r.headers["date" := date] else r.headers;
    var host := if r.host == "" && r.url.Some? then urlHost else r.host;
    var h2 := if SigningText.Get(r, "host") == "" && host != "" then h1["host" := host] else h1;
    r.(host := host, headers := if digest.Some? then h2["digest" := digest.value] else h2)
  }

  /** Signing sets no more than it has to: a Date or host that is there stays, an absent one is filled in, the Digest is
      always that of the body, and no other header changes. */
  lemma PreparedExactly(r: SigningText.Request, urlHost: string, date: string, digest: Option<string>, name: string)
    ensures var q := Prepared(r, urlHost, date, digest); var had := SigningText.Get(r, name);
      && q.verb == r.verb && q.url == r.url
      && q.host == (if r.host == "" && r.url.Some? then urlHost else r.host)
      && SigningText.Get(q, name) ==
           (if name == "digest" && digest.Some? then digest.value
            else if had != "" then had
            else if name == "date" then date
            else if name == "host" then q.host
            else "")
  {
  }

  /** An outbound request: `SignRequest` and `SignGET` set fields on it. */
  class Outgoing {
    var request: SigningText.Request
    const urlHost: string
    var signatures: seq<string>

    constructor (request: SigningText.Request, urlHost: string)
      ensures this.request == request && this.urlHost == urlHost && signatures == []
    {
      this.request, this.urlHost := request, urlHost;
      signatures := [];
    }

    /** `date` is the clock's reading as HTTP writes it, `sign` what signing the text gives, in base64. */
    method SignFor(keyID: string, date: string, digest: Option<string>, names: seq<string>,
                   sign: string -> Option<string>) returns (r: Result<Params, SignError>)
      modifies this`request, this`signatures
      ensures keyID == "" <==> r == Err(NoMaterial)
      ensures keyID == "" ==> request == old(request)
      ensures keyID != "" ==> request == Prepared(old(request), urlHost, date, digest)
      ensures r.Ok? ==>
                && r.value == Params(keyID, RSA_SHA256, names, r.value.signature)
                && SigningText.Signed(request, names).Ok?
                && sign(SigningText.Signed(request, names).value) == Some(r.value.signature)
                && signatures == [Header(r.value)]
      ensures r.Err? ==> signatures == old(signatures)
      ensures r.Ok? <==>
                && keyID != "" && SigningText.Signed(request, names).Ok?
                && sign(SigningText.Signed(request, names).value).Some?
    {
      if keyID == "" {
        return Err(NoMaterial);
      }
      if SigningText.Get(request, "date") == "" {
        request := request.(headers := request.headers["date" := date]);
      }
      if request.host == "" && request.url.Some? {
        request := request.(host := urlHost);
      }
      if SigningText.Get(request, "host") == "" && request.host != "" {
        request := request.(headers := request.headers["host" := request.host]);
      }
      if digest.Some? {
        request := request.(headers := request.headers["digest" := digest.value]);
      }
      var text := SigningText.SigningString(request, names);
      if text.Err? {
        return Err(NoValue(text.error.name));
      }
      var signature := sign(text.value);
      if signature.None? {
        return Err(SigningFailed);
      }
      var p := Params(keyID, RSA_SHA256, names, signature.value);
      signatures := [Header(p)];
      return Ok(p);
    }

    /** `SignRequest`. */
    method SignRequest(keyID: string, date: string, o: Oracle, body: string, sign: string -> Option<string>)
      returns (r: Result<Params, SignError>)
      modifies this`request, this`signatures
      ensures keyID != "" ==> request == Prepared(old(request), urlHost, date, Some(o.digestOf(body)))
      ensures r.Ok? ==> Signs(request, signatures, r.value, keyID, DEFAULT_HEADERS, sign)
      ensures r.Err? ==> signatures == old(signatures)
      ensures r.Ok? <==>
                && keyID != "" && SigningText.Signed(request, DEFAULT_HEADERS).Ok?
                && sign(SigningText.Signed(request, DEFAULT_HEADERS).value).Some?
    {
      r := SignFor(keyID, date, Some(o.digestOf(body)), DEFAULT_HEADERS, sign);
    }

    /** `SignGET`. */
    method SignGET(keyID: string, date: string, sign: string -> Option<string>) returns (r: Result<Params, SignError>)
      modifies this`request, this`signatures
      ensures keyID != "" ==> request == Prepared(old(request), urlHost, date, None)
      ensures r.Ok? ==> Signs(request, signatures, r.value, keyID, GET_HEADERS, sign)
      ensures r.Err? ==> signatures == old(signatures)
      ensures r.Ok? <==>
                && keyID != "" && SigningText.Signed(request, GET_HEADERS).Ok?
                && sign(SigningText.Signed(request, GET_HEADERS).value).Some?
    {
      r := SignFor(keyID, date, None, GET_HEADERS, sign);
    }
  }

  /** The request carries one Signature header: the signature over the named headers under the key id. */
  ghost predicate Signs(request: SigningText.Request, signatures: seq<string>, p: Params, keyID: string,
                        names: seq<string>, sign: string -> Option<string>) {
    && p == Params(keyID, RSA_SHA256, names, p.signature) && keyID != ""
    && SigningText.Signed(request, names).Ok? && sign(SigningText.Signed(request, names).value) == Some(p.signature)
    && signatures == [Header(p)]
  }

  /** Signing and verifying are one scheme: what is signed is nonempty base64 and valid under the key found for the
      id. */
  ghost predicate OneScheme(o: Oracle, keyID: string, sign: string -> Option<string>) {
    && o.key(keyID).Some?
    && forall text :: sign(text).Some? ==>
         && sign(text).value != "" && QUOTE !in sign(text).value && o.decode64(sign(text).value).Some?
         && o.verifies(o.key(keyID).value, text, o.decode64(sign(text).value).value)
  }

  lemma NamesAreNames()
    ensures forall h <- DEFAULT_HEADERS :: HeaderName(h) && QUOTE !in h
    ensures forall h <- GET_HEADERS :: HeaderName(h) && QUOTE !in h
    ensures "date" in DEFAULT_HEADERS && "date" in GET_HEADERS
    ensures "digest" in DEFAULT_HEADERS && "digest" !in GET_HEADERS
  {
    OneName("(request-target)");
    OneName("host");
    OneName("date");
    OneName("digest");
    hide HeaderName;
    assert forall h <- DEFAULT_HEADERS :: h == "(request-target)" || h == "host" || h == "date" || h == "digest";
    assert DEFAULT_HEADERS[2] == "date" == GET_HEADERS[2] && DEFAULT_HEADERS[3] == "digest";
    assert |"digest"| == 6 && |GET_HEADERS[0]| == 16 && |GET_HEADERS[1]| == 4 && |GET_HEADERS[2]| == 4;
  }

  lemma OneName(h: string)
    requires h == "(request-target)" || h == "host" || h == "date" || h == "digest"
    ensures HeaderName(h) && QUOTE !in h
  {
  }

  lemma SignedIsFound(request: SigningText.Request, signatures: seq<string>, p: Params, keyID: string,
                      names: seq<string>, o: Oracle, sign: string -> Option<string>)
    requires Signs(request, signatures, p, keyID, names, sign) && OneScheme(o, keyID, sign) && QUOTE !in keyID
    requires names == DEFAULT_HEADERS || names == GET_HEADERS
    ensures ParsedFrom(signatures, None) == Ok(p)
  {
    hide SigningText.Signed, Header, Parsed, HeaderName;
    NamesAreNames();
    ParseInvertsHeader(p);
    PrintedIsFound(signatures, 0, p, None);
  }

  /** A request with a Date sent within the window is accepted by whoever finds the key, with exactly the parameters it
      was signed with, provided it arrives as it was sent, a POST or PUT with the Digest of the body signed. */
  lemma SignedIsAccepted(request: SigningText.Request, signatures: seq<string>, body: string, p: Params, keyID: string,
                         names: seq<string>, o: Oracle, sign: string -> Option<string>, now: int)
    requires Signs(request, signatures, p, keyID, names, sign) && OneScheme(o, keyID, sign) && QUOTE !in keyID
    requires names == DEFAULT_HEADERS || (names == GET_HEADERS && !CarriesBody(request.verb))
    requires names == DEFAULT_HEADERS ==> SigningText.Get(request, "digest") == o.digestOf(body)
    requires Timely(o, Received(request, signatures, body), now)
    ensures Verified(o, Received(request, signatures, body), now) == Ok(p)
  {
    var r := Received(request, signatures, body);
    hide ParsedFrom, Verified, SignatureHolds, Timely, SigningText.Signed, TrimSpace, Header, CarriesBody;
    SignedIsFound(request, signatures, p, keyID, names, o, sign);
    HoldsExactly(o, r, p);
    AcceptedExactly(o, r, now);
    NamesAreNames();
  }

  /** `SignRequest` and then `VerifyRequestAt`: a signed request is accepted exactly while its Date is in the window,
      and refused with any other body where a digest determines its body. */
  lemma SignThenVerify(before: SigningText.Request, urlHost: string, date: string, body: string, keyID: string,
                       signatures: seq<string>, p: Params, o: Oracle, sign: string -> Option<string>, now: int,
                       arrived: string)
    requires OneScheme(o, keyID, sign) && QUOTE !in keyID
    requires var request := Prepared(before, urlHost, date, Some(o.digestOf(body)));
             && Signs(request, signatures, p, keyID, DEFAULT_HEADERS, sign)
             && (body != arrived ==> CarriesBody(request.verb) && DigestDetermines(o))
    ensures var r := Received(Prepared(before, urlHost, date, Some(o.digestOf(body))), signatures, arrived);
      Verified(o, r, now) == Ok(p) <==> Timely(o, r, now) && arrived == body
  {
    var request := Prepared(before, urlHost, date, Some(o.digestOf(body)));
    assert SigningText.Get(request, "digest") == o.digestOf(body);
    var r := Received(request, signatures, arrived);
    hide Signs, OneScheme, Prepared, TrimSpace, Letters.SameLetters, Verified, DigestDetermines;
    AcceptedExactly(o, r, now);
    if Timely(o, r, now) && arrived == body {
      SignedIsAccepted(request, signatures, body, p, keyID, DEFAULT_HEADERS, o, sign, now);
    }
    if Verified(o, r, now).Ok? && arrived != body {
      AcceptedBindsBody(o, r, now);
      DigestDiffers(o, body, arrived);
    }
  }

  lemma DigestDiffers(o: Oracle, a: string, b: string)
    requires DigestDetermines(o) && a != b
    ensures !Letters.SameLetters(TrimSpace(o.digestOf(a)), TrimSpace(o.digestOf(b)))
  {
  }
}
