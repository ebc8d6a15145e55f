/** What acceptance of a signed request means, condition by condition, and how it ties a request to its body
    (internal/httpsig/verify.go). */
module SignatureBody {
  import opened Wrappers
  import opened Text
  import opened Letters
  import opened Spelling
  import opened SignatureHeader
  import opened SignatureCheck
  import SigningText

  predicate CarriesBody(verb: string) {
    SameLetters(verb, "POST") || SameLetters(verb, "PUT")
  }

  /** The Date header is there, can be read, and is at most half a minute ahead of the clock and at most twelve hours
      behind it. */
  predicate Timely(o: Oracle, r: Received, now: int) {
    var raw := SigningText.Get(r.request, "date");
    raw != "" && o.parseTime(raw).Some? && now - 43_200 <= o.parseTime(raw).value <= now + 30
  }

  /** The Digest header is the digest of the body, up to letter case and white space around it. */
  predicate DigestIsOfBody(o: Oracle, r: Received) {
    SameLetters(TrimSpace(SigningText.Get(r.request, "digest")), TrimSpace(o.digestOf(r.body)))
  }

  function LineOf(r: SigningText.Request, name: string): string {
    name + ": " + SigningText.Value(r, name)
  }

  /** Every signed name has a value, and the signature holds of these names and values under the key found. */
  ghost predicate SignatureHolds(o: Oracle, r: Received, p: Params) {
    && (forall h <- p.headers :: SigningText.Value(r.request, Lower(TrimSpace(h))) != "")
    && o.key(p.keyID).Some? && o.decode64(p.signature).Some?
    && exists lines: seq<string> ::
         && |lines| == |p.headers|
         && (forall i :: 0 <= i < |lines| ==> lines[i] == LineOf(r.request, Lower(TrimSpace(p.headers[i]))))
         && o.verifies(o.key(p.keyID).value, Join(lines, '\n'), o.decode64(p.signature).value)
  }

  lemma LineIs(r: SigningText.Request, h: string)
    ensures SigningText.Name(h) == Lower(TrimSpace(h))
    ensures SigningText.Line(SigningText.Name(h), SigningText.Value(r, SigningText.Name(h)))
         == LineOf(r, Lower(TrimSpace(h)))
  {
    hide SigningText.Value, Lower, TrimSpace;
  }

  lemma LinesUnique(r: SigningText.Request, headers: seq<string>, lines: seq<string>)
    requires SigningText.Lines(r, headers).Ok? && |lines| == |headers|
    requires forall i :: 0 <= i < |lines| ==> lines[i] == LineOf(r, Lower(TrimSpace(headers[i])))
    ensures lines == SigningText.Lines(r, headers).value
  {
    hide SigningText.Name, SigningText.Value, SigningText.Line, SigningText.Lines, LineOf, TrimSpace, Lower;
    SigningText.LinesAre(r, headers);
    forall i | 0 <= i < |lines| ensures lines[i] == SigningText.Lines(r, headers).value[i] {
      LineIs(r, headers[i]);
    }
  }

  lemma HoldsExactly(o: Oracle, r: Received, p: Params)
    ensures SignatureHolds(o, r, p) <==>
      && SigningText.Signed(r.request, p.headers).Ok? && o.key(p.keyID).Some? && o.decode64(p.signature).Some?
      && o.verifies(o.key(p.keyID).value, SigningText.Signed(r.request, p.headers).value, o.decode64(p.signature).value)
  {
    hide SigningText.Name, SigningText.Value, SigningText.Lines, SigningText.Line, LineOf, TrimSpace, Lower, Join;
    SigningText.LinesAre(r.request, p.headers);
    forall h ensures SigningText.Name(h) == Lower(TrimSpace(h)) {
      LineIs(r.request, h);
    }
    if SigningText.Lines(r.request, p.headers).Ok? {
      var lines := SigningText.Lines(r.request, p.headers).value;
      forall i | 0 <= i < |lines| ensures lines[i] == LineOf(r.request, Lower(TrimSpace(p.headers[i]))) {
        LineIs(r.request, p.headers[i]);
      }
      if SignatureHolds(o, r, p) {
        var other: seq<string> :|
          && |other| == |p.headers|
          && (forall i :: 0 <= i < |other| ==> other[i] == LineOf(r.request, Lower(TrimSpace(p.headers[i]))))
          && o.verifies(o.key(p.keyID).value, Join(other, '\n'), o.decode64(p.signature).value);
        LinesUnique(r.request, p.headers, other);
      }
    }
  }

  /** A request is accepted if and only if a usable Signature header is found that signs the Date and, for POST and PUT,
      the Digest; the Date is timely; a signed Digest is that of the body; and the signature holds. It is accepted with
      exactly the parameters found. */
  lemma AcceptedExactly(o: Oracle, r: Received, now: int)
    ensures var found := ParsedFrom(r.signatures, None);
      && (Verified(o, r, now).Ok? <==>
            && found.Ok? && "date" in found.value.headers
            && (CarriesBody(r.request.verb) ==> "digest" in found.value.headers)
            && Timely(o, r, now)
            && ("digest" in found.value.headers ==> DigestIsOfBody(o, r))
            && SignatureHolds(o, r, found.value))
      && (Verified(o, r, now).Ok? ==> Verified(o, r, now) == Ok(found.value))
  {
    SameChecks(o, r, now);
    if ParsedFrom(r.signatures, None).Ok? {
      HoldsExactly(o, r, ParsedFrom(r.signatures, None).value);
    }
    hide ParsedFrom, HasBody, CarriesBody, DateInWindow, Timely, DigestMatches, DigestIsOfBody, SignatureHolds,
         SigningText.Signed;
  }

  lemma SameChecks(o: Oracle, r: Received, now: int)
    ensures HasBody(r.request.verb) <==> CarriesBody(r.request.verb)
    ensures DateInWindow(o, SigningText.Get(r.request, "date"), now) <==> Timely(o, r, now)
    ensures DigestMatches(o, r) <==> DigestIsOfBody(o, r)
  {
    hide TrimSpace, SigningText.Get, SameLetters;
    FoldSame(r.request.verb, "POST");
    FoldSame(r.request.verb, "PUT");
    FoldSame(TrimSpace(SigningText.Get(r.request, "digest")), TrimSpace(o.digestOf(r.body)));
  }

  /** An accepted POST or PUT signs its Digest header, and that header is the digest of its body. */
  lemma AcceptedBindsBody(o: Oracle, r: Received, now: int)
    requires Verified(o, r, now).Ok? && CarriesBody(r.request.verb)
    ensures "digest" in Verified(o, r, now).value.headers && DigestIsOfBody(o, r)
  {
    AcceptedExactly(o, r, now);
    hide Verified, SignatureHolds, Timely, DigestIsOfBody;
  }

  /** The digest of a body determines it, even up to letter case. */
  ghost predicate DigestDetermines(o: Oracle) {
    forall a, b :: SameLetters(TrimSpace(o.digestOf(a)), TrimSpace(o.digestOf(b))) ==> a == b
  }

  lemma SameLettersChain(a: string, b: string, c: string)
    requires SameLetters(b, a) && SameLetters(b, c)
    ensures SameLetters(a, c)
  {
    LowerSame(b, a);
    LowerSame(b, c);
    LowerSame(a, c);
    hide Lower, SameLetters;
  }

  /** Two accepted POSTs or PUTs with one signature under one key have bodies of one digest: where a digest determines
      its body, the body of an accepted request cannot be replaced. */
  lemma SignatureBindsBody(o: Oracle, a: Received, b: Received, now1: int, now2: int)
    requires OneText(o) && Delivered(a.request) && Delivered(b.request)
    requires Verified(o, a, now1).Ok? && Verified(o, b, now2).Ok?
    requires CarriesBody(a.request.verb) && CarriesBody(b.request.verb)
    requires Verified(o, a, now1).value.signature == Verified(o, b, now2).value.signature && KeyOf(o, a) == KeyOf(o, b)
    ensures SameLetters(TrimSpace(o.digestOf(a.body)), TrimSpace(o.digestOf(b.body)))
    ensures DigestDetermines(o) ==> a.body == b.body
  {
    hide Verified, Delivered, OneText, KeyOf, SameLetters, TrimSpace, CarriesBody;
    AcceptedBindsBody(o, a, now1);
    AcceptedBindsBody(o, b, now2);
    SignatureBinds(o, a, b, now1, now2, "digest");
    assert SigningText.Get(a.request, "digest") == SigningText.Get(b.request, "digest");
    SameLettersChain(TrimSpace(o.digestOf(a.body)), TrimSpace(SigningText.Get(a.request, "digest")),
      TrimSpace(o.digestOf(b.body)));
  }

  /** So an accepted POST whose body is replaced on the way is refused. */
  lemma ReplacedBodyIsRefused(o: Oracle, r: Received, body: string, now1: int, now2: int)
    requires DigestDetermines(o) && Verified(o, r, now1).Ok? && CarriesBody(r.request.verb) && body != r.body
    ensures Verified(o, r.(body := body), now2).Err?
  {
    var s := r.(body := body);
    hide Verified, TrimSpace, SameLetters;
    AcceptedBindsBody(o, r, now1);
    if Verified(o, s, now2).Ok? {
      AcceptedBindsBody(o, s, now2);
      SameLettersChain(TrimSpace(o.digestOf(r.body)), TrimSpace(SigningText.Get(r.request, "digest")),
        TrimSpace(o.digestOf(body)));
    }
  }

  /** Two accepted requests with one signature under one key, which both signed their target and host, ask for the same
      path and query of the same host by the same method, up to its letter case. */
  lemma SignatureBindsTarget(o: Oracle, a: Received, b: Received, now1: int, now2: int)
    requires OneText(o) && Delivered(a.request) && Delivered(b.request)
    requires Verified(o, a, now1).Ok? && Verified(o, b, now2).Ok?
    requires Verified(o, a, now1).value.signature == Verified(o, b, now2).value.signature && KeyOf(o, a) == KeyOf(o, b)
    requires forall name | name == "host" || name == "(request-target)" ::
               name in Verified(o, a, now1).value.headers && name in Verified(o, b, now2).value.headers
    requires ' ' !in a.request.verb && ' ' !in b.request.verb
    ensures SameLetters(a.request.verb, b.request.verb)
    ensures a.request.host != "" && b.request.host != "" ==> a.request.host == b.request.host
    ensures a.request.url.Some? && b.request.url.Some? ==>
      var u, v := a.request.url.value, b.request.url.value;
      '?' !in SigningText.PathOf(u) && '?' !in SigningText.PathOf(v) ==>
        SigningText.PathOf(u) == SigningText.PathOf(v) && u.rawQuery == v.rawQuery
  {
    hide Verified, Delivered, OneText, KeyOf, SameLetters;
    SignatureBinds(o, a, b, now1, now2, "host");
    SignatureBinds(o, a, b, now1, now2, "(request-target)");
    assert SigningText.RequestTarget(a.request) == SigningText.RequestTarget(b.request);
    SigningText.TargetDetermines(a.request, b.request);
    LowerSame(a.request.verb, b.request.verb);
    if a.request.url.Some? && b.request.url.Some? {
      SigningText.TargetOfDetermines(a.request.url.value, b.request.url.value);
    }
  }
}
