/** Verifying a signed request (internal/httpsig/verify.go, internal/httpsig/parse.go): which Signature header counts,
    what must be signed, and what an accepted signature binds. */
module SignatureCheck {
  import opened Wrappers
  import opened Text
  import opened SignatureHeader
  import SigningText
  import Inbox
  import InboxLaws

  // ----- choosing the Signature header -----

  predicate Contains(s: string, part: string) {
    part <= s || (s != "" && Contains(s[1..], part))
  }

  /** `looksLikeRFC9421`. */
  predicate LooksLikeRFC9421(header: string) {
    var s := TrimSpace(header);
    var lower := Lower(s);
    s != "" && !Contains(lower, "keyid=") && (Contains(s, "=:") || Contains(lower, "sig1="))
  }

  /** The parameters found in the header values still to read, where the last failure so far is `last`. */
  function ParsedFrom(vals: seq<string>, last: Option<SignatureHeader.Error>): Result<Params, SignatureHeader.Error> {
    if vals == [] then Err(if last.Some? then last.value else Missing)
    else if LooksLikeRFC9421(vals[0]) then ParsedFrom(vals[1..], Some(RFC9421))
    else match Parsed(vals[0])
      case Ok(p) => Ok(p)
      case Err(e) => ParsedFrom(vals[1..], Some(e))
  }

  method ParseRequest(vals: seq<string>) returns (r: Result<Params, SignatureHeader.Error>)
    ensures r == ParsedFrom(vals, None)
  {
    hide LooksLikeRFC9421, Parsed;
    var last: Option<SignatureHeader.Error> := None;
    for i := 0 to |vals|
      invariant ParsedFrom(vals, None) == ParsedFrom(vals[i..], last)
    {
      assert vals[i..][0] == vals[i] && vals[i..][1..] == vals[i + 1..];
      if LooksLikeRFC9421(vals[i]) {
        last := Some(RFC9421);
        continue;
      }
      var p := Parse(vals[i]);
      if p.Ok? {
        return p;
      }
      last := Some(p.error);
    }
    return Err(if last.Some? then last.value else Missing);
  }

  lemma PrintedNamesItsKey(p: Params)
    ensures !LooksLikeRFC9421(Header(p))
  {
    hide TrimSpace, IsSpace;
    HeaderIsTrimmed(p);
    var h := Header(p);
    assert "keyId=" <= Quoted("keyId", p.keyID) <= h;
    hide Lower;
    var lower := Lower(h);
    LowerAt(h);
    assert forall i :: 0 <= i < 6 ==> lower[i] == LowerChar(h[i]);
    assert "keyid=" <= lower;
  }

  /** A printed header is found behind any number of values that look like RFC 9421 or do not parse. */
  lemma {:induction false} PrintedIsFound(vals: seq<string>, k: nat, p: Params, last: Option<SignatureHeader.Error>)
    requires k < |vals| && vals[k] == Header(p) && Parsed(Header(p)) == Ok(p)
    requires forall j :: 0 <= j < k ==> LooksLikeRFC9421(vals[j]) || Parsed(vals[j]).Err?
    ensures ParsedFrom(vals, last) == Ok(p)
    decreases k
  {
    hide LooksLikeRFC9421, Parsed, Header;
    if k == 0 {
      PrintedNamesItsKey(p);
    } else if LooksLikeRFC9421(vals[0]) {
      PrintedIsFound(vals[1..], k - 1, p, Some(RFC9421));
    } else {
      PrintedIsFound(vals[1..], k - 1, p, Some(Parsed(vals[0]).error));
    }
  }

  /** `part` stands in `s` at position `i`. */
  predicate StandsAt(s: string, part: string, i: int) {
    0 <= i <= |s| && part <= s[i..]
  }

  lemma {:induction false} ContainsExactly(s: string, part: string)
    ensures Contains(s, part) <==> exists i :: StandsAt(s, part, i)
  {
    if part <= s {
      assert StandsAt(s, part, 0);
    } else if s != "" {
      var rest := s[1..];
      ContainsExactly(rest, part);
      if i :| StandsAt(rest, part, i) {
        assert rest[i..] == s[i + 1..];
        assert StandsAt(s, part, i + 1);
      }
      if i :| StandsAt(s, part, i) {
        assert s[i..] == rest[i - 1..];
        assert StandsAt(rest, part, i - 1);
      }
    }
  }

  /** A lone header is turned down as RFC 9421 exactly when it names no key id, in any letter case, and holds "=:" or,
      in any letter case, "sig1="; every other is parsed. */
  lemma LoneHeader(header: string)
    ensures var s := TrimSpace(header);
      var rfc := s != "" && !Contains(Lower(s), "keyid=") && (Contains(s, "=:") || Contains(Lower(s), "sig1="));
      ParsedFrom([header], None) == if rfc then Err(RFC9421) else Parsed(header)
  {
    hide Parsed, TrimSpace, Lower, Contains;
    assert [header][1..] == [];
  }

  // ----- verification -----

  type Key = string

  datatype Received = Received(request: SigningText.Request, signatures: seq<string>, body: string)

  /** Dates, digests, base64, key lookup and RSA, none of which is modelled further. */
  datatype Oracle = Oracle(parseTime: string -> Option<int>, digestOf: string -> string,
                           decode64: string -> Option<string>, key: string -> Option<Key>,
                           verifies: (Key, string, string) -> bool)

  datatype Refusal = NoSignature | NotSigned(name: string) | BadDate | DigestMismatch | NoText | NotBase64 | NoKey
                   | Invalid

  const DATE := "date"
  const DIGEST := "digest"

  predicate HasBody(verb: string) {
    Inbox.FoldEquals(verb, "POST") || Inbox.FoldEquals(verb, "PUT")
  }

  predicate DateInWindow(o: Oracle, raw: string, now: int) {
    raw != "" && o.parseTime(raw).Some? && Inbox.DateAccepted(o.parseTime(raw).value, now)
  }

  predicate DigestMatches(o: Oracle, r: Received) {
    Inbox.FoldEquals(TrimSpace(SigningText.Get(r.request, DIGEST)), TrimSpace(o.digestOf(r.body)))
  }

  /** `VerifyRequestAt`: its checks in their order. */
  function Verified(o: Oracle, r: Received, now: int): Result<Params, Refusal> {
    match ParsedFrom(r.signatures, None)
    case Err(_) => Err(NoSignature)
    case Ok(p) =>
      if DATE !in p.headers then Err(NotSigned(DATE))
      else if HasBody(r.request.verb) && DIGEST !in p.headers then Err(NotSigned(DIGEST))
      else if !DateInWindow(o, SigningText.Get(r.request, DATE), now) then Err(BadDate)
      else if DIGEST in p.headers && !DigestMatches(o, r) then Err(DigestMismatch)
      else if SigningText.Signed(r.request, p.headers).Err? then Err(NoText)
      else if o.decode64(p.signature).None? then Err(NotBase64)
      else if o.key(p.keyID).None? then Err(NoKey)
      else if !o.verifies(o.key(p.keyID).value, SigningText.Signed(r.request, p.headers).value,
                          o.decode64(p.signature).value)
      then Err(Invalid)
      else Ok(p)
  }

  /** A request as HTTP delivers it: field names are tokens, and no value or request line holds a line break. */
  ghost predicate Delivered(r: SigningText.Request) {
    && (forall n <- r.headers :: ':' !in n && SigningText.NEWLINE !in r.headers[n])
    && SigningText.NEWLINE !in r.host && SigningText.NEWLINE !in SigningText.RequestTarget(r)
  }

  /** Under one key a signature is valid for one text only. */
  ghost predicate OneText(o: Oracle) {
    forall k, t1, t2, raw :: o.verifies(k, t1, raw) && o.verifies(k, t2, raw) ==> t1 == t2
  }

  /** The key a request is held against, if its header parses and the key is found. */
  function KeyOf(o: Oracle, r: Received): Option<Key> {
    match ParsedFrom(r.signatures, None)
    case Err(_) => None
    case Ok(p) => o.key(p.keyID)
  }

  /** The header names a parser returns are lower case and without blanks. */
  lemma ParsedNames(header: string)
    requires Parsed(header).Ok?
    ensures forall h <- Parsed(header).value.headers :: HeaderName(h)
  {
    hide TrimSpace, SplitFrom, HeaderName;
    AssignedNames(SplitFrom(TrimSpace(header), false, ""));
    DateIsName();
  }

  lemma {:induction false} AssignedNames(parts: seq<string>)
    ensures forall h <- AssignedAll(NO_PARAMS, parts).headers :: HeaderName(h)
  {
    hide HeaderName, TrimSpace, TrimQuotes, FieldsFrom;
    if parts != [] {
      var init := parts[..|parts| - 1];
      AssignedNames(init);
      var cut := Cut(parts[|parts| - 1], '=');
      if cut.Some? {
        FieldsAreNames(TrimQuotes(TrimSpace(cut.value.1)));
      }
    }
  }

  lemma FieldsAreNames(val: string)
    ensures forall h <- Fields(Lower(val)) :: HeaderName(h)
  {
    LowerFixes(val);
    FieldsShape(Lower(val), "");
  }

  lemma {:induction false} ParsedFromNames(vals: seq<string>, last: Option<SignatureHeader.Error>)
    requires ParsedFrom(vals, last).Ok?
    ensures forall h <- ParsedFrom(vals, last).value.headers :: HeaderName(h)
    decreases |vals|
  {
    hide Parsed, LooksLikeRFC9421, HeaderName;
    if LooksLikeRFC9421(vals[0]) {
      ParsedFromNames(vals[1..], Some(RFC9421));
    } else if Parsed(vals[0]).Ok? {
      ParsedNames(vals[0]);
    } else {
      ParsedFromNames(vals[1..], Some(Parsed(vals[0]).error));
    }
  }

  /** A parsed name is what signing looks up. */
  lemma NameOfHeaderName(h: string)
    requires HeaderName(h)
    ensures SigningText.Name(h) == h && SigningText.NEWLINE !in h
  {
    hide TrimSpace, Lower;
    assert h[0] in h && h[|h| - 1] in h;
    TrimSpaceFixes(h);
    LowerFixes(h);
    assert IsSpace(SigningText.NEWLINE);
  }

  lemma TargetNames()
    ensures ':' !in SigningText.TARGET && ':' !in SigningText.HOST
  {
  }

  /** An accepted request signs clean text. */
  lemma AcceptedIsClean(o: Oracle, r: Received, now: int)
    requires Verified(o, r, now).Ok? && Delivered(r.request)
    ensures SigningText.Clean(r.request, Verified(o, r, now).value.headers)
    ensures forall h <- Verified(o, r, now).value.headers :: SigningText.Name(h) == h
  {
    hide HeaderName, SigningText.Name, SigningText.RequestTarget, ParsedFrom, DateInWindow, DigestMatches, HasBody;
    var p := Verified(o, r, now).value;
    ParsedFromNames(r.signatures, None);
    SigningText.LinesAre(r.request, p.headers);
    TargetNames();
    forall h | h in p.headers
      ensures SigningText.Name(h) == h && SigningText.NEWLINE !in h
      ensures ':' !in h && SigningText.NEWLINE !in SigningText.Value(r.request, h)
    {
      NameOfHeaderName(h);
      assert SigningText.Value(r.request, SigningText.Name(h)) != "";
    }
  }

  /** Two accepted requests with the same signature value under the same key agree on every header both signatures name:
      on the Date always, and on the Digest of the body when both carry one. */
  lemma SignatureBinds(o: Oracle, a: Received, b: Received, now1: int, now2: int, h: string)
    requires OneText(o) && Delivered(a.request) && Delivered(b.request)
    requires Verified(o, a, now1).Ok? && Verified(o, b, now2).Ok?
    requires Verified(o, a, now1).value.signature == Verified(o, b, now2).value.signature && KeyOf(o, a) == KeyOf(o, b)
    requires h in Verified(o, a, now1).value.headers && h in Verified(o, b, now2).value.headers
    ensures SigningText.Value(a.request, h) == SigningText.Value(b.request, h)
  {
    var p, q := Verified(o, a, now1).value, Verified(o, b, now2).value;
    SameText(o, a, b, now1, now2);
    AcceptedIsClean(o, a, now1);
    AcceptedIsClean(o, b, now2);
    hide SigningText.Signed, SigningText.Name, SigningText.Value, SigningText.Clean, Verified, OneText;
    SigningText.TextBindsValue(a.request, p.headers, b.request, q.headers, h, h);
  }

  lemma SameText(o: Oracle, a: Received, b: Received, now1: int, now2: int)
    requires OneText(o) && Verified(o, a, now1).Ok? && Verified(o, b, now2).Ok?
    requires Verified(o, a, now1).value.signature == Verified(o, b, now2).value.signature && KeyOf(o, a) == KeyOf(o, b)
    ensures SigningText.Signed(a.request, Verified(o, a, now1).value.headers).Ok?
    ensures SigningText.Signed(a.request, Verified(o, a, now1).value.headers)
         == SigningText.Signed(b.request, Verified(o, b, now2).value.headers)
  {
    hide SigningText.Signed, ParsedFrom, DateInWindow, DigestMatches, HasBody;
    var p, q := Verified(o, a, now1).value, Verified(o, b, now2).value;
    var t1, t2 := SigningText.Signed(a.request, p.headers), SigningText.Signed(b.request, q.headers);
    var raw := o.decode64(p.signature).value;
    assert o.verifies(o.key(p.keyID).value, t1.value, raw) && o.verifies(o.key(q.keyID).value, t2.value, raw);
  }

  /** The Signature header is not signed, and verification looks at a signature only through base64: a request whose
      header differs just in how the signature is spelled is accepted with it or refused with it. */
  lemma SpellingDoesNotMatter(o: Oracle, a: Received, b: Received, now: int)
    requires a.request == b.request && a.body == b.body
    requires ParsedFrom(a.signatures, None).Ok? && ParsedFrom(b.signatures, None).Ok?
    requires var p, q := ParsedFrom(a.signatures, None).value, ParsedFrom(b.signatures, None).value;
             q == p.(signature := q.signature) && o.decode64(p.signature) == o.decode64(q.signature)
    ensures Verified(o, a, now).Ok? <==> Verified(o, b, now).Ok?
  {
    hide ParsedFrom, DateInWindow, HasBody, SigningText.Signed;
    assert DigestMatches(o, a) <==> DigestMatches(o, b);
    hide DigestMatches;
  }

  /** `authentic` and `date` of an inbox request are what verification says of the request it arrived in. */
  ghost predicate Grounded(o: Oracle, w: Inbox.World, deliver: Inbox.Request -> Received) {
    forall a :: w.authentic(a) ==>
      && Delivered(deliver(a).request)
      && o.parseTime(SigningText.Get(deliver(a).request, DATE)) == Some(a.date)
      && exists now :: Verified(o, deliver(a), now).Ok? && Verified(o, deliver(a), now).value.signature == a.signature
  }

  /** Signature values come with one key, and no two of them share a hash. */
  ghost predicate OneKey(o: Oracle, w: Inbox.World, deliver: Inbox.Request -> Received) {
    forall a, b :: w.authentic(a) && w.authentic(b) && w.hashOf(a.signature) == w.hashOf(b.signature) ==>
      a.signature == b.signature && KeyOf(o, deliver(a)) == KeyOf(o, deliver(b))
  }

  lemma SameDate(o: Oracle, w: Inbox.World, deliver: Inbox.Request -> Received, a: Inbox.Request, b: Inbox.Request)
    requires OneText(o) && Grounded(o, w, deliver) && OneKey(o, w, deliver)
    requires w.authentic(a) && w.authentic(b) && w.hashOf(a.signature) == w.hashOf(b.signature)
    ensures a.date == b.date
  {
    hide Verified, Delivered, OneText, KeyOf;
    var now1 :| Verified(o, deliver(a), now1).Ok? && Verified(o, deliver(a), now1).value.signature == a.signature;
    var now2 :| Verified(o, deliver(b), now2).Ok? && Verified(o, deliver(b), now2).value.signature == b.signature;
    DateIsSigned(o, deliver(a), now1);
    DateIsSigned(o, deliver(b), now2);
    SignatureBinds(o, deliver(a), deliver(b), now1, now2, DATE);
  }

  /** So the inbox may rely on it in every run: a signature hash is only ever valid with one Date. */
  lemma SignaturesBindDates(o: Oracle, w: Inbox.World, deliver: Inbox.Request -> Received, steps: seq<InboxLaws.Step>)
    requires OneText(o) && Grounded(o, w, deliver) && OneKey(o, w, deliver)
    ensures InboxLaws.OneDate(w, steps)
  {
    hide OneText, Grounded, OneKey;
    forall i, j | 0 <= i < |steps| && 0 <= j < |steps| && InboxLaws.Twins(w, steps[i], steps[j])
      ensures steps[i].action.request.date == steps[j].action.request.date
    {
      SameDate(o, w, deliver, steps[i].action.request, steps[j].action.request);
    }
  }

  /** Nothing is accepted whose Date is not signed, present and within the window. */
  lemma DateIsSigned(o: Oracle, r: Received, now: int)
    requires Verified(o, r, now).Ok?
    ensures DATE in Verified(o, r, now).value.headers
    ensures SigningText.Value(r.request, DATE) == SigningText.Get(r.request, DATE)
    ensures DateInWindow(o, SigningText.Get(r.request, DATE), now)
  {
    hide ParsedFrom, DateInWindow, DigestMatches, HasBody, SigningText.Signed;
  }
}
