/** The Signature header of draft-cavage-http-signatures-12, section 4 (internal/httpsig/parse.go): its printer and its
    parser, which splits on commas outside quotes. */
module SignatureHeader {
  import opened Wrappers
  import opened Text

  const QUOTE := '"'
  const RSA_SHA256 := "rsa-sha256"
  const HS2019 := "hs2019"

  datatype Params = Params(keyID: string, algorithm: string, headers: seq<string>, signature: string)

  datatype Error = Missing | MissingParts | UnsupportedAlgorithm | RFC9421

  // ----- printing -----

  function Quoted(name: string, value: string): string {
    name + ['=', QUOTE] + value + [QUOTE]
  }

  /** `Params.Header`: the algorithm is always printed as rsa-sha256. */
  function Header(p: Params): string {
    Join([Quoted("keyId", p.keyID), Quoted("algorithm", RSA_SHA256), Quoted("headers", Join(p.headers, ' ')),
          Quoted("signature", p.signature)], ',')
  }

  // ----- splitting on commas outside quotes -----

  /** The parts still to come when `s` is left to read, given whether a quote is open and the part read so far. */
  function SplitFrom(s: string, inQuote: bool, b: string): seq<string>
    decreases |s|
  {
    if s == "" then (if b == "" then [] else [b])
    else if s[0] == QUOTE then SplitFrom(s[1..], !inQuote, b + [s[0]])
    else if s[0] == ',' && !inQuote then [b] + SplitFrom(s[1..], inQuote, "")
    else SplitFrom(s[1..], inQuote, b + [s[0]])
  }

  method SplitComma(s: string) returns (parts: seq<string>)
    ensures parts == SplitFrom(s, false, "")
  {
    parts := [];
    var b: string := "";
    var inQuote := false;
    for i := 0 to |s|
      invariant SplitFrom(s, false, "") == parts + SplitFrom(s[i..], inQuote, b)
    {
      var c := s[i];
      assert s[i..][1..] == s[i + 1..];
      if c == QUOTE {
        inQuote := !inQuote;
        b := b + [c];
      } else if c == ',' {
        if inQuote {
          b := b + [c];
        } else {
          ghost var rest := SplitFrom(s[i + 1..], false, "");
          assert parts + ([b] + rest) == (parts + [b]) + rest;
          parts := parts + [b];
          b := "";
        }
      } else {
        b := b + [c];
      }
    }
    if |b| > 0 {
      parts := parts + [b];
    }
  }

  /** Text with no quote in it, and no comma unless it is quoted, goes to the current part. */
  lemma {:induction false} SplitPassesOver(a: string, rest: string, inQuote: bool, b: string)
    requires QUOTE !in a && (inQuote || ',' !in a)
    ensures SplitFrom(a + rest, inQuote, b) == SplitFrom(rest, inQuote, b + a)
    decreases |a|
  {
    if a == "" {
      assert a + rest == rest && b + a == b;
    } else {
      var s := a + rest;
      assert s[0] == a[0] && s[1..] == a[1..] + rest;
      SplitPassesOver(a[1..], rest, inQuote, b + [a[0]]);
      assert b + [a[0]] + a[1..] == b + a;
    }
  }

  lemma SplitPassesQuoted(name: string, value: string, rest: string)
    requires QUOTE !in name && ',' !in name && QUOTE !in value
    ensures SplitFrom(Quoted(name, value) + rest, false, "") == SplitFrom(rest, false, Quoted(name, value))
  {
    var open, close := name + ['='], [QUOTE];
    var s1 := value + (close + rest);
    var s2 := [QUOTE] + s1;
    assert Quoted(name, value) + rest == open + s2;
    SplitPassesOver(open, s2, false, "");
    assert s2[1..] == s1 && "" + open == open;
    SplitPassesOver(value, close + rest, true, open + [QUOTE]);
    assert (close + rest)[1..] == rest;
    assert open + [QUOTE] + value + close == Quoted(name, value);
  }

  /** A part the splitter leaves whole: it reads over it, whatever follows. */
  ghost predicate Whole(part: string) {
    part != "" && forall rest :: SplitFrom(part + rest, false, "") == SplitFrom(rest, false, part)
  }

  lemma {:induction false} SplitJoined(parts: seq<string>)
    requires parts != [] && forall part <- parts :: Whole(part)
    ensures SplitFrom(Join(parts, ','), false, "") == parts
  {
    var first := parts[0];
    assert Whole(first);
    if |parts| == 1 {
      assert first + "" == first;
      assert SplitFrom("", false, first) == [first];
    } else {
      var rest := [','] + Join(parts[1..], ',');
      assert Join(parts, ',') == first + rest;
      assert rest[1..] == Join(parts[1..], ',');
      SplitJoined(parts[1..]);
    }
  }

  // ----- reading one part -----

  function TrimQuotesLeft(s: string): string {
    if s != "" && s[0] == QUOTE then TrimQuotesLeft(s[1..]) else s
  }

  function TrimQuotesRight(s: string): string {
    if s != "" && s[|s| - 1] == QUOTE then TrimQuotesRight(s[..|s| - 1]) else s
  }

  function TrimQuotes(s: string): string {
    TrimQuotesRight(TrimQuotesLeft(s))
  }

  lemma TrimQuotesOfQuoted(v: string)
    requires QUOTE !in v
    ensures TrimQuotes([QUOTE] + v + [QUOTE]) == v
  {
    var s := [QUOTE] + v + [QUOTE];
    assert s[1..] == v + [QUOTE];
    if v == "" {
      assert s == [QUOTE, QUOTE] && s[1..] == [QUOTE] && s[1..][1..] == "";
      assert TrimQuotesLeft(s[1..]) == TrimQuotesLeft(s[1..][1..]) == "";
    } else {
      assert v[0] in v && v[|v| - 1] in v;
      assert TrimQuotesLeft(s) == TrimQuotesLeft(s[1..]) == v + [QUOTE];
      var t := v + [QUOTE];
      assert t[..|t| - 1] == v;
      assert TrimQuotesRight(t) == TrimQuotesRight(v) == v;
    }
  }

  /** `strings.Fields`: the words between runs of white space. */
  function FieldsFrom(s: string, b: string): seq<string>
    decreases |s|
  {
    if s == "" then Flushed(b)
    else if IsSpace(s[0]) then Flushed(b) + FieldsFrom(s[1..], "")
    else FieldsFrom(s[1..], b + [s[0]])
  }

  function Flushed(b: string): seq<string> {
    if b == "" then [] else [b]
  }

  function Fields(s: string): seq<string> {
    FieldsFrom(s, "")
  }

  function SetField(p: Params, key: string, val: string): Params {
    if key == "keyid" then p.(keyID := val)
    else if key == "algorithm" then p.(algorithm := Lower(val))
    else if key == "headers" then p.(headers := Fields(Lower(val)))
    else if key == "signature" then p.(signature := val)
    else p
  }

  /** What one part does to the parameters read so far. */
  function Assigned(p: Params, part: string): Params {
    match Cut(part, '=')
    case None => p
    case Some((key, val)) => SetField(p, Lower(TrimSpace(key)), TrimQuotes(TrimSpace(val)))
  }

  function AssignedAll(p: Params, parts: seq<string>): Params {
    if parts == [] then p else Assigned(AssignedAll(p, parts[..|parts| - 1]), parts[|parts| - 1])
  }

  const NO_PARAMS := Params("", "", [], "")

  /** The checks and defaults once all parts are read. */
  function Finished(p: Params): Result<Params, Error> {
    if p.keyID == "" || p.signature == "" then Err(MissingParts)
    else
      var q := p.(headers := if p.headers == [] then ["date"] else p.headers,
                  algorithm := if p.algorithm == "" then RSA_SHA256 else p.algorithm);
      if q.algorithm != RSA_SHA256 && q.algorithm != HS2019 then Err(UnsupportedAlgorithm) else Ok(q)
  }

  function Parsed(header: string): Result<Params, Error> {
    var h := TrimSpace(header);
    if h == "" then Err(Missing) else Finished(AssignedAll(NO_PARAMS, SplitFrom(h, false, "")))
  }

  method Parse(header: string) returns (r: Result<Params, Error>)
    ensures r == Parsed(header)
  {
    hide SplitFrom, TrimSpace, Lower, Fields, TrimQuotes, Cut;
    var h := TrimSpace(header);
    if h == "" {
      return Err(Missing);
    }
    var parts := SplitComma(h);
    var p := NO_PARAMS;
    for i := 0 to |parts|
      invariant p == AssignedAll(NO_PARAMS, parts[..i])
    {
      assert parts[..i + 1][..i] == parts[..i];
      var cut := Cut(parts[i], '=');
      if cut.None? {
        continue;
      }
      var key := Lower(TrimSpace(cut.value.0));
      var val := TrimQuotes(TrimSpace(cut.value.1));
      match key {
        case "keyid" => p := p.(keyID := val);
        case "algorithm" => p := p.(algorithm := Lower(val));
        case "headers" => p := p.(headers := Fields(Lower(val)));
        case "signature" => p := p.(signature := val);
        case _ =>
      }
    }
    assert parts[..|parts|] == parts;
    if p.keyID == "" || p.signature == "" {
      return Err(MissingParts);
    }
    if |p.headers| == 0 {
      p := p.(headers := ["date"]);
    }
    if p.algorithm == "" {
      p := p.(algorithm := RSA_SHA256);
    }
    if p.algorithm != RSA_SHA256 && p.algorithm != HS2019 {
      return Err(UnsupportedAlgorithm);
    }
    return Ok(p);
  }

  // ----- the parser undoes the printer -----

  lemma NameFacts(name: string, key: string)
    requires (name == "keyId" && key == "keyid") || (name == key && key in ["algorithm", "headers", "signature"])
    ensures QUOTE !in name && ',' !in name && '=' !in name && Lower(TrimSpace(name)) == key && name != ""
  {
    hide TrimSpace, Lower;
    TrimSpaceFixes(name);
    LowerAt(name);
    assert |Lower(name)| == |key|;
  }

  lemma AssignQuoted(p: Params, name: string, key: string, value: string)
    requires '=' !in name && Lower(TrimSpace(name)) == key && QUOTE !in value
    ensures Assigned(p, Quoted(name, value)) == SetField(p, key, value)
  {
    hide TrimSpace, SetField, Lower, TrimQuotes;
    var quoted := [QUOTE] + value + [QUOTE];
    assert Quoted(name, value) == name + (['='] + quoted);
    CutFirst(name, '=', quoted);
    TrimSpaceFixes(quoted);
    TrimQuotesOfQuoted(value);
  }

  lemma QuotedIsWhole(name: string, value: string)
    requires QUOTE !in name && ',' !in name && QUOTE !in value
    ensures Whole(Quoted(name, value))
  {
    forall rest ensures SplitFrom(Quoted(name, value) + rest, false, "")
        == SplitFrom(rest, false, Quoted(name, value)) {
      SplitPassesQuoted(name, value, rest);
    }
  }

  lemma {:induction false} QuotesInJoin(parts: seq<string>)
    requires forall part <- parts :: QUOTE !in part
    ensures QUOTE !in Join(parts, ' ')
  {
    if |parts| > 1 {
      QuotesInJoin(parts[1..]);
    }
  }

  lemma AssignedFour(p: Params, a: string, b: string, c: string, d: string)
    ensures AssignedAll(p, [a, b, c, d]) == Assigned(Assigned(Assigned(Assigned(p, a), b), c), d)
  {
    hide Assigned;
    assert [a, b, c, d][..3] == [a, b, c];
    assert [a, b, c][..2] == [a, b];
    assert [a, b][..1] == [a];
    assert [a][..0] == [];
    assert AssignedAll(p, [a]) == Assigned(p, a);
    assert AssignedAll(p, [a, b]) == Assigned(Assigned(p, a), b);
    assert AssignedAll(p, [a, b, c]) == Assigned(Assigned(Assigned(p, a), b), c);
  }

  /** What the parser reads from a printed header whose strings hold no quotes. */
  lemma ParsedOfHeader(p: Params)
    requires QUOTE !in p.keyID && QUOTE !in p.signature && forall h <- p.headers :: QUOTE !in h
    ensures Parsed(Header(p)) ==
            Finished(Params(p.keyID, Lower(RSA_SHA256), Fields(Lower(Join(p.headers, ' '))), p.signature))
  {
    hide SplitFrom, TrimSpace, Lower, Fields, Assigned, Finished;
    var names := Join(p.headers, ' ');
    QuotesInJoin(p.headers);
    NameFacts("keyId", "keyid");
    NameFacts("algorithm", "algorithm");
    NameFacts("headers", "headers");
    NameFacts("signature", "signature");
    var a, b := Quoted("keyId", p.keyID), Quoted("algorithm", RSA_SHA256);
    var c, d := Quoted("headers", names), Quoted("signature", p.signature);
    QuotedIsWhole("keyId", p.keyID);
    QuotedIsWhole("algorithm", RSA_SHA256);
    QuotedIsWhole("headers", names);
    QuotedIsWhole("signature", p.signature);
    HeaderIsTrimmed(p);
    SplitJoined([a, b, c, d]);
    AssignedFour(NO_PARAMS, a, b, c, d);
    AssignQuoted(NO_PARAMS, "keyId", "keyid", p.keyID);
    var p1 := SetField(NO_PARAMS, "keyid", p.keyID);
    AssignQuoted(p1, "algorithm", "algorithm", RSA_SHA256);
    var p2 := SetField(p1, "algorithm", RSA_SHA256);
    AssignQuoted(p2, "headers", "headers", names);
    var p3 := SetField(p2, "headers", names);
    AssignQuoted(p3, "signature", "signature", p.signature);
  }

  lemma {:induction false} JoinEnds(parts: seq<string>, sep: char)
    requires parts != [] && parts[|parts| - 1] != ""
    ensures var last := parts[|parts| - 1];
            Join(parts, sep) != "" && Join(parts, sep)[|Join(parts, sep)| - 1] == last[|last| - 1]
  {
    if |parts| > 1 {
      JoinEnds(parts[1..], sep);
    }
  }

  lemma HeaderIsTrimmed(p: Params)
    ensures Header(p) != "" && TrimSpace(Header(p)) == Header(p)
  {
    hide TrimSpace;
    var parts := [Quoted("keyId", p.keyID), Quoted("algorithm", RSA_SHA256), Quoted("headers", Join(p.headers, ' ')),
                  Quoted("signature", p.signature)];
    JoinEnds(parts, ',');
    var h := Header(p);
    assert h[0] == parts[0][0];
    TrimSpaceFixes(h);
  }

  predicate LowerCased(s: string) {
    forall c <- s :: LowerChar(c) == c
  }

  lemma LowerFixes(s: string)
    ensures LowerCased(Lower(s))
    ensures LowerCased(s) ==> Lower(s) == s
  {
    LowerAt(s);
    forall c | c in Lower(s) ensures LowerChar(c) == c {
      var i :| 0 <= i < |s| && Lower(s)[i] == c;
      assert c == LowerChar(s[i]);
    }
  }

  /** A header name as the draft writes it: nonempty, lower case, no blanks. */
  predicate HeaderName(h: string) {
    h != "" && LowerCased(h) && forall c <- h :: !IsSpace(c)
  }

  lemma {:induction false} FieldsShape(s: string, b: string)
    requires LowerCased(s) && LowerCased(b) && forall c <- b :: !IsSpace(c)
    ensures forall f <- FieldsFrom(s, b) :: HeaderName(f)
    decreases |s|
  {
    if s != "" {
      assert s[0] in s;
      if IsSpace(s[0]) {
        FieldsShape(s[1..], "");
      } else {
        FieldsShape(s[1..], b + [s[0]]);
      }
    }
  }

  lemma {:induction false} FieldsOfWord(w: string, rest: string, b: string)
    requires forall c <- w :: !IsSpace(c)
    ensures FieldsFrom(w + rest, b) == FieldsFrom(rest, b + w)
    decreases |w|
  {
    if w == "" {
      assert w + rest == rest && b + w == b;
    } else {
      assert (w + rest)[1..] == w[1..] + rest;
      FieldsOfWord(w[1..], rest, b + [w[0]]);
      assert b + [w[0]] + w[1..] == b + w;
    }
  }

  lemma {:induction false} JoinIsLowerCased(names: seq<string>)
    requires forall h <- names :: HeaderName(h)
    ensures LowerCased(Join(names, ' '))
  {
    if names != [] {
      assert HeaderName(names[0]);
      JoinIsLowerCased(names[1..]);
    }
  }

  lemma FieldsOfFirst(first: string, rest: string)
    requires HeaderName(first)
    ensures Fields(first + ([' '] + rest)) == [first] + Fields(rest)
    ensures Fields(first) == [first]
  {
    hide LowerCased;
    var blank := [' '] + rest;
    FieldsOfWord(first, blank, "");
    FieldsOfWord(first, "", "");
    assert first + "" == first && "" + first == first;
    assert IsSpace(' ') && blank[0] == ' ' && blank[1..] == rest;
  }

  /** Splitting into words undoes joining with blanks. */
  lemma {:induction false} FieldsOfJoin(names: seq<string>)
    requires forall h <- names :: HeaderName(h)
    ensures Fields(Join(names, ' ')) == names
  {
    hide HeaderName, FieldsFrom;
    if names == [] {
      NoFields();
    } else {
      var rest := Join(names[1..], ' ');
      FieldsOfFirst(names[0], rest);
      if |names| > 1 {
        FieldsOfJoin(names[1..]);
        assert Join(names, ' ') == names[0] + ([' '] + rest);
      }
    }
  }

  lemma NoFields()
    ensures Fields("") == []
  {
  }

  /** For strings without quotes (commas and equals signs allowed), parsing a printed header gives the parameters back
      exactly when the key id and signature are there, the algorithm is rsa-sha256 and the header list is a nonempty
      list of header names. */
  lemma ParseInvertsHeader(p: Params)
    requires QUOTE !in p.keyID && QUOTE !in p.signature && forall h <- p.headers :: QUOTE !in h
    ensures Parsed(Header(p)) == Ok(p) <==>
            && p.keyID != "" && p.signature != "" && p.algorithm == RSA_SHA256
            && p.headers != [] && forall h <- p.headers :: HeaderName(h)
  {
    hide Header, Parsed, Lower, FieldsFrom, Join, HeaderName;
    ParsedOfHeader(p);
    LowerOfRsa();
    var names := Join(p.headers, ' ');
    LowerFixes(names);
    FieldsShape(Lower(names), "");
    if forall h <- p.headers :: HeaderName(h) {
      FieldsOfJoin(p.headers);
      JoinIsLowerCased(p.headers);
    }
    if p.headers == ["date"] {
      DateIsName();
    }
  }

  /** The header in the form parsing leaves it in: what each part set last, before the defaults. */
  function Raw(header: string): Params {
    AssignedAll(NO_PARAMS, SplitFrom(TrimSpace(header), false, ""))
  }

  /** A header parses exactly when it sets a key id and a signature, and no algorithm but rsa-sha256 or hs2019; where it
      names no signed headers the Date alone counts as signed, and where it names no algorithm it is rsa-sha256. */
  lemma ParsedExactly(header: string)
    ensures var raw := Raw(header);
      && (Parsed(header).Ok? <==>
            && TrimSpace(header) != "" && raw.keyID != "" && raw.signature != ""
            && (raw.algorithm == "" || raw.algorithm == "rsa-sha256" || raw.algorithm == "hs2019"))
      && (Parsed(header).Ok? ==>
            && Parsed(header).value.keyID == raw.keyID && Parsed(header).value.signature == raw.signature
            && Parsed(header).value.algorithm == (if raw.algorithm == "" then "rsa-sha256" else raw.algorithm)
            && Parsed(header).value.headers == if raw.headers == [] then ["date"] else raw.headers)
      && (Parsed(header) == Err(Missing) <==> TrimSpace(header) == "")
      && (Parsed(header) == Err(MissingParts) <==>
            TrimSpace(header) != "" && (raw.keyID == "" || raw.signature == ""))
      && Parsed(header) != Err(RFC9421)
  {
    hide TrimSpace, SplitFrom, AssignedAll;
  }

  lemma LowerOfRsa()
    ensures Lower(RSA_SHA256) == RSA_SHA256
  {
    hide Lower;
    LowerAt(RSA_SHA256);
    assert |Lower(RSA_SHA256)| == |RSA_SHA256|;
  }

  lemma DateIsName()
    ensures HeaderName("date")
  {
  }
}
