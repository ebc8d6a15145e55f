/** The text an HTTP signature signs (internal/httpsig/sign.go), section 2.3 of draft-cavage-http-signatures-12: one
    "name: value" line for each signed header. */
module SigningText {
  import opened Wrappers
  import opened Text

  const NEWLINE := '\n'
  const TARGET := "(request-target)"
  const HOST := "host"

  datatype URL = URL(opaquePart: string, path: string, rawQuery: string)

  /** What signing reads from a request; `headers` holds the first value under each lower-case name. */
  datatype Request = Request(verb: string, url: Option<URL>, host: string, headers: map<string, string>)

  datatype Error = MissingHeader(name: string)

  /** The path and query part of the request target. */
  function TargetOf(url: Option<URL>): string {
    if url.None? then "/"
    else
      var u := url.value;
      (if u.opaquePart != "" then u.opaquePart else if u.path != "" then u.path else "/")
      + (if u.rawQuery != "" then ['?'] + u.rawQuery else "")
  }

  function RequestTarget(r: Request): string {
    Lower(r.verb) + ([' '] + TargetOf(r.url))
  }

  function Get(r: Request, name: string): string {
    if name in r.headers then r.headers[name] else ""
  }

  function Name(h: string): string {
    Lower(TrimSpace(h))
  }

  /** The value signed under a name. */
  function Value(r: Request, name: string): string {
    if name == TARGET then RequestTarget(r)
    else if name == HOST && r.host != "" then r.host
    else Get(r, name)
  }

  function Line(name: string, value: string): string {
    name + ([':', ' '] + value)
  }

  function Lines(r: Request, headers: seq<string>): Result<seq<string>, Error> {
    if headers == [] then Ok([])
    else
      match Lines(r, headers[..|headers| - 1])
      case Err(e) => Err(e)
      case Ok(lines) =>
        var name := Name(headers[|headers| - 1]);
        if Value(r, name) == "" then Err(MissingHeader(name)) else Ok(lines + [Line(name, Value(r, name))])
  }

  function Signed(r: Request, headers: seq<string>): Result<string, Error> {
    match Lines(r, headers)
    case Err(e) => Err(e)
    case Ok(lines) => Ok(Join(lines, NEWLINE))
  }

  method SigningString(r: Request, headers: seq<string>) returns (text: Result<string, Error>)
    ensures text == Signed(r, headers)
  {
    hide Name, RequestTarget, Line, Join;
    var lines: seq<string> := [];
    for i := 0 to |headers|
      invariant Lines(r, headers[..i]) == Ok(lines)
    {
      assert headers[..i + 1][..i] == headers[..i];
      var h := Name(headers[i]);
      var val: string;
      if h == TARGET {
        val := RequestTarget(r);
      } else if h == HOST {
        val := r.host;
        if val == "" {
          val := Get(r, HOST);
        }
      } else {
        val := Get(r, h);
      }
      if val == "" {
        ErrorStays(r, headers, i + 1);
        return Err(MissingHeader(h));
      }
      lines := lines + [Line(h, val)];
    }
    assert headers[..|headers|] == headers;
    return Ok(Join(lines, NEWLINE));
  }

  /** A missing header met early is the error of the whole list. */
  lemma {:induction false} ErrorStays(r: Request, headers: seq<string>, k: nat)
    requires k <= |headers| && Lines(r, headers[..k]).Err?
    ensures Lines(r, headers) == Lines(r, headers[..k])
    decreases |headers|
  {
    if k == |headers| {
      assert headers[..k] == headers;
    } else {
      var init := headers[..|headers| - 1];
      assert init[..k] == headers[..k];
      ErrorStays(r, init, k);
    }
  }

  /** Signing succeeds exactly when every named header has a value, and then each line is that header's. */
  lemma {:induction false} LinesAre(r: Request, headers: seq<string>)
    ensures Lines(r, headers).Ok? <==> forall h <- headers :: Value(r, Name(h)) != ""
    ensures Lines(r, headers).Ok? ==>
              && |Lines(r, headers).value| == |headers|
              && forall i :: 0 <= i < |headers| ==>
                    Lines(r, headers).value[i] == Line(Name(headers[i]), Value(r, Name(headers[i])))
  {
    hide Name, Value, Line;
    if headers != [] {
      var init, last := headers[..|headers| - 1], headers[|headers| - 1];
      LinesAre(r, init);
      assert headers == init + [last];
      if Lines(r, headers).Ok? {
        assert forall i :: 0 <= i < |init| ==> Lines(r, headers).value[i] == Lines(r, init).value[i];
      }
    }
  }

  // ----- the text determines what it was made from -----

  /** Neither the names nor the values of the signed headers hold a line break, and no name holds a colon. */
  ghost predicate Clean(r: Request, headers: seq<string>) {
    forall h <- headers ::
      NEWLINE !in Name(h) && ':' !in Name(h) && NEWLINE !in Value(r, Name(h))
  }

  lemma {:induction false} LineDetermines(n1: string, v1: string, n2: string, v2: string)
    requires ':' !in n1 && ':' !in n2 && Line(n1, v1) == Line(n2, v2)
    ensures n1 == n2 && v1 == v2
  {
    CutFirst(n1, ':', [' '] + v1);
    CutFirst(n2, ':', [' '] + v2);
    assert Line(n1, v1) == n1 + ([':'] + ([' '] + v1)) && Line(n2, v2) == n2 + ([':'] + ([' '] + v2));
    assert ([' '] + v1)[1..] == v1 && ([' '] + v2)[1..] == v2;
  }

  lemma LinesBack(r: Request, headers: seq<string>)
    requires Signed(r, headers).Ok? && Clean(r, headers) && headers != []
    ensures Split(Signed(r, headers).value, NEWLINE) == Lines(r, headers).value
  {
    hide Name, Value, Split, Join;
    LinesAre(r, headers);
    var lines := Lines(r, headers).value;
    forall line | line in lines ensures NEWLINE !in line {
      var i :| 0 <= i < |lines| && lines[i] == line;
      assert headers[i] in headers;
    }
    SplitJoin(lines, NEWLINE);
  }

  lemma LinesNotEmpty(r: Request, headers: seq<string>)
    requires Signed(r, headers).Ok?
    ensures Signed(r, headers).value == "" <==> headers == []
  {
    hide Name, Value;
    LinesAre(r, headers);
    if headers != [] {
      assert |Lines(r, headers).value[0]| > 0;
    }
  }

  /** Two requests with the same signed text were signed over the same header names with the same values, even when the
      lists were spelled differently. */
  lemma TextDetermines(r1: Request, headers1: seq<string>, r2: Request, headers2: seq<string>)
    requires Signed(r1, headers1).Ok? && Signed(r1, headers1) == Signed(r2, headers2)
    requires Clean(r1, headers1) && Clean(r2, headers2)
    ensures |headers1| == |headers2|
    ensures forall i :: 0 <= i < |headers1| ==>
              Name(headers1[i]) == Name(headers2[i]) && Value(r1, Name(headers1[i])) == Value(r2, Name(headers2[i]))
  {
    hide Name, Value, Line, Split, Join;
    LinesNotEmpty(r1, headers1);
    LinesNotEmpty(r2, headers2);
    if headers1 != [] {
      LinesBack(r1, headers1);
      LinesBack(r2, headers2);
      LinesAre(r1, headers1);
      LinesAre(r2, headers2);
      forall i | 0 <= i < |headers1|
        ensures Name(headers1[i]) == Name(headers2[i]) && Value(r1, Name(headers1[i])) == Value(r2, Name(headers2[i]))
      {
        assert headers1[i] in headers1 && headers2[i] in headers2;
        LineDetermines(Name(headers1[i]), Value(r1, Name(headers1[i])), Name(headers2[i]),
            Value(r2, Name(headers2[i])));
      }
    }
  }

  /** So two texts that both sign a name agree on its value, wherever it stands in either list: one signature cannot
      stand for two Dates. */
  lemma TextBindsValue(r1: Request, headers1: seq<string>, r2: Request, headers2: seq<string>, h1: string, h2: string)
    requires Signed(r1, headers1).Ok? && Signed(r1, headers1) == Signed(r2, headers2)
    requires Clean(r1, headers1) && Clean(r2, headers2)
    requires h1 in headers1 && h2 in headers2 && Name(h1) == Name(h2)
    ensures Value(r1, Name(h1)) == Value(r2, Name(h2))
  {
    hide Name, Value, Signed;
    TextDetermines(r1, headers1, r2, headers2);
    var i :| 0 <= i < |headers1| && headers1[i] == h1;
    assert Name(headers2[i]) == Name(h2) && Value(r1, Name(h1)) == Value(r2, Name(h2));
  }

  /** Two texts that go on after a line-free beginning with a line break agree on the beginning and on the rest. */
  lemma BreakDetermines(v: string, x: string, w: string, y: string)
    requires NEWLINE !in v && NEWLINE !in w && v + ([NEWLINE] + x) == w + ([NEWLINE] + y)
    ensures v == w && x == y
  {
    CutFirst(v, NEWLINE, x);
    CutFirst(w, NEWLINE, y);
  }

  lemma {:induction false} JoinDetermines(names: seq<string>, vs: seq<string>, ws: seq<string>, a: seq<string>,
                                          b: seq<string>)
    requires |names| == |vs| == |ws| == |a| == |b|
    requires forall i :: 0 <= i < |names| ==> a[i] == Line(names[i], vs[i]) && b[i] == Line(names[i], ws[i])
    requires forall i :: 0 <= i < |names| ==> NEWLINE !in vs[i] && NEWLINE !in ws[i]
    requires Join(a, NEWLINE) == Join(b, NEWLINE)
    ensures vs == ws
  {
    if |names| > 0 {
      var n := names[0];
      var s, t := Join(a, NEWLINE), Join(b, NEWLINE);
      assert a[0] == Line(n, vs[0]) && b[0] == Line(n, ws[0]);
      if |names| == 1 {
        assert s[|n| + 2..] == vs[0] && t[|n| + 2..] == ws[0];
        assert vs == [vs[0]] && ws == [ws[0]];
      } else {
        var x, y := Join(a[1..], NEWLINE), Join(b[1..], NEWLINE);
        assert s[|n| + 2..] == vs[0] + ([NEWLINE] + x);
        assert t[|n| + 2..] == ws[0] + ([NEWLINE] + y);
        BreakDetermines(vs[0], x, ws[0], y);
        JoinDetermines(names[1..], vs[1..], ws[1..], a[1..], b[1..]);
        assert vs == [vs[0]] + vs[1..] && ws == [ws[0]] + ws[1..];
      }
    }
  }

  /** For one header list, whatever its names, requests with line-free values and equal texts agree on every value. */
  lemma FixedListDetermines(r1: Request, r2: Request, headers: seq<string>)
    requires Signed(r1, headers).Ok? && Signed(r1, headers) == Signed(r2, headers)
    requires forall h <- headers :: NEWLINE !in Value(r1, Name(h)) && NEWLINE !in Value(r2, Name(h))
    ensures forall h <- headers :: Value(r1, Name(h)) == Value(r2, Name(h))
  {
    hide Name, Value, Line, Join;
    LinesAre(r1, headers);
    LinesAre(r2, headers);
    var n := |headers|;
    var names := seq(n, i requires 0 <= i < n => Name(headers[i]));
    var vs := seq(n, i requires 0 <= i < n => Value(r1, Name(headers[i])));
    var ws := seq(n, i requires 0 <= i < n => Value(r2, Name(headers[i])));
    forall i | 0 <= i < n ensures NEWLINE !in vs[i] && NEWLINE !in ws[i] {
      assert headers[i] in headers;
    }
    JoinDetermines(names, vs, ws, Lines(r1, headers).value, Lines(r2, headers).value);
    forall h | h in headers ensures Value(r1, Name(h)) == Value(r2, Name(h)) {
      var i :| 0 <= i < n && headers[i] == h;
      assert vs[i] == ws[i];
    }
  }

  /** The path a request target starts with. */
  function PathOf(u: URL): string {
    if u.opaquePart != "" then u.opaquePart else if u.path != "" then u.path else "/"
  }

  /** A target determines the path and the query, where the path has no question mark of its own. */
  lemma TargetOfDetermines(u: URL, v: URL)
    ensures TargetOf(Some(u)) == TargetOf(Some(v)) && '?' !in PathOf(u) && '?' !in PathOf(v) ==>
      PathOf(u) == PathOf(v) && u.rawQuery == v.rawQuery
  {
    TargetParts(u);
    TargetParts(v);
  }

  lemma TargetParts(u: URL)
    ensures '?' !in PathOf(u) ==>
      Cut(TargetOf(Some(u)), '?') == if u.rawQuery == "" then None else Some((PathOf(u), u.rawQuery))
    ensures u.rawQuery == "" ==> TargetOf(Some(u)) == PathOf(u)
  {
    assert PathOf(u) + "" == PathOf(u);
    if '?' !in PathOf(u) {
      if u.rawQuery == "" {
        CutNone(PathOf(u), '?');
      } else {
        CutFirst(PathOf(u), '?', u.rawQuery);
      }
    }
  }

  /** Signing the request target binds the method, up to letter case, and the target. */
  lemma {:induction false} TargetDetermines(r1: Request, r2: Request)
    requires ' ' !in r1.verb && ' ' !in r2.verb && RequestTarget(r1) == RequestTarget(r2)
    ensures Lower(r1.verb) == Lower(r2.verb) && TargetOf(r1.url) == TargetOf(r2.url)
  {
    hide TargetOf;
    LowerAddsNoBlank(r1.verb);
    LowerAddsNoBlank(r2.verb);
    CutFirst(Lower(r1.verb), ' ', TargetOf(r1.url));
    CutFirst(Lower(r2.verb), ' ', TargetOf(r2.url));
  }

  lemma LowerAddsNoBlank(s: string)
    requires ' ' !in s
    ensures ' ' !in Lower(s)
  {
    LowerAt(s);
    forall i | 0 <= i < |s| ensures Lower(s)[i] != ' ' {
      assert s[i] in s;
    }
  }
}
