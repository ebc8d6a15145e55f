/** What lower-casing and trimming amount to, letter by letter. */
module Letters {
  import opened Text

  /** Equal, or the same ASCII letter in two cases. */
  predicate SameLetter(c: char, d: char) {
    || c == d
    || ('A' <= c <= 'Z' && d as int == c as int + 32)
    || ('A' <= d <= 'Z' && c as int == d as int + 32)
  }

  predicate SameLetters(a: string, b: string) {
    |a| == |b| && forall i :: 0 <= i < |a| ==> SameLetter(a[i], b[i])
  }

  lemma LowerSame(a: string, b: string)
    ensures Lower(a) == Lower(b) <==> SameLetters(a, b)
  {
    LowerAt(a);
    LowerAt(b);
    if SameLetters(a, b) {
      assert forall i :: 0 <= i < |a| ==> Lower(a)[i] == Lower(b)[i];
    } else if |a| == |b| {
      var i :| 0 <= i < |a| && !SameLetter(a[i], b[i]);
      assert Lower(a)[i] != Lower(b)[i];
    }
  }

  predicate Blank(s: string) {
    forall c <- s :: IsSpace(c)
  }

  lemma {:induction false} TrimLeftIs(s: string)
    ensures var t := TrimLeft(s); var n := |s| - |t|;
      0 <= n && t == s[n..] && Blank(s[..n]) && (t != "" ==> !IsSpace(t[0]))
  {
    hide IsSpace;
    if s != "" && IsSpace(s[0]) {
      var rest := s[1..];
      TrimLeftIs(rest);
      var n := |rest| - |TrimLeft(rest)|;
      assert s[..n + 1] == [s[0]] + rest[..n];
      assert s[n + 1..] == rest[n..];
    }
  }

  lemma {:induction false} TrimRightIs(s: string)
    ensures var t := TrimRight(s);
      |t| <= |s| && t == s[..|t|] && Blank(s[|t|..]) && (t != "" ==> !IsSpace(t[|t| - 1]))
  {
    hide IsSpace;
    if s != "" && IsSpace(s[|s| - 1]) {
      var init := s[..|s| - 1];
      TrimRightIs(init);
      var n := |TrimRight(init)|;
      assert s[n..] == init[n..] + [s[|s| - 1]];
      assert s[..n] == init[..n];
    }
  }

  /** `t` is `s` without `n` characters of white space in front and the white space behind. */
  ghost predicate Middle(s: string, n: nat, t: string) {
    n + |t| <= |s| && s[n..n + |t|] == t && Blank(s[..n]) && Blank(s[n + |t|..])
  }

  lemma TrimSpaceShape(s: string) returns (n: nat)
    ensures Middle(s, n, TrimSpace(s)) && Trimmed(TrimSpace(s))
  {
    hide TrimLeft, TrimRight, IsSpace, Blank;
    TrimLeftIs(s);
    var u := TrimLeft(s);
    TrimRightIs(u);
    n := |s| - |u|;
    var t := TrimSpace(s);
    assert t == s[n..n + |t|] && s[n + |t|..] == u[|t|..];
    assert t != "" ==> t[0] == u[0];
  }

  /** Trimming takes exactly the white space off both ends: of `l + t + r` with `l` and `r` blank and `t` trimmed it
      leaves `t`, and every string is of that form. */
  lemma TrimSpaceExactly(s: string, t: string)
    ensures TrimSpace(s) == t <==> Trimmed(t) && exists n: nat :: Middle(s, n, t)
  {
    hide TrimSpace, IsSpace, Middle, Trimmed;
    var k := TrimSpaceShape(s);
    if Trimmed(t) && exists n: nat :: Middle(s, n, t) {
      var n: nat :| Middle(s, n, t);
      OneMiddle(s, n, t, k, TrimSpace(s));
    }
  }

  lemma OneMiddle(s: string, n: nat, t: string, k: nat, v: string)
    requires Middle(s, n, t) && Trimmed(t) && Middle(s, k, v) && Trimmed(v)
    ensures t == v
  {
    hide IsSpace;
    if t != "" {
      InMiddle(s, n, k, v);
      InMiddle(s, n + |t| - 1, k, v);
    }
    if v != "" {
      InMiddle(s, k, n, t);
      InMiddle(s, k + |v| - 1, n, t);
    }
  }

  /** What is no white space lies in the middle. */
  lemma InMiddle(s: string, i: nat, k: nat, v: string)
    requires Middle(s, k, v) && i < |s| && !IsSpace(s[i])
    ensures k <= i < k + |v|
  {
    var left, right := s[..k], s[k + |v|..];
    assert forall j :: 0 <= j < k ==> left[j] == s[j] && left[j] in left;
    assert forall j :: k + |v| <= j < |s| ==> s[j] == right[j - (k + |v|)] && s[j] in right;
  }

  /** What is trimmed is trimmed, and trimming it again changes nothing. */
  lemma TrimTwice(s: string)
    ensures Trimmed(TrimSpace(s)) && TrimSpace(TrimSpace(s)) == TrimSpace(s)
  {
    TrimSpaceExactly(s, TrimSpace(s));
    TrimSpaceFixes(TrimSpace(s));
  }
}
