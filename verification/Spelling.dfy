/** When the inbox takes two IRIs for one actor, letter by letter. */
module Spelling {
  import opened Text
  import opened Letters
  import Inbox

  lemma FoldSame(a: string, b: string)
    ensures Inbox.FoldEquals(a, b) <==> SameLetters(a, b)
  {
  }

  /** At most one trailing slash is dropped. */
  function WithoutSlash(s: string): string {
    if s != "" && s[|s| - 1] == '/' then s[..|s| - 1] else s
  }

  /** Without white space at the ends and at most one trailing slash each, the two agree letter by letter up to ASCII
      case. */
  predicate SpeltAlike(a: string, b: string) {
    SameLetters(WithoutSlash(TrimSpace(a)), WithoutSlash(TrimSpace(b)))
  }

  lemma SameIRIExactly(a: string, b: string)
    ensures Inbox.SameIRI(a, b) <==> SpeltAlike(a, b)
  {
    hide TrimSpace, Lower, SameLetters;
    CanonicalIs(a);
    CanonicalIs(b);
    LowerSame(WithoutSlash(TrimSpace(a)), WithoutSlash(TrimSpace(b)));
  }

  lemma CanonicalIs(a: string)
    ensures Inbox.Canonical(a) == Lower(WithoutSlash(TrimSpace(a)))
  {
    hide TrimSpace, Lower;
    var t := TrimSpace(a);
    LowerAt(t);
    LowerAt(WithoutSlash(t));
    if t != "" {
      assert Lower(t)[|t| - 1] == LowerChar(t[|t| - 1]);
    }
    assert Inbox.Canonical(a) == WithoutSlash(Lower(t));
    assert |WithoutSlash(Lower(t))| == |WithoutSlash(t)|;
  }

  /** Trimmed IRIs are the same actor only if, up to one slash at the end, they have every letter in common. */
  lemma OtherLetterIsOtherActor(a: string, b: string, i: nat)
    requires Trimmed(a) && Trimmed(b) && i < |WithoutSlash(a)|
    requires i < |WithoutSlash(b)| ==> !SameLetter(a[i], b[i])
    ensures !Inbox.SameIRI(a, b)
  {
    SameIRIExactly(a, b);
    TrimSpaceFixes(a);
    TrimSpaceFixes(b);
    hide Inbox.SameIRI, TrimSpace;
  }

  lemma SpeltAlikeTrims(a: string, b: string)
    ensures SpeltAlike(TrimSpace(a), b) <==> SpeltAlike(a, b)
  {
    TrimTwice(a);
  }
}
