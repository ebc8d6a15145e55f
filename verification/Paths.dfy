/** Relative paths and their resolution under the share root (internal/files/path.go).
    An absolute path is the list of its components; a relative path is a '/'-separated string. */
module Paths {
  import opened Wrappers
  import opened Text
  import opened ShareTree

  datatype PathError = NotDirectory | Symlinked | Escape | HiddenPath | Missing

  /** Components a cleaned path is made of. */
  ghost predicate Proper(parts: seq<string>) {
    forall i :: 0 <= i < |parts| ==> parts[i] != "" && parts[i] != "." && parts[i] != ".."
  }

  /** `filepath.Clean` of a rooted path: empty and "." components go, ".." removes the component before it. */
  function Clean(done: seq<string>, parts: seq<string>): (r: seq<string>)
    ensures Proper(done) ==> Proper(r)
    decreases parts
  {
    if parts == [] then done
    else if parts[0] == "" || parts[0] == "." then Clean(done, parts[1..])
    else if parts[0] == ".." then Clean(if done == [] then [] else done[..|done| - 1], parts[1..])
    else Clean(done + [parts[0]], parts[1..])
  }

  lemma {:induction false} CleanAppends(done: seq<string>, parts: seq<string>)
    requires Proper(parts)
    ensures Clean(done, parts) == done + parts
    decreases parts
  {
    if parts != [] {
      CleanAppends(done + [parts[0]], parts[1..]);
      assert done + [parts[0]] + parts[1..] == done + parts;
    }
  }

  lemma CleanProper(parts: seq<string>)
    requires Proper(parts)
    ensures Clean([], parts) == parts
  {
    CleanAppends([], parts);
    assert [] + parts == parts;
  }

  predicate AnyHidden(parts: seq<string>) {
    exists name <- parts :: Hidden(name)
  }

  function RelFromRoot(root: seq<string>, abs: seq<string>): Result<string, PathError> {
    var r := Clean([], root);
    var a := Clean([], abs);
    if !(r <= a) then Err(Escape)
    else
      var parts := a[|r|..];
      if parts == [] then Ok("")
      else if AnyHidden(parts) then Err(HiddenPath)
      else Ok(Join(parts, '/'))
  }

  /** Relativising an absolute path below the root. */
  lemma RelOfJoined(root: seq<string>, parts: seq<string>)
    requires Proper(root) && Proper(parts) && parts != []
    ensures RelFromRoot(root, root + parts)
         == if AnyHidden(parts) then Err(HiddenPath) else Ok(Join(parts, '/'))
  {
    CleanProper(root);
    CleanProper(root + parts);
    assert (root + parts)[|root|..] == parts;
  }

  predicate StillInside(root: seq<string>, path: seq<string>) {
    Clean([], root) <= Clean([], path)
  }

  /** The text of an untrusted relative path after trimming and turning backslashes round. */
  function Normal(rel: string): string {
    ReplaceAll(TrimSpace(rel), '\\', "/")
  }

  /** The components of a normalised relative path, unless it is refused. */
  function ComponentsOfText(text: string): Result<seq<string>, PathError> {
    if text == "" || text == "." || '\0' in text || ".." in Split(text, '/') then Err(Escape)
    else
      var parts := Clean([], Split(text, '/'));
      if parts == [] then Err(Escape) else if AnyHidden(parts) then Err(HiddenPath) else Ok(parts)
  }

  /** The components `ResolveUnderRoot` looks up for an untrusted relative path. */
  function Components(rel: string): Result<seq<string>, PathError> {
    ComponentsOfText(Normal(rel))
  }

  /** Lstat of each component in turn; the first that is missing or a symlink decides. */
  function Descend(n: Node, parts: seq<string>): Result<Node, PathError>
    decreases parts
  {
    if parts == [] then Ok(n)
    else if !n.Dir? then Err(Missing)
    else match Find(n.entries, parts[0])
      case None => Err(Missing)
      case Some(Symlink) => Err(Symlinked)
      case Some(child) => Descend(child, parts[1..])
  }

  /** The node a relative path resolves to. */
  function Resolve(tree: Node, rel: string): Result<Node, PathError> {
    if tree.Symlink? then Err(Symlinked)
    else if !tree.Dir? then Err(NotDirectory)
    else match Components(rel)
      case Err(e) => Err(e)
      case Ok(parts) => Descend(tree, parts)
  }

  /** No prefix of the chain is missing or a symlink. */
  ghost predicate SymlinkFree(n: Node, parts: seq<string>) {
    forall k | 1 <= k <= |parts| :: Lookup(n, parts[..k]).Some? && !Lookup(n, parts[..k]).value.Symlink?
  }

  /** Descending succeeds exactly on symlink-free chains, and then reaches the node Lstat reaches. */
  lemma {:induction false} DescendExact(n: Node, parts: seq<string>)
    ensures Descend(n, parts).Ok? <==> SymlinkFree(n, parts)
    ensures Descend(n, parts).Ok? ==> Lookup(n, parts) == Some(Descend(n, parts).value)
    decreases parts
  {
    if parts != [] {
      assert parts[..1][0] == parts[0] && parts[..1][1..] == [];
      assert Lookup(n, parts[..1]) == if n.Dir? then Find(n.entries, parts[0]) else None;
      if n.Dir? && Find(n.entries, parts[0]).Some? {
        var child := Find(n.entries, parts[0]).value;
        DescendExact(child, parts[1..]);
        forall k | 1 <= k < |parts|
          ensures Lookup(n, parts[..k + 1]) == Lookup(child, parts[1..][..k])
        {
          assert parts[..k + 1][1..] == parts[1..][..k];
        }
        if SymlinkFree(n, parts) {
          forall k | 1 <= k <= |parts[1..]|
            ensures Lookup(child, parts[1..][..k]).Some? && !Lookup(child, parts[1..][..k]).value.Symlink?
          {
            assert Lookup(n, parts[..k + 1]) == Lookup(child, parts[1..][..k]);
          }
        }
        if !child.Symlink? && SymlinkFree(child, parts[1..]) {
          forall k | 1 <= k <= |parts|
            ensures Lookup(n, parts[..k]).Some? && !Lookup(n, parts[..k]).value.Symlink?
          {
            if k > 1 {
              assert Lookup(n, parts[..(k - 1) + 1]) == Lookup(child, parts[1..][..k - 1]);
            }
          }
        }
      }
    }
  }

  lemma {:induction false} LookupExtend(n: Node, parts: seq<string>, name: string)
    ensures Lookup(n, parts + [name]) == match Lookup(n, parts)
      case None => None
      case Some(m) => if m.Dir? then Find(m.entries, name) else None
    decreases parts
  {
    if parts == [] {
      assert parts + [name] == [name] && [name][1..] == [];
    } else {
      assert (parts + [name])[1..] == parts[1..] + [name];
      if n.Dir? && Find(n.entries, parts[0]).Some? {
        LookupExtend(Find(n.entries, parts[0]).value, parts[1..], name);
      }
    }
  }

  /** The loop of `ResolveUnderRoot`: Lstat every prefix, advancing `cur`. */
  method DescendFrom(root: seq<string>, tree: Node, cleaned: seq<string>) returns (r: Result<seq<string>, PathError>)
    requires Proper(root) && Proper(cleaned)
    ensures r == match Descend(tree, cleaned)
      case Err(e) => Err(e)
      case Ok(_) => Ok(root + cleaned)
  {
    var cur := root;
    ghost var node := tree;
    assert cleaned[..0] == [] && cleaned[0..] == cleaned;
    for i := 0 to |cleaned|
      invariant cur == root + cleaned[..i]
      invariant Lookup(tree, cleaned[..i]) == Some(node)
      invariant Descend(tree, cleaned) == Descend(node, cleaned[i..])
    {
      var next := cur + [cleaned[i]];
      assert cleaned[..i + 1] == cleaned[..i] + [cleaned[i]];
      assert cleaned[i..][1..] == cleaned[i + 1..];
      LookupExtend(tree, cleaned[..i], cleaned[i]);
      match Lookup(tree, cleaned[..i + 1]) {
        case None => return Err(Missing);
        case Some(info) =>
          if info.Symlink? {
            return Err(Symlinked);
          }
          node := info;
      }
      CleanProper(root);
      CleanProper(next);
      if !StillInside(root, next) {
        return Err(Escape);
      }
      cur := next;
    }
    assert cleaned[..|cleaned|] == cleaned;
    return Ok(cur);
  }

  method ResolveUnderRoot(root: seq<string>, tree: Node, rel: string) returns (r: Result<seq<string>, PathError>)
    requires Proper(root)
    ensures r == match Resolve(tree, rel)
      case Err(e) => Err(e)
      case Ok(_) => Ok(root + Components(rel).value)
  {
    if tree.Symlink? {
      return Err(Symlinked);
    }
    if !tree.Dir? {
      return Err(NotDirectory);
    }
    var text := ReplaceAll(TrimSpace(rel), '\\', "/");
    assert text == Normal(rel);
    if text == "" || text == "." {
      return Err(Escape);
    }
    if '\0' in text {
      return Err(Escape);
    }
    if ".." in Split(text, '/') {
      return Err(Escape);
    }
    var cleaned := Clean([], Split(text, '/'));
    if cleaned == [] {
      return Err(Escape);
    }
    RelOfJoined(root, cleaned);
    match RelFromRoot(root, root + cleaned) {
      case Err(e) => return Err(e);
      case Ok(_) =>
    }
    r := DescendFrom(root, tree, cleaned);
  }

  // ----- which relative paths are refused, and why -----

  /** The text looked at is the trimmed path with every backslash turned round. */
  lemma {:induction false} NormalExactly(s: string)
    ensures var t := ReplaceAll(s, '\\', "/");
      |t| == |s| && forall i :: 0 <= i < |s| ==> t[i] == if s[i] == '\\' then '/' else s[i]
  {
    if s != "" {
      NormalExactly(s[1..]);
    }
  }

  /** Components that name nothing. */
  predicate Idle(name: string) {
    name == "" || name == "."
  }

  function WithoutIdle(parts: seq<string>): seq<string> {
    if parts == [] then []
    else (if Idle(parts[0]) then [] else [parts[0]]) + WithoutIdle(parts[1..])
  }

  lemma {:induction false} CleanKeeps(done: seq<string>, parts: seq<string>)
    requires ".." !in parts
    ensures Clean(done, parts) == done + WithoutIdle(parts)
    decreases |parts|
  {
    if parts != [] {
      if Idle(parts[0]) {
        CleanKeeps(done, parts[1..]);
        assert [] + WithoutIdle(parts[1..]) == WithoutIdle(parts[1..]);
      } else {
        CleanKeeps(done + [parts[0]], parts[1..]);
        assert done + [parts[0]] + WithoutIdle(parts[1..]) == done + ([parts[0]] + WithoutIdle(parts[1..]));
      }
    }
  }

  lemma {:induction false} WithoutIdleIs(parts: seq<string>)
    ensures forall name :: name in WithoutIdle(parts) <==> name in parts && !Idle(name)
  {
    if parts != [] {
      WithoutIdleIs(parts[1..]);
    }
  }

  /** A normalised text is refused as an escape exactly when it holds a NUL, climbs anywhere with "..", or names
      nothing; otherwise as hidden exactly when some component but "." starts with a dot; and otherwise its components
      are looked up as they stand, without the empty ones and ".". */
  lemma ComponentsExactly(text: string)
    ensures var pieces := Split(text, '/');
      var escape := '\0' in text || ".." in pieces || forall name <- pieces :: name == "" || name == ".";
      var hidden := exists name <- pieces :: name != "" && name != "." && name[0] == '.';
      ComponentsOfText(text)
          == if escape then Err(Escape) else if hidden then Err(HiddenPath) else Ok(WithoutIdle(pieces))
  {
    var pieces := Split(text, '/');
    WithoutIdleIs(pieces);
    if text == "" || text == "." {
      SplitWhole(text, '/');
    }
    if ".." !in pieces {
      CleanKeeps([], pieces);
      assert [] + WithoutIdle(pieces) == WithoutIdle(pieces);
      var parts := WithoutIdle(pieces);
      assert parts == [] <==> forall name <- pieces :: Idle(name) by {
        if parts != [] {
          assert parts[0] in parts;
        }
      }
    }
  }

  /** A successful resolution never leaves the root, never crosses a hidden name or a symlink. */
  lemma ResolveIsSafe(tree: Node, rel: string)
    requires Resolve(tree, rel).Ok?
    ensures Components(rel).Ok?
    ensures var parts := Components(rel).value;
      && parts != []
      && (forall name <- parts :: name != "" && name[0] != '.')
      && SymlinkFree(tree, parts)
      && Lookup(tree, parts) == Some(Resolve(tree, rel).value)
  {
    DescendExact(tree, Components(rel).value);
  }

  /** Relative paths `ResolveUnderRoot` does not rewrite before looking them up. */
  predicate Plain(rel: string) {
    Trimmed(rel) && '\\' !in rel
  }

  /** Canonical visible components: what the walk of a real directory produces. */
  ghost predicate Canonical(parts: seq<string>) {
    parts != [] && forall name <- parts :: name != "" && !Hidden(name) && '/' !in name && '\0' !in name
  }

  lemma {:induction false} JoinFreeOf(parts: seq<string>, c: char)
    requires c != '/' && forall name <- parts :: c !in name
    ensures c !in Join(parts, '/')
  {
    if |parts| > 1 {
      JoinFreeOf(parts[1..], c);
    }
  }

  lemma ComponentsOfJoin(parts: seq<string>)
    requires Canonical(parts)
    ensures ComponentsOfText(Join(parts, '/')) == Ok(parts)
  {
    hide Clean, Split;
    var text := Join(parts, '/');
    SplitJoin(parts, '/');
    JoinFreeOf(parts, '\0');
    CleanProper(parts);
    assert Hidden("..") && !Hidden(parts[0]);
    assert text != "" && text[0] == parts[0][0];
  }

  lemma ComponentsOfPlain(parts: seq<string>)
    requires Canonical(parts) && Plain(Join(parts, '/'))
    ensures Components(Join(parts, '/')) == Ok(parts)
  {
    var rel := Join(parts, '/');
    TrimSpaceFixes(rel);
    ReplaceAbsent(rel, '\\', "/");
    ComponentsOfJoin(parts);
  }

  /** On canonical plain paths, resolution succeeds exactly on symlink-free chains and reaches that very chain. */
  lemma ResolvePlain(tree: Node, parts: seq<string>)
    requires tree.Dir? && Canonical(parts) && Plain(Join(parts, '/'))
    ensures Components(Join(parts, '/')) == Ok(parts)
    ensures Resolve(tree, Join(parts, '/')).Ok? <==> SymlinkFree(tree, parts)
    ensures Resolve(tree, Join(parts, '/')).Ok? ==> Lookup(tree, parts) == Some(Resolve(tree, Join(parts, '/')).value)
  {
    ComponentsOfPlain(parts);
    DescendExact(tree, parts);
  }

  lemma {:induction false} ReplacedIsGone(s: string, c: char, with: string)
    requires c !in with
    ensures c !in ReplaceAll(s, c, with)
    ensures |with| == 1 ==> |ReplaceAll(s, c, with)| == |s|
  {
    if s != "" {
      ReplacedIsGone(s[1..], c, with);
    }
  }

  /** Cleaning parts without ".." keeps their order, drops some, and never lengthens the joined text. */
  lemma {:induction false} CleanShrinks(done: seq<string>, parts: seq<string>)
    requires ".." !in parts
    ensures done <= Clean(done, parts)
    ensures var kept := Clean(done, parts)[|done|..];
      && (forall name <- kept :: name in parts)
      && |Join(kept, '/')| <= |Join(parts, '/')|
      && (kept != [] ==> parts != [])
    decreases parts
  {
    if parts != [] {
      if parts[0] == "" || parts[0] == "." {
        CleanShrinks(done, parts[1..]);
      } else {
        CleanShrinks(done + [parts[0]], parts[1..]);
        var all := Clean(done + [parts[0]], parts[1..]);
        var rest := all[|done| + 1..];
        assert all[|done|] == (done + [parts[0]])[|done|] == parts[0];
        assert all[|done|..] == [parts[0]] + rest;
        assert ([parts[0]] + rest)[1..] == rest;
      }
    }
  }

  /** Relativising what a path resolved to and resolving again comes back to the same place exactly when
      the relative form has no white space at its ends: `ResolveUnderRoot` would trim it. */
  lemma RelThenResolve(root: seq<string>, tree: Node, rel: string)
    requires Proper(root) && Resolve(tree, rel).Ok?
    ensures Components(rel).Ok?
    ensures var parts := Components(rel).value;
      && RelFromRoot(root, root + parts) == Ok(Join(parts, '/'))
      && (Components(Join(parts, '/')) == Ok(parts) <==> Trimmed(Join(parts, '/')))
  {
    var text := Normal(rel);
    var pieces := Split(text, '/');
    var parts := Components(rel).value;
    assert parts == Clean([], pieces);
    CleanShrinks([], pieces);
    assert parts[0..] == parts;
    ReplacedIsGone(TrimSpace(rel), '\\', "/");
    JoinSplit(text, '/');
    forall name | name in parts
      ensures name != "" && !Hidden(name) && '/' !in name && '\0' !in name && '\\' !in name
    {
      SplitCharacters(text, '/', name);
    }
    JoinFreeOf(parts, '\\');
    RelOfJoined(root, parts);
    var back := Join(parts, '/');
    if Trimmed(back) {
      ComponentsOfPlain(parts);
    } else {
      TrimSpaceFixes(back);
      ReplacedIsGone(TrimSpace(back), '\\', "/");
      var again := Split(Normal(back), '/');
      JoinSplit(Normal(back), '/');
      if Components(back).Ok? {
        CleanShrinks([], again);
        assert Clean([], again)[0..] == Clean([], again);
      }
    }
  }

  lemma {:induction false} SplitCharacters(s: string, sep: char, part: string)
    requires part in Split(s, sep)
    ensures forall c <- part :: c in s
  {
    if s != "" {
      var r := Split(s[1..], sep);
      if part in r {
        SplitCharacters(s[1..], sep, part);
      } else if s[0] != sep {
        assert part == [s[0]] + r[0];
        SplitCharacters(s[1..], sep, r[0]);
      }
    }
  }
}
