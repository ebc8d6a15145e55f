/** The shared folder as a tree, and the directory walk the indexer makes over it. */
module ShareTree {
  import opened Wrappers

  /** What Lstat and hashing say of one regular file. Modification times are in whole seconds. */
  datatype FileStat = FileStat(size: nat, mtime: int, digest: string, mime: string)

  datatype Entry = Entry(name: string, node: Node)

  datatype Node =
    | File(stat: FileStat)
    | Dir(entries: seq<Entry>)
    | Symlink
    | Other  // devices, sockets, named pipes

  function Find(entries: seq<Entry>, name: string): Option<Node> {
    if entries == [] then None
    else if entries[0].name == name then Some(entries[0].node)
    else Find(entries[1..], name)
  }

  /** Lstat of a chain of components none of whose proper prefixes is a symlink. */
  function Lookup(n: Node, parts: seq<string>): Option<Node>
    decreases parts
  {
    if parts == [] then Some(n)
    else if !n.Dir? then None
    else match Find(n.entries, parts[0])
      case None => None
      case Some(child) => Lookup(child, parts[1..])
  }

  predicate Hidden(name: string) {
    name != "" && name[0] == '.'
  }

  /** Names an operating system can put in a directory, each at most once. */
  ghost predicate WellFormed(entries: seq<Entry>)
    decreases entries
  {
    entries != [] ==>
      && var Entry(name, node) := entries[0];
      && name != "" && '/' !in name && '\0' !in name
      && Find(entries[1..], name) == None
      && (node.Dir? ==> WellFormed(node.entries))
      && WellFormed(entries[1..])
  }

  /** The regular files `filepath.WalkDir` reports with the indexer's callback, in walk order:
      hidden names and symlinks are skipped, directories are entered. */
  function Walk(prefix: seq<string>, entries: seq<Entry>): seq<seq<string>>
    decreases entries
  {
    if entries == [] then []
    else
      var Entry(name, node) := entries[0];
      var here := if Hidden(name) then [] else match node
        case File(_) => [prefix + [name]]
        case Dir(sub) => Walk(prefix + [name], sub)
        case _ => [];
      here + Walk(prefix, entries[1..])
  }

  /** The simple meaning of the walk: a regular file of the tree, no component of whose path starts with a dot. */
  ghost predicate VisibleFile(n: Node, parts: seq<string>) {
    && parts != []
    && (forall name <- parts :: name == "" || name[0] != '.')
    && Lookup(n, parts).Some? && Lookup(n, parts).value.File?
  }

  /** Everything the walk reports lies below its prefix and is a visible regular file. */
  lemma {:induction false} WalkSound(prefix: seq<string>, entries: seq<Entry>, p: seq<string>)
    requires WellFormed(entries) && p in Walk(prefix, entries)
    ensures |prefix| < |p| && prefix == p[..|prefix|]
    ensures VisibleFile(Dir(entries), p[|prefix|..])
    decreases entries
  {
    var Entry(name, node) := entries[0];
    if p in Walk(prefix, entries[1..]) {
      WalkSound(prefix, entries[1..], p);
      var q := p[|prefix|..];
      assert Find(entries[1..], q[0]).Some?;
    } else if node.Dir? {
      var inner := prefix + [name];
      WalkSound(inner, node.entries, p);
      var q := p[|prefix|..];
      assert p[..|inner|][..|prefix|] == prefix;
      assert q[0] == p[..|inner|][|prefix|] == name && q[1..] == p[|inner|..];
    } else {
      assert p[|prefix|..] == [name];
    }
  }

  /** The walk misses no visible regular file. */
  lemma {:induction false} WalkComplete(prefix: seq<string>, entries: seq<Entry>, q: seq<string>)
    requires WellFormed(entries) && VisibleFile(Dir(entries), q)
    ensures prefix + q in Walk(prefix, entries)
    decreases entries
  {
    assert Lookup(Dir(entries), q) == match Find(entries, q[0])
      case None => None
      case Some(child) => Lookup(child, q[1..]);
    var Entry(name, node) := entries[0];
    if q[0] == name {
      if node.Dir? {
        WalkComplete(prefix + [name], node.entries, q[1..]);
        assert prefix + [name] + q[1..] == prefix + q;
      } else {
        assert q == [name];
      }
    } else {
      assert Lookup(Dir(entries[1..]), q) == Lookup(Dir(entries), q);
      WalkComplete(prefix, entries[1..], q);
    }
  }

  ghost predicate NoDuplicates<T(!new)>(s: seq<T>) {
    forall i, j :: 0 <= i < j < |s| ==> s[i] != s[j]
  }

  lemma {:induction false} WalkNoDuplicates(prefix: seq<string>, entries: seq<Entry>)
    requires WellFormed(entries)
    ensures NoDuplicates(Walk(prefix, entries))
    decreases entries
  {
    if entries != [] {
      var Entry(name, node) := entries[0];
      var rest := Walk(prefix, entries[1..]);
      WalkNoDuplicates(prefix, entries[1..]);
      if node.Dir? {
        WalkNoDuplicates(prefix + [name], node.entries);
        forall a | a in Walk(prefix + [name], node.entries)
          ensures |a| > |prefix| && a[|prefix|] == name
        {
          WalkSound(prefix + [name], node.entries, a);
          assert a[..|prefix| + 1][|prefix|] == name;
        }
      }
      forall b | b in rest
        ensures |b| > |prefix| && b[|prefix|] != name
      {
        WalkSound(prefix, entries[1..], b);
        assert b[|prefix|..][0] == b[|prefix|];
        assert Find(entries[1..], b[|prefix|]).Some?;
      }
    }
  }

  /** The walk reports each visible regular file of the tree exactly once, and nothing else. */
  lemma WalkExact(root: Node)
    requires root.Dir? && WellFormed(root.entries)
    ensures NoDuplicates(Walk([], root.entries))
    ensures forall p :: p in Walk([], root.entries) <==> VisibleFile(root, p)
  {
    WalkNoDuplicates([], root.entries);
    forall p
      ensures p in Walk([], root.entries) <==> VisibleFile(root, p)
    {
      if p in Walk([], root.entries) {
        WalkSound([], root.entries, p);
        assert p[0..] == p;
      }
      if VisibleFile(root, p) {
        WalkComplete([], root.entries, p);
        assert [] + p == p;
      }
    }
  }

  /** Every name on the way to a node of a well-formed tree is nonempty, without '/' and without NUL. */
  lemma {:induction false} LookupNames(n: Node, parts: seq<string>)
    requires n.Dir? ==> WellFormed(n.entries)
    requires Lookup(n, parts).Some?
    ensures forall name <- parts :: name != "" && '/' !in name && '\0' !in name
    decreases parts
  {
    if parts != [] {
      FoundIsWellFormed(n.entries, parts[0]);
      assert parts == [parts[0]] + parts[1..];
      LookupNames(Find(n.entries, parts[0]).value, parts[1..]);
    }
  }

  lemma FoundIsWellFormed(entries: seq<Entry>, name: string)
    requires WellFormed(entries) && Find(entries, name).Some?
    ensures name != "" && '/' !in name && '\0' !in name
    ensures Find(entries, name).value.Dir? ==> WellFormed(Find(entries, name).value.entries)
  {
  }
}
