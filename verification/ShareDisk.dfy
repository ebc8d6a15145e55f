/** A Scan of a real folder: the indexer's laws on the tree the walk and `ResolveUnderRoot` see. */
module ShareDisk {
  import opened Wrappers
  import opened Text
  import opened ShareTree
  import opened Paths
  import opened Indexer
  import opened ScanLaws

  ghost predicate ValidTree(tree: Node) {
    && tree.Dir? && WellFormed(tree.entries)
    && forall parts :: Lookup(tree, parts).Some? && Lookup(tree, parts).value.File? ==>
        Lookup(tree, parts).value.stat.digest != ""
  }

  function JoinAll(paths: seq<seq<string>>): (r: seq<string>)
    ensures |r| == |paths| && forall i :: 0 <= i < |r| ==> r[i] == Join(paths[i], '/')
  {
    seq(|paths|, i requires 0 <= i < |paths| => Join(paths[i], '/'))
  }

  function LstatAt(tree: Node, rel: string): FileStat {
    match Lookup(tree, Split(rel, '/'))
    case Some(File(st)) => st
    case _ => FileStat(0, 0, "", "")
  }

  function ResolveAt(tree: Node, rel: string): Option<Node> {
    match Resolve(tree, rel)
    case Ok(node) => Some(node)
    case Err(_) => None
  }

  /** What a Scan sees of the folder. */
  function View(tree: Node): Disk {
    Disk(if tree.Dir? then JoinAll(Walk([], tree.entries)) else [],
         rel => LstatAt(tree, rel), rel => ResolveAt(tree, rel), {})
  }

  /** The simple meaning of the share: paths of visible regular files. */
  ghost predicate VisiblePath(tree: Node, p: string) {
    exists parts :: VisibleFile(tree, parts) && p == Join(parts, '/')
  }

  lemma VisibleIsCanonical(tree: Node, parts: seq<string>)
    requires ValidTree(tree) && VisibleFile(tree, parts)
    ensures Canonical(parts) && Split(Join(parts, '/'), '/') == parts
    ensures LstatAt(tree, Join(parts, '/')) == Lookup(tree, parts).value.stat
  {
    LookupNames(tree, parts);
    SplitJoin(parts, '/');
  }

  /** The walk of a valid tree names each visible regular file once. */
  lemma ViewIsValid(tree: Node)
    requires ValidTree(tree)
    ensures ValidDisk(View(tree))
    ensures forall p :: p in View(tree).walk <==> VisiblePath(tree, p)
  {
    var paths := Walk([], tree.entries);
    var walk := View(tree).walk;
    WalkExact(tree);
    forall i, j | 0 <= i < j < |walk|
      ensures walk[i] != walk[j]
    {
      assert paths[i] in paths && paths[j] in paths;
      VisibleIsCanonical(tree, paths[i]);
      VisibleIsCanonical(tree, paths[j]);
    }
    forall p | View(tree).resolve(p).Some? && View(tree).resolve(p).value.File?
      ensures View(tree).resolve(p).value.stat.digest != ""
    {
      ResolveIsSafe(tree, p);
    }
    forall i | 0 <= i < |walk|
      ensures VisiblePath(tree, walk[i])
    {
      assert paths[i] in paths;
    }
    forall p | VisiblePath(tree, p)
      ensures p in walk
    {
      var parts :| VisibleFile(tree, parts) && p == Join(parts, '/');
      var i :| 0 <= i < |paths| && paths[i] == parts;
      assert walk[i] == p;
    }
  }

  /** A plain visible path resolves to the very file the walk saw. */
  lemma PlainIsFaithful(tree: Node, p: string)
    requires ValidTree(tree) && p in View(tree).walk && Plain(p)
    ensures Indexable(View(tree), p) && Content(View(tree), p) == View(tree).lstat(p)
  {
    ViewIsValid(tree);
    var parts :| VisibleFile(tree, parts) && p == Join(parts, '/');
    VisibleIsCanonical(tree, parts);
    ResolvePlain(tree, parts);
    FilesAreSymlinkFree(tree, parts);
  }

  /** The way to a file passes only through directories. */
  lemma FilesAreSymlinkFree(tree: Node, parts: seq<string>)
    requires Lookup(tree, parts).Some? && Lookup(tree, parts).value.File?
    ensures SymlinkFree(tree, parts)
  {
    forall k | 1 <= k <= |parts|
      ensures Lookup(tree, parts[..k]).Some? && !Lookup(tree, parts[..k]).value.Symlink?
    {
      assert parts[..k] + parts[k..] == parts;
      LookupSplit(tree, parts[..k], parts[k..]);
    }
  }

  lemma {:induction false} LookupSplit(n: Node, a: seq<string>, b: seq<string>)
    ensures Lookup(n, a + b) == match Lookup(n, a)
      case None => None
      case Some(m) => Lookup(m, b)
    decreases a
  {
    if a == [] {
      assert a + b == b;
    } else {
      assert (a + b)[1..] == a[1..] + b;
      if n.Dir? && Find(n.entries, a[0]).Some? {
        LookupSplit(Find(n.entries, a[0]).value, a[1..], b);
      }
    }
  }

  /** After a Scan of any folder from any table only visible files are online; every visible file is whose path resolves
      to a regular file, in particular every one with a plain path. */
  lemma ScanMirrorsFolder(tree: Node, s: State, s': State, run: Run)
    requires ValidTree(tree) && ValidState(s) && IsRun(View(tree), s, s', run)
    ensures ValidState(s')
    ensures forall p :: Online(s'.rows, p) ==> VisiblePath(tree, p)
    ensures forall p :: VisiblePath(tree, p) && Indexable(View(tree), p) ==> Online(s'.rows, p)
    ensures forall p :: Plain(p) ==> (Online(s'.rows, p) <==> VisiblePath(tree, p))
  {
    ViewIsValid(tree);
    hide ValidTree, ValidDisk, ValidState, IsRun, VisiblePath;
    forall p | p in View(tree).walk && Plain(p)
      ensures Indexable(View(tree), p)
    {
      PlainIsFaithful(tree, p);
    }
    ScanMirrorsDisk(View(tree), s, s', run);
  }

  /** Where all visible files have plain paths, the next Scan is quiet. */
  lemma PlainFolderSettles(tree: Node, s: State, s': State, run: Run)
    requires ValidTree(tree) && ValidState(s) && IsRun(View(tree), s, s', run)
    requires forall p :: VisiblePath(tree, p) ==> Plain(p)
    ensures Settled(View(tree), s'.rows)
  {
    ViewIsValid(tree);
    hide ValidTree, ValidDisk, ValidState, IsRun, VisiblePath, Settled;
    forall p | p in View(tree).walk
      ensures Matches(View(tree), p)
    {
      PlainIsFaithful(tree, p);
    }
    ScanSettles(View(tree), s, s', run);
  }

  /** A folder holding one regular file. */
  function OneFile(name: string, st: FileStat): Node {
    Dir([Entry(name, File(st))])
  }

  lemma LookupInOneFile(name: string, st: FileStat, parts: seq<string>)
    ensures Lookup(OneFile(name, st), parts) ==
      if parts == [] then Some(OneFile(name, st)) else if parts == [name] then Some(File(st)) else None
  {
    if parts != [] {
      assert Find(OneFile(name, st).entries, parts[0]) == if name == parts[0] then Some(File(st)) else None;
      assert parts == [parts[0]] + parts[1..];
    }
  }

  lemma OneFileIsValid(name: string, st: FileStat)
    requires st.digest != "" && Canonical([name])
    ensures ValidTree(OneFile(name, st)) && View(OneFile(name, st)).walk == [name]
  {
    var tree := OneFile(name, st);
    forall parts | Lookup(tree, parts).Some? && Lookup(tree, parts).value.File?
      ensures Lookup(tree, parts).value.stat.digest != ""
    {
      LookupInOneFile(name, st, parts);
    }
    assert Walk([], tree.entries[1..]) == [];
    assert Walk([], tree.entries) == [[] + [name]];
    assert Join([[name]][0], '/') == name;
  }

  lemma LeadingBlankIsTrimmed(name: string)
    requires name != "" && Trimmed(name)
    ensures TrimSpace([' '] + name) == name
  {
    var text := [' '] + name;
    assert text[1..] == name;
    assert TrimLeft(text) == TrimLeft(name);
    TrimSpaceFixes(name);
  }

  lemma LeadingBlankComponents(name: string)
    requires Canonical([name]) && Plain(name)
    ensures Components([' '] + name) == Ok([name])
  {
    assert name in [name];
    LeadingBlankIsTrimmed(name);
    assert Join([name], '/') == name;
    ReplaceAbsent(name, '\\', "/");
    ComponentsOfJoin([name]);
  }

  lemma DotBlankNormal(name: string)
    requires Canonical([name]) && Plain(name)
    ensures Normal(['.', '/', ' '] + name) == ['.', '/', ' '] + name
  {
    hide TrimSpace;
    var rel := ['.', '/', ' '] + name;
    assert name in [name] && rel[|rel| - 1] == name[|name| - 1];
    TrimSpaceFixes(rel);
    ReplaceAbsent(rel, '\\', "/");
  }

  lemma DotBlankSplit(name: string)
    requires Canonical([name])
    ensures Split(['.', '/', ' '] + name, '/') == [['.'], [' '] + name]
  {
    hide Split;
    var blank := [' '] + name;
    assert name in [name];
    assert ['.', '/', ' '] + name == ['.'] + ['/'] + blank;
    SplitPrefix(['.'], '/', blank);
    SplitWhole(blank, '/');
  }

  /** The relative path "./ name": it resolves to the component " name", whose relative form is trimmed when it is
      resolved again and names another component. */
  lemma DotBlankDrifts(name: string)
    requires Canonical([name]) && Plain(name)
    ensures Components(['.', '/', ' '] + name) == Ok([[' '] + name])
    ensures Join([[' '] + name], '/') == [' '] + name && Components([' '] + name) == Ok([name])
  {
    var blank := [' '] + name;
    DotBlankNormal(name);
    DotBlankSplit(name);
    hide Split, Normal;
    LeadingBlankComponents(name);
    assert name in [name];
    assert [['.'], blank][1..] == [blank] && [blank][1..] == [];
    assert Clean([], [['.'], blank]) == Clean([], [blank]) == Clean([blank], []) == [blank];
  }

  lemma NotInOneFile(name: string, st: FileStat, other: string)
    requires other != name
    ensures Descend(OneFile(name, st), [other]).Err?
  {
    assert [other][..1] == [other];
    LookupInOneFile(name, st, [other]);
    DescendExact(OneFile(name, st), [other]);
  }

  lemma LeadingBlankDoesNotResolve(name: string, st: FileStat)
    requires Canonical([name]) && Plain(name)
    ensures ResolveAt(OneFile([' '] + name, st), [' '] + name).None?
  {
    LeadingBlankComponents(name);
    NotInOneFile([' '] + name, st, name);
  }

  /** A visible file whose name starts with a blank: the walk sees it, `ResolveUnderRoot` trims the blank and finds
      nothing, and no Scan of an empty table brings it online. */
  lemma LeadingBlankIsNotIndexed(name: string, st: FileStat, s: State, s': State, run: Run)
    requires Canonical([name]) && Plain(name) && st.digest != ""
    requires ValidState(s) && s.rows == map[] && IsRun(View(OneFile([' '] + name, st)), s, s', run)
    ensures View(OneFile([' '] + name, st)).walk == [[' '] + name]
    ensures forall p :: !Online(s'.rows, p)
  {
    var tree := OneFile([' '] + name, st);
    assert Canonical([[' '] + name]) by {
      assert name in [name];
    }
    OneFileIsValid([' '] + name, st);
    LeadingBlankDoesNotResolve(name, st);
    ViewIsValid(tree);
    EmptyTableExact(View(tree), s, s', run);
  }

  /** A folder holding a file and another whose name only adds a leading blank. */
  function TwoFiles(name: string, blank: FileStat, own: FileStat): Node {
    Dir([Entry([' '] + name, File(blank)), Entry(name, File(own))])
  }

  lemma LookupInTwoFiles(name: string, blank: FileStat, own: FileStat, parts: seq<string>)
    ensures Lookup(TwoFiles(name, blank, own), parts) ==
      if parts == [] then Some(TwoFiles(name, blank, own))
      else if parts == [[' '] + name] then Some(File(blank))
      else if parts == [name] then Some(File(own)) else None
  {
    if parts != [] {
      var entries := TwoFiles(name, blank, own).entries;
      assert entries[1..] == [Entry(name, File(own))];
      assert |[' '] + name| != |name|;
      assert entries[1..][1..] == [];
      assert Find(entries[1..], parts[0]) == if name == parts[0] then Some(File(own)) else None;
      assert Find(entries, parts[0]) ==
        if [' '] + name == parts[0] then Some(File(blank)) else Find(entries[1..], parts[0]);
      assert parts == [parts[0]] + parts[1..];
    }
  }

  lemma TwoFilesAreValid(name: string, blank: FileStat, own: FileStat)
    requires blank.digest != "" && own.digest != "" && Canonical([name])
    ensures ValidTree(TwoFiles(name, blank, own)) && View(TwoFiles(name, blank, own)).walk == [[' '] + name, name]
  {
    var tree := TwoFiles(name, blank, own);
    forall parts | Lookup(tree, parts).Some? && Lookup(tree, parts).value.File?
      ensures Lookup(tree, parts).value.stat.digest != ""
    {
      LookupInTwoFiles(name, blank, own, parts);
    }
    assert name in [name] && |[' '] + name| != |name|;
    assert Walk([], tree.entries[1..][1..]) == [];
    assert Walk([], tree.entries[1..]) == [[] + [name]];
    assert Walk([], tree.entries) == [[] + [[' '] + name], [] + [name]];
    assert Join([[' '] + name], '/') == [' '] + name && Join([name], '/') == name;
    assert View(tree).walk == [[' '] + name, name];
    assert WellFormed(tree.entries[1..]);
    assert WellFormed(tree.entries);
  }

  lemma BlankResolvesToOther(name: string, blank: FileStat, own: FileStat)
    requires Canonical([name]) && Plain(name)
    ensures ResolveAt(TwoFiles(name, blank, own), [' '] + name) == Some(File(own))
    ensures LstatAt(TwoFiles(name, blank, own), [' '] + name) == blank
  {
    var tree := TwoFiles(name, blank, own);
    LeadingBlankComponents(name);
    assert [name][..1] == [name];
    LookupInTwoFiles(name, blank, own, [name]);
    assert SymlinkFree(tree, [name]);
    DescendExact(tree, [name]);
    assert '/' !in [' '] + name by { assert name in [name]; }
    SplitWhole([' '] + name, '/');
    LookupInTwoFiles(name, blank, own, [[' '] + name]);
  }

  /** A file whose name starts with a blank, next to the file the trimmed name names: a Scan of an empty table brings it
      online with the content of the other file, and if their sizes differ the next Scan does not find it unchanged. */
  lemma LeadingBlankTakesOtherContent(name: string, blank: FileStat, own: FileStat, s: State, s': State, run: Run)
    requires Canonical([name]) && Plain(name) && blank.digest != "" && own.digest != ""
    requires ValidState(s) && s.rows == map[] && IsRun(View(TwoFiles(name, blank, own)), s, s', run)
    ensures View(TwoFiles(name, blank, own)).walk == [[' '] + name, name]
    ensures exists id :: id in s'.rows && s'.rows[id].path == [' '] + name && s'.rows[id].available
              && s'.rows[id].hash == HashOf(own) && s'.rows[id].size == own.size
    ensures blank.size != own.size ==> !HasUnchangedRow(View(TwoFiles(name, blank, own)), s'.rows, [' '] + name)
  {
    var tree, p := TwoFiles(name, blank, own), [' '] + name;
    TwoFilesAreValid(name, blank, own);
    BlankResolvesToOther(name, blank, own);
    ViewIsValid(tree);
    assert p in View(tree).walk && Indexable(View(tree), p);
    hide IsRun, ValidTree, ValidDisk, ValidState;
    EmptyTableAt(View(tree), s, s', run, p);
    EmptyTableRow(View(tree), s, s', run, p);
    var id :| id in s'.rows && s'.rows[id].path == p && s'.rows[id].available;
    EmptyTableDescribes(View(tree), s, s', run, id);
  }
}
