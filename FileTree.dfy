/**
 * The code explorer: the folder/file tree derived from the flat file record, the set of
 * expanded folders, which rows the tree shows, and the code viewer with line numbers.
 */
module FileTree {
  import opened Js

  /** A row of the tree: a file, or a folder with its children in insertion order. */
  datatype FsNode =
    | File(name: string, id: string)
    | Folder(name: string, id: string, children: seq<FsNode>)

  /** `path.split("/").filter(Boolean)`: the non-empty segments of a path. */
  function Segments(path: string): (r: seq<string>)
    ensures ValidSegments(r)
  {
    NonEmpty(Split(path, '/'))
  }

  /** Segments are non-empty and hold no `/`. */
  predicate ValidSegments(parts: seq<string>) {
    forall i | 0 <= i < |parts| :: parts[i] != "" && '/' !in parts[i]
  }

  /** Same kind, name and id: the node keeps its place and identity. */
  predicate SameNode(a: FsNode, b: FsNode) {
    a.File? == b.File? && a.name == b.name && a.id == b.id
  }

  function FindFolderFrom(nodes: seq<FsNode>, id: string, from: nat): (r: Option<nat>)
    ensures r.Some? ==> from <= r.value < |nodes| && nodes[r.value].Folder? && nodes[r.value].id == id
    ensures r.Some? ==> forall j | from <= j < r.value :: !(nodes[j].Folder? && nodes[j].id == id)
    ensures r.None? ==> forall j | from <= j < |nodes| :: !(nodes[j].Folder? && nodes[j].id == id)
    decreases |nodes| - from
  {
    if from >= |nodes| then None
    else if nodes[from].Folder? && nodes[from].id == id then Some(from)
    else FindFolderFrom(nodes, id, from + 1)
  }

  /** `children.find(c => c.type === "folder" && c.id === id)`, as an index. */
  function FindFolder(nodes: seq<FsNode>, id: string): (r: Option<nat>)
    ensures r.Some? ==> r.value < |nodes| && nodes[r.value].Folder? && nodes[r.value].id == id
    ensures r.Some? ==> forall j | 0 <= j < r.value :: !(nodes[j].Folder? && nodes[j].id == id)
    ensures r.None? ==> forall j | 0 <= j < |nodes| :: !(nodes[j].Folder? && nodes[j].id == id)
  {
    FindFolderFrom(nodes, id, 0)
  }

  /**
   * Places the file `path`, whose segments are `parts`, below `nodes` starting at segment
   * `i`: for each segment but the last, the folder with that joined prefix as id is found
   * or appended (`ensureFolder`), and the last segment is appended as a file (`addFile`).
   * Existing children keep their position and identity; at most one node is appended.
   */
  function AddAt(nodes: seq<FsNode>, parts: seq<string>, i: nat, path: string): (r: seq<FsNode>)
    requires i < |parts|
    ensures |nodes| <= |r| <= |nodes| + 1
    ensures forall j | 0 <= j < |nodes| :: SameNode(r[j], nodes[j])
    decreases |parts| - i
  {
    if i == |parts| - 1 then nodes + [File(parts[i], path)]
    else
      var id := Join(parts[..i + 1], '/');
      match FindFolder(nodes, id)
      case Some(k) => nodes[k := Folder(nodes[k].name, id, AddAt(nodes[k].children, parts, i + 1, path))]
      case None => nodes + [Folder(parts[i], id, AddAt([], parts, i + 1, path))]
  }

  /** One iteration of the key loop: a key without a non-empty segment adds nothing. */
  function AddKey(tree: seq<FsNode>, key: string): seq<FsNode> {
    var parts := Segments(key);
    if parts == [] then tree else AddAt(tree, parts, 0, key)
  }

  /** The tree for keys taken in order. */
  function Build(keys: seq<string>): seq<FsNode> {
    if keys == [] then [] else AddKey(Build(keys[..|keys| - 1]), keys[|keys| - 1])
  }

  /** The tree-building `useMemo` body: every key of the record, in `Object.keys` order. */
  method BuildTree(files: Record) returns (tree: seq<FsNode>)
    ensures tree == Build(files.order)
  {
    tree := [];
    for k := 0 to |files.order|
      invariant tree == Build(files.order[..k])
    {
      assert files.order[..k + 1][..k] == files.order[..k];
      tree := AddKey(tree, files.order[k]);
    }
    assert files.order[..|files.order|] == files.order;
  }

  // ---------------------------------------------------------------------------
  // shape of the tree

  /** At most one folder per id among siblings. */
  ghost predicate UniqueFolders(nodes: seq<FsNode>) {
    forall i, j | 0 <= i < j < |nodes| :: !(nodes[i].Folder? && nodes[j].Folder? && nodes[i].id == nodes[j].id)
  }

  /**
   * A node under the folders `prefix`: a file's id splits to `prefix` and its name; a
   * folder's id is `prefix` and its name joined with `/`, and its children lie under it.
   */
  ghost predicate NodeWf(n: FsNode, prefix: seq<string>)
    decreases n
  {
    match n
    case File(name, id) => Segments(id) == prefix + [name]
    case Folder(name, id, ch) =>
      && name != "" && '/' !in name
      && id == Join(prefix + [name], '/')
      && UniqueFolders(ch)
      && forall c | c in ch :: NodeWf(c, prefix + [name])
  }

  ghost predicate Wf(nodes: seq<FsNode>, prefix: seq<string>) {
    UniqueFolders(nodes) && forall c | c in nodes :: NodeWf(c, prefix)
  }

  /** Segments of a joined folder path are the path's segments. */
  lemma SegmentsOfJoin(parts: seq<string>)
    requires |parts| >= 1 && ValidSegments(parts)
    ensures Segments(Join(parts, '/')) == parts
  {
    SplitJoin(parts, '/');
    NonEmptyOfNonEmpty(parts);
  }

  /** Every node's id splits to the folders above it followed by its own name. */
  lemma NodeSegments(n: FsNode, prefix: seq<string>)
    requires ValidSegments(prefix) && NodeWf(n, prefix)
    ensures Segments(n.id) == prefix + [n.name]
  {
    if n.Folder? {
      SegmentsOfJoin(prefix + [n.name]);
    }
  }

  /** Placing a file keeps the tree well formed. */
  lemma {:induction false} AddAtWf(nodes: seq<FsNode>, parts: seq<string>, i: nat, path: string)
    requires i < |parts| && ValidSegments(parts) && Segments(path) == parts
    requires Wf(nodes, parts[..i])
    ensures Wf(AddAt(nodes, parts, i, path), parts[..i])
    decreases |parts| - i
  {
    var r := AddAt(nodes, parts, i, path);
    assert parts[..i] + [parts[i]] == parts[..i + 1];
    if i == |parts| - 1 {
      assert parts[..i + 1] == parts;
      assert forall c | c in r :: c in nodes || c == File(parts[i], path);
    } else {
      var id := Join(parts[..i + 1], '/');
      match FindFolder(nodes, id)
      case Some(k) =>
        var folder := nodes[k];
        assert NodeWf(folder, parts[..i]);
        SegmentsOfJoin(parts[..i + 1]);
        SegmentsOfJoin(parts[..i] + [folder.name]);
        assert folder.name == parts[i];
        AddAtWf(folder.children, parts, i + 1, path);
        var n := Folder(folder.name, id, AddAt(folder.children, parts, i + 1, path));
        assert NodeWf(n, parts[..i]);
        assert forall c | c in r :: c in nodes || c == n;
      case None =>
        AddAtWf([], parts, i + 1, path);
        var n := Folder(parts[i], id, AddAt([], parts, i + 1, path));
        assert NodeWf(n, parts[..i]);
        assert forall c | c in r :: c in nodes || c == n;
    }
  }

  /** Every tree built from keys is well formed below the root. */
  lemma {:induction false} BuildWf(keys: seq<string>)
    ensures Wf(Build(keys), [])
  {
    if keys != [] {
      BuildWf(keys[..|keys| - 1]);
      var key := keys[|keys| - 1];
      var parts := Segments(key);
      if parts != [] {
        assert parts[..0] == [];
        AddAtWf(Build(keys[..|keys| - 1]), parts, 0, key);
      }
    }
  }

  // ---------------------------------------------------------------------------
  // order of children

  /**
   * `b` grows `a` by appending only: at every depth, each node of `a` is still at its
   * index in `b` with the same kind, name and id, and a folder's children grow the same way.
   */
  ghost predicate Extends(a: seq<FsNode>, b: seq<FsNode>)
    decreases a
  {
    && |a| <= |b|
    && forall j | 0 <= j < |a| ::
         SameNode(a[j], b[j]) && (a[j].Folder? ==> Extends(a[j].children, b[j].children))
  }

  lemma {:induction false} ExtendsRefl(a: seq<FsNode>)
    ensures Extends(a, a)
    decreases a
  {
    forall j | 0 <= j < |a| && a[j].Folder?
      ensures Extends(a[j].children, a[j].children)
    {
      ExtendsRefl(a[j].children);
    }
  }

  lemma {:induction false} ExtendsTrans(a: seq<FsNode>, b: seq<FsNode>, c: seq<FsNode>)
    requires Extends(a, b) && Extends(b, c)
    ensures Extends(a, c)
    decreases a
  {
    forall j | 0 <= j < |a| && a[j].Folder?
      ensures Extends(a[j].children, c[j].children)
    {
      ExtendsTrans(a[j].children, b[j].children, c[j].children);
    }
  }

  /** Appending nodes after the existing ones extends them. */
  lemma ExtendsAppend(a: seq<FsNode>, extra: seq<FsNode>)
    ensures Extends(a, a + extra)
  {
    ExtendsRefl(a);
  }

  /** Placing a file only appends, at every depth: no existing child moves or changes. */
  lemma {:induction false} AddAtExtends(nodes: seq<FsNode>, parts: seq<string>, i: nat, path: string)
    requires i < |parts|
    ensures Extends(nodes, AddAt(nodes, parts, i, path))
    decreases |parts| - i
  {
    if i == |parts| - 1 {
      ExtendsAppend(nodes, [File(parts[i], path)]);
    } else {
      var id := Join(parts[..i + 1], '/');
      match FindFolder(nodes, id)
      case Some(k) =>
        AddAtExtends(nodes[k].children, parts, i + 1, path);
        ExtendsRefl(nodes);
      case None =>
        ExtendsAppend(nodes, [Folder(parts[i], id, AddAt([], parts, i + 1, path))]);
    }
  }

  /**
   * The tree for a prefix of the keys is extended by the tree for all of them: children
   * keep first-insertion order at every depth, with no sorting.
   */
  lemma {:induction false} BuildExtends(keys: seq<string>, n: nat)
    requires n <= |keys|
    ensures Extends(Build(keys[..n]), Build(keys))
    decreases |keys|
  {
    if n == |keys| {
      assert keys[..n] == keys;
      ExtendsRefl(Build(keys));
    } else {
      var init := keys[..|keys| - 1];
      assert init[..n] == keys[..n];
      BuildExtends(init, n);
      var parts := Segments(keys[|keys| - 1]);
      if parts == [] {
        ExtendsRefl(Build(init));
      } else {
        AddAtExtends(Build(init), parts, 0, keys[|keys| - 1]);
      }
      ExtendsTrans(Build(keys[..n]), Build(init), Build(keys));
    }
  }

  // ---------------------------------------------------------------------------
  // the files of a tree

  /** The file ids at or beneath one node. */
  function NodeFiles(n: FsNode): seq<string>
    decreases n
  {
    match n
    case File(_, id) => [id]
    case Folder(_, _, ch) => FileIds(ch)
  }

  /** File ids in the order the tree lists them. */
  function FileIds(nodes: seq<FsNode>): seq<string>
    decreases nodes
  {
    if nodes == [] then [] else NodeFiles(nodes[0]) + FileIds(nodes[1..])
  }

  lemma {:induction false} FileIdsAppend(a: seq<FsNode>, b: seq<FsNode>)
    ensures FileIds(a + b) == FileIds(a) + FileIds(b)
    decreases a
  {
    if a == [] {
      assert a + b == b;
    } else {
      assert (a + b)[1..] == a[1..] + b;
      assert (a + b)[0] == a[0];
      FileIdsAppend(a[1..], b);
    }
  }

  /** Replacing one node swaps its files for the new node's files. */
  lemma FileIdsUpdate(nodes: seq<FsNode>, k: nat, x: FsNode)
    requires k < |nodes|
    ensures multiset(FileIds(nodes[k := x])) + multiset(NodeFiles(nodes[k])) ==
            multiset(FileIds(nodes)) + multiset(NodeFiles(x))
  {
    assert nodes == nodes[..k] + [nodes[k]] + nodes[k + 1..];
    assert nodes[k := x] == nodes[..k] + [x] + nodes[k + 1..];
    FileIdsAppend(nodes[..k] + [nodes[k]], nodes[k + 1..]);
    FileIdsAppend(nodes[..k], [nodes[k]]);
    FileIdsAppend(nodes[..k] + [x], nodes[k + 1..]);
    FileIdsAppend(nodes[..k], [x]);
    assert FileIds([nodes[k]]) == NodeFiles(nodes[k]) + FileIds([]);
    assert FileIds([x]) == NodeFiles(x) + FileIds([]);
  }

  lemma MultisetCancel<T>(x: multiset<T>, y: multiset<T>, a: multiset<T>)
    requires x + a == y + a
    ensures x == y
  {
    forall e ensures x[e] == y[e] {
      assert (x + a)[e] == (y + a)[e];
    }
  }

  /** Placing a file inside an existing folder adds the file once, given it does so inside. */
  lemma AddAtFilesExisting(nodes: seq<FsNode>, parts: seq<string>, i: nat, path: string, k: nat)
    requires i < |parts| - 1 && FindFolder(nodes, Join(parts[..i + 1], '/')) == Some(k)
    requires multiset(FileIds(AddAt(nodes[k].children, parts, i + 1, path))) ==
             multiset(FileIds(nodes[k].children)) + multiset{path}
    ensures multiset(FileIds(AddAt(nodes, parts, i, path))) == multiset(FileIds(nodes)) + multiset{path}
  {
    var id := Join(parts[..i + 1], '/');
    var ch := nodes[k].children;
    var n := Folder(nodes[k].name, id, AddAt(ch, parts, i + 1, path));
    FileIdsUpdate(nodes, k, n);
    assert AddAt(nodes, parts, i, path) == nodes[k := n];
    var a := multiset(FileIds(ch));
    assert multiset(NodeFiles(n)) == a + multiset{path};
    assert multiset(FileIds(nodes[k := n])) + a == (multiset(FileIds(nodes)) + multiset{path}) + a;
    MultisetCancel(multiset(FileIds(nodes[k := n])), multiset(FileIds(nodes)) + multiset{path}, a);
  }

  /** Placing a file under a new folder adds the file once, given it does so inside. */
  lemma AddAtFilesNew(nodes: seq<FsNode>, parts: seq<string>, i: nat, path: string)
    requires i < |parts| - 1 && FindFolder(nodes, Join(parts[..i + 1], '/')).None?
    requires multiset(FileIds(AddAt([], parts, i + 1, path))) == multiset{path}
    ensures multiset(FileIds(AddAt(nodes, parts, i, path))) == multiset(FileIds(nodes)) + multiset{path}
  {
    var id := Join(parts[..i + 1], '/');
    var n := Folder(parts[i], id, AddAt([], parts, i + 1, path));
    FileIdsAppend(nodes, [n]);
    assert AddAt(nodes, parts, i, path) == nodes + [n];
    assert FileIds([n]) == NodeFiles(n) + FileIds([]);
  }

  /** Placing a file adds exactly that file id. */
  lemma {:induction false} AddAtFiles(nodes: seq<FsNode>, parts: seq<string>, i: nat, path: string)
    requires i < |parts|
    ensures multiset(FileIds(AddAt(nodes, parts, i, path))) == multiset(FileIds(nodes)) + multiset{path}
    decreases |parts| - i
  {
    if i == |parts| - 1 {
      FileIdsAppend(nodes, [File(parts[i], path)]);
      assert FileIds([File(parts[i], path)]) == [path] + FileIds([]);
      assert AddAt(nodes, parts, i, path) == nodes + [File(parts[i], path)];
    } else {
      match FindFolder(nodes, Join(parts[..i + 1], '/'))
      case Some(k) =>
        AddAtFiles(nodes[k].children, parts, i + 1, path);
        AddAtFilesExisting(nodes, parts, i, path, k);
      case None =>
        AddAtFiles([], parts, i + 1, path);
        assert multiset(FileIds([])) == multiset{};
        AddAtFilesNew(nodes, parts, i, path);
    }
  }

  /** The keys that produce a file node: those with at least one non-empty segment. */
  function Placed(keys: seq<string>): (r: seq<string>)
    ensures forall k | k in r :: k in keys && Segments(k) != []
    ensures forall k | k in keys && Segments(k) != [] :: multiset(r)[k] == multiset(keys)[k]
  {
    assert keys != [] ==> keys == keys[..|keys| - 1] + [keys[|keys| - 1]];
    if keys == [] then []
    else if Segments(keys[|keys| - 1]) == [] then Placed(keys[..|keys| - 1])
    else Placed(keys[..|keys| - 1]) + [keys[|keys| - 1]]
  }

  /**
   * Each key with a non-empty segment becomes exactly one file node whose id is the key as
   * written; other keys add nothing. So the tree has as many files as such keys.
   */
  lemma {:induction false} BuildFiles(keys: seq<string>)
    ensures multiset(FileIds(Build(keys))) == multiset(Placed(keys))
    ensures |FileIds(Build(keys))| == |Placed(keys)|
  {
    if keys != [] {
      var init := keys[..|keys| - 1];
      var key := keys[|keys| - 1];
      BuildFiles(init);
      if Segments(key) != [] {
        AddAtFiles(Build(init), Segments(key), 0, key);
      }
    }
    calc {
      |FileIds(Build(keys))|;
      |multiset(FileIds(Build(keys)))|;
      |multiset(Placed(keys))|;
      |Placed(keys)|;
    }
  }

  // ---------------------------------------------------------------------------
  // ids along the tree

  /** All nodes of these subtrees, each followed by the nodes beneath it. */
  function Below(nodes: seq<FsNode>): seq<FsNode>
    decreases nodes
  {
    if nodes == [] then []
    else
      [nodes[0]]
      + (match nodes[0] case File(_, _) => [] case Folder(_, _, ch) => Below(ch))
      + Below(nodes[1..])
  }

  predicate IsProperPrefix(p: seq<string>, q: seq<string>) {
    |p| < |q| && q[..|p|] == p
  }

  /** Under a well-formed forest, every node's id extends the enclosing folders' segments. */
  lemma {:induction false} BelowExtendsPrefix(nodes: seq<FsNode>, prefix: seq<string>)
    requires ValidSegments(prefix) && Wf(nodes, prefix)
    ensures forall d | d in Below(nodes) :: IsProperPrefix(prefix, Segments(d.id)) && Segments(d.id)[|prefix|] != ""
    decreases nodes
  {
    if nodes != [] {
      var n := nodes[0];
      assert n in nodes;
      NodeSegments(n, prefix);
      assert (prefix + [n.name])[..|prefix|] == prefix;
      BelowExtendsPrefix(nodes[1..], prefix);
      if n.Folder? {
        var p2 := prefix + [n.name];
        assert ValidSegments(p2);
        BelowExtendsPrefix(n.children, p2);
        forall d | d in Below(n.children)
          ensures IsProperPrefix(prefix, Segments(d.id))
        {
          var sd := Segments(d.id);
          assert sd[..|p2|] == p2;
          assert sd[..|prefix|] == sd[..|p2|][..|prefix|];
        }
      }
    }
  }

  /**
   * A folder's id, split into segments, is a proper prefix of the segments of the id of
   * every node beneath it. (File ids keep the key as written, so "/a/b.ts" lies under the
   * folder "a" without having "a" as a textual prefix.)
   */
  lemma FolderIdPrefixesBelow(n: FsNode, prefix: seq<string>)
    requires ValidSegments(prefix) && NodeWf(n, prefix) && n.Folder?
    ensures forall d | d in Below(n.children) :: IsProperPrefix(Segments(n.id), Segments(d.id))
  {
    NodeSegments(n, prefix);
    BelowExtendsPrefix(n.children, prefix + [n.name]);
  }

  /** In a built tree every node's name is the last segment of its id, and files keep their key. */
  lemma {:induction false} NamesAreLastSegments(nodes: seq<FsNode>, prefix: seq<string>)
    requires ValidSegments(prefix) && Wf(nodes, prefix)
    ensures forall d | d in Below(nodes) :: Segments(d.id) != [] && d.name == Segments(d.id)[|Segments(d.id)| - 1]
    decreases nodes
  {
    if nodes != [] {
      var n := nodes[0];
      assert n in nodes;
      NodeSegments(n, prefix);
      NamesAreLastSegments(nodes[1..], prefix);
      if n.Folder? {
        NamesAreLastSegments(n.children, prefix + [n.name]);
      }
    }
  }

  // ---------------------------------------------------------------------------
  // expanded folders and visible rows

  /** `toggleFolder`: exactly the given id changes membership. */
  function Toggled(open: set<string>, id: string): (r: set<string>)
    ensures id in r <==> id !in open
    ensures forall x | x != id :: x in r <==> x in open
  {
    if id in open then open - {id} else open + {id}
  }

  /** Toggling the same folder twice restores the set. */
  lemma ToggleTwice(open: set<string>, id: string)
    ensures Toggled(Toggled(open, id), id) == open
  {
  }

  /** The initial expanded set: the non-empty first `/`-pieces of the keys. */
  function InitialOpen(keys: seq<string>): set<string> {
    set k | k in keys && Split(k, '/')[0] != "" :: Split(k, '/')[0]
  }

  /** A path not starting with `/` has its first segment as its first piece. */
  lemma FirstPieceIsFirstSegment(k: string)
    requires k != [] && k[0] != '/'
    ensures Segments(k) != [] && Segments(k)[0] == Split(k, '/')[0]
  {
    assert Split(k, '/')[0][0] == k[0];
  }

  /**
   * The top-level folder holding a key that does not start with `/` is expanded at first.
   * (A key written "/a/b" still sits under folder "a", which is not expanded for it.)
   */
  lemma TopFolderInitiallyOpen(keys: seq<string>, k: string)
    requires k in keys && k != [] && k[0] != '/' && |Segments(k)| >= 2
    ensures Join(Segments(k)[..1], '/') in InitialOpen(keys)
  {
    FirstPieceIsFirstSegment(k);
    assert Join(Segments(k)[..1], '/') == Split(k, '/')[0];
  }

  /**
   * The nodes the tree shows: each node, and below a folder its children only when the
   * folder's id is expanded.
   */
  function Shown(nodes: seq<FsNode>, open: set<string>): (r: seq<FsNode>)
    ensures forall n | n in nodes :: n in r
    ensures forall d | d in r :: d in Below(nodes)
    decreases nodes
  {
    if nodes == [] then []
    else
      [nodes[0]]
      + (match nodes[0]
         case File(_, _) => []
         case Folder(_, id, ch) => if id in open then Shown(ch, open) else [])
      + Shown(nodes[1..], open)
  }

  /** With nothing expanded only the top-level nodes show. */
  lemma {:induction false} ShownNothingOpen(nodes: seq<FsNode>)
    ensures Shown(nodes, {}) == nodes
    decreases nodes
  {
    if nodes != [] {
      ShownNothingOpen(nodes[1..]);
      assert nodes == [nodes[0]] + nodes[1..];
    }
  }

  /** With no top-level folder expanded, only the top-level nodes show. */
  lemma {:induction false} ShownTopClosed(nodes: seq<FsNode>, open: set<string>)
    requires forall i | 0 <= i < |nodes| :: nodes[i].Folder? ==> nodes[i].id !in open
    ensures Shown(nodes, open) == nodes
    decreases nodes
  {
    if nodes != [] {
      ShownTopClosed(nodes[1..], open);
      assert nodes == [nodes[0]] + nodes[1..];
    }
  }

  /** A folder's children show exactly when its id is expanded. */
  lemma ShownChildrenIffOpen(n: FsNode, open: set<string>)
    requires n.Folder? && n.children != []
    ensures (forall c | c in n.children :: c in Shown([n], open)) <==> n.id in open
  {
    if n.id !in open {
      ShownTopClosed([n], open);
      var c := n.children[0];
      assert c in n.children;
      assert c != n;
    } else {
      assert [n][1..] == [];
    }
  }

  /**
   * Every folder strictly between depth `depth` and the node `d` itself is expanded: the
   * ids of the folders enclosing `d` below that depth are the joined prefixes of its
   * segments.
   */
  ghost predicate EnclosingOpen(d: FsNode, depth: nat, open: set<string>) {
    forall m | depth < m < |Segments(d.id)| :: Join(Segments(d.id)[..m], '/') in open
  }

  /** Peels the nearest enclosing folder off `EnclosingOpen`. */
  lemma EnclosingOpenStep(d: FsNode, depth: nat, open: set<string>)
    requires depth + 1 < |Segments(d.id)|
    ensures EnclosingOpen(d, depth, open) <==>
      Join(Segments(d.id)[..depth + 1], '/') in open && EnclosingOpen(d, depth + 1, open)
  {
  }

  lemma ShownMember(nodes: seq<FsNode>, open: set<string>, d: FsNode)
    requires nodes != []
    ensures d in Shown(nodes, open) <==>
      || d == nodes[0]
      || (nodes[0].Folder? && nodes[0].id in open && d in Shown(nodes[0].children, open))
      || d in Shown(nodes[1..], open)
  {
  }

  lemma BelowMember(nodes: seq<FsNode>, d: FsNode)
    requires nodes != []
    ensures d in Below(nodes) <==>
      || d == nodes[0]
      || (nodes[0].Folder? && d in Below(nodes[0].children))
      || d in Below(nodes[1..])
  {
  }

  /**
   * The rule for which rows show, at every depth: a node of a well-formed forest shows
   * exactly when every folder enclosing it within the forest is expanded.
   */
  lemma {:induction false} ShownIffEnclosingOpen(nodes: seq<FsNode>, prefix: seq<string>, open: set<string>, d: FsNode)
    requires ValidSegments(prefix) && Wf(nodes, prefix)
    ensures d in Shown(nodes, open) <==> d in Below(nodes) && EnclosingOpen(d, |prefix|, open)
    decreases nodes
  {
    if nodes != [] {
      var n := nodes[0];
      assert n in nodes;
      ShownMember(nodes, open, d);
      BelowMember(nodes, d);
      ShownIffEnclosingOpen(nodes[1..], prefix, open, d);
      if d == n {
        NodeSegments(n, prefix);
      }
      if n.Folder? {
        assert ValidSegments(prefix + [n.name]);
        ShownIffEnclosingOpen(n.children, prefix + [n.name], open, d);
        if d in Below(n.children) {
          EnclosingOpenUnder(n, prefix, open, d);
        }
      }
    }
  }

  /** Below a folder, the enclosing folders are that folder and those beneath it. */
  lemma EnclosingOpenUnder(n: FsNode, prefix: seq<string>, open: set<string>, d: FsNode)
    requires ValidSegments(prefix) && NodeWf(n, prefix) && n.Folder? && d in Below(n.children)
    ensures EnclosingOpen(d, |prefix|, open) <==> n.id in open && EnclosingOpen(d, |prefix| + 1, open)
  {
    var p2 := prefix + [n.name];
    assert ValidSegments(p2);
    BelowExtendsPrefix(n.children, p2);
    var sd := Segments(d.id);
    assert sd[..|p2|] == p2;
    EnclosingOpenStep(d, |prefix|, open);
  }

  /** Every folder id in these subtrees. */
  ghost predicate AllFoldersIn(nodes: seq<FsNode>, open: set<string>) {
    forall d | d in Below(nodes) && d.Folder? :: d.id in open
  }

  lemma {:induction false} BelowAppendParts(nodes: seq<FsNode>)
    requires nodes != []
    ensures forall d | d in Below(nodes[1..]) :: d in Below(nodes)
    ensures nodes[0].Folder? ==> forall d | d in Below(nodes[0].children) :: d in Below(nodes)
  {
  }

  /** With every folder expanded the tree shows every node. */
  lemma {:induction false} ShownAllOpen(nodes: seq<FsNode>, open: set<string>)
    requires AllFoldersIn(nodes, open)
    ensures Shown(nodes, open) == Below(nodes)
    decreases nodes
  {
    if nodes != [] {
      BelowAppendParts(nodes);
      ShownAllOpen(nodes[1..], open);
      if nodes[0].Folder? {
        assert nodes[0] in Below(nodes);
        ShownAllOpen(nodes[0].children, open);
      }
    }
  }

  // ---------------------------------------------------------------------------
  // the code viewer

  /** `files[selected] ?? ""`. */
  function Code(files: Record, selected: string): (r: string)
    ensures selected in files.entries ==> r == files.entries[selected]
    ensures selected !in files.entries ==> r == ""
  {
    if selected in files.entries then files.entries[selected] else ""
  }

  /** `code.split("\n")`: the lines shown, which put back together give the code. */
  function Lines(code: string): (r: seq<string>)
    ensures |r| == multiset(code)['\n'] + 1
    ensures Join(r, '\n') == code
  {
    SplitCount(code, '\n');
    JoinSplit(code, '\n');
    Split(code, '\n')
  }

  /** The gutter: one number per line, counting from 1. */
  function LineNumbers(code: string): (r: seq<nat>)
    ensures |r| == multiset(code)['\n'] + 1
    ensures forall i | 0 <= i < |r| :: r[i] == i + 1
  {
    var lines := Lines(code);
    seq(|lines|, i => i + 1)
  }

  /** The explorer's own state: which folders are expanded. */
  class CodeExplorer {
    var openFolders: set<string>

    /** Mounting with `files`: the first pieces of the keys start expanded. */
    constructor (files: Record)
      ensures openFolders == InitialOpen(files.order)
    {
      openFolders := InitialOpen(files.order);
    }

    /** Clicking a folder row. */
    method ToggleFolder(id: string)
      modifies this
      ensures openFolders == Toggled(old(openFolders), id)
    {
      var next := openFolders;
      if id in next {
        next := next - {id};
      } else {
        next := next + {id};
      }
      openFolders := next;
    }
  }
}
