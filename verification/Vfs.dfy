/** Path lookup through the cache of file system nodes (src/fs/fs.c, src/include/elfboot/tree.h),
    against a walk of the directories themselves. A pointer to a node is its index in the order of
    allocation; node 0 is the root. */
module Vfs {
  import opened Strings

  /** What `finddir` says of a name in the directory with a given inode. */
  datatype Found = Missing | Inode(ino: nat)

  type Finddir = (nat, string) -> Found

  /** Where a lookup stands: at a node, at the non-null address that `fs_node_parent` makes of the
      root's null parent, or nowhere. */
  datatype Place = Here(i: nat) | Astray | NoEntry

  /** `struct fs_node` with its `struct tree_node`. */
  datatype Node = Node(name: string, ino: nat, parent: Place, children: seq<nat>)

  /** Child c of p is in order. */
  predicate ChildOk(t: seq<Node>, p: nat, c: nat) {
    0 < c < |t| && t[c].parent == Here(p)
  }

  /** Node c hangs below an earlier node, under a name that the directory there has. */
  ghost predicate NodeOk(dir: Finddir, t: seq<Node>, c: nat)
    requires c < |t|
  {
    t[c].parent.Here? &&
    var p := t[c].parent.i;
    && p < c && c in t[p].children && dir(t[p].ino, t[c].name) == Inode(t[c].ino)
    && t[c].name != "." && t[c].name != ".."
  }

  /** The cache: a tree, every edge of which the directories confirm, without two siblings of the
      same name. */
  ghost predicate Good(dir: Finddir, t: seq<Node>) {
    && |t| > 0 && t[0].parent == Astray
    && (forall c :: 0 < c < |t| ==> NodeOk(dir, t, c))
    && (forall p: nat, c: nat :: p < |t| && c in t[p].children ==> ChildOk(t, p, c))
    && forall b, c :: 0 < b < |t| && 0 < c < |t| && t[b].parent == t[c].parent && t[b].name == t[c].name ==> b == c
  }

  // --- the code on values --------------------------------------------------------------

  /** The first child of that name, from number k on. */
  function FindChild(t: seq<Node>, children: seq<nat>, name: string): Place {
    if children == [] then NoEntry
    else if children[0] < |t| && t[children[0]].name == name then Here(children[0])
    else FindChild(t, children[1..], name)
  }

  function Insert(t: seq<Node>, p: nat, name: string, ino: nat): seq<Node>
    requires p < |t|
  {
    t[p := t[p].(children := t[p].children + [|t|])] + [Node(name, ino, Here(p), [])]
  }

  /** One part of the path: the node itself, its parent, the cache, then the directory. */
  function Step(dir: Finddir, t: seq<Node>, p: nat, name: string): (seq<Node>, Place)
    requires p < |t|
  {
    if name == "." then (t, Here(p))
    else if name == ".." then (t, t[p].parent)
    else
      var c := FindChild(t, t[p].children, name);
      if c.Here? then (t, c)
      else match dir(t[p].ino, name)
        case Missing => (t, NoEntry)
        case Inode(ino) => (Insert(t, p, name, ino), Here(|t|))
  }

  /** All parts; nothing can be said of what follows an address that is no node. */
  function Lookup(dir: Finddir, t: seq<Node>, p: nat, parts: seq<string>): (seq<Node>, Place)
    requires p < |t|
    decreases |parts|
  {
    if parts == [] then (t, Here(p))
    else
      var (u, q) := Step(dir, t, p, parts[0]);
      if q.Here? && q.i < |u| then Lookup(dir, u, q.i, parts[1..]) else (u, q)
  }

  // --- the directories --------------------------------------------------------------------

  /** A plain walk stands at a trail of names from the root, has left the root upwards, or has met a
      name that is not there. */
  datatype Walked = Where(trail: seq<string>) | Above | Nowhere

  /** The inode at the end of a trail. */
  function InoAt(dir: Finddir, root: nat, trail: seq<string>): Found {
    if trail == [] then Inode(root)
    else match InoAt(dir, root, trail[..|trail| - 1])
      case Missing => Missing
      case Inode(ino) => dir(ino, trail[|trail| - 1])
  }

  function WalkStep(dir: Finddir, root: nat, trail: seq<string>, name: string): Walked {
    if name == "." then Where(trail)
    else if name == ".." then if trail == [] then Above else Where(trail[..|trail| - 1])
    else if InoAt(dir, root, trail + [name]) == Missing then Nowhere
    else Where(trail + [name])
  }

  function Walk(dir: Finddir, root: nat, trail: seq<string>, parts: seq<string>): Walked
    decreases |parts|
  {
    if parts == [] then Where(trail)
    else match WalkStep(dir, root, trail, parts[0])
      case Where(next) => Walk(dir, root, next, parts[1..])
      case w => w
  }

  /** The trail that leads to a node. */
  ghost function TrailOf(dir: Finddir, t: seq<Node>, i: nat): seq<string>
    requires Good(dir, t) && i < |t|
    decreases i
  {
    if i == 0 then []
    else
      assert NodeOk(dir, t, i);
      TrailOf(dir, t, t[i].parent.i) + [t[i].name]
  }

  lemma {:induction false} TrailLeadsToIno(dir: Finddir, t: seq<Node>, i: nat)
    requires Good(dir, t) && i < |t|
    ensures InoAt(dir, t[0].ino, TrailOf(dir, t, i)) == Inode(t[i].ino)
    decreases i
  {
    if i > 0 {
      assert NodeOk(dir, t, i);
      var p := t[i].parent.i;
      TrailLeadsToIno(dir, t, p);
      var trail := TrailOf(dir, t, i);
      assert trail[..|trail| - 1] == TrailOf(dir, t, p);
    }
  }

  /** Different nodes are at the ends of different trails. */
  lemma {:induction false} TrailsDiffer(dir: Finddir, t: seq<Node>, i: nat, j: nat)
    requires Good(dir, t) && i < |t| && j < |t| && TrailOf(dir, t, i) == TrailOf(dir, t, j)
    ensures i == j
    decreases i
  {
    if i > 0 {
      assert NodeOk(dir, t, i);
      assert j > 0;
      assert NodeOk(dir, t, j);
      var x, y := TrailOf(dir, t, i), TrailOf(dir, t, j);
      assert x[..|x| - 1] == TrailOf(dir, t, t[i].parent.i) && y[..|y| - 1] == TrailOf(dir, t, t[j].parent.i);
      TrailsDiffer(dir, t, t[i].parent.i, t[j].parent.i);
      assert x[|x| - 1] == t[i].name && y[|y| - 1] == t[j].name;
    }
  }

  // --- one step ------------------------------------------------------------------------------

  lemma {:induction false} FindChildFinds(t: seq<Node>, children: seq<nat>, name: string)
    requires forall c :: c in children ==> c < |t|
    ensures var r := FindChild(t, children, name);
      && (r.Here? ==> r.i in children && t[r.i].name == name)
      && (!r.Here? ==> r == NoEntry && forall c :: c in children ==> t[c].name != name)
  {
    if children != [] {
      assert forall c :: c in children <==> c == children[0] || c in children[1..];
      FindChildFinds(t, children[1..], name);
    }
  }

  /** Nodes keep their names, inodes and parents, and lists of children only grow at the end. */
  ghost predicate Extends(t: seq<Node>, u: seq<Node>) {
    |t| <= |u| && forall i :: 0 <= i < |t| ==>
      u[i].name == t[i].name && u[i].ino == t[i].ino && u[i].parent == t[i].parent && t[i].children <= u[i].children
  }

  lemma ExtendsTransitive(t: seq<Node>, u: seq<Node>, v: seq<Node>)
    requires Extends(t, u) && Extends(u, v)
    ensures Extends(t, v)
  {
    forall i | 0 <= i < |t|
      ensures t[i].children <= v[i].children
    {
      assert t[i].children <= u[i].children <= v[i].children;
    }
  }

  lemma {:induction false} TrailsStay(dir: Finddir, t: seq<Node>, u: seq<Node>, i: nat)
    requires Good(dir, t) && Good(dir, u) && Extends(t, u) && i < |t|
    ensures TrailOf(dir, u, i) == TrailOf(dir, t, i)
    decreases i
  {
    if i > 0 {
      assert NodeOk(dir, t, i);
      TrailsStay(dir, t, u, t[i].parent.i);
    }
  }

  lemma InsertKeepsGood(dir: Finddir, t: seq<Node>, p: nat, name: string, ino: nat)
    requires Good(dir, t) && p < |t| && name != "." && name != ".." && dir(t[p].ino, name) == Inode(ino)
    requires forall c :: c in t[p].children ==> ChildOk(t, p, c) && t[c].name != name
    ensures Good(dir, Insert(t, p, name, ino)) && Extends(t, Insert(t, p, name, ino))
  {
    var u := Insert(t, p, name, ino);
    forall c | 0 < c < |u|
      ensures NodeOk(dir, u, c)
    {
      if c < |t| { assert NodeOk(dir, t, c); }
    }
    forall q: nat, c: nat | q < |u| && c in u[q].children
      ensures ChildOk(u, q, c)
    {
      if c != |t| { assert q < |t| && c in t[q].children && ChildOk(t, q, c); }
    }
    forall b, c | 0 < b < |u| && 0 < c < |u| && u[b].parent == u[c].parent && u[b].name == u[c].name
      ensures b == c
    {
      if b < |t| { assert NodeOk(dir, t, b); }
      if c < |t| { assert NodeOk(dir, t, c); }
    }
  }

  /** The place reached in the cache is the one reached in the directories. */
  ghost predicate Matches(dir: Finddir, t: seq<Node>, q: Place, w: Walked)
    requires Good(dir, t)
  {
    match q
    case Here(i) => i < |t| && w == Where(TrailOf(dir, t, i))
    case Astray => w == Above
    case NoEntry => w == Nowhere
  }

  lemma ChildrenFound(dir: Finddir, t: seq<Node>, p: nat, name: string)
    requires Good(dir, t) && p < |t|
    ensures forall c :: c in t[p].children ==> ChildOk(t, p, c)
    ensures var r := FindChild(t, t[p].children, name);
      && (r.Here? ==> ChildOk(t, p, r.i) && t[r.i].name == name && NodeOk(dir, t, r.i))
      && (!r.Here? ==> r == NoEntry && forall c :: c in t[p].children ==> t[c].name != name)
  {
    FindChildFinds(t, t[p].children, name);
  }

  lemma WalkDown(dir: Finddir, t: seq<Node>, p: nat, name: string)
    requires Good(dir, t) && p < |t|
    ensures InoAt(dir, t[0].ino, TrailOf(dir, t, p) + [name]) == dir(t[p].ino, name)
  {
    TrailLeadsToIno(dir, t, p);
    var trail := TrailOf(dir, t, p) + [name];
    assert trail[..|trail| - 1] == TrailOf(dir, t, p);
  }

  lemma UpIsParent(dir: Finddir, t: seq<Node>, p: nat)
    requires Good(dir, t) && p < |t|
    ensures Matches(dir, t, t[p].parent, WalkStep(dir, t[0].ino, TrailOf(dir, t, p), ".."))
  {
    if p > 0 {
      assert NodeOk(dir, t, p);
      var trail := TrailOf(dir, t, p);
      assert trail[..|trail| - 1] == TrailOf(dir, t, t[p].parent.i);
    }
  }

  /** One part: the cache stays in order and the two walks agree. */
  lemma StepAgrees(dir: Finddir, t: seq<Node>, p: nat, name: string)
    requires Good(dir, t) && p < |t|
    ensures var (u, q) := Step(dir, t, p, name);
      && Good(dir, u) && Extends(t, u) && u[0].ino == t[0].ino
      && Matches(dir, u, q, WalkStep(dir, t[0].ino, TrailOf(dir, t, p), name))
  {
    hide Good, FindChild, InoAt, Insert;
    GoodRoot(dir, t);
    ExtendsItself(t);
    if name == ".." {
      UpIsParent(dir, t, p);
    } else if name != "." {
      ChildrenFound(dir, t, p, name);
      WalkDown(dir, t, p, name);
      var c := FindChild(t, t[p].children, name);
      if c.Here? {
        TrailOfChild(dir, t, p, c.i);
      } else if dir(t[p].ino, name).Inode? {
        var ino := dir(t[p].ino, name).ino;
        var u := Insert(t, p, name, ino);
        InsertKeepsGood(dir, t, p, name, ino);
        Inserted(t, p, name, ino);
        TrailOfChild(dir, u, p, |t|);
        TrailsStay(dir, t, u, p);
      }
    }
  }

  lemma GoodRoot(dir: Finddir, t: seq<Node>)
    requires Good(dir, t)
    ensures |t| > 0
  {
  }

  lemma ExtendsItself(t: seq<Node>)
    ensures Extends(t, t)
  {
  }

  lemma Inserted(t: seq<Node>, p: nat, name: string, ino: nat)
    requires p < |t|
    ensures var u := Insert(t, p, name, ino); |u| == |t| + 1 && u[|t|].name == name && u[|t|].parent == Here(p)
  {
  }

  lemma TrailOfChild(dir: Finddir, t: seq<Node>, p: nat, c: nat)
    requires Good(dir, t) && p < |t| && 0 < c < |t| && t[c].parent == Here(p)
    ensures TrailOf(dir, t, c) == TrailOf(dir, t, p) + [t[c].name]
  {
    assert NodeOk(dir, t, c);
  }

  /** A lookup ends exactly where the plain walk of the directories ends, whatever is cached. */
  lemma {:induction false} LookupAgrees(dir: Finddir, t: seq<Node>, p: nat, parts: seq<string>)
    requires Good(dir, t) && p < |t|
    ensures var (u, q) := Lookup(dir, t, p, parts);
      && Good(dir, u) && Extends(t, u) && u[0].ino == t[0].ino
      && Matches(dir, u, q, Walk(dir, t[0].ino, TrailOf(dir, t, p), parts))
    decreases |parts|
  {
    hide Good, Step, WalkStep, Extends, TrailOf;
    GoodRoot(dir, t);
    if parts == [] {
      ExtendsItself(t);
    } else {
      var (u, q) := Step(dir, t, p, parts[0]);
      StepAgrees(dir, t, p, parts[0]);
      if q.Here? {
        LookupAgrees(dir, u, q.i, parts[1..]);
        ExtendsTransitive(t, u, Lookup(dir, u, q.i, parts[1..]).0);
      }
    }
  }

  /** A node of that name hangs below p. */
  ghost predicate Cached(t: seq<Node>, p: nat, name: string) {
    exists c: nat :: 0 < c < |t| && t[c].parent == Here(p) && t[c].name == name
  }

  /** What the cache alone says of one part of a path. */
  lemma CachedStep(dir: Finddir, t: seq<Node>, p: nat, name: string)
    requires Good(dir, t) && p < |t|
    ensures var r := if name == "." then Here(p) else if name == ".." then t[p].parent
                     else FindChild(t, t[p].children, name);
      && (r != NoEntry ==> Matches(dir, t, r, WalkStep(dir, t[0].ino, TrailOf(dir, t, p), name)))
      && (r == NoEntry <==> name != "." && name != ".." && !Cached(t, p, name))
  {
    hide FindChild, InoAt, WalkStep, Matches;
    StepAgrees(dir, t, p, name);
    ChildrenFound(dir, t, p, name);
    NoParentMissing(dir, t, p);
    forall c: nat | 0 < c < |t| && t[c].parent == Here(p)
      ensures c in t[p].children
    {
      assert NodeOk(dir, t, c);
    }
  }

  // --- repeating a lookup --------------------------------------------------------------------

  lemma ChildIsFound(dir: Finddir, t: seq<Node>, p: nat, c: nat)
    requires Good(dir, t) && p < |t| && 0 < c < |t| && t[c].parent == Here(p)
    ensures FindChild(t, t[p].children, t[c].name) == Here(c)
  {
    assert NodeOk(dir, t, c);
    ChildrenFound(dir, t, p, t[c].name);
  }

  /** A step repeated in a larger cache changes nothing and leads to the same node. */
  lemma StepRepeats(dir: Finddir, t: seq<Node>, p: nat, name: string, v: seq<Node>)
    requires Good(dir, t) && p < |t| && Good(dir, v) && Extends(Step(dir, t, p, name).0, v)
    ensures p < |v| && Step(dir, v, p, name) == (v, Step(dir, t, p, name).1)
  {
    hide FindChild;
    StepAgrees(dir, t, p, name);
    var (u, q) := Step(dir, t, p, name);
    ExtendsTransitive(t, u, v);
    if name != "." && name != ".." {
      ChildrenFound(dir, t, p, name);
      ChildrenFound(dir, v, p, name);
      if q.Here? {
        StepIsChild(dir, t, p, name);
        ChildIsFound(dir, v, p, q.i);
      }
    }
  }

  lemma StepIsChild(dir: Finddir, t: seq<Node>, p: nat, name: string)
    requires Good(dir, t) && p < |t| && name != "." && name != ".."
    ensures var (u, q) := Step(dir, t, p, name);
      q.Here? ==> 0 < q.i < |u| && u[q.i].parent == Here(p) && u[q.i].name == name
  {
    ChildrenFound(dir, t, p, name);
  }

  /** Repeating a lookup later gives the same node and leaves the cache as it is. */
  lemma {:induction false} LookupRepeats(dir: Finddir, t: seq<Node>, p: nat, parts: seq<string>, v: seq<Node>)
    requires Good(dir, t) && p < |t| && Good(dir, v) && Extends(Lookup(dir, t, p, parts).0, v)
    ensures p < |v| && Lookup(dir, v, p, parts) == (v, Lookup(dir, t, p, parts).1)
    decreases |parts|
  {
    hide Good, Step, Extends;
    LookupAgrees(dir, t, p, parts);
    ExtendsTransitive(t, Lookup(dir, t, p, parts).0, v);
    ExtendsLength(t, v);
    if parts != [] {
      var (u, q) := Step(dir, t, p, parts[0]);
      StepAgrees(dir, t, p, parts[0]);
      if q.Here? && q.i < |u| {
        LookupAgrees(dir, u, q.i, parts[1..]);
        ExtendsTransitive(u, Lookup(dir, u, q.i, parts[1..]).0, v);
        LookupRepeats(dir, u, q.i, parts[1..], v);
      }
      StepRepeats(dir, t, p, parts[0], v);
    }
  }

  lemma ExtendsLength(t: seq<Node>, u: seq<Node>)
    requires Extends(t, u)
    ensures |t| <= |u|
  {
  }

  // --- runs -----------------------------------------------------------------------------------

  /** The cache after a sequence of lookups from the root. */
  function After(dir: Finddir, t: seq<Node>, paths: seq<seq<string>>): seq<Node>
    decreases |paths|
  {
    if paths == [] || t == [] then t else After(dir, Lookup(dir, t, 0, paths[0]).0, paths[1..])
  }

  function Root(name: string, ino: nat): seq<Node> {
    [Node(name, ino, Astray, [])]
  }

  lemma {:induction false} RunsKeepGood(dir: Finddir, t: seq<Node>, paths: seq<seq<string>>)
    requires Good(dir, t)
    ensures Good(dir, After(dir, t, paths)) && Extends(t, After(dir, t, paths))
    ensures After(dir, t, paths)[0].ino == t[0].ino
    decreases |paths|
  {
    hide Good, Extends, Lookup;
    GoodRoot(dir, t);
    if paths == [] {
      ExtendsItself(t);
    } else {
      var u := Lookup(dir, t, 0, paths[0]).0;
      LookupAgrees(dir, t, 0, paths[0]);
      RunsKeepGood(dir, u, paths[1..]);
      ExtendsTransitive(t, u, After(dir, u, paths[1..]));
    }
    GoodRoot(dir, After(dir, t, paths));
  }

  /** After any lookups at all, a path leads to the node whose trail is the plain walk's. */
  lemma AnyHistoryAgrees(dir: Finddir, name: string, ino: nat, paths: seq<seq<string>>, parts: seq<string>)
    ensures var t := After(dir, Root(name, ino), paths);
      && Good(dir, t)
      && var (u, q) := Lookup(dir, t, 0, parts);
         Good(dir, u) && Matches(dir, u, q, Walk(dir, ino, [], parts))
  {
    hide Good, Lookup, Matches, After;
    RootIsGood(dir, name, ino);
    RunsKeepGood(dir, Root(name, ino), paths);
    var t := After(dir, Root(name, ino), paths);
    GoodRoot(dir, t);
    LookupAgrees(dir, t, 0, parts);
  }

  lemma RootIsGood(dir: Finddir, name: string, ino: nat)
    ensures Good(dir, Root(name, ino))
  {
  }

  // --- the code on the heap ----------------------------------------------------------------

  /** The components of a path. */
  function Parts(path: string): seq<string> {
    PartsFrom(path + [NUL], 0, |path|)
  }

  function Texts(s: seq<char>, xs: seq<(nat, nat)>): (parts: seq<string>)
    ensures |parts| == |xs|
  {
    if xs == [] then []
    else [if xs[0].0 <= xs[0].1 <= |s| then s[xs[0].0..xs[0].1] else []] + Texts(s, xs[1..])
  }

  /** The string at p. */
  method StringAt(a: array<char>, p: nat, ghost end: nat) returns (s: string)
    requires Text(a[..], p, end)
    ensures s == a[p..end]
  {
    s := [];
    var i := p;
    while a[i] != NUL
      invariant p <= i <= end && s == a[p..i]
      decreases end - i
    {
      s := s + [a[i]];
      i := i + 1;
    }
  }

  /** The lookup state of src/fs/fs.c. */
  class Cache {
    const dir: Finddir
    var nodes: seq<Node>

    constructor (dir: Finddir, name: string, ino: nat)
      ensures this.dir == dir && nodes == Root(name, ino)
    {
      this.dir, nodes := dir, Root(name, ino);
    }

    /** `vfs_lookup_tree_fast`. */
    method LookupTreeFast(p: nat, name: string) returns (r: Place)
      requires p < |nodes| && forall c :: c in nodes[p].children ==> c < |nodes|
      ensures r == FindChild(nodes, nodes[p].children, name)
    {
      var k := 0;
      var children := nodes[p].children;
      while k < |children|
        invariant 0 <= k <= |children|
        invariant FindChild(nodes, children[k..], name) == FindChild(nodes, children, name)
      {
        assert children[k] in children;
        if nodes[children[k]].name == name { return Here(children[k]); }
        k := k + 1;
      }
      return NoEntry;
    }

    /** `vfs_lookup_tree_node`: in a cache in order, an answer is the place that a plain step in the
        directories leads to; there is none exactly for an ordinary name under which no node of
        the cache hangs below p. */
    method LookupTreeNode(p: nat, name: string) returns (r: Place)
      requires p < |nodes| && forall c :: c in nodes[p].children ==> c < |nodes|
      ensures Good(dir, nodes) && r != NoEntry ==>
        Matches(dir, nodes, r, WalkStep(dir, nodes[0].ino, TrailOf(dir, nodes, p), name))
      ensures Good(dir, nodes) ==> (r == NoEntry <==> name != "." && name != ".." && !Cached(nodes, p, name))
      ensures r == if name == "." then Here(p) else if name == ".." then nodes[p].parent
                   else FindChild(nodes, nodes[p].children, name)
    {
      if Good(dir, nodes) {
        CachedStep(dir, nodes, p, name);
      }
      if name == "." { return Here(p); }
      if name == ".." { return nodes[p].parent; }
      r := LookupTreeFast(p, name);
    }

    /** `vfs_lookup_tree_slow`. */
    method LookupTreeSlow(p: nat, name: string) returns (r: Place)
      requires p < |nodes|
      modifies `nodes
      ensures match dir(old(nodes)[p].ino, name)
        case Missing => r == NoEntry && nodes == old(nodes)
        case Inode(ino) => r == Here(|old(nodes)|) && nodes == Insert(old(nodes), p, name, ino)
    {
      match dir(nodes[p].ino, name)
      case Missing => r := NoEntry;
      case Inode(ino) =>
        r := Here(|nodes|);
        nodes := nodes[p := nodes[p].(children := nodes[p].children + [|nodes|])] + [Node(name, ino, Here(p), [])];
    }

    /** One turn of the loop of `vfs_lookup_tree`. */
    method LookupPart(p: nat, name: string) returns (r: Place)
      requires Good(dir, nodes) && p < |nodes|
      modifies `nodes
      ensures (nodes, r) == Step(dir, old(nodes), p, name) && Good(dir, nodes)
      ensures r.Here? ==> r.i < |nodes|
    {
      hide Good, FindChild, Insert;
      StepAgrees(dir, nodes, p, name);
      ChildrenFound(dir, nodes, p, name);
      assert forall c :: c in nodes[p].children ==> ChildOk(nodes, p, c);
      r := LookupTreeNode(p, name);
      if r != NoEntry { return; }
      NoParentMissing(dir, nodes, p);
      r := LookupTreeSlow(p, name);
    }

    /** `vfs_lookup_tree`: parts are cut off the copied path by `strtok` while the lookup goes on;
        `mem` says whether there is memory for the copy. `FS_LOOKUP_ABSOLUTE` only changes a variable
        that is not read again: the walk starts at the node of the request. */
    method LookupTree(path: string, start: nat, absolute: bool, mem: bool) returns (r: Place)
      requires Good(dir, nodes) && start < |nodes| && NUL !in path
      modifies `nodes
      ensures Good(dir, nodes)
      ensures mem ==> (nodes, r) == Lookup(dir, old(nodes), start, Parts(path))
      ensures !mem ==> nodes == old(nodes) && r == NoEntry
    {
      hide Good, Step, Spans, Text, Lookup, Texts, SameFrom;
      if !mem { return NoEntry; }
      var node: nat := start;
      if absolute { node := 0; }
      var n := |path|;
      var a := new char[n + 1](i => if 0 <= i < n then path[i] else NUL);
      ghost var s := path + [NUL];
      assert a[..] == s;
      SameAsItself(s);
      var tk := new Tokenizer();
      PathIsText(path);
      var more, part, next := NextPart(tk, a, Ptr.At(0), s, 0, n);
      var p: nat := start;
      while more
        invariant p < |nodes| && Good(dir, nodes) && fresh(a) && fresh(tk)
        invariant next <= n && SameFrom(s, a[..], next) && if tk.p.At? then tk.p.pos == next else next == n
        invariant Lookup(dir, nodes, p, if more then [part] + PartsFrom(s, next, n) else [])
               == Lookup(dir, old(nodes), start, Parts(path))
        decreases n - next, more
      {
        LookupStep(dir, nodes, p, part, PartsFrom(s, next, n));
        r := LookupPart(p, part);
        if !r.Here? { return; }
        p := r.i;
        more, part, next := NextPart(tk, a, Null, s, next, n);
      }
      NoParts(dir, nodes, p);
      return Here(p);
    }
  }

  /** The parts of the path that are still to come. */
  function PartsFrom(s: string, p: nat, end: nat): seq<string>
    requires p <= end <= |s|
  {
    Texts(s, Spans(s, p, end, "/"))
  }

  /** `strtok` with "/" as the delimiter, and the part it points to. */
  method NextPart(tk: Tokenizer, a: array<char>, str: Ptr, ghost s: string, ghost store: nat, ghost end: nat)
      returns (more: bool, part: string, ghost next: nat)
    requires Text(s, 0, end) && store <= end < |s| && SameFrom(s, a[..], store)
    requires str.At? ==> str.pos == store
    requires str.Null? ==> if tk.p.At? then tk.p.pos == store else store == end
    modifies tk, a
    ensures store <= next <= end && SameFrom(s, a[..], next) && if tk.p.At? then tk.p.pos == next else next == end
    ensures PartsFrom(s, store, end) == if more then [part] + PartsFrom(s, next, end) else []
  {
    hide Text, Spans, Texts, SameFrom;
    var tok, to, b, e := NextToken(tk, a, str, "/", s, store, end);
    next, more, part := to, tok.At?, "";
    NoTexts(s);
    if more {
      part := StringAt(a, tok.pos, e);
      TextsStep(s, b, e, Spans(s, next, end, "/"));
    }
  }

  lemma NoTexts(s: string)
    ensures Texts(s, []) == []
  {
  }

  /** A request flagged absolute is promised the walk from the root. It gets it for every path
      exactly when its node is the root: "/" from any other node answers that node. */
  lemma AbsoluteStartsAtRootExactlyWhen(dir: Finddir, t: seq<Node>, p: nat)
    requires p < |t|
    ensures p == 0 <==> forall path: string :: NUL !in path ==>
      Lookup(dir, t, p, Parts(path)) == Lookup(dir, t, 0, Parts(path))
  {
    hide Lookup, Parts;
    assert Parts("/") == [] by { OnlySlash(); }
    NoParts(dir, t, p);
    NoParts(dir, t, 0);
  }

  lemma OnlySlash()
    ensures Parts("/") == []
  {
    assert Stretch("/" + [NUL], 0, 1, "/", true) == 1;
    NoTexts("/" + [NUL]);
  }

  lemma NoParts(dir: Finddir, t: seq<Node>, p: nat)
    requires p < |t|
    ensures Lookup(dir, t, p, []) == (t, Here(p))
  {
  }

  lemma TextsStep(s: string, b: nat, e: nat, xs: seq<(nat, nat)>)
    requires b <= e <= |s|
    ensures Texts(s, [(b, e)] + xs) == [s[b..e]] + Texts(s, xs)
  {
  }

  lemma LookupStep(dir: Finddir, t: seq<Node>, p: nat, name: string, parts: seq<string>)
    requires p < |t|
    ensures var (u, q) := Step(dir, t, p, name);
      Lookup(dir, t, p, [name] + parts) == if q.Here? && q.i < |u| then Lookup(dir, u, q.i, parts) else (u, q)
  {
    hide Step;
  }

  lemma PathIsText(path: string)
    requires NUL !in path
    ensures Text(path + [NUL], 0, |path|)
  {
  }

  lemma NoParentMissing(dir: Finddir, t: seq<Node>, p: nat)
    requires Good(dir, t) && p < |t|
    ensures t[p].parent != NoEntry
  {
    if p > 0 { assert NodeOk(dir, t, p); }
  }
}
