/** The mount registry built once at startup (public_folders/index.js:20-46).
    Each configured entry `url:path` names a URL prefix and the directory
    served under it. The source keeps a tree of nested `{directories: {}}`
    objects keyed by URL segment; here the tree is an arena of nodes, where a
    node's children map a segment to the index of the child node and node 0
    is the root. */
module Registry {
  import opened Options
  import opened Text

  /** One segment of a registered URL: its children by segment, and the
      directory mounted here, if an entry ends at this node. */
  datatype Node = Node(children: map<string, nat>, path: Option<string>)

  /** Every child index lies inside the arena, and the root (the empty
      prefix) carries no directory. */
  predicate WellFormed(nodes: seq<Node>)
  {
    && |nodes| > 0
    && nodes[0].path == None
    && forall i, s :: 0 <= i < |nodes| && s in nodes[i].children ==> nodes[i].children[s] < |nodes|
  }

  /** The node reached from the root by following the segments of `p` one
      child step at a time, or None when some step has no child. */
  function Locate(nodes: seq<Node>, p: seq<string>): (r: Option<nat>)
    requires WellFormed(nodes)
    ensures r.Some? ==> r.value < |nodes|
    ensures p == [] ==> r == Some(0)
    decreases |p|
  {
    if p == [] then Some(0)
    else
      var up := Locate(nodes, p[..|p| - 1]);
      var seg := p[|p| - 1];
      if up.Some? && seg in nodes[up.value].children then Some(nodes[up.value].children[seg]) else None
  }

  /** The directory mounted at prefix `p`, if any: the abstract view of the
      registry as a map from segment sequences to directories. */
  function MountAt(nodes: seq<Node>, p: seq<string>): Option<string>
    requires WellFormed(nodes)
  {
    var n := Locate(nodes, p);
    if n.Some? then nodes[n.value].path else None
  }

  /** One more segment is one more child step. */
  lemma LocateStep(nodes: seq<Node>, p: seq<string>, s: string)
    requires WellFormed(nodes)
    ensures Locate(nodes, p + [s]) ==
      var up := Locate(nodes, p);
      if up.Some? && s in nodes[up.value].children then Some(nodes[up.value].children[s]) else None
  {
    assert (p + [s])[..|p|] == p;
  }

  /** Once a step misses, every longer path misses too. */
  lemma {:induction false} LocateMissExtends(nodes: seq<Node>, p: seq<string>, q: seq<string>)
    requires WellFormed(nodes)
    requires Locate(nodes, p) == None
    ensures Locate(nodes, p + q) == None
    decreases |q|
  {
    if q == [] {
      assert p + q == p;
    } else {
      var q' := q[..|q| - 1];
      LocateMissExtends(nodes, p, q');
      assert p + q == (p + q') + [q[|q| - 1]];
      LocateStep(nodes, p + q', q[|q| - 1]);
    }
  }

  /** `prefixes[i]` is the segment path by which node i was created: the
      root's is empty and a child's is its parent's plus the child's key. */
  ghost predicate Named(nodes: seq<Node>, prefixes: seq<seq<string>>)
    requires WellFormed(nodes)
  {
    && |prefixes| == |nodes|
    && prefixes[0] == []
    && forall i, s :: 0 <= i < |nodes| && s in nodes[i].children ==>
         prefixes[nodes[i].children[s]] == prefixes[i] + [s]
  }

  /** A node can be reached only by the path it is named by, so each prefix
      has its own node. */
  lemma {:induction false} LocatedAtPrefix(nodes: seq<Node>, prefixes: seq<seq<string>>, p: seq<string>)
    requires WellFormed(nodes) && Named(nodes, prefixes)
    requires Locate(nodes, p).Some?
    ensures prefixes[Locate(nodes, p).value] == p
    decreases |p|
  {
    if p != [] {
      var q := p[..|p| - 1];
      LocatedAtPrefix(nodes, prefixes, q);
      assert q + [p[|p| - 1]] == p;
    }
  }

  /** Every directory set in the arena is a non-empty string. */
  predicate PathsNonEmpty(nodes: seq<Node>)
  {
    forall i :: 0 <= i < |nodes| && nodes[i].path.Some? ==> nodes[i].path.value != ""
  }

  /** The arena after creating an empty child of node `n` under key `seg`
      (public_folders/index.js:38, 41). */
  function AddChild(nodes: seq<Node>, n: nat, seg: string): (r: seq<Node>)
    requires n < |nodes|
    ensures |r| == |nodes| + 1
  {
    nodes[n := nodes[n].(children := nodes[n].children[seg := |nodes|])] + [Node(map[], None)]
  }

  /** Creating a child changes only the walk to the new node, which carries
      no directory. */
  lemma {:induction false} AddChildLocate(nodes: seq<Node>, n: nat, seg: string, p: seq<string>)
    requires WellFormed(nodes) && n < |nodes| && seg !in nodes[n].children
    ensures WellFormed(AddChild(nodes, n, seg))
    ensures var now := Locate(AddChild(nodes, n, seg), p);
      now == Locate(nodes, p) || (Locate(nodes, p) == None && now == Some(|nodes|))
    decreases |p|
  {
    var grown := AddChild(nodes, n, seg);
    assert WellFormed(grown) by {
      forall i, s | 0 <= i < |grown| && s in grown[i].children
        ensures grown[i].children[s] < |grown|
      {
        if i != n { assert grown[i] == nodes[i]; }
      }
    }
    if p != [] {
      var q := p[..|p| - 1];
      AddChildLocate(nodes, n, seg, q);
      assert q + [p[|p| - 1]] == p;
      LocateStep(nodes, q, p[|p| - 1]);
      LocateStep(grown, q, p[|p| - 1]);
    }
  }

  /** The new node is named by its parent's path and its key. */
  lemma AddChildNamed(nodes: seq<Node>, prefixes: seq<seq<string>>, n: nat, seg: string)
    requires WellFormed(nodes) && Named(nodes, prefixes) && n < |nodes| && seg !in nodes[n].children
    ensures WellFormed(AddChild(nodes, n, seg))
    ensures Named(AddChild(nodes, n, seg), prefixes + [prefixes[n] + [seg]])
  {
    var grown := AddChild(nodes, n, seg);
    var named := prefixes + [prefixes[n] + [seg]];
    AddChildLocate(nodes, n, seg, []);
    forall j, s | 0 <= j < |grown| && s in grown[j].children
      ensures named[grown[j].children[s]] == named[j] + [s]
    {
      if j != n { assert grown[j] == nodes[j]; }
    }
  }

  /** Everything the registry keeps true survives creating the child for
      `seg` below the node reached by `p`, and the walk along `p + [seg]` now
      ends at the new node. */
  lemma Grow(nodes: seq<Node>, prefixes: seq<seq<string>>, n: nat, p: seq<string>, seg: string)
    requires WellFormed(nodes) && Named(nodes, prefixes) && PathsNonEmpty(nodes)
    requires Locate(nodes, p) == Some(n) && seg !in nodes[n].children
    ensures var grown := AddChild(nodes, n, seg);
      && WellFormed(grown)
      && Named(grown, prefixes + [prefixes[n] + [seg]])
      && PathsNonEmpty(grown)
      && Locate(grown, p + [seg]) == Some(|nodes|)
      && forall q :: MountAt(grown, q) == MountAt(nodes, q)
  {
    var grown := AddChild(nodes, n, seg);
    AddChildMounts(nodes, n, seg);
    AddChildLocate(nodes, n, seg, p);
    LocateStep(grown, p, seg);
    AddChildNamed(nodes, prefixes, n, seg);
    AddChildPaths(nodes, n, seg);
  }

  /** The new node carries no directory, and the others keep theirs. */
  lemma AddChildPaths(nodes: seq<Node>, n: nat, seg: string)
    requires PathsNonEmpty(nodes) && n < |nodes|
    ensures PathsNonEmpty(AddChild(nodes, n, seg))
  {
    var grown := AddChild(nodes, n, seg);
    forall i | 0 <= i < |grown| && grown[i].path.Some? ensures grown[i].path.value != "" {
      if i < |nodes| { assert grown[i].path == nodes[i].path; }
    }
  }

  /** Creating a child leaves every mount where it was. */
  lemma AddChildMounts(nodes: seq<Node>, n: nat, seg: string)
    requires WellFormed(nodes) && n < |nodes| && seg !in nodes[n].children
    ensures WellFormed(AddChild(nodes, n, seg))
    ensures forall p :: MountAt(AddChild(nodes, n, seg), p) == MountAt(nodes, p)
  {
    AddChildLocate(nodes, n, seg, []);
    forall p ensures MountAt(AddChild(nodes, n, seg), p) == MountAt(nodes, p) {
      AddChildLocate(nodes, n, seg, p);
    }
  }

  /** Two arenas with the same edges walk alike. */
  lemma {:induction false} SameEdgesLocate(nodes: seq<Node>, other: seq<Node>, p: seq<string>)
    requires WellFormed(nodes) && WellFormed(other) && |nodes| == |other|
    requires forall i :: 0 <= i < |nodes| ==> nodes[i].children == other[i].children
    ensures Locate(nodes, p) == Locate(other, p)
    decreases |p|
  {
    if p != [] {
      SameEdgesLocate(nodes, other, p[..|p| - 1]);
    }
  }

  /** Setting the directory of the node named `segs` changes the mount at
      `segs` and at no other prefix (public_folders/index.js:44). */
  lemma SetPathMounts(nodes: seq<Node>, prefixes: seq<seq<string>>, segs: seq<string>, path: string)
    requires WellFormed(nodes) && Named(nodes, prefixes)
    requires segs != [] && Locate(nodes, segs).Some?
    ensures Locate(nodes, segs).value != 0
    ensures var n := Locate(nodes, segs).value;
      var set' := nodes[n := nodes[n].(path := Some(path))];
      && WellFormed(set')
      && forall p :: MountAt(set', p) == if p == segs then Some(path) else MountAt(nodes, p)
  {
    var n := Locate(nodes, segs).value;
    LocatedAtPrefix(nodes, prefixes, segs);
    var set' := nodes[n := nodes[n].(path := Some(path))];
    forall p ensures MountAt(set', p) == if p == segs then Some(path) else MountAt(nodes, p) {
      SameEdgesLocate(nodes, set', p);
      if Locate(nodes, p) == Some(n) {
        LocatedAtPrefix(nodes, prefixes, p);
      }
    }
  }

  /** The regular expression class `[a-zA-Z\-_0-9\/\.]`. */
  predicate IsPathChar(ch: char)
  {
    || 'a' <= ch <= 'z' || 'A' <= ch <= 'Z' || '0' <= ch <= '9'
    || ch == '-' || ch == '_' || ch == '/' || ch == '.'
  }

  /** `s.match(/([a-zA-Z\-_0-9\/\.]+)/)` as a condition. The pattern is not
      anchored, so it succeeds as soon as one character of the class occurs
      anywhere in `s`. */
  function RegexTest(s: string): (found: bool)
    ensures found <==> exists i :: 0 <= i < |s| && IsPathChar(s[i])
    decreases |s|
  {
    if s == [] then false
    else IsPathChar(s[0]) || RegexTest(s[1..])
  }

  /** A configuration entry split into its URL prefix and directory. */
  datatype Mapping = Mapping(url: string, path: string)

  /** `let [full_url, full_path] = str.split(":")`: the text before the first
      colon and the text between the first and the second colon (or the end);
      anything after a second colon is dropped. */
  function ParseEntry(entry: string): (m: Mapping)
    requires ':' in entry
    ensures ':' !in m.url && ':' !in m.path
    ensures |m.url| < |entry| && entry[..|m.url|] == m.url && entry[|m.url|] == ':'
    ensures var rest := entry[|m.url| + 1..];
      |m.path| <= |rest| && rest[..|m.path|] == m.path && (|m.path| == |rest| || rest[|m.path|] == ':')
  {
    var fields := Split(entry, ':');
    EntryFields(entry);
    Mapping(fields[0], fields[1])
  }

  /** The first two pieces of a split on ':' sit at the front of the entry. */
  lemma EntryFields(entry: string)
    requires ':' in entry
    ensures var f := Split(entry, ':');
      && |f| >= 2 && ':' !in f[0] && ':' !in f[1]
      && |f[0]| < |entry| && entry[..|f[0]|] == f[0] && entry[|f[0]|] == ':'
      && var rest := entry[|f[0]| + 1..];
      |f[1]| <= |rest| && rest[..|f[1]|] == f[1] && (|f[1]| == |rest| || rest[|f[1]|] == ':')
  {
    var f := Split(entry, ':');
    SplitPieces(entry, ':');
    JoinSplit(entry, ':');
    var tail := JoinWith(f[1..], ":");
    assert entry == f[0] + ":" + tail;
    assert entry[|f[0]| + 1..] == tail;
    if |f| > 2 {
      assert tail == f[1] + ":" + JoinWith(f[2..], ":");
    }
  }

  /** `full_url`, the first field of `str.split(":")`: the text before the
      first colon, or the whole entry when it has none. */
  function UrlField(entry: string): (url: string)
  {
    Split(entry, ':')[0]
  }

  /** An entry the source can read without throwing: one with a colon, or one
      whose URL field (then the whole entry) fails the check, so that the
      loop moves on before it reaches the missing directory field
      (public_folders/index.js:24-31). */
  predicate Readable(entry: string)
  {
    ':' in entry || !RegexTest(entry)
  }

  /** An entry whose URL field passes the check has a colon. */
  lemma UrlPassesHasColon(entry: string)
    requires Readable(entry) && RegexTest(UrlField(entry))
    ensures ':' in entry
  {
    if ':' !in entry {
      SplitAtom(entry, ':');
    }
  }

  /** The entry as registered, or None when the check at
      public_folders/index.js:26-34 skips it: an entry without a colon is
      skipped on its URL, and an entry with one is skipped exactly when its
      URL part or its directory part contains no character of the class. */
  function Accept(entry: string): (r: Option<Mapping>)
    requires Readable(entry)
    ensures ':' !in entry ==> r.None?
    ensures ':' in entry ==> (r.None? <==>
      || (forall i :: 0 <= i < |ParseEntry(entry).url| ==> !IsPathChar(ParseEntry(entry).url[i]))
      || (forall i :: 0 <= i < |ParseEntry(entry).path| ==> !IsPathChar(ParseEntry(entry).path[i])))
    ensures r.Some? ==> ':' in entry && r.value == ParseEntry(entry) && r.value.path != ""
  {
    if !RegexTest(UrlField(entry)) then None
    else
      UrlPassesHasColon(entry);
      var m := ParseEntry(entry);
      if RegexTest(m.path) then Some(m) else None
  }

  /** Every configuration entry can be read (an entry without a colon whose
      text passes the check makes the source throw at startup). */
  predicate Entries(folders: seq<string>)
  {
    forall k :: 0 <= k < |folders| ==> Readable(folders[k])
  }

  /** Entry k is accepted and registers the prefix `p`. */
  predicate Registers(folders: seq<string>, k: nat, p: seq<string>)
    requires Entries(folders) && k < |folders|
  {
    var m := Accept(folders[k]);
    m.Some? && Split(m.value.url, '/') == p
  }

  /** The directory the configuration mounts at prefix `p`: that of the last
      accepted entry whose URL splits into `p`. */
  function ConfigMount(folders: seq<string>, p: seq<string>): (r: Option<string>)
    requires Entries(folders)
    ensures r.Some? ==> p != [] && r.value != ""
    decreases |folders|
  {
    if folders == [] then None
    else
      var last := |folders| - 1;
      if Registers(folders, last, p) then Some(Accept(folders[last]).value.path)
      else ConfigMount(folders[..last], p)
  }

  /** Entry k is the last one that registers `p`. */
  predicate IsLast(folders: seq<string>, k: nat, p: seq<string>)
    requires Entries(folders) && k < |folders|
  {
    Registers(folders, k, p) && forall j :: k < j < |folders| ==> !Registers(folders, j, p)
  }

  /** The configuration mounts something at `p` exactly when some entry
      registers `p`. */
  lemma {:induction false} ConfigMountRegistered(folders: seq<string>, p: seq<string>)
    requires Entries(folders)
    ensures ConfigMount(folders, p).Some? <==> exists k :: 0 <= k < |folders| && Registers(folders, k, p)
    decreases |folders|
  {
    if folders != [] {
      var last := |folders| - 1;
      var init := folders[..last];
      ConfigMountRegistered(init, p);
      forall k | 0 <= k < last ensures Registers(init, k, p) == Registers(folders, k, p) {
        assert init[k] == folders[k];
      }
    }
  }

  /** Last write wins: when entry k is the last entry that registers `p`, the
      configuration mounts entry k's directory at `p`, whatever earlier
      entries registered there. */
  lemma {:induction false} ConfigMountLastWins(folders: seq<string>, p: seq<string>, k: nat)
    requires Entries(folders) && k < |folders|
    requires IsLast(folders, k, p)
    ensures ConfigMount(folders, p) == Some(Accept(folders[k]).value.path)
    decreases |folders|
  {
    var last := |folders| - 1;
    if k < last {
      var init := folders[..last];
      assert !Registers(folders, last, p);
      assert init[k] == folders[k];
      forall j | k < j < |init| ensures !Registers(init, j, p) {
        assert init[j] == folders[j];
        assert !Registers(folders, j, p);
      }
      ConfigMountLastWins(init, p, k);
    }
  }

  /** The registry of mounts, updated in place while the configuration is
      read (public_folders/index.js:21-46). */
  class MountRegistry {
    var nodes: seq<Node>
    /** The segment path naming each node. */
    ghost var prefixes: seq<seq<string>>

    ghost predicate Valid()
      reads this
    {
      && WellFormed(nodes)
      && Named(nodes, prefixes)
      && PathsNonEmpty(nodes)
    }

    /** Walks from the root along `segs`, creating each missing child on the
        way, and returns the node reached (public_folders/index.js:36-42: the
        first segment is looked up before the loop and the others inside it,
        and both are the same lookup-or-create step). No mount changes. */
    method Extend(segs: seq<string>) returns (node: nat)
      requires Valid()
      modifies this
      ensures Valid()
      ensures Locate(nodes, segs) == Some(node)
      ensures forall p :: MountAt(nodes, p) == MountAt(old(nodes), p)
    {
      node := 0;
      var i := 0;
      while i < |segs|
        invariant Valid()
        invariant 0 <= i <= |segs|
        invariant Locate(nodes, segs[..i]) == Some(node)
        invariant forall p :: MountAt(nodes, p) == MountAt(old(nodes), p)
      {
        var seg := segs[i];
        assert segs[..i + 1] == segs[..i] + [seg];
        if seg in nodes[node].children {
          LocateStep(nodes, segs[..i], seg);
          node := nodes[node].children[seg];
        } else {
          Grow(nodes, prefixes, node, segs[..i], seg);
          nodes, prefixes := AddChild(nodes, node, seg), prefixes + [prefixes[node] + [seg]];
          node := |nodes| - 1;
        }
        i := i + 1;
      }
      assert segs[..|segs|] == segs;
    }

    /** Registers `path` at the `/`-separated segments of `url`
        (public_folders/index.js:36-44): the walk creates the missing nodes
        and the last node gets `path`. A later registration of the same URL
        overwrites an earlier one, and no other mount changes. */
    method Register(url: string, path: string)
      requires Valid()
      requires path != ""
      modifies this
      ensures Valid()
      ensures forall p :: MountAt(nodes, p) == if p == Split(url, '/') then Some(path) else MountAt(old(nodes), p)
    {
      var segs := Split(url, '/');
      var node := Extend(segs);
      SetPathMounts(nodes, prefixes, segs, path);
      nodes := nodes[node := nodes[node].(path := Some(path))];
    }

    /** Builds the registry from the configured folder entries in order,
        skipping the entries the check rejects (public_folders/index.js:21-46).
        The result mounts at each prefix what the configuration says. */
    constructor Load(folders: seq<string>)
      requires Entries(folders)
      ensures Valid()
      ensures forall p :: MountAt(nodes, p) == ConfigMount(folders, p)
    {
      nodes := [Node(map[], None)];
      prefixes := [[]];
      new;
      forall p ensures MountAt(nodes, p) == None {
        if p != [] {
          LocateStep(nodes, p[..|p| - 1], p[|p| - 1]);
          assert p[..|p| - 1] + [p[|p| - 1]] == p;
        }
      }
      for k := 0 to |folders|
        invariant Valid()
        invariant forall p :: MountAt(nodes, p) == ConfigMount(folders[..k], p)
      {
        assert folders[..k + 1][..k] == folders[..k];
        var entry := folders[k];
        var url := UrlField(entry);
        if !RegexTest(url) {
          continue;
        }
        UrlPassesHasColon(entry);
        var m := ParseEntry(entry);
        if !RegexTest(m.path) {
          continue;
        }
        Register(m.url, m.path);
      }
      assert folders[..|folders|] == folders;
    }
  }
}
