/** The request resolver (public_folders/index.js:63-88): the request URL is
    cut into segments, the mount tree is walked from the root one segment at a
    time, and the deepest node on the walk that carries a directory decides
    which directory serves the request and which segments remain below it. */
module Resolver {
  import opened Options
  import opened Text
  import opened Registry

  /** `.filter(part => part.length > 0)`: the non-empty pieces in order. */
  function NonEmpty(xs: seq<string>): (r: seq<string>)
    ensures forall i :: 0 <= i < |r| ==> r[i] != ""
    ensures forall s :: s in r <==> s in xs && s != ""
    decreases |xs|
  {
    if xs == [] then []
    else (if xs[0] == "" then [] else [xs[0]]) + NonEmpty(xs[1..])
  }

  lemma {:induction false} NonEmptyConcat(a: seq<string>, b: seq<string>)
    ensures NonEmpty(a + b) == NonEmpty(a) + NonEmpty(b)
    decreases |a|
  {
    if a == [] {
      assert a + b == b;
    } else {
      assert (a + b)[1..] == a[1..] + b;
      NonEmptyConcat(a[1..], b);
    }
  }

  lemma {:induction false} NonEmptyKeepsAll(xs: seq<string>)
    requires forall i :: 0 <= i < |xs| ==> xs[i] != ""
    ensures NonEmpty(xs) == xs
    decreases |xs|
  {
    if xs != [] {
      NonEmptyKeepsAll(xs[1..]);
    }
  }

  /** The segments of a request URL: `req.url.split("/")` without its empty
      pieces (public_folders/index.js:66). No segment is empty and none holds
      a slash, whatever slashes the URL has at its ends or doubled inside. */
  function RequestSegments(url: string): (segs: seq<string>)
    ensures forall i :: 0 <= i < |segs| ==> segs[i] != "" && '/' !in segs[i]
  {
    var pieces := Split(url, '/');
    SplitPieces(url, '/');
    assert forall x :: x in pieces ==> '/' !in x;
    NonEmpty(pieces)
  }

  /** A URL built as "/" followed by slash-free segments joined with "/" is
      cut back into exactly those segments. */
  lemma SegmentsRoundTrip(segs: seq<string>)
    requires forall i :: 0 <= i < |segs| ==> segs[i] != "" && '/' !in segs[i]
    ensures RequestSegments("/" + JoinWith(segs, "/")) == segs
  {
    var joined := JoinWith(segs, "/");
    assert "/" + joined == [] + ['/'] + joined;
    SplitConcat([], joined, '/');
    if segs == [] {
      assert Split(joined, '/') == [""];
    } else {
      SplitJoin(segs, '/');
    }
    NonEmptyConcat([""], Split(joined, '/'));
    NonEmptyKeepsAll(segs);
  }

  /** A slash at the end of a URL changes nothing. */
  lemma TrailingSlashIgnored(url: string)
    ensures RequestSegments(url + "/") == RequestSegments(url)
  {
    assert url + "/" == url + ['/'] + [];
    SplitConcat(url, [], '/');
    NonEmptyConcat(Split(url, '/'), [""]);
  }

  /** A slash at the start of a URL changes nothing. */
  lemma LeadingSlashIgnored(url: string)
    ensures RequestSegments("/" + url) == RequestSegments(url)
  {
    assert "/" + url == [] + ['/'] + url;
    SplitConcat([], url, '/');
    NonEmptyConcat([""], Split(url, '/'));
  }

  /** A doubled slash inside a URL reads as a single one. */
  lemma DoubleSlashCollapses(a: string, b: string)
    ensures RequestSegments(a + "//" + b) == RequestSegments(a + "/" + b)
  {
    assert a + "//" + b == a + ['/'] + ([] + ['/'] + b);
    assert a + "/" + b == a + ['/'] + b;
    SplitConcat(a, [] + ['/'] + b, '/');
    SplitConcat([], b, '/');
    SplitConcat(a, b, '/');
    NonEmptyConcat(Split(a, '/'), [""] + Split(b, '/'));
    NonEmptyConcat([""], Split(b, '/'));
    NonEmptyConcat(Split(a, '/'), Split(b, '/'));
  }

  /** `if (directory.path)`: JavaScript truthiness of the node's directory,
      which a missing or empty string fails. */
  predicate Truthy(path: Option<string>)
  {
    path.Some? && path.value != ""
  }

  /** The length of the longest prefix among the first `k` prefixes of
      `segs` (of length 1 to k) whose node carries a directory, by looking at
      every prefix from the longest down. This is the reference the walk is
      checked against: the walk descends from the root and remembers. */
  function Deepest(nodes: seq<Node>, segs: seq<string>, k: nat): Option<nat>
    requires WellFormed(nodes) && k <= |segs|
    decreases k
  {
    if k == 0 then None
    else if Truthy(MountAt(nodes, segs[..k])) then Some(k)
    else Deepest(nodes, segs, k - 1)
  }

  /** Deepest finds a mounted prefix, and no longer one up to k is mounted;
      when it finds none, no prefix up to k is mounted. */
  lemma {:induction false} DeepestIsDeepest(nodes: seq<Node>, segs: seq<string>, k: nat)
    requires WellFormed(nodes) && k <= |segs|
    ensures var r := Deepest(nodes, segs, k);
      && (r.Some? ==> 1 <= r.value <= k && Truthy(MountAt(nodes, segs[..r.value])))
      && (r.Some? ==> forall j :: r.value < j <= k ==> !Truthy(MountAt(nodes, segs[..j])))
      && (r.None? ==> forall j :: 1 <= j <= k ==> !Truthy(MountAt(nodes, segs[..j])))
    decreases k
  {
    if k > 0 {
      DeepestIsDeepest(nodes, segs, k - 1);
    }
  }

  /** What the handler works out: no mount (answered with 404), or the
      consumed prefix `location`, the residual segments `parts` and the
      directory `root` mounted at `location`. */
  datatype Resolution = NotFound | Resolved(location: seq<string>, parts: seq<string>, root: string)

  /** The resolution of the segments `segs`, by the deepest mounted prefix. */
  function Select(nodes: seq<Node>, segs: seq<string>): (r: Resolution)
    requires WellFormed(nodes)
    ensures r.Resolved? ==> r.location != [] && r.location + r.parts == segs
    ensures r.Resolved? ==> MountAt(nodes, r.location) == Some(r.root) && r.root != ""
  {
    match Deepest(nodes, segs, |segs|)
    case None => NotFound
    case Some(j) =>
      DeepestIsDeepest(nodes, segs, |segs|);
      assert segs[..j] + segs[j..] == segs;
      Resolved(segs[..j], segs[j..], MountAt(nodes, segs[..j]).value)
  }

  /** Past the first segment without a child nothing is mounted, so the
      deepest mount lies within the walked part. */
  lemma {:induction false} DeepestPastMiss(nodes: seq<Node>, segs: seq<string>, k: nat, m: nat)
    requires WellFormed(nodes) && k < |segs| && k <= m <= |segs|
    requires Locate(nodes, segs[..k + 1]) == None
    ensures Deepest(nodes, segs, m) == Deepest(nodes, segs, k)
    decreases m
  {
    if m > k {
      DeepestPastMiss(nodes, segs, k, m - 1);
      assert segs[..m] == segs[..k + 1] + segs[k + 1..m];
      LocateMissExtends(nodes, segs[..k + 1], segs[k + 1..m]);
    }
  }

  /** Deepest looks only at the first k segments. */
  lemma {:induction false} DeepestOfPrefix(nodes: seq<Node>, segs: seq<string>, other: seq<string>, k: nat)
    requires WellFormed(nodes) && k <= |segs| && k <= |other| && segs[..k] == other[..k]
    ensures Deepest(nodes, segs, k) == Deepest(nodes, other, k)
    decreases k
  {
    if k > 0 {
      assert segs[..k - 1] == other[..k - 1] by {
        assert segs[..k - 1] == segs[..k][..k - 1];
        assert other[..k - 1] == other[..k][..k - 1];
      }
      DeepestOfPrefix(nodes, segs, other, k - 1);
    }
  }

  /** The walk stops at the first segment with no child: whatever follows a
      prefix that leads nowhere does not change which mount is chosen. */
  lemma TailAfterMissIrrelevant(nodes: seq<Node>, pre: seq<string>, t1: seq<string>, t2: seq<string>)
    requires WellFormed(nodes) && Locate(nodes, pre) == None
    ensures var r1 := Select(nodes, pre + t1);
      var r2 := Select(nodes, pre + t2);
      && r1.NotFound? == r2.NotFound?
      && (r1.Resolved? ==> r1.location == r2.location && r1.root == r2.root)
  {
    var k := |pre| - 1;
    assert (pre + t1)[..k + 1] == pre;
    assert (pre + t2)[..k + 1] == pre;
    DeepestPastMiss(nodes, pre + t1, k, |pre + t1|);
    DeepestPastMiss(nodes, pre + t2, k, |pre + t2|);
    assert (pre + t1)[..k] == (pre + t2)[..k];
    DeepestOfPrefix(nodes, pre + t1, pre + t2, k);
    DeepestIsDeepest(nodes, pre + t1, k);
    var j := Deepest(nodes, pre + t1, k);
    if j.Some? {
      assert (pre + t1)[..j.value] == (pre + t2)[..j.value];
    }
  }

  /** A request whose first segment is not a registered first segment finds
      no mount (answered "Resource not found"). */
  lemma UnknownFirstSegment(nodes: seq<Node>, segs: seq<string>)
    requires WellFormed(nodes)
    requires segs == [] || segs[0] !in nodes[0].children
    ensures Select(nodes, segs) == NotFound
  {
    if segs != [] {
      LocateStep(nodes, [], segs[0]);
      assert [] + [segs[0]] == segs[..1];
      assert Locate(nodes, segs[..1]) == None;
      DeepestPastMiss(nodes, segs, 0, |segs|);
    }
    assert Deepest(nodes, segs, |segs|) == None;
  }

  /** The longest mount wins: when `prefix` is mounted with `root` and no
      longer prefix of `prefix + rest` is mounted, the request resolves to
      `root` with residual `rest`, whatever shorter prefixes are mounted. */
  lemma LongestMountWins(nodes: seq<Node>, prefix: seq<string>, rest: seq<string>, root: string)
    requires WellFormed(nodes) && prefix != []
    requires MountAt(nodes, prefix) == Some(root) && root != ""
    requires forall j :: |prefix| < j <= |prefix + rest| ==> !Truthy(MountAt(nodes, (prefix + rest)[..j]))
    ensures Select(nodes, prefix + rest) == Resolved(prefix, rest, root)
  {
    var segs := prefix + rest;
    assert segs[..|prefix|] == prefix;
    DeepestIsDeepest(nodes, segs, |segs|);
    var d := Deepest(nodes, segs, |segs|);
    assert d == Some(|prefix|);
    assert segs[|prefix|..] == rest;
  }

  /** A URL ending in a slash has an empty last piece. */
  lemma TrailingEmptyPiece(a: string)
    ensures var pieces := Split(a + ['/'], '/'); pieces[|pieces| - 1] == ""
  {
    assert a + ['/'] + [] == a + ['/'];
    SplitConcat(a, [], '/');
  }

  /** A URL with a slash at either end has an empty piece there. */
  lemma SlashEdgedHasEmptyPiece(url: string)
    requires url != [] && (url[0] == '/' || url[|url| - 1] == '/')
    ensures "" in Split(url, '/')
  {
    var pieces := Split(url, '/');
    if url[0] == '/' {
      assert pieces[0] == "";
    } else {
      var a := url[..|url| - 1];
      assert a + ['/'] == url;
      TrailingEmptyPiece(a);
      assert pieces[|pieces| - 1] == "";
    }
  }

  /** A mount registered under a URL with a slash at either end has an empty
      segment in its prefix, while request segments are never empty: no
      request can resolve to it. */
  lemma SlashEdgedMountUnreachable(nodes: seq<Node>, url: string, mountUrl: string)
    requires WellFormed(nodes)
    requires mountUrl != [] && (mountUrl[0] == '/' || mountUrl[|mountUrl| - 1] == '/')
    ensures var r := Select(nodes, RequestSegments(url));
      r.Resolved? ==> r.location != Split(mountUrl, '/')
  {
    SlashEdgedHasEmptyPiece(mountUrl);
    var segs := RequestSegments(url);
    var r := Select(nodes, segs);
    if r.Resolved? {
      assert forall i :: 0 <= i < |r.location| ==> r.location[i] == segs[i];
      assert "" !in r.location;
    }
  }

  /** The position the walk remembers, `found = {location, parts, directory}`
      (public_folders/index.js:73): the consumed prefix, the segments still to
      go and the node reached. */
  datatype Found = Found(location: seq<string>, parts: seq<string>, directory: nat)

  /** What the walk has remembered after the first k segments: the prefix
      and the rest at the deepest node with a directory, and that node. */
  function Record(nodes: seq<Node>, segs: seq<string>, k: nat): Option<Found>
    requires WellFormed(nodes) && k <= |segs|
  {
    match Deepest(nodes, segs, k)
    case None => None
    case Some(j) =>
      DeepestIsDeepest(nodes, segs, k);
      Some(Found(segs[..j], segs[j..], Locate(nodes, segs[..j]).value))
  }

  /** Descending into the child for segment k + 1 moves the record to the
      child when the child carries a directory. */
  lemma WalkDescend(nodes: seq<Node>, segs: seq<string>, k: nat)
    requires WellFormed(nodes) && k < |segs| && Locate(nodes, segs[..k + 1]).Some?
    ensures var child := Locate(nodes, segs[..k + 1]).value;
      Record(nodes, segs, k + 1) ==
        if Truthy(nodes[child].path) then Some(Found(segs[..k + 1], segs[k + 1..], child)) else Record(nodes, segs, k)
  {
  }

  /** When segment k + 1 has no child the record is final. */
  lemma WalkMiss(nodes: seq<Node>, segs: seq<string>, k: nat)
    requires WellFormed(nodes) && k < |segs| && Locate(nodes, segs[..k + 1]).None?
    ensures Record(nodes, segs, |segs|) == Record(nodes, segs, k)
  {
    DeepestPastMiss(nodes, segs, k, |segs|);
  }

  /** One step of the walk from the node at the first k segments: the next
      segment either leads to a child, and the record moves as WalkDescend
      says, or it does not, and the record is final. */
  lemma WalkStep(nodes: seq<Node>, segs: seq<string>, k: nat, directory: nat)
    requires WellFormed(nodes) && k < |segs| && Locate(nodes, segs[..k]) == Some(directory)
    ensures var children := nodes[directory].children;
      && (segs[k] in children ==>
            var child := children[segs[k]];
            && Locate(nodes, segs[..k + 1]) == Some(child)
            && Record(nodes, segs, k + 1) ==
                 if Truthy(nodes[child].path) then Some(Found(segs[..k + 1], segs[k + 1..], child)) else Record(nodes, segs, k))
      && (segs[k] !in children ==> Record(nodes, segs, |segs|) == Record(nodes, segs, k))
  {
    assert segs[..k + 1] == segs[..k] + [segs[k]];
    LocateStep(nodes, segs[..k], segs[k]);
    if segs[k] in nodes[directory].children {
      WalkDescend(nodes, segs, k);
    } else {
      WalkMiss(nodes, segs, k);
    }
  }

  /** The final record is the selection. */
  lemma WalkResult(nodes: seq<Node>, segs: seq<string>)
    requires WellFormed(nodes)
    ensures var found := Record(nodes, segs, |segs|);
      && (found.None? ==> Select(nodes, segs) == NotFound)
      && (found.Some? ==>
            && found.value.directory < |nodes| && Truthy(nodes[found.value.directory].path)
            && Select(nodes, segs) ==
                 Resolved(found.value.location, found.value.parts, nodes[found.value.directory].path.value))
  {
    DeepestIsDeepest(nodes, segs, |segs|);
  }

  /** The walk (public_folders/index.js:63-82): shift a segment off `parts`;
      while it names a child, push it onto `location`, descend, and remember
      the position whenever the node carries a directory; stop at the first
      segment without a child. What is remembered is the record of all the
      segments, and when nothing is, the node reached carries no directory. */
  method Walk(nodes: seq<Node>, segs: seq<string>)
    returns (found: Option<Found>, location: seq<string>, parts: seq<string>, directory: nat)
    requires WellFormed(nodes)
    ensures found == Record(nodes, segs, |segs|)
    ensures directory < |nodes| && (found.None? ==> !Truthy(nodes[directory].path))
  {
    found := None;
    location := [];
    directory := 0;
    parts := segs;
    while |parts| > 0
      invariant |location| <= |segs| && location == segs[..|location|] && parts == segs[|location|..]
      invariant Locate(nodes, location) == Some(directory)
      invariant found == Record(nodes, segs, |location|)
      invariant found.None? ==> !Truthy(nodes[directory].path)
      decreases |parts|
    {
      ghost var k := |location|;
      var part := parts[0];
      parts := parts[1..];
      assert part == segs[k] && parts == segs[k + 1..];
      WalkStep(nodes, segs, k, directory);
      if part in nodes[directory].children {
        assert location + [part] == segs[..k + 1];
        location := location + [part];
        directory := nodes[directory].children[part];
        if Truthy(nodes[directory].path) {
          found := Some(Found(location, parts, directory));
        }
        continue;
      }
      break;
    }
  }

  /** The handler's resolution (public_folders/index.js:63-88): walk, take
      the remembered position if there is one, and answer NotFound when the
      node there carries no directory. */
  method Resolve(nodes: seq<Node>, url: string) returns (r: Resolution)
    requires WellFormed(nodes)
    ensures r == Select(nodes, RequestSegments(url))
  {
    var segs := RequestSegments(url);
    var found, location, parts, directory := Walk(nodes, segs);
    WalkResult(nodes, segs);
    if found.Some? {
      location, parts, directory := found.value.location, found.value.parts, found.value.directory;
    }
    if !Truthy(nodes[directory].path) {
      return NotFound;
    }
    r := Resolved(location, parts, nodes[directory].path.value);
  }
}
