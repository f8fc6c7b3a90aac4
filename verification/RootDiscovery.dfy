/** Finding the root directory: the unique directory no node refers to. */
module RootDiscovery {
  import opened Wire
  import opened Utf8
  import opened Lookups
  import opened DirectoryNodes
  import opened Inodes
  import opened Metadata

  function EntryNumbers(entries: seq<DirEntry>): set<int> {
    set i | 0 <= i < |entries| :: entries[i].inodeNumber
  }

  function References(nodes: seq<DirectoryNode>): set<int> {
    set i, n | 0 <= i < |nodes| && n in EntryNumbers(nodes[i].entries) :: n
  }

  /** The numbers of the directory inodes outside `referenced`, in list order. */
  function Candidates(inodes: seq<Inode>, referenced: set<int>): seq<int> {
    if |inodes| == 0 then [] else
      Candidates(inodes[..|inodes| - 1], referenced) +
      var last := inodes[|inodes| - 1];
      if IsDirectory(last) && last.number !in referenced then [last.number] else []
  }

  function RootInodeNumber(blob: MetadataBlob): Option<int> {
    var candidates := Candidates(blob.inodes, References(blob.dirNodes));
    if |candidates| == 1 then Some(candidates[0]) else None
  }

  /** `root_inode_number`. */
  method FindRootInodeNumber(blob: MetadataBlob) returns (r: Option<int>)
    ensures r == RootInodeNumber(blob)
  {
    var referenced: set<int> := {};
    for i := 0 to |blob.dirNodes|
      invariant referenced == References(blob.dirNodes[..i])
    {
      var entries := blob.dirNodes[i].entries;
      ghost var before := referenced;
      for j := 0 to |entries|
        invariant referenced == before + EntryNumbers(entries[..j])
      {
        referenced := referenced + {entries[j].inodeNumber};
      }
      assert entries[..|entries|] == entries;
    }
    assert blob.dirNodes[..|blob.dirNodes|] == blob.dirNodes;
    var candidates: seq<int> := [];
    for i := 0 to |blob.inodes|
      invariant candidates == Candidates(blob.inodes[..i], referenced)
    {
      var inode := blob.inodes[i];
      assert blob.inodes[..i + 1][..i] == blob.inodes[..i];
      if IsDirectory(inode) && inode.number !in referenced {
        candidates := candidates + [inode.number];
      }
    }
    assert blob.inodes[..|blob.inodes|] == blob.inodes;
    if |candidates| == 1 {
      return Some(candidates[0]);
    }
    return None;
  }

  /** Inode `i` is a directory that no node refers to. */
  ghost predicate IsCandidate(blob: MetadataBlob, i: nat) {
    i < |blob.inodes| && IsDirectory(blob.inodes[i]) && blob.inodes[i].number !in References(blob.dirNodes)
  }

  lemma {:induction false} CandidatesNone(inodes: seq<Inode>, referenced: set<int>)
    ensures Candidates(inodes, referenced) == [] <==>
            forall i :: 0 <= i < |inodes| ==> !IsDirectory(inodes[i]) || inodes[i].number in referenced
  {
    if |inodes| != 0 {
      CandidatesNone(inodes[..|inodes| - 1], referenced);
    }
  }

  lemma {:induction false} CandidatesOne(inodes: seq<Inode>, referenced: set<int>, i: nat)
    requires i < |inodes| && IsDirectory(inodes[i]) && inodes[i].number !in referenced
    requires forall j :: 0 <= j < |inodes| && j != i ==> !IsDirectory(inodes[j]) || inodes[j].number in referenced
    ensures Candidates(inodes, referenced) == [inodes[i].number]
  {
    var n := |inodes| - 1;
    if i == n {
      CandidatesNone(inodes[..n], referenced);
    } else {
      CandidatesOne(inodes[..n], referenced, i);
    }
  }

  lemma {:induction false} CandidatesTwo(inodes: seq<Inode>, referenced: set<int>, i: nat, j: nat)
    requires i < j < |inodes| && IsDirectory(inodes[i]) && inodes[i].number !in referenced
    requires IsDirectory(inodes[j]) && inodes[j].number !in referenced
    ensures |Candidates(inodes, referenced)| >= 2
  {
    var n := |inodes| - 1;
    if j == n {
      CandidatesNone(inodes[..n], referenced);
      assert inodes[..n][i] == inodes[i];
    } else {
      CandidatesTwo(inodes[..n], referenced, i, j);
    }
  }

  /** A root is reported exactly when one inode, and no other, is an unreferenced directory. */
  lemma RootIsUniqueCandidate(blob: MetadataBlob, n: int)
    ensures RootInodeNumber(blob) == Some(n) <==>
            exists i: nat :: IsCandidate(blob, i) && blob.inodes[i].number == n
                             && forall j: nat :: IsCandidate(blob, j) ==> j == i
  {
    var referenced := References(blob.dirNodes);
    CandidatesNone(blob.inodes, referenced);
    if i: nat :| IsCandidate(blob, i) {
      if j: nat :| IsCandidate(blob, j) && j != i {
        CandidatesTwo(blob.inodes, referenced, if i < j then i else j, if i < j then j else i);
      } else {
        forall j | 0 <= j < |blob.inodes| && j != i
          ensures !IsDirectory(blob.inodes[j]) || blob.inodes[j].number in referenced
        {
          assert !IsCandidate(blob, j);
        }
        CandidatesOne(blob.inodes, referenced, i);
      }
    } else {
      forall j | 0 <= j < |blob.inodes|
        ensures !IsDirectory(blob.inodes[j]) || blob.inodes[j].number in referenced
      {
        assert !IsCandidate(blob, j);
      }
    }
  }

  /** Number `n` stands in no entry of any node. */
  ghost predicate Unreferenced(blob: MetadataBlob, n: int) {
    forall node, e :: node in blob.dirNodes && e in node.entries ==> e.inodeNumber != n
  }

  lemma UnreferencedMeans(blob: MetadataBlob, n: int)
    ensures Unreferenced(blob, n) <==> n !in References(blob.dirNodes)
  {
    if n in References(blob.dirNodes) {
      var i :| 0 <= i < |blob.dirNodes| && n in EntryNumbers(blob.dirNodes[i].entries);
      var j :| 0 <= j < |blob.dirNodes[i].entries| && blob.dirNodes[i].entries[j].inodeNumber == n;
      assert blob.dirNodes[i] in blob.dirNodes && blob.dirNodes[i].entries[j] in blob.dirNodes[i].entries;
    }
    if node, e :| node in blob.dirNodes && e in node.entries && e.inodeNumber == n {
      var i :| 0 <= i < |blob.dirNodes| && blob.dirNodes[i] == node;
      assert n in EntryNumbers(blob.dirNodes[i].entries);
    }
  }

  /** Inode `i` holds the hash of a directory node and stands in no entry. */
  ghost predicate HeadsTree(blob: MetadataBlob, i: nat) {
    i < |blob.inodes| && blob.inodes[i].handle.Directory? && Unreferenced(blob, blob.inodes[i].number)
  }

  lemma CandidateHeadsTree(w: WireBlob, i: nat)
    requires MetadataOk(w)
    ensures IsCandidate(Forget(w), i) <==> HeadsTree(Forget(w), i)
  {
    hide InodeOk, NodeOk, IsDirectory, Unreferenced, References;
    var blob := Forget(w);
    if i < |blob.inodes| {
      assert blob.inodes[i] == w.inodes[i].inode;
      DirectoryHoldsHash(w.inodes[i]);
      UnreferencedMeans(blob, blob.inodes[i].number);
    }
  }

  /** The root of a blob that parses, in terms of its records alone: the number of the one inode
    * that holds a node hash and stands in no entry, if there is one and no other. */
  lemma RootSpelledOut(w: WireBlob, n: int)
    requires MetadataOk(w)
    ensures var blob := Forget(w);
            RootInodeNumber(blob) == Some(n) <==>
            exists i: nat :: HeadsTree(blob, i) && blob.inodes[i].number == n
                             && forall j: nat :: HeadsTree(blob, j) ==> j == i
  {
    hide InodeOk, NodeOk, IsDirectory, Unreferenced, References, RootInodeNumber, IsCandidate;
    var blob := Forget(w);
    RootIsUniqueCandidate(blob, n);
    forall i: nat
      ensures IsCandidate(blob, i) <==> HeadsTree(blob, i)
    {
      CandidateHeadsTree(w, i);
    }
  }

  // ----- order independence -----

  /** The entries of each node, without their order. */
  function Bags(nodes: seq<DirectoryNode>): multiset<multiset<DirEntry>> {
    if |nodes| == 0 then multiset{} else multiset{multiset(nodes[0].entries)} + Bags(nodes[1..])
  }

  /** The same inodes and the same nodes with the same entries, each in any order. */
  ghost predicate SameUpToOrder(a: MetadataBlob, b: MetadataBlob) {
    multiset(a.inodes) == multiset(b.inodes) && Bags(a.dirNodes) == Bags(b.dirNodes)
  }

  lemma {:induction false} BagsMember(nodes: seq<DirectoryNode>, bag: multiset<DirEntry>)
    ensures bag in Bags(nodes) <==> exists i :: 0 <= i < |nodes| && multiset(nodes[i].entries) == bag
  {
    if |nodes| != 0 {
      BagsMember(nodes[1..], bag);
      if bag in Bags(nodes[1..]) {
        var i :| 0 <= i < |nodes| - 1 && multiset(nodes[1..][i].entries) == bag;
        assert nodes[i + 1] == nodes[1..][i];
      }
      if i :| 1 <= i < |nodes| && multiset(nodes[i].entries) == bag {
        assert nodes[1..][i - 1] == nodes[i];
      }
    }
  }

  lemma ReferencesByBag(nodes: seq<DirectoryNode>, n: int)
    ensures n in References(nodes) <==> exists bag, e :: bag in Bags(nodes) && e in bag && e.inodeNumber == n
  {
    if n in References(nodes) {
      var i :| 0 <= i < |nodes| && n in EntryNumbers(nodes[i].entries);
      var j :| 0 <= j < |nodes[i].entries| && nodes[i].entries[j].inodeNumber == n;
      BagsMember(nodes, multiset(nodes[i].entries));
      assert nodes[i].entries[j] in multiset(nodes[i].entries);
    }
    if bag, e :| bag in Bags(nodes) && e in bag && e.inodeNumber == n {
      BagsMember(nodes, bag);
      var i :| 0 <= i < |nodes| && multiset(nodes[i].entries) == bag;
      var j :| 0 <= j < |nodes[i].entries| && nodes[i].entries[j] == e;
      assert n in EntryNumbers(nodes[i].entries);
    }
  }

  lemma {:induction false} CandidatesSplit(xs: seq<Inode>, ys: seq<Inode>, referenced: set<int>)
    ensures Candidates(xs + ys, referenced) == Candidates(xs, referenced) + Candidates(ys, referenced)
    decreases |ys|
  {
    if |ys| == 0 {
      assert xs + ys == xs;
    } else {
      var n := |ys| - 1;
      CandidatesSplit(xs, ys[..n], referenced);
      assert (xs + ys)[..|xs + ys| - 1] == xs + ys[..n];
    }
  }

  function Without<T>(xs: seq<T>, k: nat): seq<T>
    requires k < |xs|
  {
    xs[..k] + xs[k + 1..]
  }

  lemma WithoutOne<T>(xs: seq<T>, k: nat)
    requires k < |xs|
    ensures multiset(Without(xs, k)) == multiset(xs) - multiset{xs[k]}
  {
    assert xs == xs[..k] + [xs[k]] + xs[k + 1..];
  }

  /** Taking one inode out takes out its own candidacy and nothing else. */
  lemma CandidatesWithout(xs: seq<Inode>, k: nat, referenced: set<int>)
    requires k < |xs|
    ensures multiset(Candidates(xs, referenced))
         == multiset(Candidates(Without(xs, k), referenced)) + multiset(Candidates([xs[k]], referenced))
  {
    hide Candidates;
    assert xs == xs[..k] + ([xs[k]] + xs[k + 1..]);
    CandidatesSplit(xs[..k], [xs[k]] + xs[k + 1..], referenced);
    CandidatesSplit([xs[k]], xs[k + 1..], referenced);
    CandidatesSplit(xs[..k], xs[k + 1..], referenced);
  }

  lemma {:induction false} CandidatesPermuted(xs: seq<Inode>, ys: seq<Inode>, referenced: set<int>)
    requires multiset(xs) == multiset(ys)
    ensures multiset(Candidates(xs, referenced)) == multiset(Candidates(ys, referenced))
    decreases |xs|
  {
    hide Candidates;
    assert |xs| == |multiset(xs)| == |multiset(ys)| == |ys|;
    if |xs| != 0 {
      assert xs[0] in multiset(ys);
      var k :| 0 <= k < |ys| && ys[k] == xs[0];
      WithoutOne(xs, 0);
      WithoutOne(ys, k);
      CandidatesPermuted(Without(xs, 0), Without(ys, k), referenced);
      CandidatesWithout(xs, 0, referenced);
      CandidatesWithout(ys, k, referenced);
    }
  }

  lemma SameBagSameSingleton<T>(xs: seq<T>, ys: seq<T>)
    requires multiset(xs) == multiset(ys)
    ensures |xs| == |ys| && (|xs| == 1 ==> xs == ys)
  {
    assert |xs| == |multiset(xs)| == |multiset(ys)| == |ys|;
    if |xs| == 1 {
      assert xs[0] in multiset(ys);
    }
  }

  /** No order on the wire matters to the root. */
  lemma RootOrderIndependent(a: MetadataBlob, b: MetadataBlob)
    requires SameUpToOrder(a, b)
    ensures RootInodeNumber(a) == RootInodeNumber(b)
  {
    hide Candidates, References, Bags;
    forall n
      ensures n in References(a.dirNodes) <==> n in References(b.dirNodes)
    {
      ReferencesByBag(a.dirNodes, n);
      ReferencesByBag(b.dirNodes, n);
    }
    assert References(a.dirNodes) == References(b.dirNodes);
    CandidatesPermuted(a.inodes, b.inodes, References(a.dirNodes));
    SameBagSameSingleton(Candidates(a.inodes, References(a.dirNodes)), Candidates(b.inodes, References(a.dirNodes)));
  }

  // ----- reachability -----

  /** The node a directory inode's hash resolves to. */
  ghost function NodeOf(h: Hash, blob: MetadataBlob, inode: Inode): Option<DirectoryNode> {
    if inode.handle.Directory? then Lookup(HashKey(h), blob.dirNodes, inode.handle.hash) else None
  }

  /** Inode `i` is a directory, and its own node has an entry for `n`. */
  ghost predicate Lists(h: Hash, blob: MetadataBlob, i: nat, n: int) {
    && i < |blob.inodes| && IsDirectory(blob.inodes[i]) && NodeOf(h, blob, blob.inodes[i]).Some?
    && n in EntryNumbers(NodeOf(h, blob, blob.inodes[i]).value.entries)
  }

  /** A directory numbered `a` whose node has an entry for `b`. */
  ghost predicate Edge(h: Hash, blob: MetadataBlob, a: int, b: int) {
    exists i: nat :: Lists(h, blob, i, b) && blob.inodes[i].number == a
  }

  ghost predicate Path(h: Hash, blob: MetadataBlob, path: seq<int>) {
    |path| != 0 && forall i :: 0 <= i < |path| - 1 ==> Edge(h, blob, path[i], path[i + 1])
  }

  ghost predicate Reaches(h: Hash, blob: MetadataBlob, a: int, b: int) {
    exists path :: Path(h, blob, path) && path[0] == a && path[|path| - 1] == b
  }

  ghost predicate OnCycle(h: Hash, blob: MetadataBlob, n: int) {
    exists path :: Path(h, blob, path) && |path| >= 2 && path[0] == n && path[|path| - 1] == n
  }

  ghost predicate Acyclic(h: Hash, blob: MetadataBlob) {
    forall n :: !OnCycle(h, blob, n)
  }

  /** Every node belongs to some directory inode. */
  ghost predicate Resolved(h: Hash, blob: MetadataBlob) {
    forall node :: node in blob.dirNodes ==>
      exists i :: 0 <= i < |blob.inodes| && IsDirectory(blob.inodes[i])
                  && NodeOf(h, blob, blob.inodes[i]) == Some(node)
  }

  ghost function DirectoryNumbers(blob: MetadataBlob): set<int> {
    set i | 0 <= i < |blob.inodes| && IsDirectory(blob.inodes[i]) :: blob.inodes[i].number
  }

  /** The numbers that stand in some directory's own node. */
  ghost function Listed(h: Hash, blob: MetadataBlob): set<int> {
    set n | n in References(blob.dirNodes) && exists i: nat :: Lists(h, blob, i, n)
  }

  ghost predicate AllReached(h: Hash, blob: MetadataBlob, r: int, targets: set<int>) {
    forall n :: n in targets ==> Reaches(h, blob, r, n)
  }

  /** Every directory on a cycle is reached. */
  ghost predicate CyclesReached(h: Hash, blob: MetadataBlob, r: int) {
    forall n :: n in DirectoryNumbers(blob) && OnCycle(h, blob, n) ==> Reaches(h, blob, r, n)
  }

  lemma ListsIsListed(h: Hash, blob: MetadataBlob, i: nat, n: int)
    requires Lists(h, blob, i, n)
    ensures n in Listed(h, blob) && blob.inodes[i].number in DirectoryNumbers(blob)
  {
    var node := NodeOf(h, blob, blob.inodes[i]).value;
    var k :| 0 <= k < |blob.dirNodes| && blob.dirNodes[k] == node;
  }

  /** What is listed has a directory before it, and nothing else has. */
  lemma Predecessor(h: Hash, blob: MetadataBlob, n: int) returns (p: int)
    requires n in Listed(h, blob)
    ensures p in DirectoryNumbers(blob) && Edge(h, blob, p, n)
  {
    hide NodeOf;
    var i: nat :| Lists(h, blob, i, n);
    ListsIsListed(h, blob, i, n);
    p := blob.inodes[i].number;
  }

  lemma EdgeListed(h: Hash, blob: MetadataBlob, p: int, n: int)
    requires Edge(h, blob, p, n)
    ensures n in Listed(h, blob) && p in DirectoryNumbers(blob)
  {
    hide NodeOf, Listed, DirectoryNumbers;
    var i: nat :| Lists(h, blob, i, n) && blob.inodes[i].number == p;
    ListsIsListed(h, blob, i, n);
  }

  /** When every node belongs to a directory, to be referred to is to be listed. */
  lemma ResolvedLists(h: Hash, blob: MetadataBlob)
    requires Resolved(h, blob)
    ensures References(blob.dirNodes) == Listed(h, blob)
  {
    forall n | n in References(blob.dirNodes)
      ensures n in Listed(h, blob)
    {
      var k :| 0 <= k < |blob.dirNodes| && n in EntryNumbers(blob.dirNodes[k].entries);
      assert blob.dirNodes[k] in blob.dirNodes;
      var i :| 0 <= i < |blob.inodes| && IsDirectory(blob.inodes[i])
               && NodeOf(h, blob, blob.inodes[i]) == Some(blob.dirNodes[k]);
      assert Lists(h, blob, i, n);
    }
  }

  lemma PathJoin(h: Hash, blob: MetadataBlob, xs: seq<int>, ys: seq<int>)
    requires Path(h, blob, xs) && Path(h, blob, ys) && xs[|xs| - 1] == ys[0]
    ensures Path(h, blob, xs + ys[1..])
  {
    hide Edge;
    var zs := xs + ys[1..];
    forall i | 0 <= i < |zs| - 1
      ensures Edge(h, blob, zs[i], zs[i + 1])
    {
      assert zs[i + 1] == if i + 1 < |xs| then xs[i + 1] else ys[i + 2 - |xs|];
      assert zs[i] == if i < |xs| - 1 then xs[i] else ys[i + 1 - |xs|];
    }
  }

  lemma ReturnIsCycle(h: Hash, blob: MetadataBlob, a: int, b: int)
    requires Reaches(h, blob, a, b) && Edge(h, blob, b, a)
    ensures OnCycle(h, blob, a)
  {
    hide Edge;
    var path :| Path(h, blob, path) && path[0] == a && path[|path| - 1] == b;
    assert Path(h, blob, [b, a]);
    PathJoin(h, blob, path, [b, a]);
  }

  lemma ReachesAlong(h: Hash, blob: MetadataBlob, a: int, path: seq<int>)
    requires Path(h, blob, path) && Reaches(h, blob, a, path[0])
    ensures Reaches(h, blob, a, path[|path| - 1])
  {
    hide Edge;
    var way :| Path(h, blob, way) && way[0] == a && way[|way| - 1] == path[0];
    PathJoin(h, blob, way, path);
  }

  /** Arriving anywhere but at the start takes a last step. */
  lemma LastStep(h: Hash, blob: MetadataBlob, a: int, b: int)
    requires Reaches(h, blob, a, b) && a != b
    ensures b in Listed(h, blob)
  {
    hide Edge, Listed;
    var path :| Path(h, blob, path) && path[0] == a && path[|path| - 1] == b;
    EdgeListed(h, blob, path[|path| - 2], b);
  }

  /** Walking backwards from a directory comes to `r`, or repeats itself on a cycle, which `r`
    * reaches. */
  lemma {:induction false} WalkBack(h: Hash, blob: MetadataBlob, r: int, path: seq<int>)
    requires DirectoryNumbers(blob) - {r} <= Listed(h, blob) && CyclesReached(h, blob, r)
    requires Path(h, blob, path) && path[0] in DirectoryNumbers(blob)
    ensures Reaches(h, blob, r, path[|path| - 1])
    decreases DirectoryNumbers(blob) - set n | n in path
  {
    hide Edge, OnCycle, Reaches, Listed, DirectoryNumbers;
    if path[0] == r {
      StartReaches(h, blob, path);
    } else {
      var p := Predecessor(h, blob, path[0]);
      var longer := [p] + path;
      PathPrepend(h, blob, p, path);
      if p in path {
        CycleThrough(h, blob, p, path);
        ReachesAlong(h, blob, r, longer);
      } else {
        assert forall n :: n in longer <==> n == p || n in path;
        assert p in DirectoryNumbers(blob) - set n | n in path;
        assert p !in DirectoryNumbers(blob) - set n | n in longer;
        WalkBack(h, blob, r, longer);
      }
    }
  }

  lemma StartReaches(h: Hash, blob: MetadataBlob, path: seq<int>)
    requires Path(h, blob, path)
    ensures Reaches(h, blob, path[0], path[|path| - 1])
  {
  }

  lemma PathPrepend(h: Hash, blob: MetadataBlob, p: int, path: seq<int>)
    requires Path(h, blob, path) && Edge(h, blob, p, path[0])
    ensures Path(h, blob, [p] + path)
  {
    hide Edge;
    assert Path(h, blob, [p, path[0]]);
    PathJoin(h, blob, [p, path[0]], path);
    assert [p, path[0]] + path[1..] == [p] + path;
  }

  lemma CycleThrough(h: Hash, blob: MetadataBlob, p: int, path: seq<int>)
    requires Path(h, blob, [p] + path) && p in path
    ensures OnCycle(h, blob, p)
  {
    hide Edge;
    var k :| 0 <= k < |path| && path[k] == p;
    var cycle := ([p] + path)[..k + 2];
    assert Path(h, blob, cycle) && cycle[|cycle| - 1] == path[k];
  }

  /** When a number reaches every directory, and whatever else is asked of it: each must be
    * listed by some directory's own node, and each cycle must be reached. Nothing more is needed. */
  lemma ReachesAllExactly(h: Hash, blob: MetadataBlob, r: int, targets: set<int>)
    requires DirectoryNumbers(blob) <= targets
    ensures AllReached(h, blob, r, targets)
       <==> targets - {r} <= Listed(h, blob) && CyclesReached(h, blob, r)
  {
    hide Edge, Listed, DirectoryNumbers, Path;
    if AllReached(h, blob, r, targets) {
      forall n | n in targets - {r}
        ensures n in Listed(h, blob)
      {
        LastStep(h, blob, r, n);
      }
    }
    if targets - {r} <= Listed(h, blob) && CyclesReached(h, blob, r) {
      forall n | n in targets
        ensures Reaches(h, blob, r, n)
      {
        ReachesListed(h, blob, r, n);
      }
    }
  }

  lemma ReachesListed(h: Hash, blob: MetadataBlob, r: int, n: int)
    requires DirectoryNumbers(blob) - {r} <= Listed(h, blob) && CyclesReached(h, blob, r)
    requires n == r || n in Listed(h, blob)
    ensures Reaches(h, blob, r, n)
  {
    hide Edge, Listed, DirectoryNumbers, CyclesReached;
    if n == r {
      assert Path(h, blob, [r]);
    } else {
      var p := Predecessor(h, blob, n);
      assert Path(h, blob, [p, n]);
      WalkBack(h, blob, r, [p, n]);
    }
  }

  /** Without cycles the condition is local: each target stands in some directory's own node. */
  lemma AcyclicReachesAllExactly(h: Hash, blob: MetadataBlob, r: int, targets: set<int>)
    requires Acyclic(h, blob) && DirectoryNumbers(blob) <= targets
    ensures AllReached(h, blob, r, targets) <==> targets - {r} <= Listed(h, blob)
  {
    hide Listed, DirectoryNumbers, OnCycle;
    ReachesAllExactly(h, blob, r, targets);
  }

  /** Some directory of an acyclic blob is not listed by any; when every node belongs to a
    * directory, none refers to it at all. */
  lemma SomeDirectoryUnreferenced(h: Hash, blob: MetadataBlob)
    requires Acyclic(h, blob) && DirectoryNumbers(blob) != {}
    ensures exists n :: n in DirectoryNumbers(blob) && n !in Listed(h, blob)
    ensures Resolved(h, blob) ==> exists n :: n in DirectoryNumbers(blob) && n !in References(blob.dirNodes)
  {
    hide Edge, Listed, Resolved;
    var r :| r in DirectoryNumbers(blob);
    if forall n :: n in DirectoryNumbers(blob) ==> n in Listed(h, blob) {
      var p := Predecessor(h, blob, r);
      AcyclicReachesAllExactly(h, blob, r, DirectoryNumbers(blob));
      ReturnIsCycle(h, blob, r, p);
    }
    if Resolved(h, blob) {
      ResolvedLists(h, blob);
    }
  }

  /** A reported root is the one directory nothing refers to. */
  lemma RootSplitsDirectories(blob: MetadataBlob)
    requires RootInodeNumber(blob).Some?
    ensures var r := RootInodeNumber(blob).value;
            && r in DirectoryNumbers(blob) && r !in References(blob.dirNodes)
            && DirectoryNumbers(blob) - {r} == DirectoryNumbers(blob) * References(blob.dirNodes)
  {
    hide References;
    var r := RootInodeNumber(blob).value;
    RootIsUniqueCandidate(blob, r);
    forall n | n in DirectoryNumbers(blob) - {r}
      ensures n in References(blob.dirNodes)
    {
      var i :| 0 <= i < |blob.inodes| && IsDirectory(blob.inodes[i]) && blob.inodes[i].number == n;
      assert !IsCandidate(blob, i);
    }
  }

  /** When does everything hang off the root that was reported? Every directory does exactly when
    * no directory is referred to by ownerless nodes only and each cycle is reached; everything
    * referred to does exactly when that holds of every reference. */
  lemma RootReachesExactly(h: Hash, blob: MetadataBlob)
    requires RootInodeNumber(blob).Some?
    ensures var r, referenced := RootInodeNumber(blob).value, References(blob.dirNodes);
            AllReached(h, blob, r, DirectoryNumbers(blob))
            <==> DirectoryNumbers(blob) * referenced <= Listed(h, blob) && CyclesReached(h, blob, r)
    ensures var r, referenced := RootInodeNumber(blob).value, References(blob.dirNodes);
            AllReached(h, blob, r, DirectoryNumbers(blob) + referenced)
            <==> referenced <= Listed(h, blob) && CyclesReached(h, blob, r)
    ensures Acyclic(h, blob) ==> CyclesReached(h, blob, RootInodeNumber(blob).value)
  {
    hide References, Listed, DirectoryNumbers, OnCycle, AllReached, RootInodeNumber;
    var r, directories, referenced := RootInodeNumber(blob).value, DirectoryNumbers(blob), References(blob.dirNodes);
    RootSplitsDirectories(blob);
    ReachesAllExactly(h, blob, r, directories);
    ReachesAllExactly(h, blob, r, directories + referenced);
    assert forall n :: n in directories && n != r ==> n in directories - {r};
    assert directories + referenced - {r} == referenced;
  }

  /** In an acyclic blob whose nodes all belong to directories, everything hangs off the root. */
  lemma RootReachesEverything(h: Hash, blob: MetadataBlob, n: int)
    requires Acyclic(h, blob) && Resolved(h, blob)
    requires RootInodeNumber(blob).Some?
    requires n in DirectoryNumbers(blob) || n in References(blob.dirNodes)
    ensures Reaches(h, blob, RootInodeNumber(blob).value, n)
  {
    hide Acyclic, Resolved, References, Listed, DirectoryNumbers, Reaches, RootInodeNumber;
    RootReachesExactly(h, blob);
    ResolvedLists(h, blob);
    assert n in DirectoryNumbers(blob) + References(blob.dirNodes);
  }

  // ----- what the documentation says the root is -----

  /** The numbers that some other directory's own node lists. */
  ghost predicate ListedByOther(h: Hash, blob: MetadataBlob, n: int) {
    exists i: nat :: Lists(h, blob, i, n) && blob.inodes[i].number != n
  }

  /** Inode `i` is a directory that no other directory lists. */
  ghost predicate IsDocumented(h: Hash, blob: MetadataBlob, i: nat) {
    i < |blob.inodes| && IsDirectory(blob.inodes[i]) && !ListedByOther(h, blob, blob.inodes[i].number)
  }

  /** The unique one is numbered `n`. */
  ghost predicate DocumentedRoot(h: Hash, blob: MetadataBlob, n: int) {
    exists i: nat :: IsDocumented(h, blob, i) && blob.inodes[i].number == n
                     && forall j: nat :: IsDocumented(h, blob, j) ==> j == i
  }

  /** Whatever directory is referred to is listed by another directory. */
  ghost predicate ReferencesFromOthers(h: Hash, blob: MetadataBlob) {
    forall n :: n in DirectoryNumbers(blob) && n in References(blob.dirNodes) ==> ListedByOther(h, blob, n)
  }

  /** What the code calls unreferenced, the documentation does too. */
  lemma CandidateIsDocumented(h: Hash, blob: MetadataBlob, i: nat)
    requires IsCandidate(blob, i)
    ensures IsDocumented(h, blob, i)
  {
    hide NodeOf, References;
    var n := blob.inodes[i].number;
    if j: nat :| Lists(h, blob, j, n) && blob.inodes[j].number != n {
      ListsIsListed(h, blob, j, n);
    }
  }

  /** The two agree on every inode exactly when directories are referred to by others. */
  lemma CandidatesAgree(h: Hash, blob: MetadataBlob)
    ensures (forall i: nat :: IsDocumented(h, blob, i) ==> IsCandidate(blob, i)) <==> ReferencesFromOthers(h, blob)
  {
    hide ListedByOther, References;
    if ReferencesFromOthers(h, blob) {
      forall i: nat | IsDocumented(h, blob, i)
        ensures IsCandidate(blob, i)
      {
        assert blob.inodes[i].number in DirectoryNumbers(blob);
      }
    }
    if forall i: nat :: IsDocumented(h, blob, i) ==> IsCandidate(blob, i) {
      forall n | n in DirectoryNumbers(blob) && n in References(blob.dirNodes)
        ensures ListedByOther(h, blob, n)
      {
        var i: nat :| i < |blob.inodes| && IsDirectory(blob.inodes[i]) && blob.inodes[i].number == n;
        assert !IsCandidate(blob, i);
      }
    }
  }

  /** Where either criterion finds a root, the other finds the same one exactly when every
    * directory that is referred to is listed by another directory. */
  lemma DocumentedRootAgrees(h: Hash, blob: MetadataBlob, n: int)
    ensures RootInodeNumber(blob) == Some(n) ==> (DocumentedRoot(h, blob, n) <==> ReferencesFromOthers(h, blob))
    ensures DocumentedRoot(h, blob, n) ==> (RootInodeNumber(blob) == Some(n) <==> ReferencesFromOthers(h, blob))
  {
    hide IsDocumented, IsCandidate, ReferencesFromOthers, RootInodeNumber;
    RootIsUniqueCandidate(blob, n);
    CandidatesAgree(h, blob);
    forall i: nat | IsCandidate(blob, i)
      ensures IsDocumented(h, blob, i)
    {
      CandidateIsDocumented(h, blob, i);
    }
  }

  /** So they agree when every node belongs to a directory and no directory lists itself. */
  lemma DocumentedRootWithoutSelfEntries(h: Hash, blob: MetadataBlob, n: int)
    requires Resolved(h, blob) && forall m :: !Edge(h, blob, m, m)
    ensures RootInodeNumber(blob) == Some(n) <==> DocumentedRoot(h, blob, n)
  {
    hide Lists, Resolved, References, DocumentedRoot, RootInodeNumber;
    DocumentedRootAgrees(h, blob, n);
    ResolvedLists(h, blob);
    forall m | m in DirectoryNumbers(blob) && m in References(blob.dirNodes)
      ensures ListedByOther(h, blob, m)
    {
      assert m in Listed(h, blob);
      var i: nat :| Lists(h, blob, i, m);
      assert !Edge(h, blob, m, m);
    }
  }

  // ----- what the reader does not check -----

  function DirectoryInode(number: int, hash: Digest): Inode {
    Inode(number, S_IFDIR, 0, 0, 0, 0, 1, None, [], Directory(hash))
  }

  const EMPTY := DirectoryNode(NODE_VERSION, [])

  function OneEntryNode(inodeNumber: int): DirectoryNode {
    DirectoryNode(NODE_VERSION, [DirEntry([0x61], inodeNumber, 2)])
  }

  /** Some other digest. */
  function Other(d: Digest): (e: Digest)
    ensures e != d
  {
    var byte: u8 := if d[0] == 0 then 1 else 0;
    assert ([byte] + d[1..])[0] == byte;
    [byte] + d[1..]
  }

  /** A single directory, which lists itself. */
  function SelfListed(h: Hash): MetadataBlob {
    MetadataBlob([DirectoryInode(1, NodeHash(h, OneEntryNode(1)))], [OneEntryNode(1)])
  }

  /** Directory 2 lists itself; nothing stands in directory 1. */
  function DetachedCycle(h: Hash): MetadataBlob {
    var hash := NodeHash(h, OneEntryNode(2));
    MetadataBlob([DirectoryInode(1, Other(hash)), DirectoryInode(2, hash)], [OneEntryNode(2)])
  }

  /** Two empty directories; the node that lists directory 2 belongs to neither. */
  function OrphanNode(h: Hash): MetadataBlob {
    MetadataBlob([DirectoryInode(1, NodeHash(h, EMPTY)), DirectoryInode(2, NodeHash(h, EMPTY))],
                 [EMPTY, OneEntryNode(2)])
  }

  lemma SmallBlobOk(blob: MetadataBlob)
    requires |blob.inodes| <= 2
    requires forall i :: i in blob.inodes ==>
               1 <= i.number <= 2 && i.handle.Directory? && i == DirectoryInode(i.number, i.handle.hash)
    requires |blob.dirNodes| <= 2
    requires forall n :: n in blob.dirNodes ==> n == EMPTY || n == OneEntryNode(1) || n == OneEntryNode(2)
    ensures MetadataOk(Normalize(blob))
  {
    hide InodeOk, NodeOk, Canonical;
    forall i | i in blob.inodes
      ensures InodeOk(Canonical(i))
    {
      DirectoryInodeOk(i.number, i.handle.hash);
    }
    SmallNodesOk(1);
    SmallNodesOk(2);
  }

  lemma DirectoryInodeOk(number: int, hash: Digest)
    requires 1 <= number <= 2
    ensures InodeOk(Canonical(DirectoryInode(number, hash)))
  {
  }

  lemma SmallNodesOk(number: int)
    requires 1 <= number <= 2
    ensures NodeOk(EMPTY) && NodeOk(OneEntryNode(number))
  {
    assert EncodeUtf8([0x61]) == [0x61];
  }

  lemma OneEntryNumbers(n: int)
    ensures EntryNumbers(OneEntryNode(n).entries) == {n} && EntryNumbers(EMPTY.entries) == {}
  {
    assert OneEntryNode(n).entries[0].inodeNumber == n;
  }

  /** The documented root is not found: the only directory refers to itself. */
  lemma SelfEntryHidesRoot(h: Hash)
    ensures var blob := SelfListed(h);
            MetadataOk(Normalize(blob)) && DocumentedRoot(h, blob, 1) && RootInodeNumber(blob).None?
  {
    hide NodeHash, MetadataOk, Normalize;
    var blob := SelfListed(h);
    SmallBlobOk(blob);
    OneEntryNumbers(1);
    assert blob.dirNodes[0] == OneEntryNode(1);
    assert 1 in References(blob.dirNodes);
    CandidatesNone(blob.inodes, References(blob.dirNodes));
    assert IsDocumented(h, blob, 0);
  }

  /** Getting somewhere else takes a first step. */
  lemma FirstStep(h: Hash, blob: MetadataBlob, a: int, b: int)
    requires Reaches(h, blob, a, b) && a != b
    ensures exists c :: Edge(h, blob, a, c)
  {
    hide Edge;
    var path :| Path(h, blob, path) && path[0] == a && path[|path| - 1] == b;
    assert Edge(h, blob, path[0], path[1]);
  }

  lemma CycleStep(h: Hash, blob: MetadataBlob, n: int)
    requires OnCycle(h, blob, n)
    ensures exists c :: Edge(h, blob, n, c)
  {
    hide Edge;
    var path :| Path(h, blob, path) && |path| >= 2 && path[0] == n && path[|path| - 1] == n;
    assert Edge(h, blob, path[0], path[1]);
  }

  /** A blob that parses, whose node belongs to a directory, and whose root does not reach a
    * directory on a cycle. */
  lemma CycleEscapesRoot(h: Hash)
    ensures var blob := DetachedCycle(h);
            && MetadataOk(Normalize(blob)) && Resolved(h, blob) && RootInodeNumber(blob) == Some(1)
            && 2 in DirectoryNumbers(blob) && !Reaches(h, blob, 1, 2)
  {
    hide NodeHash, MetadataOk, Normalize, Reaches;
    var blob := DetachedCycle(h);
    SmallBlobOk(blob);
    OneEntryNumbers(2);
    assert blob.dirNodes[0] == OneEntryNode(2) && References(blob.dirNodes) == {2};
    assert NodeOf(h, blob, blob.inodes[1]) == Some(blob.dirNodes[0]);
    assert NodeOf(h, blob, blob.inodes[0]) == None;
    assert blob.inodes[1].number == 2;
    assert IsCandidate(blob, 0);
    RootIsUniqueCandidate(blob, 1);
    assert forall c :: !Edge(h, blob, 1, c);
    if Reaches(h, blob, 1, 2) {
      FirstStep(h, blob, 1, 2);
    }
  }

  /** A blob that parses, has no cycle, and whose root does not reach a directory that only an
    * ownerless node refers to. */
  lemma OrphanEscapesRoot(h: Hash)
    ensures var blob := OrphanNode(h);
            && MetadataOk(Normalize(blob)) && Acyclic(h, blob) && RootInodeNumber(blob) == Some(1)
            && 2 in DirectoryNumbers(blob) && !Reaches(h, blob, 1, 2)
  {
    hide NodeHash, MetadataOk, Normalize, Reaches;
    var blob := OrphanNode(h);
    SmallBlobOk(blob);
    OneEntryNumbers(2);
    assert blob.dirNodes[0] == EMPTY && blob.dirNodes[1] == OneEntryNode(2) && References(blob.dirNodes) == {2};
    assert NodeOf(h, blob, blob.inodes[0]) == NodeOf(h, blob, blob.inodes[1]) == Some(EMPTY);
    assert blob.inodes[1].number == 2;
    assert IsCandidate(blob, 0);
    RootIsUniqueCandidate(blob, 1);
    assert forall c :: !Edge(h, blob, 1, c);
    forall n
      ensures !OnCycle(h, blob, n)
    {
      if OnCycle(h, blob, n) {
        CycleStep(h, blob, n);
      }
    }
    if Reaches(h, blob, 1, 2) {
      FirstStep(h, blob, 1, 2);
    }
  }
}
