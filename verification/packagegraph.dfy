/**
 * The package graph: the packages identified during a scan, and which package was found as a subpackage or
 * embedded package of which. Every node has at most one parent, a node's children are kept in the order they
 * were attached, and attaching a node under one of its own descendants cuts the link that would close a cycle.
 *
 * The linked nodes of the original are modelled by two maps: the parent link of every node that has one, and
 * the insertion-ordered children of every node. A ghost rank on the nodes witnesses that the parent links
 * never form a cycle, which is what makes the recursive queries terminate.
 */
module PackageGraphs {
  import opened Wrappers
  import opened JavaResult
  import Violations
  import Seqs

  type PackageId = Violations.PackageId
  type Parents = map<PackageId, PackageId>
  type Children = map<PackageId, seq<PackageId>>
  type Ranks = map<PackageId, int>

  /** The parent links and the insertion-ordered children of every node. */
  datatype Forest = Forest(parent: Parents, children: Children)

  /** `EmbeddedPackageInstallable`: the package that embeds the package and the embedded package's id. */
  datatype EmbeddedPackageInstallable = EmbeddedPackageInstallable(parentId: PackageId, jcrPath: string, embeddedId: PackageId)

  function ChildrenOf(children: Children, n: PackageId): seq<PackageId> {
    if n in children then children[n] else []
  }

  /** `s` without the members of `drop`, keeping the order of the rest. */
  function Without(s: seq<PackageId>, drop: set<PackageId>): (r: seq<PackageId>)
    ensures forall x :: x in r <==> x in s && x !in drop
    ensures Seqs.Distinct(s) ==> Seqs.Distinct(r)
  {
    if s == [] then []
    else
      var rest := Without(s[1..], drop);
      assert Seqs.Distinct(s) ==> s[0] !in s[1..];
      if s[0] in drop then rest else [s[0]] + rest
  }

  lemma WithoutTwice(s: seq<PackageId>, first: set<PackageId>, second: set<PackageId>)
    ensures Without(Without(s, first), second) == Without(s, first + second)
  {
  }

  // Ranks: a witness that following parent links never comes back to a node.

  ghost predicate LinkRanked(parent: Parents, rank: Ranks, x: PackageId)
    requires x in parent
  {
    x in rank && parent[x] in rank && rank[x] < rank[parent[x]]
  }

  /** Every parent link climbs to a strictly higher rank. */
  ghost predicate Ranked(parent: Parents, rank: Ranks) {
    forall x :: x in parent ==> LinkRanked(parent, rank, x)
  }

  /** As `Ranked`, except for the link of `a`, which may close a cycle. */
  ghost predicate RankedExcept(parent: Parents, rank: Ranks, a: PackageId) {
    forall x :: x in parent && x != a ==> LinkRanked(parent, rank, x)
  }

  ghost function Above(rank: Ranks, n: PackageId): set<PackageId> {
    if n in rank then set x | x in rank && rank[x] > rank[n] else {}
  }

  ghost function Below(rank: Ranks, n: PackageId): set<PackageId> {
    if n in rank then set x | x in rank && rank[x] < rank[n] else {}
  }

  lemma RankOrder(rank: Ranks, lower: PackageId, upper: PackageId)
    requires lower in rank && upper in rank && rank[lower] < rank[upper]
    ensures Above(rank, upper) < Above(rank, lower)
    ensures Below(rank, lower) < Below(rank, upper)
  {
    assert upper in Above(rank, lower);
    assert lower in Below(rank, upper);
  }

  /** Fewer links, ranked by a rank that agrees on every ranked node, stay ranked. */
  lemma RankedSublinks(parent: Parents, rank: Ranks, fewer: Parents, wider: Ranks)
    requires Ranked(parent, rank)
    requires forall x :: x in fewer ==> x in parent && fewer[x] == parent[x]
    requires forall x :: x in rank ==> x in wider && wider[x] == rank[x]
    ensures Ranked(fewer, wider)
  {
    forall x | x in fewer
      ensures LinkRanked(fewer, wider, x)
    {
      assert LinkRanked(parent, rank, x);
    }
  }

  // Queries.

  /** `isLeftDescendantOfRight`: `right` is `left` itself or is reached from `left` by following parent links. */
  function IsDescendant(parent: Parents, ghost rank: Ranks, left: PackageId, right: PackageId): bool
    requires Ranked(parent, rank)
    decreases Above(rank, left)
  {
    if left == right then true
    else if left !in parent then false
    else
      assert LinkRanked(parent, rank, left);
      RankOrder(rank, left, parent[left]);
      IsDescendant(parent, rank, parent[left], right)
  }

  /** A proper ancestor ranks strictly higher, so no two distinct packages descend from each other. */
  lemma {:induction false} DescendantRaisesRank(parent: Parents, rank: Ranks, x: PackageId, y: PackageId)
    requires Ranked(parent, rank)
    requires IsDescendant(parent, rank, x, y) && x != y
    ensures x in rank && y in rank && rank[x] < rank[y]
    decreases Above(rank, x)
  {
    assert LinkRanked(parent, rank, x);
    RankOrder(rank, x, parent[x]);
    if parent[x] != y {
      DescendantRaisesRank(parent, rank, parent[x], y);
    }
  }

  /** Two packages that descend from each other are the same package. */
  lemma DescendantAntisymmetric(parent: Parents, rank: Ranks, x: PackageId, y: PackageId)
    requires Ranked(parent, rank)
    ensures IsDescendant(parent, rank, x, y) && IsDescendant(parent, rank, y, x) ==> x == y
  {
    if x != y && IsDescendant(parent, rank, x, y) && IsDescendant(parent, rank, y, x) {
      DescendantRaisesRank(parent, rank, x, y);
      DescendantRaisesRank(parent, rank, y, x);
    }
  }

  /** Being a descendant is transitive. */
  lemma {:induction false} DescendantTransitive(parent: Parents, rank: Ranks, x: PackageId, y: PackageId, z: PackageId)
    requires Ranked(parent, rank)
    requires IsDescendant(parent, rank, x, y) && IsDescendant(parent, rank, y, z)
    ensures IsDescendant(parent, rank, x, z)
    decreases Above(rank, x)
  {
    if x != y {
      assert LinkRanked(parent, rank, x);
      RankOrder(rank, x, parent[x]);
      DescendantTransitive(parent, rank, parent[x], y, z);
    }
  }

  /** Descent along links that all survive in a larger forest survives there too. */
  lemma {:induction false} DescendantMonotone(fewer: Parents, rank: Ranks, parent: Parents, wider: Ranks,
                                              x: PackageId, y: PackageId)
    requires Ranked(fewer, rank) && Ranked(parent, wider)
    requires forall z :: z in fewer ==> z in parent && parent[z] == fewer[z]
    requires IsDescendant(fewer, rank, x, y)
    ensures IsDescendant(parent, wider, x, y)
    decreases Above(rank, x)
  {
    if x != y {
      assert LinkRanked(fewer, rank, x);
      RankOrder(rank, x, fewer[x]);
      DescendantMonotone(fewer, rank, parent, wider, fewer[x], y);
    }
  }

  /** `getSelfAndAncestors`: `self` followed by its parent, its parent's parent and so on up to a root. */
  function SelfAndAncestors(parent: Parents, ghost rank: Ranks, self: PackageId): (r: seq<PackageId>)
    requires Ranked(parent, rank)
    ensures |r| >= 1 && r[0] == self
    decreases Above(rank, self)
  {
    [self] +
      if self in parent then
        assert LinkRanked(parent, rank, self);
        RankOrder(rank, self, parent[self]);
        SelfAndAncestors(parent, rank, parent[self])
      else []
  }

  /** Each listed node is the parent of the one before it, and the last one is a root. */
  lemma {:induction false} AncestorsChain(parent: Parents, rank: Ranks, self: PackageId)
    requires Ranked(parent, rank)
    ensures var r := SelfAndAncestors(parent, rank, self);
      (forall i :: 0 <= i < |r| - 1 ==> r[i] in parent && parent[r[i]] == r[i + 1]) &&
      r[|r| - 1] !in parent
    decreases Above(rank, self)
  {
    if self in parent {
      assert LinkRanked(parent, rank, self);
      RankOrder(rank, self, parent[self]);
      AncestorsChain(parent, rank, parent[self]);
    }
  }

  /** The ancestors listed are exactly the nodes `self` descends from. */
  lemma {:induction false} AncestorsExactly(parent: Parents, rank: Ranks, self: PackageId)
    requires Ranked(parent, rank)
    ensures forall x :: x in SelfAndAncestors(parent, rank, self) <==> IsDescendant(parent, rank, self, x)
    decreases Above(rank, self)
  {
    if self in parent {
      assert LinkRanked(parent, rank, self);
      RankOrder(rank, self, parent[self]);
      AncestorsExactly(parent, rank, parent[self]);
    }
  }

  /** Every listed child names the list's owner as its parent. */
  ghost predicate ChildrenLinked(f: Forest) {
    forall p, i :: p in f.children && 0 <= i < |f.children[p]| ==>
      f.children[p][i] in f.parent && f.parent[f.children[p][i]] == p
  }

  /** Every parent link, except possibly that of `a`, is listed among the parent's children. */
  ghost predicate LinksListedExcept(f: Forest, a: Option<PackageId>) {
    forall x :: x in f.parent && Some(x) != a ==> x in ChildrenOf(f.children, f.parent[x])
  }

  ghost predicate ChildrenDistinct(f: Forest) {
    forall p :: p in f.children ==> Seqs.Distinct(f.children[p])
  }

  /** The children lists mirror the parent links exactly, each child listed once. */
  ghost predicate Consistent(f: Forest) {
    ChildrenLinked(f) && LinksListedExcept(f, None) && ChildrenDistinct(f)
  }

  /** `getSelfAndDescendants`: `self`, then depth first the descendants of each child in attachment order. */
  function SelfAndDescendants(f: Forest, ghost rank: Ranks, self: PackageId): (r: seq<PackageId>)
    requires Ranked(f.parent, rank) && ChildrenLinked(f)
    ensures |r| >= 1 && r[0] == self
    decreases Below(rank, self), 1, 0
  {
    [self] + DescendantsOfEach(f, rank, self, ChildrenOf(f.children, self))
  }

  function DescendantsOfEach(f: Forest, ghost rank: Ranks, owner: PackageId, xs: seq<PackageId>): seq<PackageId>
    requires Ranked(f.parent, rank) && ChildrenLinked(f)
    requires forall i :: 0 <= i < |xs| ==> xs[i] in f.parent && f.parent[xs[i]] == owner
    decreases Below(rank, owner), 0, |xs|
  {
    if xs == [] then []
    else
      assert LinkRanked(f.parent, rank, xs[0]);
      RankOrder(rank, xs[0], owner);
      SelfAndDescendants(f, rank, xs[0]) + DescendantsOfEach(f, rank, owner, xs[1..])
  }

  /** Everything listed as a descendant of `self` does descend from it. */
  lemma {:induction false} DescendantsSound(f: Forest, rank: Ranks, self: PackageId)
    requires Ranked(f.parent, rank) && ChildrenLinked(f)
    ensures forall x :: x in SelfAndDescendants(f, rank, self) ==> IsDescendant(f.parent, rank, x, self)
    decreases Below(rank, self), 1, 0
  {
    DescendantsOfEachSound(f, rank, self, ChildrenOf(f.children, self));
  }

  lemma {:induction false} DescendantsOfEachSound(f: Forest, rank: Ranks, owner: PackageId, xs: seq<PackageId>)
    requires Ranked(f.parent, rank) && ChildrenLinked(f)
    requires forall i :: 0 <= i < |xs| ==> xs[i] in f.parent && f.parent[xs[i]] == owner
    ensures forall x :: x in DescendantsOfEach(f, rank, owner, xs) ==> IsDescendant(f.parent, rank, x, owner)
    decreases Below(rank, owner), 0, |xs|
  {
    if xs != [] {
      assert LinkRanked(f.parent, rank, xs[0]);
      RankOrder(rank, xs[0], owner);
      DescendantsSound(f, rank, xs[0]);
      DescendantsOfEachSound(f, rank, owner, xs[1..]);
      assert IsDescendant(f.parent, rank, xs[0], owner);
      forall x | x in SelfAndDescendants(f, rank, xs[0])
        ensures IsDescendant(f.parent, rank, x, owner)
      {
        DescendantTransitive(f.parent, rank, x, xs[0], owner);
      }
    }
  }

  lemma {:induction false} MemberListed(f: Forest, rank: Ranks, owner: PackageId, xs: seq<PackageId>, x: PackageId)
    requires Ranked(f.parent, rank) && ChildrenLinked(f)
    requires forall i :: 0 <= i < |xs| ==> xs[i] in f.parent && f.parent[xs[i]] == owner
    requires x in xs
    ensures x in DescendantsOfEach(f, rank, owner, xs)
    decreases |xs|
  {
    if xs[0] != x {
      MemberListed(f, rank, owner, xs[1..], x);
    }
  }

  /** The children of a listed node are listed too. */
  lemma {:induction false} ChildListed(f: Forest, rank: Ranks, self: PackageId, p: PackageId, x: PackageId)
    requires Ranked(f.parent, rank) && ChildrenLinked(f)
    requires p in SelfAndDescendants(f, rank, self) && x in ChildrenOf(f.children, p)
    ensures x in SelfAndDescendants(f, rank, self)
    decreases Below(rank, self), 1, 0
  {
    var cs := ChildrenOf(f.children, self);
    if p == self {
      MemberListed(f, rank, self, cs, x);
    } else {
      ChildListedEach(f, rank, self, cs, p, x);
    }
  }

  lemma {:induction false} ChildListedEach(f: Forest, rank: Ranks, owner: PackageId, xs: seq<PackageId>,
                                           p: PackageId, x: PackageId)
    requires Ranked(f.parent, rank) && ChildrenLinked(f)
    requires forall i :: 0 <= i < |xs| ==> xs[i] in f.parent && f.parent[xs[i]] == owner
    requires p in DescendantsOfEach(f, rank, owner, xs) && x in ChildrenOf(f.children, p)
    ensures x in DescendantsOfEach(f, rank, owner, xs)
    decreases Below(rank, owner), 0, |xs|
  {
    assert xs != [];
    assert LinkRanked(f.parent, rank, xs[0]);
    RankOrder(rank, xs[0], owner);
    if p in SelfAndDescendants(f, rank, xs[0]) {
      ChildListed(f, rank, xs[0], p, x);
    } else {
      ChildListedEach(f, rank, owner, xs[1..], p, x);
    }
  }

  /** In a consistent forest the descendants listed are exactly the nodes that descend from `self`. */
  lemma DescendantsExactly(f: Forest, rank: Ranks, self: PackageId)
    requires Ranked(f.parent, rank) && Consistent(f)
    ensures forall x :: x in SelfAndDescendants(f, rank, self) <==> IsDescendant(f.parent, rank, x, self)
  {
    forall x
      ensures x in SelfAndDescendants(f, rank, self) <==> IsDescendant(f.parent, rank, x, self)
    {
      DescendantListed(f, rank, self, x);
    }
  }

  lemma {:induction false} DescendantListed(f: Forest, rank: Ranks, self: PackageId, x: PackageId)
    requires Ranked(f.parent, rank) && Consistent(f)
    ensures x in SelfAndDescendants(f, rank, self) <==> IsDescendant(f.parent, rank, x, self)
    decreases Above(rank, x)
  {
    DescendantsSound(f, rank, self);
    if x != self && IsDescendant(f.parent, rank, x, self) {
      assert LinkRanked(f.parent, rank, x);
      RankOrder(rank, x, f.parent[x]);
      DescendantListed(f, rank, self, f.parent[x]);
      ChildListed(f, rank, self, f.parent[x], x);
    }
  }

  // setParent, step by step.

  /** The first step of `setParent`: `c` leaves its old parent's children and loses its parent link. */
  function Detach(f: Forest, c: PackageId): Forest {
    if c in f.parent then
      Forest(f.parent - {c}, f.children[f.parent[c] := Without(ChildrenOf(f.children, f.parent[c]), {c})])
    else f
  }

  /** `removeAncestor` walking up from `n`: the nodes whose link to `a` it cuts. */
  ghost function Cuts(parent: Parents, rank: Ranks, n: PackageId, a: PackageId): set<PackageId>
    requires RankedExcept(parent, rank, a)
    decreases Above(rank, n)
  {
    if n !in parent then {}
    else if n == a then (if parent[n] == a then {n} else {})
    else
      assert LinkRanked(parent, rank, n);
      RankOrder(rank, n, parent[n]);
      Cuts(parent, rank, parent[n], a) + (if parent[n] == a then {n} else {})
  }

  /** The forest after the nodes in `cut` leave their parent `a`. */
  function CutFrom(f: Forest, a: PackageId, cut: set<PackageId>): Forest {
    if cut == {} then f
    else Forest(f.parent - cut, f.children[a := Without(ChildrenOf(f.children, a), cut)])
  }

  /** The links once `c` is detached, and then linked to `q` when `q` is given. */
  function Relinked(f: Forest, c: PackageId, q: PackageId): Parents {
    Detach(f, c).parent[c := q]
  }

  lemma DetachRanked(f: Forest, rank: Ranks, c: PackageId, q: PackageId)
    requires Ranked(f.parent, rank)
    ensures Ranked(Detach(f, c).parent, rank)
    ensures RankedExcept(Relinked(f, c, q), rank, c)
  {
    RankedSublinks(f.parent, rank, Detach(f, c).parent, rank);
  }

  /** The nodes whose link to `c` is cut when `c` is attached to `q`. */
  ghost function CutsOnAttach(f: Forest, rank: Ranks, c: PackageId, q: PackageId): set<PackageId>
    requires Ranked(f.parent, rank)
  {
    DetachRanked(f, rank, c, q);
    Cuts(Relinked(f, c, q), rank, q, c)
  }

  /** The forest `setParent(c, p)` leaves, attaching `c` only when it kept its new link. */
  ghost function SetParentLinks(f: Forest, rank: Ranks, c: PackageId, p: Option<PackageId>): Forest
    requires Ranked(f.parent, rank)
  {
    if p.None? then Detach(f, c)
    else
      var h := CutFrom(Forest(Relinked(f, c, p.value), Detach(f, c).children), c, CutsOnAttach(f, rank, c, p.value));
      if c in h.parent then Forest(h.parent, h.children[p.value := ChildrenOf(h.children, p.value) + [c]])
      else h
  }

  /**
   * `setParent` as written: once `removeAncestor` has cut the link of `c` itself, the put into the new
   * parent's children dereferences the now null parent.
   */
  ghost function SetParentAsWritten(f: Forest, rank: Ranks, c: PackageId, q: PackageId): Result<Forest>
    requires Ranked(f.parent, rank)
  {
    var h := CutFrom(Forest(Relinked(f, c, q), Detach(f, c).children), c, CutsOnAttach(f, rank, c, q));
    if c in h.parent then Success(Forest(h.parent, h.children[q := ChildrenOf(h.children, q) + [c]]))
    else Failure(Exception("NullPointerException", ""))
  }

  /** A rank that also covers `n`. */
  ghost function Extend(rank: Ranks, n: PackageId): (r: Ranks)
    ensures n in r && forall x :: x in rank ==> x in r && r[x] == rank[x]
  {
    if n in rank then rank else rank[n := 0]
  }

  /** The rank after `setParent`: the subtree of `c` is shifted to sit just below its new parent. */
  ghost function SetParentRank(f: Forest, rank: Ranks, c: PackageId, p: Option<PackageId>): Ranks
    requires Ranked(f.parent, rank)
  {
    var g := SetParentLinks(f, rank, c, p);
    if p.None? || c !in g.parent then rank
    else
      var q := p.value;
      var below := g.parent - {c};
      var wider := Extend(Extend(rank, c), q);
      SetParentLinksSub(f, rank, c, p);
      RankedSublinks(f.parent, rank, below, wider);
      var delta := wider[q] - wider[c] - 1;
      map x | x in wider :: if IsDescendant(below, wider, x, c) then wider[x] + delta else wider[x]
  }

  lemma CutsAreChildren(parent: Parents, rank: Ranks, n: PackageId, a: PackageId)
    requires RankedExcept(parent, rank, a)
    ensures forall x :: x in Cuts(parent, rank, n, a) ==> x in parent && parent[x] == a
    decreases Above(rank, n)
  {
    if n in parent && n != a {
      assert LinkRanked(parent, rank, n);
      RankOrder(rank, n, parent[n]);
      CutsAreChildren(parent, rank, parent[n], a);
    }
  }

  /** The walk only cuts `a` itself or nodes no lower than where it starts. */
  lemma CutsAbove(parent: Parents, rank: Ranks, n: PackageId, a: PackageId)
    requires RankedExcept(parent, rank, a)
    ensures forall x :: x in Cuts(parent, rank, n, a) ==> x == a || (n in rank && x in rank && rank[n] <= rank[x])
    decreases Above(rank, n)
  {
    if n in parent && n != a {
      assert LinkRanked(parent, rank, n);
      RankOrder(rank, n, parent[n]);
      CutsAbove(parent, rank, parent[n], a);
    }
  }

  /** The links `setParent` leaves are old links, except the new link of `c`. */
  lemma SetParentLinksSub(f: Forest, rank: Ranks, c: PackageId, p: Option<PackageId>)
    requires Ranked(f.parent, rank)
    ensures var g := SetParentLinks(f, rank, c, p);
      forall x :: x in g.parent && x != c ==> x in f.parent && g.parent[x] == f.parent[x]
    ensures var g := SetParentLinks(f, rank, c, p);
      p.Some? && c in g.parent ==> g.parent[c] == p.value
  {
  }

  /** Following links in a forest where `c` is detached reaches `c` exactly when it did before. */
  lemma {:induction false} DetachKeepsDescentTo(f: Forest, rank: Ranks, c: PackageId, n: PackageId)
    requires Ranked(f.parent, rank)
    ensures Ranked(Detach(f, c).parent, rank)
    ensures IsDescendant(Detach(f, c).parent, rank, n, c) <==> IsDescendant(f.parent, rank, n, c)
    decreases Above(rank, n)
  {
    DetachRanked(f, rank, c, c);
    if n != c && n in f.parent {
      assert LinkRanked(f.parent, rank, n);
      RankOrder(rank, n, f.parent[n]);
      DetachKeepsDescentTo(f, rank, c, f.parent[n]);
    }
  }

  /**
   * Walking up from `n` while `c` is linked to some other node cuts something exactly when `c` lies on the
   * way, and then cuts only the node just below `c`, which `n` descends from.
   */
  lemma {:induction false} CutsOnTheWay(parent: Parents, rank: Ranks, n: PackageId, c: PackageId)
    requires RankedExcept(parent, rank, c) && c in parent && parent[c] != c && n != c
    requires Ranked(parent - {c}, rank)
    ensures Cuts(parent, rank, n, c) != {} <==> IsDescendant(parent - {c}, rank, n, c)
    ensures forall x, y :: x in Cuts(parent, rank, n, c) && y in Cuts(parent, rank, n, c) ==> x == y
    ensures forall x :: x in Cuts(parent, rank, n, c) ==> x in parent && parent[x] == c && IsDescendant(parent - {c}, rank, n, x)
    decreases Above(rank, n)
  {
    if n in parent {
      assert LinkRanked(parent, rank, n);
      RankOrder(rank, n, parent[n]);
      if parent[n] != c {
        CutsOnTheWay(parent, rank, parent[n], c);
      }
    }
  }

  /** Once the cut is made, the new parent no longer descends from `c`. */
  lemma {:induction false} NotDescendantAfterCuts(parent: Parents, rank: Ranks, n: PackageId, c: PackageId,
                                                  wider: Ranks)
    requires RankedExcept(parent, rank, c) && c in parent && parent[c] != c && n != c
    requires Ranked((parent - {c}) - Cuts(parent, rank, n, c), wider)
    ensures !IsDescendant((parent - {c}) - Cuts(parent, rank, n, c), wider, n, c)
    decreases Above(rank, n)
  {
    var below := (parent - {c}) - Cuts(parent, rank, n, c);
    if n in below {
      assert LinkRanked(parent, rank, n);
      RankOrder(rank, n, parent[n]);
      assert parent[n] != c;
      assert Cuts(parent, rank, n, c) == Cuts(parent, rank, parent[n], c);
      NotDescendantAfterCuts(parent, rank, parent[n], c, wider);
    }
  }

  /** `setParent` keeps the links acyclic: the shifted rank ranks every link it leaves. */
  lemma SetParentKeepsRanked(f: Forest, rank: Ranks, c: PackageId, p: Option<PackageId>)
    requires Ranked(f.parent, rank)
    ensures Ranked(SetParentLinks(f, rank, c, p).parent, SetParentRank(f, rank, c, p))
  {
    var g := SetParentLinks(f, rank, c, p);
    SetParentLinksSub(f, rank, c, p);
    if p.None? || c !in g.parent {
      RankedSublinks(f.parent, rank, g.parent, rank);
    } else {
      var q := p.value;
      var linked := Relinked(f, c, q);
      DetachRanked(f, rank, c, q);
      var cut := Cuts(linked, rank, q, c);
      assert cut == CutsOnAttach(f, rank, c, q);
      assert q != c;
      var below := g.parent - {c};
      assert below == (linked - {c}) - cut;
      var wider := Extend(Extend(rank, c), q);
      RankedSublinks(f.parent, rank, below, wider);
      NotDescendantAfterCuts(linked, rank, q, c, wider);
      var r := SetParentRank(f, rank, c, p);
      forall x | x in g.parent
        ensures LinkRanked(g.parent, r, x)
      {
        if x != c {
          assert LinkRanked(below, wider, x);
          assert IsDescendant(below, wider, x, c) == IsDescendant(below, wider, below[x], c);
        }
      }
    }
  }

  /** No children list mentions `c`. */
  ghost predicate NotListed(f: Forest, c: PackageId) {
    forall p :: p in f.children ==> c !in f.children[p]
  }

  lemma DetachConsistent(f: Forest, c: PackageId)
    requires Consistent(f)
    ensures var g := Detach(f, c);
      ChildrenLinked(g) && LinksListedExcept(g, None) && ChildrenDistinct(g) && c !in g.parent && NotListed(g, c)
  {
    var g := Detach(f, c);
    if c in f.parent {
      forall p, i | p in g.children && 0 <= i < |g.children[p]|
        ensures g.children[p][i] in g.parent && g.parent[g.children[p][i]] == p
      {
        var x := g.children[p][i];
        assert x in ChildrenOf(f.children, p);
        var j :| 0 <= j < |f.children[p]| && f.children[p][j] == x;
      }
      forall p | p in g.children
        ensures c !in g.children[p]
      {
      }
    } else {
      forall p | p in f.children
        ensures c !in f.children[p]
      {
      }
    }
  }

  lemma CutConsistent(f: Forest, a: PackageId, cut: set<PackageId>)
    requires ChildrenLinked(f) && LinksListedExcept(f, Some(a)) && ChildrenDistinct(f) && NotListed(f, a)
    requires forall x :: x in cut ==> x in f.parent && f.parent[x] == a
    ensures var h := CutFrom(f, a, cut);
      ChildrenLinked(h) && LinksListedExcept(h, Some(a)) && ChildrenDistinct(h) && NotListed(h, a)
  {
    var h := CutFrom(f, a, cut);
    if cut != {} {
      forall p, i | p in h.children && 0 <= i < |h.children[p]|
        ensures h.children[p][i] in h.parent && h.parent[h.children[p][i]] == p
      {
        var x := h.children[p][i];
        assert x in ChildrenOf(f.children, p);
        var j :| 0 <= j < |f.children[p]| && f.children[p][j] == x;
      }
    }
  }

  lemma AttachConsistent(h: Forest, c: PackageId, q: PackageId)
    requires ChildrenLinked(h) && LinksListedExcept(h, Some(c)) && ChildrenDistinct(h) && NotListed(h, c)
    requires c in h.parent ==> h.parent[c] == q
    ensures c in h.parent ==> Consistent(Forest(h.parent, h.children[q := ChildrenOf(h.children, q) + [c]]))
    ensures c !in h.parent ==> Consistent(h)
  {
    if c in h.parent {
      var k := Forest(h.parent, h.children[q := ChildrenOf(h.children, q) + [c]]);
      forall p, i | p in k.children && 0 <= i < |k.children[p]|
        ensures k.children[p][i] in k.parent && k.parent[k.children[p][i]] == p
      {
        if p == q && i == |k.children[p]| - 1 {
        } else if p == q {
          assert k.children[p][i] == ChildrenOf(h.children, q)[i];
        }
      }
      assert Seqs.Distinct(k.children[q]) by {
        assert c !in ChildrenOf(h.children, q);
      }
    }
  }

  /** `setParent` keeps every child listed exactly once, under its parent. */
  lemma SetParentKeepsConsistent(f: Forest, rank: Ranks, c: PackageId, p: Option<PackageId>)
    requires Ranked(f.parent, rank) && Consistent(f)
    ensures Consistent(SetParentLinks(f, rank, c, p))
  {
    DetachConsistent(f, c);
    if p.Some? {
      var q := p.value;
      var g := Detach(f, c);
      var linked := Forest(Relinked(f, c, q), g.children);
      DetachRanked(f, rank, c, q);
      var cut := Cuts(linked.parent, rank, q, c);
      assert cut == CutsOnAttach(f, rank, c, q);
      CutsAreChildren(linked.parent, rank, q, c);
      CutConsistent(linked, c, cut);
      AttachConsistent(CutFrom(linked, c, cut), c, q);
    }
  }

  /** Attaching `c` to another node gives it that parent; detaching or self-parenting leaves it a root. */
  lemma SetParentAttaches(f: Forest, rank: Ranks, c: PackageId, p: Option<PackageId>)
    requires Ranked(f.parent, rank)
    ensures var g := SetParentLinks(f, rank, c, p);
      (p.None? || p == Some(c) ==> c !in g.parent) &&
      (p.Some? && p.value != c ==> c in g.parent && g.parent[c] == p.value)
  {
    if p.Some? {
      var linked := Relinked(f, c, p.value);
      DetachRanked(f, rank, c, p.value);
      CutsAreChildren(linked, rank, p.value, c);
    }
  }

  /**
   * Attaching `c` to `q` keeps every other link, except that when `q` descends from `c` the one link from a
   * child of `c` on the way up from `q` is cut; nothing is cut otherwise.
   */
  lemma SetParentCutsOnlyTheCycle(f: Forest, rank: Ranks, c: PackageId, q: PackageId)
    requires Ranked(f.parent, rank) && q != c
    ensures var g := SetParentLinks(f, rank, c, Some(q));
      forall x :: x != c && x in f.parent && x !in g.parent ==>
        f.parent[x] == c && IsDescendant(f.parent, rank, q, x)
    ensures var g := SetParentLinks(f, rank, c, Some(q));
      forall x, y :: x != c && x in f.parent && x !in g.parent && y != c && y in f.parent && y !in g.parent ==> x == y
    ensures var g := SetParentLinks(f, rank, c, Some(q));
      (exists x :: x != c && x in f.parent && x !in g.parent) <==> IsDescendant(f.parent, rank, q, c)
  {
    var g := SetParentLinks(f, rank, c, Some(q));
    var linked := Relinked(f, c, q);
    DetachRanked(f, rank, c, q);
    var cut := Cuts(linked, rank, q, c);
    assert cut == CutsOnAttach(f, rank, c, q);
    var detached := Detach(f, c).parent;
    assert linked - {c} == detached;
    CutsOnTheWay(linked, rank, q, c);
    CutsAreChildren(linked, rank, q, c);
    DetachKeepsDescentTo(f, rank, c, q);
    forall x | x != c && x in f.parent && x !in g.parent
      ensures x in cut && f.parent[x] == c && IsDescendant(f.parent, rank, q, x)
    {
      DescendantMonotone(detached, rank, f.parent, rank, q, x);
    }
    if IsDescendant(f.parent, rank, q, c) {
      var x :| x in cut;
      assert x != c && x in f.parent && x !in g.parent;
    }
  }

  /** Found: `setParent` as written throws when a node is made its own parent. */
  lemma SetParentSelfThrowsAsWritten(f: Forest, rank: Ranks, c: PackageId)
    requires Ranked(f.parent, rank)
    ensures SetParentAsWritten(f, rank, c, c).Failure?
    ensures SetParentAsWritten(f, rank, c, c).error.className == "NullPointerException"
  {
    DetachRanked(f, rank, c, c);
    assert c in Cuts(Relinked(f, c, c), rank, c, c);
  }

  /** Corrected: a node made its own parent is simply detached, and nothing else changes. */
  lemma SetParentSelfDetaches(f: Forest, rank: Ranks, c: PackageId)
    requires Ranked(f.parent, rank) && Consistent(f)
    ensures SetParentLinks(f, rank, c, Some(c)).parent == Detach(f, c).parent
    ensures forall n :: ChildrenOf(SetParentLinks(f, rank, c, Some(c)).children, n) == ChildrenOf(Detach(f, c).children, n)
  {
    DetachRanked(f, rank, c, c);
    DetachConsistent(f, c);
    var g := Detach(f, c);
    var linked := Relinked(f, c, c);
    assert Cuts(linked, rank, c, c) == {c};
    assert linked - {c} == g.parent;
    WithoutAbsent(ChildrenOf(g.children, c), {c});
  }

  /** Apart from self-parenting, the corrected `setParent` does what the original does. */
  lemma SetParentAsWrittenElsewhere(f: Forest, rank: Ranks, c: PackageId, q: PackageId)
    requires Ranked(f.parent, rank) && q != c
    ensures SetParentAsWritten(f, rank, c, q) == Success(SetParentLinks(f, rank, c, Some(q)))
  {
    SetParentAttaches(f, rank, c, Some(q));
  }

  lemma CutFromTwice(f: Forest, a: PackageId, first: set<PackageId>, n: PackageId)
    ensures CutFrom(CutFrom(f, a, first), a, {n}) == CutFrom(f, a, first + {n})
  {
    if first == {} {
      assert first + {n} == {n};
    } else {
      WithoutTwice(ChildrenOf(f.children, a), first, {n});
      assert (f.parent - first) - {n} == f.parent - (first + {n});
    }
  }

  lemma WithoutAbsent(s: seq<PackageId>, drop: set<PackageId>)
    requires forall x :: x in drop ==> x !in s
    ensures Without(s, drop) == s
  {
  }

  /** The package an embedded package event identifies: the installable's embedded package when there is one. */
  function EmbeddedSelf(packageId: Option<PackageId>, installable: Option<EmbeddedPackageInstallable>): (r: Option<PackageId>)
    ensures installable.Some? ==> r == Some(installable.value.embeddedId)
    ensures installable.None? ==> r == packageId
  {
    if installable.Some? then Some(installable.value.embeddedId) else packageId
  }

  /** The parent an embedded package event names: the installable's parent package when there is one. */
  function EmbeddedParent(parentId: Option<PackageId>, installable: Option<EmbeddedPackageInstallable>): (r: Option<PackageId>)
    ensures installable.Some? ==> r == Some(installable.value.parentId)
    ensures installable.None? ==> r == parentId
  {
    if installable.Some? then Some(installable.value.parentId) else parentId
  }

  /** The package graph check: the identified packages, in order, and the forest of their nesting. */
  class PackageGraph {
    var identified: seq<PackageId>
    var parent: Parents
    var children: Children
    ghost var rank: Ranks

    function Links(): Forest
      reads this
    {
      Forest(parent, children)
    }

    ghost predicate Valid()
      reads this
    {
      Ranked(parent, rank) && Consistent(Links())
    }

    constructor ()
      ensures Valid() && identified == [] && Links() == Forest(map[], map[])
    {
      identified, parent, children := [], map[], map[];
      rank := map[];
    }

    /** `getReportedViolations`: the graph only answers queries; it reports nothing. */
    function GetReportedViolations(): (r: seq<Violations.Violation>)
      ensures |r| == 0
    {
      []
    }

    /** `startedScan`: forget every identified package and every link. */
    method StartedScan()
      modifies this
      ensures Valid() && identified == [] && Links() == Forest(map[], map[])
      ensures forall id :: IsRoot(id) && !IsIdentified(id)
      ensures GetLastIdentified().None?
    {
      identified, parent, children := [], map[], map[];
      rank := map[];
    }

    /** `removeAncestor`, walking up from `n`: cut the link to `a` wherever it is found on the way. */
    method RemoveAncestor(n: PackageId, a: PackageId)
      modifies this
      requires RankedExcept(parent, rank, a)
      ensures Links() == CutFrom(old(Links()), a, Cuts(old(parent), old(rank), n, a))
      ensures identified == old(identified) && rank == old(rank)
      decreases Above(rank, n)
    {
      if n in parent {
        ghost var first: set<PackageId> := {};
        if a != n {
          assert LinkRanked(parent, rank, n);
          RankOrder(rank, n, parent[n]);
          CutsAbove(parent, rank, parent[n], a);
          first := Cuts(parent, rank, parent[n], a);
          RemoveAncestor(parent[n], a);
        }
        ghost var cuts := Cuts(old(parent), old(rank), n, a);
        assert cuts == first + (if parent[n] == a then {n} else {});
        if parent[n] == a {
          CutFromTwice(old(Links()), a, first, n);
          ghost var before := Links();
          children := children[a := Without(ChildrenOf(children, a), {n})];
          parent := parent - {n};
          assert Links() == CutFrom(before, a, {n});
          assert cuts == first + {n};
        } else {
          assert cuts == first;
        }
        assert Links() == CutFrom(old(Links()), a, cuts);
      }
    }

    /**
     * `setParent`: detach `c`, link it to `p`, cut the link that would close a cycle, and list `c` among the
     * new parent's children if it kept its link.
     */
    method SetParent(c: PackageId, p: Option<PackageId>)
      modifies this
      requires Valid()
      ensures Valid()
      ensures Links() == SetParentLinks(old(Links()), old(rank), c, p)
      ensures identified == old(identified)
    {
      ghost var f := Links();
      ghost var rank0 := rank;
      if c in parent {
        var former := parent[c];
        children := children[former := Without(ChildrenOf(children, former), {c})];
        parent := parent - {c};
      }
      if p.Some? {
        var q := p.value;
        DetachRanked(f, rank, c, q);
        parent := parent[c := q];
        RemoveAncestor(q, c);
        if c in parent {
          children := children[q := ChildrenOf(children, q) + [c]];
        }
      }
      rank := SetParentRank(f, rank0, c, p);
      SetParentKeepsRanked(f, rank0, c, p);
      SetParentKeepsConsistent(f, rank0, c, p);
    }

    /** `identifyPackage`: a package scanned on its own is recorded and becomes a root. */
    method IdentifyPackage(packageId: Option<PackageId>)
      modifies this
      requires Valid()
      ensures Valid()
      ensures packageId.None? ==> identified == old(identified) && Links() == old(Links())
      ensures packageId.Some? ==>
        identified == old(identified) + [packageId.value] &&
        Links() == SetParentLinks(old(Links()), old(rank), packageId.value, None)
      ensures packageId.Some? ==> IsRoot(packageId.value) && GetLastIdentified() == packageId
    {
      if packageId.Some? {
        identified := identified + [packageId.value];
        SetParent(packageId.value, None);
        SetParentAttaches(old(Links()), old(rank), packageId.value, None);
      }
    }

    /** `identifySubpackage`: a subpackage is recorded and attached to its parent. */
    method IdentifySubpackage(packageId: Option<PackageId>, parentId: Option<PackageId>)
      modifies this
      requires Valid()
      ensures Valid()
      ensures packageId.None? || parentId.None? ==> identified == old(identified) && Links() == old(Links())
      ensures packageId.Some? && parentId.Some? ==>
        identified == old(identified) + [packageId.value] &&
        Links() == SetParentLinks(old(Links()), old(rank), packageId.value, parentId)
      ensures packageId.Some? && parentId.Some? && packageId != parentId ==>
        !IsRoot(packageId.value) && IsLeftDescendantOfRight(packageId.value, parentId.value)
      ensures packageId.Some? && packageId == parentId ==> IsRoot(packageId.value)
    {
      if packageId.Some? && parentId.Some? {
        identified := identified + [packageId.value];
        SetParent(packageId.value, parentId);
        SetParentAttaches(old(Links()), old(rank), packageId.value, parentId);
      }
    }

    /** `identifyEmbeddedPackage`: as a subpackage, with the installable's ids taking precedence. */
    method IdentifyEmbeddedPackage(packageId: Option<PackageId>, parentId: Option<PackageId>,
                                   installable: Option<EmbeddedPackageInstallable>)
      modifies this
      requires Valid()
      ensures Valid()
      ensures var self, up := EmbeddedSelf(packageId, installable), EmbeddedParent(parentId, installable);
        (self.None? || up.None? ==> identified == old(identified) && Links() == old(Links())) &&
        (self.Some? && up.Some? ==>
          identified == old(identified) + [self.value] &&
          Links() == SetParentLinks(old(Links()), old(rank), self.value, up))
    {
      var self := EmbeddedSelf(packageId, installable);
      var up := EmbeddedParent(parentId, installable);
      if self.Some? && up.Some? {
        identified := identified + [self.value];
        SetParent(self.value, up);
      }
    }

    /** `isIdentified`. */
    function IsIdentified(packageId: PackageId): bool
      reads this
    {
      packageId in identified
    }

    /** `getLastIdentified`: the most recently identified package, or null before any. */
    function GetLastIdentified(): (r: Option<PackageId>)
      reads this
      ensures r.None? <==> identified == []
      ensures r.Some? ==> r.value == identified[|identified| - 1] && IsIdentified(r.value)
    {
      if identified == [] then None else Some(identified[|identified| - 1])
    }

    /** `isRoot`: the package has no known parent. */
    function IsRoot(packageId: PackageId): bool
      reads this
    {
      packageId !in parent
    }

    /**
     * `isLeftDescendantOfRight`: a package descends from itself, and otherwise from whatever its parent descends
     * from; two distinct packages never descend from each other.
     */
    function IsLeftDescendantOfRight(left: PackageId, right: PackageId): (r: bool)
      reads this
      requires Valid()
      ensures left == right ==> r
      ensures left != right ==> (r <==> !IsRoot(left) && IsDescendant(parent, rank, parent[left], right))
      ensures r && left != right ==> !IsDescendant(parent, rank, right, left)
    {
      DescendantAntisymmetric(parent, rank, left, right);
      IsDescendant(parent, rank, left, right)
    }

    function GetSelfAndAncestors(self: PackageId): (r: seq<PackageId>)
      reads this
      requires Valid()
      ensures |r| >= 1 && r[0] == self
      ensures forall x :: x in r <==> IsLeftDescendantOfRight(self, x)
    {
      AncestorsExactly(parent, rank, self);
      SelfAndAncestors(parent, rank, self)
    }

    function GetSelfAndDescendants(self: PackageId): (r: seq<PackageId>)
      reads this
      requires Valid()
      ensures |r| >= 1 && r[0] == self
      ensures forall x :: x in r <==> IsLeftDescendantOfRight(x, self)
    {
      DescendantsExactly(Links(), rank, self);
      SelfAndDescendants(Links(), rank, self)
    }
  }
}
