/** The shape `InsertRecursive` gives the records of the file, and the in-order walk over them.

    Once the walk leaves the root on one side it stays on that side: it only descends into a
    left child whose value is still greater than the inserted value (which then routes left
    again), and only into a right child whose value is still smaller (which then routes right
    again). A non-empty file is therefore always the root, a chain of records hanging off its
    left offset (each linked by its left offset only), and a chain hanging off its right offset
    (each linked by its right offset only). The ghost sequences of record indices that describe
    these two chains are the invariant the insert algorithm keeps. */
module TreeShape {
  import opened Primitives
  import opened NodeRecord
  import opened NodeCodec

  datatype Side = Left | Right

  function Other(side: Side): Side {
    if side == Left then Right else Left
  }

  function Child(n: Node, side: Side): int64 {
    if side == Left then n.leftOffset else n.rightOffset
  }

  /** `n` with its child offset on `side` repointed; the only record update the tree makes. */
  function WithChild(n: Node, side: Side, offset: int64): (m: Node)
    ensures Child(m, side) == offset && Child(m, Other(side)) == Child(n, Other(side))
    ensures m.value == n.value && m.offset == n.offset
  {
    if side == Left then n.(leftOffset := offset) else n.(rightOffset := offset)
  }

  /** The side InsertRecursive takes from a node holding `nodeValue`: left when the node's
      value is greater, right otherwise (ties go right). Its consequences are stated by
      `TreeFiles.WalkTo` and `DiskTree.DiskBinaryTree.InsertRecursive`. */
  function Route(nodeValue: int32, value: int32): Side {
    if nodeValue > value then Left else Right
  }

  /** Does the walk, routed to `side`, descend into a child holding `childValue`: on the left
      only while the child's value is still greater than `value`, on the right only while it
      is still smaller. Otherwise it stops and puts the new record above that child.
      `TreeSplice.StopAt` states where the walk therefore stops. */
  predicate Descends(side: Side, value: int32, childValue: int32) {
    if side == Left then childValue > value else childValue < value
  }

  /** May a record holding `lower` sit below one holding `upper` on this side's chain. */
  predicate ChainStep(side: Side, upper: int32, lower: int32) {
    if side == Left then lower <= upper else upper <= lower
  }

  /** The file offset of chain element `i`, or 0 ("no child") past the end of the chain. */
  function Link(chain: seq<nat>, i: nat): int {
    if i < |chain| then 20 * chain[i] else 0
  }

  /** The record indices of `chain` are those of non-root records. */
  ghost predicate InRecords(recs: seq<Node>, chain: seq<nat>) {
    |recs| > 0 && forall i :: 0 <= i < |chain| ==> 0 < chain[i] < |recs|
  }

  /** Chain element `i` links on `side` to element `i + 1` (0 for the last) and has no child on
      the other side. */
  ghost predicate LinkedAt(recs: seq<Node>, side: Side, chain: seq<nat>, i: nat)
    requires InRecords(recs, chain) && i < |chain|
  {
    Child(recs[chain[i]], side) as int == Link(chain, i + 1) &&
    Child(recs[chain[i]], Other(side)) == 0
  }

  /** The root's `side` offset starts `chain`, and every element is linked as LinkedAt says. */
  ghost predicate SideLinks(recs: seq<Node>, side: Side, chain: seq<nat>)
    requires InRecords(recs, chain)
  {
    Child(recs[0], side) as int == Link(chain, 0) &&
    forall i :: 0 <= i < |chain| ==> LinkedAt(recs, side, chain, i)
  }

  /** Every element of `chain` routes from the root to `side`, and the values down the chain
      are non-increasing on the left and non-decreasing on the right. */
  ghost predicate SideOrder(recs: seq<Node>, side: Side, chain: seq<nat>)
    requires InRecords(recs, chain)
  {
    (forall i {:trigger recs[chain[i]]} :: 0 <= i < |chain| ==>
       Route(recs[0].value, recs[chain[i]].value) == side) &&
    (forall i, j {:trigger recs[chain[i]], recs[chain[j]]} :: 0 <= i < j < |chain| ==>
       ChainStep(side, recs[chain[i]].value, recs[chain[j]].value))
  }

  /** `chain` lists, top down, the record indices hanging off the root on `side`. */
  ghost predicate SideShape(recs: seq<Node>, side: Side, chain: seq<nat>) {
    InRecords(recs, chain) && SideLinks(recs, side, chain) && SideOrder(recs, side, chain)
  }

  predicate NoDup(s: seq<nat>) {
    forall i, j :: 0 <= i < j < |s| ==> s[i] != s[j]
  }

  predicate Disjoint(a: seq<nat>, b: seq<nat>) {
    forall i, j :: 0 <= i < |a| && 0 <= j < |b| ==> a[i] != b[j]
  }

  /** The records are the root plus its two chains, and every other record is on exactly one
      of them, once. */
  ghost predicate ChainShape(recs: seq<Node>, lefts: seq<nat>, rights: seq<nat>) {
    SideShape(recs, Left, lefts) && SideShape(recs, Right, rights) &&
    NoDup(lefts) && NoDup(rights) && Disjoint(lefts, rights) &&
    |lefts| + |rights| + 1 == |recs| &&
    (forall j :: 0 < j < |recs| ==> j in lefts || j in rights)
  }

  /** Every non-zero child offset in a well-shaped file addresses a whole record other than the
      root; so 0 can mean "no child" without ever hiding a link to the root. */
  lemma {:induction false} ChildrenAreNotRoot(recs: seq<Node>, lefts: seq<nat>, rights: seq<nat>, i: nat, side: Side)
    requires ChainShape(recs, lefts, rights) && i < |recs|
    ensures var c := Child(recs[i], side) as int;
      c == 0 || (c % 20 == 0 && 20 <= c < 20 * |recs|)
  {
    if i != 0 {
      if i in lefts {
        var j :| 0 <= j < |lefts| && lefts[j] == i;
        assert LinkedAt(recs, Left, lefts, j);
      } else {
        var j :| 0 <= j < |rights| && rights[j] == i;
        assert LinkedAt(recs, Right, rights, j);
      }
    }
  }

  function Reverse(s: seq<int32>): (r: seq<int32>)
    ensures |r| == |s|
  {
    if s == [] then [] else Reverse(s[1..]) + [s[0]]
  }

  lemma {:induction false} ReverseMultiset(s: seq<int32>)
    ensures multiset(Reverse(s)) == multiset(s)
  {
    if s != [] {
      ReverseMultiset(s[1..]);
      assert s == [s[0]] + s[1..];
    }
  }

  lemma {:induction false} ReverseAt(s: seq<int32>, i: nat)
    requires i < |s|
    ensures Reverse(s)[i] == s[|s| - 1 - i]
  {
    if i < |s| - 1 {
      ReverseAt(s[1..], i);
    }
  }

  /** The values a chain carries, top down. */
  function Values(recs: seq<Node>, chain: seq<nat>): (vs: seq<int32>)
    requires forall i :: 0 <= i < |chain| ==> chain[i] < |recs|
    ensures |vs| == |chain|
  {
    if chain == [] then [] else [recs[chain[0]].value] + Values(recs, chain[1..])
  }

  lemma {:induction false} ValuesAt(recs: seq<Node>, chain: seq<nat>, i: nat)
    requires forall j :: 0 <= j < |chain| ==> chain[j] < |recs|
    requires i < |chain|
    ensures Values(recs, chain)[i] == recs[chain[i]].value
  {
    if i > 0 {
      ValuesAt(recs, chain[1..], i - 1);
    }
  }

  lemma ValuesFrom(recs: seq<Node>, chain: seq<nat>, i: nat)
    requires forall j :: 0 <= j < |chain| ==> chain[j] < |recs|
    requires i < |chain|
    ensures Values(recs, chain[i..]) == [recs[chain[i]].value] + Values(recs, chain[i + 1..])
  {
    assert chain[i..][1..] == chain[i + 1..];
  }

  /** The in-order sequence of a well-shaped file: the left chain bottom up, the root, the right
      chain top down. */
  function ChainValues(recs: seq<Node>, lefts: seq<nat>, rights: seq<nat>): seq<int32>
    requires |recs| > 0
    requires forall i :: 0 <= i < |lefts| ==> lefts[i] < |recs|
    requires forall i :: 0 <= i < |rights| ==> rights[i] < |recs|
  {
    Reverse(Values(recs, lefts)) + [recs[0].value] + Values(recs, rights)
  }

  predicate Ascending(s: seq<int32>) {
    forall i, j :: 0 <= i < j < |s| ==> s[i] <= s[j]
  }

  /** The record that starts at `offset`, if the file has one there. */
  function RecordAt(recs: seq<Node>, offset: int64): (r: Option<Node>)
    ensures r.Some? ==> offset as int % 20 == 0 && 0 <= offset as int / 20 < |recs|
  {
    if 0 <= offset && offset as int % 20 == 0 && offset as int / 20 < |recs|
    then Some(recs[offset as int / 20])
    else None
  }

  /** The in-order walk from `offset` over the file's records: take the record there, walk its
      non-zero left offset, emit its value, walk its non-zero right offset. `fuel` bounds the
      depth; a file of n records needs at most n (see TreeWalk). */
  function InOrder(recs: seq<Node>, offset: int64, fuel: nat): seq<int32>
    decreases fuel
  {
    if fuel == 0 then []
    else match RecordAt(recs, offset)
      case None => []
      case Some(n) =>
        (if n.leftOffset == 0 then [] else InOrder(recs, n.leftOffset, fuel - 1))
        + [n.value]
        + (if n.rightOffset == 0 then [] else InOrder(recs, n.rightOffset, fuel - 1))
  }

  /** A chain read through the in-order walk, in walk order. */
  function Oriented(side: Side, vs: seq<int32>): seq<int32> {
    if side == Left then Reverse(vs) else vs
  }

  /** One step of the walk at the record with index `k`. */
  lemma WalkStep(recs: seq<Node>, k: nat, fuel: nat)
    requires fuel > 0 && k < |recs| && 20 * k <= MaxInt64
    ensures var n := recs[k];
      InOrder(recs, (20 * k) as int64, fuel)
      == (if n.leftOffset == 0 then [] else InOrder(recs, n.leftOffset, fuel - 1))
         + [n.value]
         + (if n.rightOffset == 0 then [] else InOrder(recs, n.rightOffset, fuel - 1))
  {
    assert RecordAt(recs, (20 * k) as int64) == Some(recs[k]);
  }

  lemma OrientedCons(side: Side, v: int32, rest: seq<int32>)
    ensures Oriented(side, [v] + rest)
         == if side == Left then Oriented(side, rest) + [v] else [v] + Oriented(side, rest)
  {
    if side == Left {
      assert ([v] + rest)[1..] == rest;
    }
  }

  /** The walk at one chain element, given the walk below it. */
  lemma ChainWalkStep(recs: seq<Node>, side: Side, chain: seq<nat>, i: nat, fuel: nat)
    requires forall j :: 0 <= j < |chain| ==> chain[j] < |recs|
    requires i < |chain| && fuel > 0 && 20 * |recs| <= MaxInt64
    requires Child(recs[chain[i]], Other(side)) == 0
    requires i + 1 == |chain| ==> Child(recs[chain[i]], side) == 0
    requires i + 1 < |chain| ==> (Child(recs[chain[i]], side) != 0 &&
      InOrder(recs, Child(recs[chain[i]], side), fuel - 1) == Oriented(side, Values(recs, chain[i + 1..])))
    ensures InOrder(recs, (20 * chain[i]) as int64, fuel)
         == Oriented(side, Values(recs, chain[i..]))
  {
    var n := recs[chain[i]];
    var rest := Values(recs, chain[i + 1..]);
    var below := if Child(n, side) == 0 then [] else InOrder(recs, Child(n, side), fuel - 1);
    WalkStep(recs, chain[i], fuel);
    ValuesFrom(recs, chain, i);
    OrientedCons(side, n.value, rest);
    if i + 1 == |chain| {
      assert chain[i + 1..] == [];
    }
    assert below == Oriented(side, rest);
    if side == Left {
      assert InOrder(recs, (20 * chain[i]) as int64, fuel) == below + [n.value];
    } else {
      assert InOrder(recs, (20 * chain[i]) as int64, fuel) == [n.value] + below;
    }
  }

  /** Walking a chain from element `i` yields that part of the chain in order, given enough fuel. */
  lemma {:induction false} ChainWalk(recs: seq<Node>, side: Side, chain: seq<nat>, i: nat, fuel: nat)
    requires InRecords(recs, chain) && SideLinks(recs, side, chain)
    requires 20 * |recs| <= MaxInt64
    requires i < |chain| && fuel >= |chain| - i
    ensures 0 < Link(chain, i) <= MaxInt64
    ensures InOrder(recs, Link(chain, i) as int64, fuel) == Oriented(side, Values(recs, chain[i..]))
    decreases |chain| - i
  {
    assert LinkedAt(recs, side, chain, i);
    var below := fuel - 1;
    if i + 1 < |chain| {
      ChainWalk(recs, side, chain, i + 1, below);
    }
    ChainWalkStep(recs, side, chain, i, fuel);
  }

  /** The walk below the root on `side` yields that side's chain in walk order. */
  lemma SideWalk(recs: seq<Node>, side: Side, chain: seq<nat>, fuel: nat)
    requires InRecords(recs, chain) && SideLinks(recs, side, chain)
    requires 20 * |recs| <= MaxInt64 && fuel >= |chain|
    ensures (if Child(recs[0], side) == 0 then [] else InOrder(recs, Child(recs[0], side), fuel))
         == Oriented(side, Values(recs, chain))
  {
    if chain != [] {
      ChainWalk(recs, side, chain, 0, fuel);
      assert chain[0..] == chain;
    }
  }

  /** The walk from offset 0, with one unit of fuel per record, visits the whole tree and yields
      its chain values; those are in non-decreasing order. */
  lemma TreeWalk(recs: seq<Node>, lefts: seq<nat>, rights: seq<nat>)
    requires ChainShape(recs, lefts, rights) && 20 * |recs| <= MaxInt64
    ensures InOrder(recs, 0, |recs|) == ChainValues(recs, lefts, rights)
    ensures Ascending(InOrder(recs, 0, |recs|))
  {
    var fuel := |recs|;
    var below := fuel - 1;
    WalkStep(recs, 0, fuel);
    SideWalk(recs, Left, lefts, below);
    SideWalk(recs, Right, rights, below);
    ChainValuesAscending(recs, lefts, rights);
  }

  /** Position `i` of the left chain read bottom up. */
  lemma LeftAt(recs: seq<Node>, lefts: seq<nat>, i: nat)
    requires InRecords(recs, lefts) && i < |lefts|
    ensures Reverse(Values(recs, lefts))[i] == recs[lefts[|lefts| - 1 - i]].value
  {
    ReverseAt(Values(recs, lefts), i);
    ValuesAt(recs, lefts, |lefts| - 1 - i);
  }

  /** Read bottom up, the left chain is ascending and below the root. */
  lemma LeftChainAscending(recs: seq<Node>, lefts: seq<nat>)
    requires InRecords(recs, lefts) && SideOrder(recs, Left, lefts)
    ensures Ascending(Reverse(Values(recs, lefts)))
    ensures forall i :: 0 <= i < |lefts| ==> Reverse(Values(recs, lefts))[i] < recs[0].value
  {
    var low := Reverse(Values(recs, lefts));
    var m := |lefts|;
    forall i | 0 <= i < m ensures low[i] < recs[0].value {
      LeftAt(recs, lefts, i);
    }
    forall i, j | 0 <= i < j < m ensures low[i] <= low[j] {
      LeftAt(recs, lefts, i);
      LeftAt(recs, lefts, j);
      var upper, lower := m - 1 - j, m - 1 - i;
      assert ChainStep(Left, recs[lefts[upper]].value, recs[lefts[lower]].value);
    }
  }

  /** Read top down, the right chain is ascending and not below the root. */
  lemma RightChainAscending(recs: seq<Node>, rights: seq<nat>)
    requires InRecords(recs, rights) && SideOrder(recs, Right, rights)
    ensures Ascending(Values(recs, rights))
    ensures forall i :: 0 <= i < |rights| ==> recs[0].value <= Values(recs, rights)[i]
  {
    var high := Values(recs, rights);
    forall i | 0 <= i < |rights| ensures recs[0].value <= high[i] {
      ValuesAt(recs, rights, i);
    }
    forall i, j | 0 <= i < j < |rights| ensures high[i] <= high[j] {
      ValuesAt(recs, rights, i);
      ValuesAt(recs, rights, j);
    }
  }

  lemma AscendingAround(low: seq<int32>, mid: int32, high: seq<int32>)
    requires Ascending(low) && Ascending(high)
    requires forall i :: 0 <= i < |low| ==> low[i] <= mid
    requires forall i :: 0 <= i < |high| ==> mid <= high[i]
    ensures Ascending(low + [mid] + high)
  {
    var s := low + [mid] + high;
    var m := |low|;
    forall i, j | 0 <= i < j < |s| ensures s[i] <= s[j] {
      if j < m {
      } else if i < m {
        assert s[i] <= mid;
      } else if i == m {
      } else {
        assert s[i] == high[i - m - 1] && s[j] == high[j - m - 1];
      }
    }
  }

  lemma ChainValuesAscending(recs: seq<Node>, lefts: seq<nat>, rights: seq<nat>)
    requires InRecords(recs, lefts) && SideOrder(recs, Left, lefts)
    requires InRecords(recs, rights) && SideOrder(recs, Right, rights)
    ensures Ascending(ChainValues(recs, lefts, rights))
  {
    LeftChainAscending(recs, lefts);
    RightChainAscending(recs, rights);
    AscendingAround(Reverse(Values(recs, lefts)), recs[0].value, Values(recs, rights));
  }
}
