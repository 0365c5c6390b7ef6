/** What one `InsertRecursive` call does to the records of a well-shaped file: it appends a
    fresh record and repoints one child offset of the record above it, which splices the fresh
    record into one of the two chains at some position `k`. The lemmas here show the splice
    keeps the chain shape and adds exactly the inserted value to the tree's contents. */
module TreeSplice {
  import opened Primitives
  import opened NodeRecord
  import opened NodeCodec
  import opened TreeShape

  /** `s` with `x` placed at position `k`. */
  function InsertAt(s: seq<nat>, k: nat, x: nat): (r: seq<nat>)
    requires k <= |s|
    ensures |r| == |s| + 1
    ensures forall i :: 0 <= i < |r| ==> r[i] == if i < k then s[i] else if i == k then x else s[i - 1]
    ensures forall y :: y in r <==> y == x || y in s
  {
    assert s == s[..k] + s[k..];
    s[..k] + [x] + s[k..]
  }

  /** The record a chain position `k` hangs from: the root for the top of the chain, otherwise
      the element above. */
  function Parent(chain: seq<nat>, k: nat): nat
    requires k <= |chain|
  {
    if k == 0 then 0 else chain[k - 1]
  }

  /** The record `InsertRecursive` writes: a leaf carrying `v` whose `side` offset is `below`
      (0 when attaching at the end of the chain, the displaced child when splicing), placed at
      `at`. */
  function Fresh(side: Side, v: int32, below: int64, at: int64): (n: Node)
    ensures n.value == v && n.offset == at
    ensures Child(n, side) == below && Child(n, Other(side)) == 0
  {
    WithChild(Create(v), side, below).(offset := at)
  }

  /** The records after splicing `v` into `chain` (on `side`) at position `k`: the fresh record
      appended at the end, and its parent repointed to it. */
  function Spliced(recs: seq<Node>, side: Side, chain: seq<nat>, k: nat, v: int32): (r: seq<Node>)
    requires InRecords(recs, chain) && k <= |chain| && 20 * |recs| + 20 <= MaxInt64
    ensures |r| == |recs| + 1
  {
    var at := (20 * |recs|) as int64;
    var p := Parent(chain, k);
    (recs + [Fresh(side, v, Link(chain, k) as int64, at)])[p := WithChild(recs[p], side, at)]
  }

  /** Record `j` after the splice. */
  lemma SplicedAt(recs: seq<Node>, side: Side, chain: seq<nat>, k: nat, v: int32, j: nat)
    requires InRecords(recs, chain) && k <= |chain| && 20 * |recs| + 20 <= MaxInt64
    requires j <= |recs|
    ensures var at := (20 * |recs|) as int64;
      Spliced(recs, side, chain, k, v)[j]
      == if j == |recs| then Fresh(side, v, Link(chain, k) as int64, at)
         else if j == Parent(chain, k) then WithChild(recs[j], side, at)
         else recs[j]
  {
  }

  /** The splice changes no record's value, and the fresh record carries `v`. */
  lemma SplicedValuesKept(recs: seq<Node>, side: Side, chain: seq<nat>, k: nat, v: int32)
    requires InRecords(recs, chain) && k <= |chain| && 20 * |recs| + 20 <= MaxInt64
    ensures var r := Spliced(recs, side, chain, k, v);
      r[|recs|].value == v && forall j :: 0 <= j < |recs| ==> r[j].value == recs[j].value
  {
    var r := Spliced(recs, side, chain, k, v);
    SplicedAt(recs, side, chain, k, v, |recs|);
    forall j | 0 <= j < |recs| ensures r[j].value == recs[j].value {
      SplicedAt(recs, side, chain, k, v, j);
    }
  }

  /** The records before and after one insertion of `v`: one record is appended at the old end
      of file, carrying `v`. Into an empty file it is a bare leaf. Otherwise exactly one old
      record `p` changes, and only its `side` offset, which now points at the new record. The
      new record takes over `p`'s old `side` child and has no child on the other side.
      `DiskTree.DiskBinaryTree.Insert` promises it; `SplicedIsOneInsert` and
      `TreeFiles.InsertedIsOneInsert` prove it of the splice. */
  ghost predicate OneInsert(before: seq<Node>, after: seq<Node>, v: int32) {
    |after| == |before| + 1 && 20 * |before| <= MaxInt64 &&
    (before == [] ==> after == [Create(v)]) &&
    (before != [] ==>
       var at := (20 * |before|) as int64;
       exists p: nat, side: Side :: p < |before| &&
         after[p] == WithChild(before[p], side, at) &&
         after[|before|] == Fresh(side, v, Child(before[p], side), at) &&
         forall j :: 0 <= j < |before| && j != p ==> after[j] == before[j])
  }

  /** An insertion keeps every old record's value, and the new record carries `v`. */
  lemma OneInsertKeepsValues(before: seq<Node>, after: seq<Node>, v: int32)
    requires OneInsert(before, after, v)
    ensures after[|before|].value == v
    ensures forall j :: 0 <= j < |before| ==> after[j].value == before[j].value
  {
    if before != [] {
      var p: nat, side: Side :| p < |before| &&
        after[p] == WithChild(before[p], side, (20 * |before|) as int64) &&
        after[|before|] == Fresh(side, v, Child(before[p], side), (20 * |before|) as int64) &&
        forall j :: 0 <= j < |before| && j != p ==> after[j] == before[j];
    }
  }

  /** The splice at position `k` is one insertion, with the record above position `k` as the
      one record repointed. */
  lemma SplicedIsOneInsert(recs: seq<Node>, side: Side, chain: seq<nat>, k: nat, v: int32)
    requires InRecords(recs, chain) && k <= |chain| && 20 * |recs| + 20 <= MaxInt64
    requires Child(recs[Parent(chain, k)], side) as int == Link(chain, k)
    ensures OneInsert(recs, Spliced(recs, side, chain, k, v), v)
  {
    var r := Spliced(recs, side, chain, k, v);
    var p := Parent(chain, k);
    var at := (20 * |recs|) as int64;
    SplicedAt(recs, side, chain, k, v, |recs|);
    SplicedAt(recs, side, chain, k, v, p);
    forall j | 0 <= j < |recs| && j != p ensures r[j] == recs[j] {
      SplicedAt(recs, side, chain, k, v, j);
    }
    assert r[|recs|] == Fresh(side, v, Child(recs[p], side), at);
  }

  /** What the branch taken at the record above position `k` guarantees: `v` routes to `side`
      from the root and from the record above, and does not descend past the record below. */
  ghost predicate SpliceFits(recs: seq<Node>, side: Side, chain: seq<nat>, k: nat, v: int32)
    requires InRecords(recs, chain) && k <= |chain|
  {
    Route(recs[0].value, v) == side &&
    (0 < k ==> Route(recs[chain[k - 1]].value, v) == side) &&
    (k < |chain| ==> ChainStep(side, v, recs[chain[k]].value))
  }

  /** After the splice the grown chain is linked as before, with the fresh record in place. */
  lemma SplicedLinks(recs: seq<Node>, side: Side, chain: seq<nat>, k: nat, v: int32)
    requires InRecords(recs, chain) && SideLinks(recs, side, chain) && NoDup(chain)
    requires k <= |chain| && 20 * |recs| + 20 <= MaxInt64
    ensures var r := Spliced(recs, side, chain, k, v);
      var c := InsertAt(chain, k, |recs|);
      InRecords(r, c) && SideLinks(r, side, c)
  {
    var r := Spliced(recs, side, chain, k, v);
    var c := InsertAt(chain, k, |recs|);
    var p := |recs|;
    var at := (20 * p) as int64;
    assert InRecords(r, c);
    SplicedAt(recs, side, chain, k, v, 0);
    if k > 0 {
      assert Parent(chain, k) != 0;
    }
    forall i | 0 <= i < |c| ensures LinkedAt(r, side, c, i) {
      if i + 1 < k {
        assert LinkedAt(recs, side, chain, i);
        assert chain[i] != chain[k - 1];
        SplicedAt(recs, side, chain, k, v, chain[i]);
      } else if i + 1 == k {
        assert LinkedAt(recs, side, chain, i);
        SplicedAt(recs, side, chain, k, v, chain[i]);
      } else if i == k {
        SplicedAt(recs, side, chain, k, v, p);
      } else {
        assert LinkedAt(recs, side, chain, i - 1);
        assert k == 0 || chain[i - 1] != chain[k - 1];
        SplicedAt(recs, side, chain, k, v, chain[i - 1]);
      }
    }
  }

  lemma ChainStepTrans(side: Side, a: int32, b: int32, c: int32)
    requires ChainStep(side, a, b) && ChainStep(side, b, c)
    ensures ChainStep(side, a, c)
  {
  }

  /** The value at position `i` of the grown chain. */
  lemma SplicedChainValue(recs: seq<Node>, side: Side, chain: seq<nat>, k: nat, v: int32, i: nat)
    requires InRecords(recs, chain) && k <= |chain| && 20 * |recs| + 20 <= MaxInt64
    requires i <= |chain|
    ensures var r := Spliced(recs, side, chain, k, v);
      var c := InsertAt(chain, k, |recs|);
      c[i] < |r| &&
      r[c[i]].value == if i < k then recs[chain[i]].value else if i == k then v else recs[chain[i - 1]].value
  {
    SplicedValuesKept(recs, side, chain, k, v);
  }

  /** Every element of the grown chain still routes from the root to `side`. */
  lemma SplicedRoutes(recs: seq<Node>, side: Side, chain: seq<nat>, k: nat, v: int32)
    requires InRecords(recs, chain) && SideOrder(recs, side, chain)
    requires k <= |chain| && 20 * |recs| + 20 <= MaxInt64
    requires Route(recs[0].value, v) == side
    ensures var r := Spliced(recs, side, chain, k, v);
      var c := InsertAt(chain, k, |recs|);
      InRecords(r, c) &&
      forall i :: 0 <= i < |c| ==> Route(r[0].value, r[c[i]].value) == side
  {
    var r := Spliced(recs, side, chain, k, v);
    var c := InsertAt(chain, k, |recs|);
    SplicedValuesKept(recs, side, chain, k, v);
    forall i | 0 <= i < |c| ensures Route(r[0].value, r[c[i]].value) == side {
      SplicedChainValue(recs, side, chain, k, v, i);
      if i != k {
        var o := if i < k then i else i - 1;
        assert Route(recs[0].value, recs[chain[o]].value) == side;
      }
    }
  }

  /** Two positions of the grown chain are in chain order. */
  lemma SplicedStep(recs: seq<Node>, side: Side, chain: seq<nat>, k: nat, v: int32, i: nat, j: nat)
    requires InRecords(recs, chain) && SideOrder(recs, side, chain)
    requires k <= |chain| && 20 * |recs| + 20 <= MaxInt64
    requires SpliceFits(recs, side, chain, k, v)
    requires i < j <= |chain|
    ensures var r := Spliced(recs, side, chain, k, v);
      var c := InsertAt(chain, k, |recs|);
      ChainStep(side, r[c[i]].value, r[c[j]].value)
  {
    SplicedChainValue(recs, side, chain, k, v, i);
    SplicedChainValue(recs, side, chain, k, v, j);
    if i == k {
      if j - 1 > k {
        assert ChainStep(side, recs[chain[k]].value, recs[chain[j - 1]].value);
        ChainStepTrans(side, v, recs[chain[k]].value, recs[chain[j - 1]].value);
      }
    } else if j == k {
      if i < k - 1 {
        assert ChainStep(side, recs[chain[i]].value, recs[chain[k - 1]].value);
        ChainStepTrans(side, recs[chain[i]].value, recs[chain[k - 1]].value, v);
      }
    } else {
      var oi := if i < k then i else i - 1;
      var oj := if j < k then j else j - 1;
      assert ChainStep(side, recs[chain[oi]].value, recs[chain[oj]].value);
    }
  }

  /** After the splice the grown chain is still ordered: the branch conditions place `v`
      between the record above and the record below. */
  lemma SplicedOrder(recs: seq<Node>, side: Side, chain: seq<nat>, k: nat, v: int32)
    requires InRecords(recs, chain) && SideOrder(recs, side, chain)
    requires k <= |chain| && 20 * |recs| + 20 <= MaxInt64
    requires SpliceFits(recs, side, chain, k, v)
    ensures var r := Spliced(recs, side, chain, k, v);
      var c := InsertAt(chain, k, |recs|);
      InRecords(r, c) && SideOrder(r, side, c)
  {
    var r := Spliced(recs, side, chain, k, v);
    var c := InsertAt(chain, k, |recs|);
    SplicedRoutes(recs, side, chain, k, v);
    forall i, j | 0 <= i < j < |c| ensures ChainStep(side, r[c[i]].value, r[c[j]].value) {
      SplicedStep(recs, side, chain, k, v, i, j);
    }
  }

  /** The splice leaves the chain on the other side exactly as it was. */
  lemma SplicedOtherSide(recs: seq<Node>, side: Side, chain: seq<nat>, k: nat, v: int32, other: seq<nat>)
    requires InRecords(recs, chain) && k <= |chain| && 20 * |recs| + 20 <= MaxInt64
    requires SideShape(recs, Other(side), other) && Disjoint(chain, other)
    ensures SideShape(Spliced(recs, side, chain, k, v), Other(side), other)
  {
    var r := Spliced(recs, side, chain, k, v);
    SplicedValuesKept(recs, side, chain, k, v);
    SplicedAt(recs, side, chain, k, v, 0);
    forall i | 0 <= i < |other| ensures r[other[i]] == recs[other[i]] {
      assert k == 0 || chain[k - 1] != other[i];
      SplicedAt(recs, side, chain, k, v, other[i]);
    }
    assert InRecords(r, other);
    forall i | 0 <= i < |other| ensures LinkedAt(r, Other(side), other, i) {
      assert LinkedAt(recs, Other(side), other, i);
    }
    assert SideLinks(r, Other(side), other);
    assert SideOrder(r, Other(side), other);
  }

  lemma InsertAtNoDup(s: seq<nat>, k: nat, x: nat)
    requires k <= |s| && NoDup(s) && x !in s
    ensures NoDup(InsertAt(s, k, x))
  {
    var r := InsertAt(s, k, x);
    forall i, j | 0 <= i < j < |r| ensures r[i] != r[j] {
      if i != k && j != k {
        var oi := if i < k then i else i - 1;
        var oj := if j < k then j else j - 1;
        assert r[i] == s[oi] && r[j] == s[oj];
      }
    }
  }

  lemma InsertAtDisjoint(a: seq<nat>, b: seq<nat>, k: nat, x: nat)
    requires k <= |a| && Disjoint(a, b) && x !in b
    ensures Disjoint(InsertAt(a, k, x), b) && Disjoint(b, InsertAt(a, k, x))
  {
    var r := InsertAt(a, k, x);
    forall i, j | 0 <= i < |r| && 0 <= j < |b| ensures r[i] != b[j] {
      if i != k {
        var oi := if i < k then i else i - 1;
        assert r[i] == a[oi];
      }
    }
  }

  lemma DisjointSym(a: seq<nat>, b: seq<nat>)
    requires Disjoint(a, b)
    ensures Disjoint(b, a)
  {
  }

  /** The chains after splicing at position `k` of the `side` chain. */
  function LeftsAfter(lefts: seq<nat>, side: Side, k: nat, x: nat): seq<nat>
    requires side == Left ==> k <= |lefts|
  {
    if side == Left then InsertAt(lefts, k, x) else lefts
  }

  function RightsAfter(rights: seq<nat>, side: Side, k: nat, x: nat): seq<nat>
    requires side == Right ==> k <= |rights|
  {
    if side == Right then InsertAt(rights, k, x) else rights
  }

  function Chain(lefts: seq<nat>, rights: seq<nat>, side: Side): seq<nat> {
    if side == Left then lefts else rights
  }

  /** Where the walk down `chain` stops when it is at position `k`: the first position from
      `k` on that is the end of the chain or holds a record the walk does not descend into. */
  function StopAt(recs: seq<Node>, side: Side, chain: seq<nat>, k: nat, v: int32): (s: nat)
    requires InRecords(recs, chain) && k <= |chain|
    ensures k <= s <= |chain|
    ensures s < |chain| ==> !Descends(side, v, recs[chain[s]].value)
    ensures forall i :: k <= i < s ==> Descends(side, v, recs[chain[i]].value)
    decreases |chain| - k
  {
    if k == |chain| || !Descends(side, v, recs[chain[k]].value) then k
    else StopAt(recs, side, chain, k + 1, v)
  }

  /** The records after inserting `v` with the walk at position `k` of the `side` chain: the
      splice where the walk stops. */
  function InsertedBelow(recs: seq<Node>, lefts: seq<nat>, rights: seq<nat>, side: Side, k: nat, v: int32): (r: seq<Node>)
    requires InRecords(recs, lefts) && InRecords(recs, rights) && 20 * |recs| + 20 <= MaxInt64
    requires k <= |Chain(lefts, rights, side)|
    ensures |r| == |recs| + 1
  {
    var chain := Chain(lefts, rights, side);
    Spliced(recs, side, chain, StopAt(recs, side, chain, k, v), v)
  }

  /** The records after `Insert(v)`: a lone root leaf for an empty file, otherwise the splice
      where the walk from the root, down the chain on the side `v` routes to, stops. */
  function Inserted(recs: seq<Node>, lefts: seq<nat>, rights: seq<nat>, v: int32): (r: seq<Node>)
    requires recs != [] ==> InRecords(recs, lefts) && InRecords(recs, rights)
    requires 20 * |recs| + 20 <= MaxInt64
    ensures |r| == |recs| + 1
  {
    if recs == [] then [Create(v)] else InsertedBelow(recs, lefts, rights, Route(recs[0].value, v), 0, v)
  }

  /** Ties on the right chain: after inserting 10 and 20, a second 20 is put directly below the
      root, above the earlier 20, because the walk only descends into a right child whose value
      is strictly smaller. */
  lemma DuplicateGoesAboveEqualRun()
    ensures var recs := [Node(10, 0, 0, 20), Node(20, 20, 0, 0)];
      var r := Inserted(recs, [], [1], 20);
      r[0] == Node(10, 0, 0, 40) && r[1] == recs[1] && r[2] == Node(20, 40, 0, 20)
  {
    var recs := [Node(10, 0, 0, 20), Node(20, 20, 0, 0)];
    assert StopAt(recs, Right, [1], 0, 20) == 0;
  }

  /** A splice the branch conditions allow turns a well-shaped file into a well-shaped file
      with the fresh record on the chain it was spliced into. */
  lemma SpliceKeepsShape(recs: seq<Node>, lefts: seq<nat>, rights: seq<nat>, side: Side, k: nat, v: int32)
    requires ChainShape(recs, lefts, rights) && 20 * |recs| + 20 <= MaxInt64
    requires k <= |Chain(lefts, rights, side)|
    requires SpliceFits(recs, side, Chain(lefts, rights, side), k, v)
    ensures ChainShape(Spliced(recs, side, Chain(lefts, rights, side), k, v),
                       LeftsAfter(lefts, side, k, |recs|), RightsAfter(rights, side, k, |recs|))
  {
    var chain := Chain(lefts, rights, side);
    var other := Chain(lefts, rights, Other(side));
    var r := Spliced(recs, side, chain, k, v);
    var c := InsertAt(chain, k, |recs|);
    var p := |recs|;
    assert p !in lefts && p !in rights;
    SplicedLinks(recs, side, chain, k, v);
    SplicedOrder(recs, side, chain, k, v);
    if side == Left {
      SplicedOtherSide(recs, side, chain, k, v, other);
      InsertAtNoDup(lefts, k, p);
      InsertAtDisjoint(lefts, rights, k, p);
    } else {
      DisjointSym(lefts, rights);
      SplicedOtherSide(recs, side, chain, k, v, other);
      InsertAtNoDup(rights, k, p);
      InsertAtDisjoint(rights, lefts, k, p);
    }
    var l2, r2 := LeftsAfter(lefts, side, k, p), RightsAfter(rights, side, k, p);
    forall j | 0 < j < |r| ensures j in l2 || j in r2 {
      if j < p {
        assert j in lefts || j in rights;
      }
    }
  }

  /** Values of records that kept their values. */
  lemma {:induction false} ValuesKept(recs: seq<Node>, r: seq<Node>, s: seq<nat>)
    requires |recs| <= |r| && forall j :: 0 <= j < |recs| ==> r[j].value == recs[j].value
    requires forall i :: 0 <= i < |s| ==> s[i] < |recs|
    ensures Values(r, s) == Values(recs, s)
  {
    if s != [] {
      ValuesKept(recs, r, s[1..]);
    }
  }

  /** The values of a chain with an element inserted. */
  lemma ValuesInsertAt(r: seq<Node>, s: seq<nat>, k: nat, x: nat)
    requires k <= |s| && x < |r| && forall i :: 0 <= i < |s| ==> s[i] < |r|
    ensures Values(r, InsertAt(s, k, x)) == Values(r, s)[..k] + [r[x].value] + Values(r, s)[k..]
  {
    var t := InsertAt(s, k, x);
    var a := Values(r, t);
    var b := Values(r, s)[..k] + [r[x].value] + Values(r, s)[k..];
    assert |a| == |b|;
    forall i | 0 <= i < |a| ensures a[i] == b[i] {
      ValuesAt(r, t, i);
      if i < k {
        ValuesAt(r, s, i);
      } else if i > k {
        ValuesAt(r, s, i - 1);
      }
    }
  }

  lemma MultisetInsertAt(x: seq<int32>, k: nat, v: int32)
    requires k <= |x|
    ensures multiset(x[..k] + [v] + x[k..]) == multiset(x) + multiset{v}
  {
    assert x == x[..k] + x[k..];
  }

  /** The contents of a well-shaped file: both chains and the root. */
  lemma ChainValuesMultiset(recs: seq<Node>, lefts: seq<nat>, rights: seq<nat>)
    requires |recs| > 0
    requires forall i :: 0 <= i < |lefts| ==> lefts[i] < |recs|
    requires forall i :: 0 <= i < |rights| ==> rights[i] < |recs|
    ensures multiset(ChainValues(recs, lefts, rights))
         == multiset(Values(recs, lefts)) + multiset{recs[0].value} + multiset(Values(recs, rights))
  {
    ReverseMultiset(Values(recs, lefts));
  }

  /** The grown chain carries the old chain's values plus `v`. */
  lemma SplicedChainMultiset(recs: seq<Node>, side: Side, chain: seq<nat>, k: nat, v: int32)
    requires InRecords(recs, chain) && k <= |chain| && 20 * |recs| + 20 <= MaxInt64
    ensures var r := Spliced(recs, side, chain, k, v);
      multiset(Values(r, InsertAt(chain, k, |recs|))) == multiset(Values(recs, chain)) + multiset{v}
  {
    var r := Spliced(recs, side, chain, k, v);
    SplicedValuesKept(recs, side, chain, k, v);
    ValuesInsertAt(r, chain, k, |recs|);
    ValuesKept(recs, r, chain);
    MultisetInsertAt(Values(recs, chain), k, v);
  }

  lemma InRecordsGrow(recs: seq<Node>, r: seq<Node>, s: seq<nat>, k: nat, x: nat)
    requires InRecords(recs, s) && |recs| <= |r| && k <= |s| && 0 < x < |r|
    ensures InRecords(r, s) && InRecords(r, InsertAt(s, k, x))
  {
  }

  /** The splice adds exactly `v` to the tree's contents. */
  lemma SpliceAddsValue(recs: seq<Node>, lefts: seq<nat>, rights: seq<nat>, side: Side, k: nat, v: int32)
    requires InRecords(recs, lefts) && InRecords(recs, rights) && 20 * |recs| + 20 <= MaxInt64
    requires k <= |Chain(lefts, rights, side)|
    ensures var r := Spliced(recs, side, Chain(lefts, rights, side), k, v);
      var l2 := LeftsAfter(lefts, side, k, |recs|);
      var r2 := RightsAfter(rights, side, k, |recs|);
      InRecords(r, l2) && InRecords(r, r2) &&
      multiset(ChainValues(r, l2, r2)) == multiset(ChainValues(recs, lefts, rights)) + multiset{v}
  {
    var chain := Chain(lefts, rights, side);
    var r := Spliced(recs, side, chain, k, v);
    var l2 := LeftsAfter(lefts, side, k, |recs|);
    var r2 := RightsAfter(rights, side, k, |recs|);
    SplicedValuesKept(recs, side, chain, k, v);
    SplicedChainMultiset(recs, side, chain, k, v);
    InRecordsGrow(recs, r, lefts, if side == Left then k else 0, |recs|);
    InRecordsGrow(recs, r, rights, if side == Right then k else 0, |recs|);
    ChainValuesMultiset(recs, lefts, rights);
    ChainValuesMultiset(r, l2, r2);
    var low, high := multiset(Values(recs, lefts)), multiset(Values(recs, rights));
    var root := multiset{recs[0].value};
    assert multiset{r[0].value} == root;
    if side == Left {
      ValuesKept(recs, r, rights);
      assert multiset(Values(r, l2)) == low + multiset{v};
      assert multiset(Values(r, r2)) == high;
    } else {
      ValuesKept(recs, r, lefts);
      assert multiset(Values(r, l2)) == low;
      assert multiset(Values(r, r2)) == high + multiset{v};
    }
    MultisetShuffle(low, root, high, v);
  }

  lemma MultisetShuffle(a: multiset<int32>, m: multiset<int32>, b: multiset<int32>, v: int32)
    ensures (a + multiset{v}) + m + b == (a + m + b) + multiset{v}
    ensures a + m + (b + multiset{v}) == (a + m + b) + multiset{v}
  {
  }
}
