/** The invariant of a tree file, and what one step of `InsertRecursive` does to it, stated
    on the file's bytes. */
module TreeFiles {
  import opened Primitives
  import opened NodeRecord
  import opened NodeCodec
  import opened TreeShape
  import opened TreeSplice

  /** A well-formed tree file: whole records only; empty, or the root with its two chains
      (`lefts`, `rights`, see TreeShape) holding exactly the `inserted` values. */
  ghost predicate TreeFile(file: File, lefts: seq<nat>, rights: seq<nat>, inserted: seq<int32>) {
    |file| % 20 == 0 &&
    (file == [] ==> lefts == [] && rights == [] && inserted == []) &&
    (file != [] ==> ChainShape(Scan(file), lefts, rights) &&
                    Bag(ChainValues(Scan(file), lefts, rights)) == Bag(inserted))
  }

  /** The multiset of `s`, built element by element. `TreeFile` counts values with it rather
      than with `multiset(s)`: the two agree (`BagIsMultiset`), and the recursive form keeps
      the invariant cheap to carry through the insertion methods. */
  ghost function Bag(s: seq<int32>): multiset<int32> {
    if s == [] then multiset{} else Bag(s[..|s| - 1]) + multiset{s[|s| - 1]}
  }

  lemma {:induction false} BagIsMultiset(s: seq<int32>)
    ensures Bag(s) == multiset(s)
  {
    if s != [] {
      BagIsMultiset(s[..|s| - 1]);
      assert s == s[..|s| - 1] + [s[|s| - 1]];
    }
  }

  /** What the tree promises its reader: the in-order walk from the root yields exactly the
      inserted values, in non-decreasing order. */
  lemma TreeFileSorted(file: File, lefts: seq<nat>, rights: seq<nat>, inserted: seq<int32>)
    requires TreeFile(file, lefts, rights, inserted)
    ensures var recs := Scan(file);
      Ascending(InOrder(recs, 0, |recs|)) && multiset(InOrder(recs, 0, |recs|)) == multiset(inserted)
  {
    if file != [] {
      TreeWalk(Scan(file), lefts, rights);
      BagIsMultiset(ChainValues(Scan(file), lefts, rights));
      BagIsMultiset(inserted);
    }
  }

  /** The child offset on `side` of the record at chain position `d` (the root for 0) is the
      link to position `d + 1`. */
  lemma ParentLink(recs: seq<Node>, side: Side, chain: seq<nat>, d: nat)
    requires InRecords(recs, chain) && SideLinks(recs, side, chain) && d <= |chain|
    ensures Child(recs[Parent(chain, d)], side) as int == Link(chain, d)
    ensures Link(chain, d) == 0 <==> d == |chain|
  {
    if d > 0 {
      assert LinkedAt(recs, side, chain, d - 1);
    }
  }

  /** The file after the two writes that end an insertion spliced at position `k` of `chain`:
      the leaf record appended, then its parent rewritten to point at it. */
  function SplicedFile(file: File, chain: seq<nat>, side: Side, k: nat, v: int32): (r: File)
    requires |file| % 20 == 0 && |file| + 20 <= MaxInt64
    requires InRecords(Scan(file), chain) && k <= |chain|
    ensures |r| == |file| + 20
  {
    var p := Parent(chain, k);
    var grown: File := file + EncodeNode(WithChild(Create(v), side, Link(chain, k) as int64));
    WriteAt(grown, 20 * p, EncodeNode(WithChild(Scan(file)[p], side, |file| as int64)))
  }

  /** The two writes that end an insertion, appending the leaf record and rewriting its parent,
      leave exactly the spliced records in the file. */
  lemma SpliceOnFile(file: File, chain: seq<nat>, side: Side, k: nat, v: int32)
    requires |file| % 20 == 0 && |file| + 20 <= MaxInt64
    requires InRecords(Scan(file), chain) && k <= |chain|
    ensures Scan(SplicedFile(file, chain, side, k, v)) == Spliced(Scan(file), side, chain, k, v)
  {
    var recs := Scan(file);
    var p := Parent(chain, k);
    var leaf := WithChild(Create(v), side, Link(chain, k) as int64);
    var grown: File := file + EncodeNode(leaf);
    ScanAt(file, p);
    ScanAppend(file, leaf);
    var parent := WithChild(recs[p], side, |file| as int64);
    var at := |file| as int64;
    assert Scan(grown) == recs + [Fresh(side, v, Link(chain, k) as int64, at)];
    ScanOverwrite(grown, p, parent);
    assert parent.(offset := (20 * p) as int64) == WithChild(recs[p], side, at);
    assert SplicedFile(file, chain, side, k, v) == WriteAt(grown, 20 * p, EncodeNode(parent));
  }

  /** The first insertion into an empty file makes a well-formed one-record tree. */
  lemma FirstRecord(v: int32)
    ensures var file: File := EncodeNode(Create(v));
      Scan(file) == [Create(v)] && TreeFile(file, [], [], [v])
  {
    var file: File := EncodeNode(Create(v));
    assert file == [] + EncodeNode(Create(v));
    ScanAppend([], Create(v));
    var recs := Scan(file);
    assert recs == [Create(v)];
    assert SideShape(recs, Left, []) && SideShape(recs, Right, []);
    assert ChainShape(recs, [], []);
    assert ChainValues(recs, [], []) == [v];
    BagIsMultiset([v]);
  }

  /** What one step of the walk reads: the record at `pos` (the root, or element `depth - 1`
      of the `side` chain), the side `v` routes to from it, and the child on that side, which
      is 0 exactly at the end of that side's chain and otherwise its next element. */
  lemma WalkTo(file: File, lefts: seq<nat>, rights: seq<nat>, inserted: seq<int32>,
               side: Side, depth: nat, pos: int64, v: int32)
    requires TreeFile(file, lefts, rights, inserted) && file != []
    requires depth <= |Chain(lefts, rights, side)|
    requires pos as int == 20 * Parent(Chain(lefts, rights, side), depth)
    requires depth > 0 ==> Route(Scan(file)[0].value, v) == side &&
                           Route(Scan(file)[Chain(lefts, rights, side)[depth - 1]].value, v) == side
    ensures Parent(Chain(lefts, rights, side), depth) < |Scan(file)|
    ensures var recs := Scan(file);
      var node := recs[Parent(Chain(lefts, rights, side), depth)];
      var s := Route(node.value, v);
      var chain := Chain(lefts, rights, s);
      ReadNode(file, pos) == Ok(node) &&
      depth <= |chain| && Parent(chain, depth) == Parent(Chain(lefts, rights, side), depth) &&
      InRecords(recs, chain) &&
      ((depth < |chain| ==> ChainStep(s, v, recs[chain[depth]].value)) ==> SpliceFits(recs, s, chain, depth, v))
    ensures var recs := Scan(file);
      var node := recs[Parent(Chain(lefts, rights, side), depth)];
      var s := Route(node.value, v);
      var chain := Chain(lefts, rights, s);
      Child(node, s) as int == Link(chain, depth) &&
      (Child(node, s) == 0 <==> depth == |chain|) &&
      (depth < |chain| ==> ReadNode(file, Child(node, s)) == Ok(recs[chain[depth]]))
  {
    var recs := Scan(file);
    var p := Parent(Chain(lefts, rights, side), depth);
    ScanAt(file, p);
    var node := recs[p];
    var s := Route(node.value, v);
    var chain := Chain(lefts, rights, s);
    ParentLink(recs, s, chain, depth);
    if depth < |chain| {
      ScanAt(file, chain[depth]);
    }
  }

  /** The value count of the chains after a splice is the old one plus `v`. */
  lemma SplicedBag(recs: seq<Node>, lefts: seq<nat>, rights: seq<nat>, inserted: seq<int32>,
                   side: Side, k: nat, v: int32)
    requires InRecords(recs, lefts) && InRecords(recs, rights) && 20 * |recs| + 20 <= MaxInt64
    requires k <= |Chain(lefts, rights, side)|
    requires Bag(ChainValues(recs, lefts, rights)) == Bag(inserted)
    ensures InRecords(Spliced(recs, side, Chain(lefts, rights, side), k, v), LeftsAfter(lefts, side, k, |recs|))
    ensures InRecords(Spliced(recs, side, Chain(lefts, rights, side), k, v), RightsAfter(rights, side, k, |recs|))
    ensures Bag(ChainValues(Spliced(recs, side, Chain(lefts, rights, side), k, v),
                            LeftsAfter(lefts, side, k, |recs|), RightsAfter(rights, side, k, |recs|))) == Bag(inserted + [v])
  {
    var lefts', rights' := LeftsAfter(lefts, side, k, |recs|), RightsAfter(rights, side, k, |recs|);
    SpliceAddsValue(recs, lefts, rights, side, k, v);
    BagIsMultiset(ChainValues(recs, lefts, rights));
    BagIsMultiset(ChainValues(Spliced(recs, side, Chain(lefts, rights, side), k, v), lefts', rights'));
    BagIsMultiset(inserted);
    BagIsMultiset(inserted + [v]);
  }

  /** A splice the walk allows, done on the file by its two writes, keeps the file a
      well-formed tree holding one more value; existing records keep their values and the
      leaf record, at the old end of file, holds the new one. */
  lemma SpliceValid(file: File, lefts: seq<nat>, rights: seq<nat>, inserted: seq<int32>, side: Side, k: nat, v: int32)
    requires TreeFile(file, lefts, rights, inserted) && file != [] && |file| + 20 <= MaxInt64
    requires k <= |Chain(lefts, rights, side)|
    requires SpliceFits(Scan(file), side, Chain(lefts, rights, side), k, v)
    ensures var after := SplicedFile(file, Chain(lefts, rights, side), side, k, v);
      TreeFile(after, LeftsAfter(lefts, side, k, |file| / 20), RightsAfter(rights, side, k, |file| / 20), inserted + [v]) &&
      Scan(after)[|file| / 20].value == v &&
      forall j :: 0 <= j < |file| / 20 ==> Scan(after)[j].value == Scan(file)[j].value
  {
    var recs := Scan(file);
    var chain := Chain(lefts, rights, side);
    var after := SplicedFile(file, chain, side, k, v);
    assert 20 * |recs| == |file|;
    SpliceOnFile(file, chain, side, k, v);
    assert Scan(after) == Spliced(recs, side, chain, k, v);
    SpliceKeepsShape(recs, lefts, rights, side, k, v);
    SplicedBag(recs, lefts, rights, inserted, side, k, v);
    SplicedValuesKept(recs, side, chain, k, v);
  }

  /** The writes of a splice branch of `InsertRecursive`, as the branch performs them: `leaf`
      appended (carrying `v` and, on `side`, the link to the displaced chain element), then
      `parent` (the record the walk stopped at, its `side` offset now the old end of file)
      rewritten in place. */
  lemma SpliceWrites(f0: File, f1: File, f2: File, lefts: seq<nat>, rights: seq<nat>, inserted: seq<int32>,
                     side: Side, k: nat, v: int32, leaf: Node, parent: Node)
    requires TreeFile(f0, lefts, rights, inserted) && f0 != [] && |f0| + 20 <= MaxInt64
    requires k <= |Chain(lefts, rights, side)|
    requires SpliceFits(Scan(f0), side, Chain(lefts, rights, side), k, v)
    requires leaf.value == v && Child(leaf, Other(side)) == 0
    requires Child(leaf, side) as int == Link(Chain(lefts, rights, side), k)
    requires f1 == f0 + EncodeNode(leaf)
    requires Parent(Chain(lefts, rights, side), k) < |Scan(f0)|
    requires Child(Scan(f0)[Parent(Chain(lefts, rights, side), k)], side) as int == Link(Chain(lefts, rights, side), k)
    requires parent == WithChild(Scan(f0)[Parent(Chain(lefts, rights, side), k)], side, |f0| as int64)
    requires 0 <= parent.offset && parent.offset as int + 20 <= MaxInt64
    requires f2 == WriteAt(f1, parent.offset as nat, EncodeNode(parent))
    ensures |f2| == |f0| + 20
    ensures TreeFile(f2, LeftsAfter(lefts, side, k, |f0| / 20), RightsAfter(rights, side, k, |f0| / 20), inserted + [v])
    ensures Scan(f2) == Spliced(Scan(f0), side, Chain(lefts, rights, side), k, v)
    ensures OneInsert(Scan(f0), Scan(f2), v)
  {
    var chain := Chain(lefts, rights, side);
    var p := Parent(chain, k);
    assert leaf.(offset := 0) == WithChild(Create(v), side, Link(chain, k) as int64);
    assert EncodeNode(leaf) == EncodeNode(leaf.(offset := 0));
    ScanAt(f0, p);
    assert f2 == SplicedFile(f0, chain, side, k, v);
    SpliceValid(f0, lefts, rights, inserted, side, k, v);
    SpliceOnFile(f0, chain, side, k, v);
    SplicedIsOneInsert(Scan(f0), side, chain, k, v);
  }

  /** `Insert` into a well-formed tree file is one insertion: one record appended, one
      existing record repointed to it. */
  lemma InsertedIsOneInsert(recs: seq<Node>, lefts: seq<nat>, rights: seq<nat>, v: int32)
    requires recs != [] ==> ChainShape(recs, lefts, rights)
    requires 20 * |recs| + 20 <= MaxInt64
    ensures OneInsert(recs, Inserted(recs, lefts, rights, v), v)
  {
    if recs != [] {
      var side := Route(recs[0].value, v);
      var chain := Chain(lefts, rights, side);
      var k := StopAt(recs, side, chain, 0, v);
      ParentLink(recs, side, chain, k);
      SplicedIsOneInsert(recs, side, chain, k, v);
    }
  }

  /** No record on a well-linked chain has its chain-side offset pointing at itself. */
  lemma NoSelfLink(recs: seq<Node>, side: Side, chain: seq<nat>, i: nat)
    requires InRecords(recs, chain) && SideLinks(recs, side, chain) && NoDup(chain) && i < |chain|
    ensures Child(recs[chain[i]], side) as int != 20 * chain[i]
  {
    assert LinkedAt(recs, side, chain, i);
    if i + 1 < |chain| {
      assert chain[i + 1] != chain[i];
    }
  }

  /** A file `Insert` never builds, on which `InsertRecursive` would not stop: the root (10)
      has its left offset at 20, and the record at 20 (8) has its left offset pointing at
      itself. Inserting 5 routes left at the root and then descends into the record at 20
      from the record at 20, over and over. No chains describe this file, so the methods'
      `Valid()` precondition rules it out. */
  lemma CyclicFileNeverStops(lefts: seq<nat>, rights: seq<nat>, inserted: seq<int32>)
    ensures var root, self := Node(10, 0, 20, 0), Node(8, 20, 20, 0);
      var file: File := EncodeNode(root) + EncodeNode(self);
      ReadNode(file, 0) == Ok(root) && ReadNode(file, 20) == Ok(self) &&
      Route(root.value, 5) == Left && Descends(Left, 5, self.value) && self.leftOffset == self.offset &&
      !TreeFile(file, lefts, rights, inserted)
  {
    var root, self := Node(10, 0, 20, 0), Node(8, 20, 20, 0);
    var file: File := EncodeNode(root) + EncodeNode(self);
    assert file == [] + EncodeNode(root) + EncodeNode(self);
    NodeRoundTrip([], root, EncodeNode(self));
    assert file == EncodeNode(root) + EncodeNode(self) + [];
    NodeRoundTrip(EncodeNode(root), self, []);
    ScanAt(file, 0);
    ScanAt(file, 1);
    var recs := Scan(file);
    assert recs == [root, self];
    if TreeFile(file, lefts, rights, inserted) {
      if 1 in lefts {
        var i :| 0 <= i < |lefts| && lefts[i] == 1;
        NoSelfLink(recs, Left, lefts, i);
        assert false;
      } else {
        assert false;
      }
    }
  }
}
