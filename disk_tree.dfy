/** `DiskBinaryTree`: a binary search tree of `int` values kept as 20-byte records in a file.
    The record at offset 0 is the root; `Insert` walks down from it by reading records and
    ends by appending one record and rewriting the record above it. */
module DiskTree {
  import opened Primitives
  import opened NodeRecord
  import opened NodeCodec
  import opened TreeShape
  import opened TreeSplice
  import opened TreeFiles

  class DiskBinaryTree {
    /** The bytes of the backing file. */
    var file: File
    /** Record indices of the chains hanging off the root's left and right offsets. */
    ghost var lefts: seq<nat>
    ghost var rights: seq<nat>
    /** Every value inserted so far, in insertion order. */
    ghost var inserted: seq<int32>

    ghost predicate Valid()
      reads this
    {
      TreeFile(file, lefts, rights, inserted)
    }

    /** Opening a new, empty backing file. */
    constructor ()
      ensures Valid() && file == [] && inserted == []
    {
      file := [];
      lefts, rights, inserted := [], [], [];
    }

    /** Opening a backing file that earlier insertions left behind; the ghost arguments name
        its chains and the values it holds. */
    constructor Open(existing: File, ghost chainsLeft: seq<nat>, ghost chainsRight: seq<nat>, ghost values: seq<int32>)
      requires TreeFile(existing, chainsLeft, chainsRight, values)
      ensures Valid() && file == existing && inserted == values
    {
      file := existing;
      lefts, rights, inserted := chainsLeft, chainsRight, values;
    }

    /** `Write`: append the node's record at the end of the file and return where it starts. */
    method Write(node: Node) returns (offset: int64)
      requires |file| + 20 <= MaxInt64
      modifies this
      ensures offset as int == old(|file|)
      ensures file == old(file) + EncodeNode(node)
      ensures lefts == old(lefts) && rights == old(rights) && inserted == old(inserted)
    {
      offset := |file| as int64;
      file := file + EncodeNode(node);
    }

    /** `Update`: rewrite the record at the node's own offset; seeking to a negative offset
        fails before anything is written. */
    method Update(node: Node) returns (r: Result<()>)
      requires node.offset as int + 20 <= MaxInt64
      modifies this
      ensures r.Err? <==> node.offset < 0
      ensures r.Err? ==> r.error == SeekBeforeBegin && file == old(file)
      ensures r.Ok? ==> file == WriteAt(old(file), node.offset as nat, EncodeNode(node))
      ensures lefts == old(lefts) && rights == old(rights) && inserted == old(inserted)
    {
      if node.offset < 0 {
        return Err(SeekBeforeBegin);
      }
      file := WriteAt(file, node.offset as nat, EncodeNode(node));
      r := Ok(());
    }

    /** `Print`: read records at offsets 0, 20, 40, ... until a read hits the end of the
        file; the records met are returned instead of being written to the console. */
    method Print() returns (nodes: seq<Node>)
      ensures nodes == Scan(file)
    {
      var offset: int64 := 0;
      nodes := [];
      while true
        invariant 0 <= offset as int == 20 * |nodes| <= |file|
        invariant nodes == Scan(file)[..|nodes|]
        decreases |file| - offset as int
      {
        var r := ReadNode(file, offset);
        if r.Err? {
          assert r.error == EndOfStream;
          break;
        }
        ScanAt(file, |nodes|);
        nodes := nodes + [r.value];
        offset := offset + NodeSizeOnDisk as int64;
      }
    }

    /** `Insert`: start the walk at the root, offset 0. */
    method Insert(value: int32)
      requires Valid() && |file| + 20 <= MaxInt64
      modifies this
      ensures Valid()
      ensures inserted == old(inserted) + [value]
      ensures |file| == old(|file|) + 20
      ensures Scan(file) == Inserted(old(Scan(file)), old(lefts), old(rights), value)
      ensures OneInsert(old(Scan(file)), Scan(file), value)
      ensures forall j :: 0 <= j < old(|file|) / 20 ==> Scan(file)[j].value == old(Scan(file))[j].value
    {
      ghost var before, l0, r0 := Scan(file), lefts, rights;
      InsertRecursive(value, 0, Left, 0);
      InsertedIsOneInsert(before, l0, r0, value);
      OneInsertKeepsValues(before, Scan(file), value);
    }

    /** `InsertRecursive` at the record starting at `pos`. Ghost `from` and `depth` say where
        that record sits: the root for depth 0, otherwise element `depth - 1` of the `from`
        chain, reached because `value` routes to `from` at the root and at the record. */
    method InsertRecursive(value: int32, pos: int64, ghost from: Side, ghost depth: nat)
      requires Valid() && |file| + 20 <= MaxInt64
      requires file == [] ==> pos == 0
      requires file != [] ==>
        depth <= |Chain(lefts, rights, from)| &&
        pos as int == 20 * Parent(Chain(lefts, rights, from), depth) &&
        (depth > 0 ==> Route(Scan(file)[0].value, value) == from &&
                       Route(Scan(file)[Chain(lefts, rights, from)[depth - 1]].value, value) == from)
      modifies this
      ensures Valid()
      ensures inserted == old(inserted) + [value]
      ensures |file| == old(|file|) + 20
      ensures old(file) == [] ==> Scan(file) == [Create(value)]
      ensures old(file) != [] ==>
        Scan(file) == InsertedBelow(old(Scan(file)), old(lefts), old(rights),
                                    if depth == 0 then Route(old(Scan(file))[0].value, value) else from, depth, value)
      decreases |lefts| + |rights| + 1 - depth, 1
    {
      if |file| == 0 {
        assert inserted + [value] == [value];
        lefts, rights, inserted := [], [], [value];
        var _ := Write(Create(value));
        assert file == EncodeNode(Create(value));
        FirstRecord(value);
        return;
      }
      WalkTo(file, lefts, rights, inserted, from, depth, pos, value);
      var node := ReadNode(file, pos).value;
      if node.value > value {
        InsertBelow(value, node, Left, depth);
      } else {
        InsertBelow(value, node, Right, depth);
      }
    }

    /** One arm of `InsertRecursive` once the record `node` at the walk's position has been
        read and `value` has been routed to `side` of it (the two arms of the source mirror
        each other, so `side` selects the child offset and the comparison). The record sits at
        position `depth` of the `side` chain, counting the root as 0. */
    method InsertBelow(value: int32, node: Node, side: Side, ghost depth: nat)
      requires Valid() && file != [] && |file| + 20 <= MaxInt64
      requires depth <= |Chain(lefts, rights, side)|
      requires Parent(Chain(lefts, rights, side), depth) < |Scan(file)|
      requires node == Scan(file)[Parent(Chain(lefts, rights, side), depth)]
      requires Route(node.value, value) == side && Route(Scan(file)[0].value, value) == side
      requires InRecords(Scan(file), Chain(lefts, rights, side))
      requires (depth < |Chain(lefts, rights, side)| ==>
                  ChainStep(side, value, Scan(file)[Chain(lefts, rights, side)[depth]].value)) ==>
               SpliceFits(Scan(file), side, Chain(lefts, rights, side), depth, value)
      requires Child(node, side) as int == Link(Chain(lefts, rights, side), depth)
      requires Child(node, side) == 0 <==> depth == |Chain(lefts, rights, side)|
      requires depth < |Chain(lefts, rights, side)| ==>
                 ReadNode(file, Child(node, side)) == Ok(Scan(file)[Chain(lefts, rights, side)[depth]])
      modifies this
      ensures Valid()
      ensures inserted == old(inserted) + [value]
      ensures |file| == old(|file|) + 20
      ensures Scan(file) == InsertedBelow(old(Scan(file)), old(lefts), old(rights), side, depth, value)
      decreases |lefts| + |rights| + 1 - depth, 0
    {
      var child := if side == Left then node.leftOffset else node.rightOffset;
      if child == 0 {
        AddRecord(value, node, side, 0, depth);
      } else {
        var below := ReadNode(file, child).value;
        if Descends(side, value, below.value) {
          InsertRecursive(value, child, side, depth + 1);
        } else {
          AddRecord(value, node, side, below.offset, depth);
        }
      }
    }

    /** The writes that end an insertion: a record for `value` whose `side` offset is `below`
        (0 when it becomes a leaf, else the record it is put above) is appended, and `node`,
        at position `depth` of the `side` chain, is rewritten with its `side` offset pointing
        at the new record. */
    method AddRecord(value: int32, node: Node, side: Side, below: int64, ghost depth: nat)
      requires Valid() && file != [] && |file| + 20 <= MaxInt64
      requires depth <= |Chain(lefts, rights, side)|
      requires Parent(Chain(lefts, rights, side), depth) < |Scan(file)|
      requires node == Scan(file)[Parent(Chain(lefts, rights, side), depth)]
      requires below as int == Link(Chain(lefts, rights, side), depth)
      requires Child(node, side) == below
      requires InRecords(Scan(file), Chain(lefts, rights, side))
      requires SpliceFits(Scan(file), side, Chain(lefts, rights, side), depth, value)
      modifies this
      ensures Valid()
      ensures inserted == old(inserted) + [value]
      ensures |file| == old(|file|) + 20
      ensures Scan(file) == Spliced(old(Scan(file)), side, Chain(old(lefts), old(rights), side), depth, value)
    {
      ghost var f0, l0, r0, i0 := file, lefts, rights, inserted;
      ScanAt(file, Parent(Chain(lefts, rights, side), depth));
      lefts, rights := LeftsAfter(l0, side, depth, |f0| / 20), RightsAfter(r0, side, depth, |f0| / 20);
      inserted := i0 + [value];
      var newNode := WithChild(Create(value), side, below);
      var offset := Write(newNode);
      ghost var f1 := file;
      var parent := WithChild(node, side, offset);
      var _ := Update(parent);
      SpliceWrites(f0, f1, file, l0, r0, i0, side, depth, value, newNode, parent);
    }
  }
}
