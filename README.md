# DiskBasedBinaryTree in Dafny

A model of `DiskBinaryTree`, a binary search tree of 32-bit integers whose nodes live in one
flat file instead of memory, and of the `Node` struct it reads and writes.

The file is a header-less sequence of 20-byte node records (`NodeSizeOnDisk`). Each record
holds three fields, all little-endian two's complement, as `BinaryWriter` writes them:

- the `int` value;
- the `long` offset of the left child;
- the `long` offset of the right child.

A node's own `Offset` is not stored. `ReadNode` takes it from the position it read at. The
record at offset 0 is the root. A child offset of 0 means "no child".

The model has these modules:

- `Primitives`: the .NET integer widths, the file as a byte sequence, and the two exceptions a
  positioned read can raise.
- `LittleEndian`: the int32/int64 byte layouts, with round-trip lemmas in both directions.
- `NodeRecord`: the `Node` struct, its constructors and `Node.Create`.
- `NodeCodec`:
  - the 20-byte record and `ReadNode`;
  - the positioned write that `Update` performs;
  - `Scan`, the stride-20 scan that `Print` does over the records in physical order;
  - lemmas that say how an append and an in-place rewrite change that scan.
- `TreeShape`: the shape the insert algorithm gives the file, and the in-order walk from
  offset 0.
- `TreeSplice`: what one insertion does to the records.
- `TreeFiles`: the file-level invariant, and the facts that connect one insertion's writes to
  it.
- `DiskTree`: the `DiskBinaryTree` class, holding the file bytes as a field that `Write`,
  `Update` and `Insert` change.

Once `InsertRecursive` leaves the root on one side, it never changes side. On the left it only
descends into a child whose value is still greater than the inserted value, and that value
routes left again. On the right it only descends into a child whose value is still smaller.
So a non-empty file always holds exactly these records:

- the root;
- a chain hanging off the root's left offset, linked by left offsets only, with non-increasing
  values;
- a chain hanging off the root's right offset, linked by right offsets only, with
  non-decreasing values.

The class keeps ghost lists of the record indices on each chain. This invariant does four
things:

- It gives the recursion a termination measure: the position along a chain.
- It shows that a non-zero child offset always addresses a whole record other than the root.
  This makes the double use of 0 sound: `Write` returns 0 only for the first record.
- It proves that the in-order walk from offset 0 yields exactly the inserted values, in
  non-decreasing order.
- Each insertion into a non-empty file appends one record and repoints exactly one child
  offset of one existing record; the first insertion only writes the root leaf. No value
  ever changes.

The model follows the code where it departs from the usual binary-search-tree convention (left subtree strictly smaller, duplicates to the right), and the code's own scope:

- Ties go right at the root and on the right chain. On the left chain, however, a new value
  equal to a left child's value is spliced above that child, because the walk only descends
  while the child's value is strictly greater. So a left subtree can hold a value equal to its
  parent's, not only strictly smaller ones. The in-order walk is still non-decreasing, which
  is what the model proves.
- On the right chain the walk descends only into a strictly smaller child, so a duplicate is
  placed above any run of records holding the same value, not below it
  (`TreeSplice.DuplicateGoesAboveEqualRun`). `TreeSplice.StopAt` states this stopping rule,
  and `Insert` promises the exact records it produces.
- `Write` always appends at the end of the file: no record slot is ever reused, and nothing is ever deleted.

## Model

| member | source | states |
|---|---|---|
| LittleEndian.Int32RoundTrip | DiskBasedBinaryTree/DiskBinaryTree.cs:134-138 | reading back the four bytes written for an `int` yields that `int` |
| LittleEndian.Int32Canonical | DiskBasedBinaryTree/DiskBinaryTree.cs:134-138 | any four bytes are the encoding of the `int` they decode to |
| LittleEndian.Int64RoundTrip | DiskBasedBinaryTree/DiskBinaryTree.cs:96-98 | reading back the eight bytes written for a `long` yields that `long` |
| LittleEndian.Int64Canonical | DiskBasedBinaryTree/DiskBinaryTree.cs:134-138 | any eight bytes are the encoding of the `long` they decode to |
| NodeRecord.NewNode | DiskBasedBinaryTree/Node.cs:12-17 | the three-argument constructor sets value and both child offsets as given and leaves `Offset` at 0 |
| NodeRecord.Create | DiskBasedBinaryTree/Node.cs:27-30 | `Create` gives a leaf (both child offsets 0) with the value and `Offset` 0 |
| NodeRecord.LeafIsCreated | DiskBasedBinaryTree/Node.cs:27-30 | a node is a leaf exactly when it is a created node, except perhaps for its offset |
| NodeCodec.EncodeNode | DiskBasedBinaryTree/DiskBinaryTree.cs:84-86 | the three field writes of `Update` (and the same three at lines 96-98 in `Write`) give a record of exactly `NodeSizeOnDisk` = 20 bytes (line 10); what the bytes hold is stated by RecordRoundTrip and RecordCanonical |
| NodeCodec.DecodeRecord | DiskBasedBinaryTree/DiskBinaryTree.cs:134-138 | the decoded node's `Offset` is the position it was read at; what its fields hold is stated by RecordRoundTrip and RecordCanonical |
| NodeCodec.RecordRoundTrip | DiskBasedBinaryTree/DiskBinaryTree.cs:131-139 | decoding a node's record gives back its value and both child offsets, with the offset it was read at |
| NodeCodec.RecordCanonical | DiskBasedBinaryTree/DiskBinaryTree.cs:131-139 | any 20 bytes re-encode, after decoding, to the same 20 bytes |
| NodeCodec.ReadNode | DiskBasedBinaryTree/DiskBinaryTree.cs:131-139 | a read succeeds exactly when offset >= 0 and a whole record lies there; a negative offset fails with SeekBeforeBegin, a short tail with EndOfStream; the node's `Offset` is the read position |
| NodeCodec.ReadNodeBytes | DiskBasedBinaryTree/DiskBinaryTree.cs:131-139 | a node read from the file re-encodes to exactly the 20 bytes it was read from |
| NodeCodec.NodeRoundTrip | DiskBasedBinaryTree/DiskBinaryTree.cs:94-98 | a record written at position p, whatever surrounds it, reads back as the same node at offset p |
| NodeCodec.WriteAt | DiskBasedBinaryTree/DiskBinaryTree.cs:83-86 | a positioned write puts the data at the position, grows the file only if it runs past the end, zero-fills a gap and keeps every other byte |
| NodeCodec.WriteAtElsewhere | DiskBasedBinaryTree/DiskBinaryTree.cs:83-86 | a positioned write leaves every byte range it does not overlap unchanged |
| NodeCodec.ScanFrom | DiskBasedBinaryTree/DiskBinaryTree.cs:112-118 | the scan from an offset meets one record per whole 20 bytes left after it |
| NodeCodec.Scan | DiskBasedBinaryTree/DiskBinaryTree.cs:108-118 | the scan from offset 0 meets one record per whole 20 bytes of the file |
| NodeCodec.ScanAt | DiskBasedBinaryTree/DiskBinaryTree.cs:112-118 | the scan has one record per whole 20 bytes, and record i is the node `ReadNode` returns at 20*i |
| NodeCodec.ScanEnd | DiskBasedBinaryTree/DiskBinaryTree.cs:112-123 | the scan stops at the first offset where a read raises EndOfStream |
| NodeCodec.ScanAppend | DiskBasedBinaryTree/DiskBinaryTree.cs:94-99 | appending a record to a whole-record file adds exactly that node, at the old length, after the unchanged earlier records |
| NodeCodec.ScanOverwrite | DiskBasedBinaryTree/DiskBinaryTree.cs:83-87 | rewriting record k in place replaces record k of the scan and nothing else |
| TreeShape.WithChild | DiskBasedBinaryTree/DiskBinaryTree.cs:53 | repointing one child offset changes that offset only: value, offset and the other child are kept |
| TreeShape.ChildrenAreNotRoot | DiskBasedBinaryTree/DiskBinaryTree.cs:27-31 | in a well-shaped file every child offset is 0 or the start of a whole record other than the root |
| TreeShape.TreeWalk | DiskBasedBinaryTree/DiskBinaryTree.cs:36-77 | the in-order walk from offset 0 visits the root and both chains and yields a non-decreasing sequence |
| TreeShape.LeftChainAscending | DiskBasedBinaryTree/DiskBinaryTree.cs:36-56 | read bottom up, the left chain is non-decreasing and every value on it is below the root's |
| TreeShape.RightChainAscending | DiskBasedBinaryTree/DiskBinaryTree.cs:57-77 | read top down, the right chain is non-decreasing and no value on it is below the root's |
| TreeShape.ChainValuesAscending | DiskBasedBinaryTree/DiskBinaryTree.cs:36-77 | left chain bottom up, then the root, then the right chain top down is a non-decreasing sequence |
| TreeShape.ChainWalk | DiskBasedBinaryTree/DiskBinaryTree.cs:43-47 | following one side's offsets from a chain element visits the rest of that chain, and nothing else |
| TreeSplice.Fresh | DiskBasedBinaryTree/DiskBinaryTree.cs:50-53 | the new record carries the value, takes the displaced child on its side and has no child on the other |
| TreeSplice.Spliced | DiskBasedBinaryTree/DiskBinaryTree.cs:48-55 | the closing writes leave one record more than before; which records change is stated by SplicedAt |
| TreeSplice.SplicedAt | DiskBasedBinaryTree/DiskBinaryTree.cs:48-55 | after a splice at chain position k, the last record is the new node (the value, the displaced child on its side, nothing on the other), the record above position k has its side offset repointed to it, and every other record is unchanged |
| TreeSplice.StopAt | DiskBasedBinaryTree/DiskBinaryTree.cs:43-47 | the walk stops at the first chain position, from the current one on, that ends the chain or holds a value it does not descend into (not strictly greater on the left, not strictly smaller on the right); it descends into every position before that |
| TreeSplice.InsertedBelow | DiskBasedBinaryTree/DiskBinaryTree.cs:36-77 | inserting with the walk partway down one side's chain adds exactly one record |
| TreeSplice.Inserted | DiskBasedBinaryTree/DiskBinaryTree.cs:19-79 | `Insert` adds exactly one record: a lone root leaf into an empty file, otherwise the splice where the walk stops |
| TreeSplice.DuplicateGoesAboveEqualRun | DiskBasedBinaryTree/DiskBinaryTree.cs:64-76 | after inserting 10 and 20, a second 20 goes between the root and the earlier 20: the root's right offset moves to the new record, which points on to the earlier 20 |
| TreeSplice.SplicedValuesKept | DiskBasedBinaryTree/DiskBinaryTree.cs:48-55 | a splice changes no existing value, and the new record carries the inserted value |
| TreeSplice.OneInsertKeepsValues | DiskBasedBinaryTree/DiskBinaryTree.cs:36-77 | an insertion keeps every existing record's value, and the appended record holds the inserted value |
| TreeSplice.SplicedIsOneInsert | DiskBasedBinaryTree/DiskBinaryTree.cs:48-55 | a splice appends one record and changes exactly one existing record, its parent, in only the offset on the splice side |
| TreeSplice.SplicedLinks | DiskBasedBinaryTree/DiskBinaryTree.cs:50-54 | after a splice the chain, with the new record in place, is linked top to bottom on its side |
| TreeSplice.SplicedOrder | DiskBasedBinaryTree/DiskBinaryTree.cs:43-55 | a splice allowed by the walk's comparisons keeps the chain ordered and routed to its side |
| TreeSplice.SpliceKeepsShape | DiskBasedBinaryTree/DiskBinaryTree.cs:36-77 | a splice allowed by the walk keeps the file the root plus two well-formed, disjoint chains |
| TreeSplice.SpliceAddsValue | DiskBasedBinaryTree/DiskBinaryTree.cs:48-55 | a splice adds exactly one copy of the inserted value to the tree's contents |
| TreeFiles.InsertedIsOneInsert | DiskBasedBinaryTree/DiskBinaryTree.cs:36-77 | `Insert` into a well-formed file appends one record; into a non-empty file it also repoints exactly one existing record, in only one child offset, while into an empty file it only writes the root leaf |
| TreeFiles.NoSelfLink | DiskBasedBinaryTree/DiskBinaryTree.cs:43-46 | in a well-formed tree no record's chain-side offset points at itself, so the walk always moves on |
| TreeFiles.CyclicFileNeverStops | DiskBasedBinaryTree/DiskBinaryTree.cs:43-46 | on a file whose second record's left offset points at itself, inserting 5 reads that same record again and descends into it again, so the source's recursion never ends; no chains make that file well formed |
| TreeFiles.TreeFileSorted | DiskBasedBinaryTree/DiskBinaryTree.cs:36-77 | in a well-formed tree file, the in-order walk from offset 0 is non-decreasing and holds exactly the inserted values, with multiplicity |
| TreeFiles.FirstRecord | DiskBasedBinaryTree/DiskBinaryTree.cs:27-31 | the first insertion makes a one-record file, a root leaf at offset 0, which is a well-formed tree holding that value |
| TreeFiles.WalkTo | DiskBasedBinaryTree/DiskBinaryTree.cs:34-47 | the record read at the walk's position is the root or the chain element above the walk, and the child on the side the value routes to is 0 exactly at the chain's end, else the next element |
| TreeFiles.SpliceOnFile | DiskBasedBinaryTree/DiskBinaryTree.cs:50-54 | appending the new record and rewriting its parent leave exactly the spliced records in the file |
| TreeFiles.SplicedBag | DiskBasedBinaryTree/DiskBinaryTree.cs:48-55 | after a splice the chains still index records, and their values are the old contents plus the new value |
| TreeFiles.SpliceValid | DiskBasedBinaryTree/DiskBinaryTree.cs:48-55 | the two writes of an allowed splice keep the file a well-formed tree that holds one more value, and keep every existing value |
| TreeFiles.SpliceWrites | DiskBasedBinaryTree/DiskBinaryTree.cs:69-76 | the writes as a branch performs them (append the new node, rewrite the parent) leave exactly the spliced records, a well-formed tree with one more value and exactly one repointed record |
| DiskTree.DiskBinaryTree.constructor | DiskBasedBinaryTree/DiskBinaryTree.cs:12-17 | a newly created backing file is an empty, well-formed tree |
| DiskTree.DiskBinaryTree.Open | DiskBasedBinaryTree/DiskBinaryTree.cs:14 | opening a file that earlier insertions produced keeps its bytes and contents |
| DiskTree.DiskBinaryTree.Write | DiskBasedBinaryTree/DiskBinaryTree.cs:90-103 | appends exactly the node's 20 bytes, keeps the earlier bytes, and returns the old length (0 only for an empty file) |
| DiskTree.DiskBinaryTree.Update | DiskBasedBinaryTree/DiskBinaryTree.cs:81-88 | fails with SeekBeforeBegin, writing nothing, exactly when the offset is negative; otherwise rewrites the 20 bytes at the node's offset |
| DiskTree.DiskBinaryTree.Print | DiskBasedBinaryTree/DiskBinaryTree.cs:106-124 | the loop returns every whole record in physical order, stopping at EndOfStream |
| DiskTree.DiskBinaryTree.Insert | DiskBasedBinaryTree/DiskBinaryTree.cs:19-23 | keeps the tree well formed and adds the value; the records afterwards are exactly `Inserted` of the records before (a lone root leaf for an empty file, otherwise the splice where the walk stops), so one record is appended, into a non-empty file exactly one existing record is repointed, and no existing value changes |
| DiskTree.DiskBinaryTree.InsertRecursive | DiskBasedBinaryTree/DiskBinaryTree.cs:25-36 | an empty file gets the root leaf; otherwise, from the root or a chain element, the records afterwards are exactly the splice at the position where the walk stops on the side the value routes to |
| DiskTree.DiskBinaryTree.InsertBelow | DiskBasedBinaryTree/DiskBinaryTree.cs:36-77 | after the routing comparison at chain position `depth`, the records afterwards are exactly the splice at `StopAt` from `depth`: at the end of the chain, or above the first child the walk does not descend into |
| DiskTree.DiskBinaryTree.AddRecord | DiskBasedBinaryTree/DiskBinaryTree.cs:48-55 | the closing writes of an attach or splice branch leave exactly the records spliced at `depth`: the record `node` repointed to the new one, which takes over `below`; the tree stays well formed and gains the value |

## Left out

- File and stream plumbing (`FileStream`, `BinaryWriter`, `BinaryReader`, `Flush`, `Dispose`) is not modelled. The file is an in-memory byte sequence held in a field.
- `_stream.Lock`/`Unlock` in `Write` are cross-process locking, which has no meaning in a sequential model.
- DiskTree.DiskBinaryTree.Print returns the records it reads instead of writing them to the console, so the `{ROOT}` marker and the closing line are not modelled.
- DiskTree.DiskBinaryTree.constructor models `FileMode.OpenOrCreate` creating a new, empty file. DiskTree.DiskBinaryTree.Open covers opening a file that this tree wrote earlier; opening an arbitrary file is not modelled.
- The stream position that `InsertRecursive` reads at and re-seeks becomes the explicit `pos` parameter. `Insert`'s seek to 0 becomes the argument 0.
- DiskTree.DiskBinaryTree.InsertBelow merges the two mirrored branches (left and right) of `InsertRecursive` into one method with a `side` parameter. DiskTree.DiskBinaryTree.AddRecord holds the writes that the attach and splice branches share (with a displaced child of 0 for attach). The source's repeated `ReadNode(node.LeftOffset)` is read once.
- DiskTree.DiskBinaryTree.Insert requires the tree to be well formed, as built by this class (`Valid()`); that is also what makes its recursion terminate. On other files the source behaves in ways the model does not follow:
  - a negative child offset, or one with fewer than 20 bytes after it, makes `ReadNode` throw;
  - a child offset with a whole 20 bytes after it but not a multiple of 20 is read as a misaligned record without any exception, and the insert writes on from there;
  - a cycle of child offsets makes `InsertRecursive` recurse until the process runs out of stack (`TreeFiles.CyclicFileNeverStops` gives such a file).
- DiskTree.DiskBinaryTree.Insert requires the file to stay within a `long` length after the append (`|file| + 20 <= 2^63 - 1`). DiskTree.DiskBinaryTree.Update has the same kind of bound.
- NodeCodec.ReadNode collapses a read of fewer than 20 remaining bytes into one EndOfStream error. It does not model partial field reads.
- TreeShape.InOrder is bounded by a fuel argument. TreeShape.TreeWalk shows that one unit per record is enough, so the bound leaves nothing unmodelled for well-formed files.
- `Program.cs` is a demo entry point (it inserts 10, deletes 10, inserts 20 and prints), and it is not part of this model.
- The `Delete` call at `Program.cs:13` has no definition in `DiskBinaryTree.cs`, so the model gives it none; the source has no `Seek` or `Contains` at all.
