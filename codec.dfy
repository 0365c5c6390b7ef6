/** The 20-byte on-disk node record, positioned reads and writes on the backing file, and
    the stride-20 scan over all records. */
module NodeCodec {
  import opened Primitives
  import opened LittleEndian
  import opened NodeRecord

  /** Size in bytes of a node record: 4 (int) + 8 (long) + 8 (long). */
  const NodeSizeOnDisk: nat := 20

  /** The bytes `Write` and `Update` emit for a node: value, left offset, right offset.
      The node's own `offset` is not stored. */
  function EncodeNode(n: Node): (r: seq<byte>)
    ensures |r| == 20
  {
    EncodeInt32(n.value) + EncodeInt64(n.leftOffset) + EncodeInt64(n.rightOffset)
  }

  /** The node a record's 20 bytes describe, placed at `offset`. */
  function DecodeRecord(bs: seq<byte>, offset: int64): (n: Node)
    requires |bs| == 20
    ensures n.offset == offset
  {
    Node(DecodeInt32(bs[..4]), offset, DecodeInt64(bs[4..12]), DecodeInt64(bs[12..]))
  }

  /** Every 20 bytes are the record of the node they decode to: there are no two encodings
      of one node. */
  lemma RecordCanonical(bs: seq<byte>, offset: int64)
    requires |bs| == 20
    ensures EncodeNode(DecodeRecord(bs, offset)) == bs
  {
    var n := DecodeRecord(bs, offset);
    var a, b, c := bs[..4], bs[4..12], bs[12..];
    assert bs == a + b + c;
    assert n == Node(DecodeInt32(a), offset, DecodeInt64(b), DecodeInt64(c));
    Int32Canonical(a);
    Int64Canonical(b);
    Int64Canonical(c);
    assert EncodeNode(n) == EncodeInt32(DecodeInt32(a)) + EncodeInt64(DecodeInt64(b)) + EncodeInt64(DecodeInt64(c));
  }

  lemma RecordRoundTrip(n: Node, offset: int64)
    ensures DecodeRecord(EncodeNode(n), offset) == n.(offset := offset)
  {
    var bs := EncodeNode(n);
    assert bs[..4] == EncodeInt32(n.value);
    assert bs[4..12] == EncodeInt64(n.leftOffset);
    assert bs[12..] == EncodeInt64(n.rightOffset);
    Int32RoundTrip(n.value);
    Int64RoundTrip(n.leftOffset);
    Int64RoundTrip(n.rightOffset);
  }

  /** `ReadNode`: seek to `offset` and read one record; the node's `Offset` is the read position. */
  function ReadNode(file: File, offset: int64): (r: Result<Node>)
    ensures r.Ok? <==> 0 <= offset && offset as int + 20 <= |file|
    ensures r.Ok? ==> r.value.offset == offset
    ensures r.Err? ==> (r.error == SeekBeforeBegin <==> offset < 0)
  {
    if offset < 0 then Err(SeekBeforeBegin)
    else if offset as int + 20 > |file| then Err(EndOfStream)
    else Ok(DecodeRecord(file[offset..offset as int + 20], offset))
  }

  /** A node read from the file re-encodes to exactly the 20 bytes it was read from. */
  lemma ReadNodeBytes(file: File, offset: int64)
    requires ReadNode(file, offset).Ok?
    ensures EncodeNode(ReadNode(file, offset).value) == file[offset..offset as int + 20]
  {
    RecordCanonical(file[offset..offset as int + 20], offset);
  }

  /** Reading back the record written for `n` at position |prefix| yields `n`, addressed there. */
  lemma NodeRoundTrip(prefix: seq<byte>, n: Node, suffix: seq<byte>)
    requires |prefix| + 20 + |suffix| <= MaxInt64
    ensures ReadNode(prefix + EncodeNode(n) + suffix, |prefix| as int64) == Ok(n.(offset := |prefix| as int64))
  {
    var file: File := prefix + EncodeNode(n) + suffix;
    assert file[|prefix|..|prefix| + 20] == EncodeNode(n);
    RecordRoundTrip(n, |prefix| as int64);
  }

  /** A BinaryWriter write of `data` at position `pos`: the file grows when the write runs past
      its end, and a gap between the old end and `pos` reads as zeros. */
  function WriteAt(file: File, pos: nat, data: seq<byte>): (r: File)
    requires pos + |data| <= MaxInt64
    ensures |r| == if pos + |data| <= |file| then |file| else pos + |data|
    ensures r[pos..pos + |data|] == data
    ensures forall i :: 0 <= i < |r| && !(pos <= i < pos + |data|) ==>
              r[i] == if i < |file| then file[i] else 0
  {
    var head := if pos <= |file| then file[..pos] else file + seq(pos - |file|, _ => 0 as byte);
    var tail := if pos + |data| <= |file| then file[pos + |data|..] else [];
    head + data + tail
  }

  /** A write leaves every byte range it does not touch as it was. */
  lemma WriteAtElsewhere(file: File, pos: nat, data: seq<byte>, o: nat, len: nat)
    requires pos + |data| <= MaxInt64 && o + len <= |file|
    requires o + len <= pos || pos + |data| <= o
    ensures WriteAt(file, pos, data)[o..o + len] == file[o..o + len]
  {
    var g := WriteAt(file, pos, data);
    forall i | o <= i < o + len ensures g[i] == file[i] {
    }
  }

  /** The records the scan in `Print` meets from `offset` on: one every 20 bytes until fewer
      than 20 bytes remain (where ReadNode raises EndOfStream). */
  function ScanFrom(file: File, offset: nat): (nodes: seq<Node>)
    requires offset <= |file|
    ensures |nodes| == (|file| - offset) / 20
    decreases |file| - offset
  {
    if offset + 20 > |file| then []
    else [ReadNode(file, offset as int64).value] + ScanFrom(file, offset + 20)
  }

  /** Record `i` of the scan from `offset` is the node read `i` records further on. */
  lemma {:induction false} ScanFromAt(file: File, offset: nat, i: nat)
    requires offset + 20 * i + 20 <= |file|
    ensures i < |ScanFrom(file, offset)|
    ensures ReadNode(file, (offset + 20 * i) as int64) == Ok(ScanFrom(file, offset)[i])
    decreases i
  {
    var nodes := ScanFrom(file, offset);
    if i == 0 {
      assert nodes[0] == ReadNode(file, offset as int64).value;
    } else {
      var next := offset + 20;
      ScanFromAt(file, next, i - 1);
      assert nodes[i] == ScanFrom(file, next)[i - 1];
      assert next + 20 * (i - 1) == offset + 20 * i;
    }
  }

  /** All records of the file in physical order. */
  function Scan(file: File): (nodes: seq<Node>)
    ensures |nodes| == |file| / 20
  {
    ScanFrom(file, 0)
  }

  /** Record `i` of the scan is the node read at `20 * i`, which records its own position. */
  lemma ScanAt(file: File, i: nat)
    requires i < |file| / 20
    ensures |Scan(file)| == |file| / 20
    ensures 20 * i + 20 <= |file|
    ensures ReadNode(file, (20 * i) as int64) == Ok(Scan(file)[i])
    ensures Scan(file)[i].offset as int == 20 * i
  {
    assert 20 * i + 20 <= |file|;
    ScanFromAt(file, 0, i);
  }

  /** The scan stops exactly where a read raises EndOfStream: past the last whole record. */
  lemma ScanEnd(file: File)
    ensures 20 * |Scan(file)| <= |file| < 20 * |Scan(file)| + 20
    ensures ReadNode(file, (20 * |Scan(file)|) as int64) == Err(EndOfStream)
  {
  }

  /** A whole-record file whose record i reads back as s[i] for every i scans to s. */
  lemma ScanExtensional(f: File, s: seq<Node>)
    requires |f| == 20 * |s|
    requires forall i :: 0 <= i < |s| ==> ReadNode(f, (20 * i) as int64) == Ok(s[i])
    ensures Scan(f) == s
  {
    var t := Scan(f);
    assert |t| == |s|;
    forall i | 0 <= i < |s| ensures t[i] == s[i] {
      ScanAt(f, i);
    }
  }

  /** Appending a record (what `Write` does) adds exactly one record to the scan, addressed at
      the old end of file, and leaves every earlier record as it was. */
  lemma {:induction false} ScanAppend(file: File, n: Node)
    requires |file| % 20 == 0 && |file| + 20 <= MaxInt64
    ensures Scan(file + EncodeNode(n)) == Scan(file) + [n.(offset := |file| as int64)]
  {
    var g: File := file + EncodeNode(n);
    var s := Scan(file) + [n.(offset := |file| as int64)];
    forall i | 0 <= i < |s|
      ensures ReadNode(g, (20 * i) as int64) == Ok(s[i])
    {
      if i < |Scan(file)| {
        ScanAt(file, i);
        var o := 20 * i;
        assert g[o..o + 20] == file[o..o + 20];
      } else {
        assert g == file + EncodeNode(n) + [];
        NodeRoundTrip(file, n, []);
      }
    }
    ScanExtensional(g, s);
  }

  /** Rewriting record `k` in place (what `Update` does) replaces exactly that record of the
      scan and leaves the file length and every other record unchanged. */
  lemma {:induction false} ScanOverwrite(file: File, k: nat, n: Node)
    requires |file| % 20 == 0 && k < |file| / 20
    ensures Scan(WriteAt(file, 20 * k, EncodeNode(n)))
         == Scan(file)[k := n.(offset := (20 * k) as int64)]
  {
    var pos := 20 * k;
    var g := WriteAt(file, pos, EncodeNode(n));
    var s := Scan(file)[k := n.(offset := pos as int64)];
    forall i | 0 <= i < |s|
      ensures ReadNode(g, (20 * i) as int64) == Ok(s[i])
    {
      var o := 20 * i;
      if i == k {
        assert g[o..o + 20] == EncodeNode(n);
        RecordRoundTrip(n, o as int64);
      } else {
        ScanAt(file, i);
        assert o + 20 <= pos || pos + 20 <= o;
        WriteAtElsewhere(file, pos, EncodeNode(n), o, 20);
      }
    }
    ScanExtensional(g, s);
  }
}
