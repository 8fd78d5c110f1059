/**
 * Turning the BIN payload of a binary glTF file into buffer data. The payload
 * is held in a single-use slot (an `Option` the importer takes from), and a
 * taken payload is padded with zero bytes to a multiple of four.
 */
module Import {
  import opened Bytes
  import opened Results

  /** The alignment, in bytes, that buffer data is padded to. */
  const ALIGNMENT: nat := 4

  /** The importer's errors (the two variants of the crate's error that it raises). */
  datatype Error =
    | MissingBlob                                             // the slot was empty
    | BufferLength(buffer: nat, expected: nat, actual: nat)   // padded data shorter than declared

  /** A buffer descriptor of the document: its index and declared byte length. */
  datatype Buffer = Buffer(index: nat, length: nat)

  /** The part of a glTF document the importer reads: its buffer descriptors, in order. */
  datatype Document = Document(buffers: seq<Buffer>)

  /** `buffer::Data`: the bytes of one imported buffer. */
  datatype Data = Data(bytes: seq<byte>)

  /** `n` zero bytes. */
  function Zeros(n: nat): (r: seq<byte>)
    ensures |r| == n && forall i :: 0 <= i < n ==> r[i] == 0
  {
    seq(n, _ => 0)
  }

  /** The number of zero bytes that bring `n` bytes up to a multiple of four. */
  function PadLength(n: nat): (k: nat)
    ensures k < ALIGNMENT && (n + k) % ALIGNMENT == 0
  {
    (ALIGNMENT - n % ALIGNMENT) % ALIGNMENT
  }

  /**
   * The blob padded to the alignment: its length is a multiple of four, at
   * least the blob's and less than four more; the blob is a prefix and every
   * added byte is zero.
   */
  function Padded(blob: seq<byte>): (r: seq<byte>)
    ensures |r| % ALIGNMENT == 0
    ensures |blob| <= |r| < |blob| + ALIGNMENT
    ensures r[..|blob|] == blob
    ensures forall i :: |blob| <= i < |r| ==> r[i] == 0
  {
    blob + Zeros(PadLength(|blob|))
  }

  /**
   * The properties in `Padded`'s contract determine it: any sequence that
   * has them is the padded blob.
   */
  lemma PaddedUnique(blob: seq<byte>, s: seq<byte>)
    requires |s| % ALIGNMENT == 0
    requires |blob| <= |s| < |blob| + ALIGNMENT
    requires s[..|blob|] == blob
    requires forall i :: |blob| <= i < |s| ==> s[i] == 0
    ensures s == Padded(blob)
  {
    var p := Padded(blob);
    assert |s| == |p| by {
      if |s| < |p| {
        SameResidue(|s|, |p| - |s|);
      } else if |p| < |s| {
        SameResidue(|p|, |s| - |p|);
      }
    }
    forall i | 0 <= i < |s| ensures s[i] == p[i] {
      if i < |blob| {
        assert s[i] == s[..|blob|][i] && p[i] == p[..|blob|][i];
      }
    }
  }

  /** Two multiples of four less than four apart are equal. */
  lemma SameResidue(a: nat, d: nat)
    requires 0 < d < ALIGNMENT
    requires a % ALIGNMENT == 0
    ensures (a + d) % ALIGNMENT != 0
  {
  }

  /**
   * `buffer::Data::from_blob`: takes the slot's content (leaving the slot
   * empty), then appends zero bytes until the length is a multiple of four.
   * Returns the result and the slot afterwards.
   */
  method FromBlob(blob: Option<seq<byte>>) returns (r: Result<Data, Error>, blobAfter: Option<seq<byte>>)
    ensures blobAfter == None
    ensures blob == None ==> r == Err(MissingBlob)
    ensures blob.Some? ==> r == Ok(Data(Padded(blob.value)))
  {
    blobAfter := None;
    if blob == None {
      return Err(MissingBlob), blobAfter;
    }
    var taken := blob.value;
    var data := taken;
    while |data| % ALIGNMENT != 0
      invariant |taken| <= |data| <= |taken| + PadLength(|taken|)
      invariant data == taken + Zeros(|data| - |taken|)
      decreases |taken| + PadLength(|taken|) - |data|
    {
      data := data + [0];
    }
    PaddedUnique(taken, data);
    r := Ok(Data(data));
  }

  /**
   * `import_buffers`: for each buffer descriptor in order, takes the blob
   * from the one slot and checks the padded data against the declared
   * length. Stops at the first error and then returns no buffers.
   */
  method ImportBuffers(document: Document, blob: Option<seq<byte>>) returns (r: Result<seq<Data>, Error>)
    // on success: one buffer per descriptor, in order, each long enough and aligned
    ensures r.Ok? ==> |r.value| == |document.buffers|
    ensures r.Ok? ==> forall i :: 0 <= i < |r.value| ==>
                        |r.value[i].bytes| >= document.buffers[i].length && |r.value[i].bytes| % ALIGNMENT == 0
    // no descriptors: nothing to import, whatever the blob
    ensures document.buffers == [] ==> r == Ok([])
    // the first descriptor finds the slot empty
    ensures document.buffers != [] && blob == None ==> r == Err(MissingBlob)
    // the first descriptor's padded blob is too short
    ensures document.buffers != [] && blob.Some? && |Padded(blob.value)| < document.buffers[0].length ==>
              r == Err(BufferLength(document.buffers[0].index, document.buffers[0].length, |Padded(blob.value)|))
    // the first descriptor takes the blob: a single descriptor succeeds, a second finds the slot empty
    ensures document.buffers != [] && blob.Some? && |Padded(blob.value)| >= document.buffers[0].length ==>
              r == if |document.buffers| == 1 then Ok([Data(Padded(blob.value))]) else Err(MissingBlob)
  {
    var buffers: seq<Data> := [];
    var slot := blob;
    for i := 0 to |document.buffers|
      invariant |buffers| == i
      invariant i == 0 ==> slot == blob
      invariant i > 0 ==> i == 1 && slot == None && blob.Some? && buffers == [Data(Padded(blob.value))]
      invariant i > 0 ==> |Padded(blob.value)| >= document.buffers[0].length
    {
      var buffer := document.buffers[i];
      var data;
      data, slot := FromBlob(slot);
      if data.Err? {
        return Err(data.error);
      }
      if |data.value.bytes| < buffer.length {
        return Err(BufferLength(buffer.index, buffer.length, |data.value.bytes|));
      }
      buffers := buffers + [data.value];
    }
    r := Ok(buffers);
  }

  /** A 6-byte blob becomes 8 bytes: the blob followed by two zeros. */
  lemma SixBytesPadToEight(blob: seq<byte>)
    requires |blob| == 6
    ensures Padded(blob) == blob + [0, 0]
  {
    PaddedUnique(blob, blob + [0, 0]);
  }
}
