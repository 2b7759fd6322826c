/**
 * The content hash of one file (`get_file_hash` in Duplicates.py).
 *
 * The file is read in parts of at most `ChunkSize` bytes, each part being fed
 * to an MD5 accumulator, until a read returns no bytes. The MD5 algorithm is
 * not modelled: the accumulator is modelled by the bytes it has been fed, and
 * the hex digest it finally produces is `md5(fed)` for a function `md5` that
 * the caller supplies.
 */
module FileHash {

  /** One byte of file content. */
  type Byte = b: int | 0 <= b < 256

  /** The hexadecimal text `hexdigest()` returns. */
  type HexDigest = string

  /** The size of each read. */
  const ChunkSize: nat := 4096

  /** What `f.read(n)` returns when the file offset is `pos`: the next `n` bytes, or fewer at the end. */
  function Read(content: seq<Byte>, pos: nat, n: nat): (part: seq<Byte>)
    requires pos <= |content|
    ensures |part| <= n
    ensures part == [] <==> (pos == |content| || n == 0)
    ensures pos + |part| <= |content|
    ensures content[..pos] + part == content[..pos + |part|]
  {
    var end := if pos + n <= |content| then pos + n else |content|;
    content[pos..end]
  }

  /** The parts a reader that asks for `n` bytes at a time obtains from `s`, in order. */
  function Chunks(s: seq<Byte>, n: nat): seq<seq<Byte>>
    requires n > 0
    decreases |s|
  {
    if s == [] then []
    else if |s| <= n then [s]
    else [s[..n]] + Chunks(s[n..], n)
  }

  /** All parts laid end to end. */
  function Concat(parts: seq<seq<Byte>>): seq<Byte>
  {
    if parts == [] then [] else parts[0] + Concat(parts[1..])
  }

  lemma {:induction false} ConcatAppend(a: seq<seq<Byte>>, b: seq<seq<Byte>>)
    ensures Concat(a + b) == Concat(a) + Concat(b)
  {
    if a != [] {
      assert (a + b)[1..] == a[1..] + b;
      ConcatAppend(a[1..], b);
    } else {
      assert a + b == b;
    }
  }

  /**
   * Whatever the part size, the parts laid end to end give back the content,
   * so a streaming digest does not depend on the part size.
   */
  lemma {:induction false} ChunksConcat(s: seq<Byte>, n: nat)
    requires n > 0
    ensures Concat(Chunks(s, n)) == s
    decreases |s|
  {
    if s != [] && |s| > n {
      ChunksConcat(s[n..], n);
      assert [s[..n]] + Chunks(s[n..], n) == Chunks(s, n);
      assert Concat(Chunks(s, n)) == s[..n] + Concat(Chunks(s[n..], n));
      assert s[..n] + s[n..] == s;
    } else if s != [] {
      assert Concat([s]) == s + Concat([]);
    }
  }

  /** Every part is non-empty and at most `n` bytes long; every part but the last is exactly `n` bytes. */
  lemma {:induction false} ChunksBounded(s: seq<Byte>, n: nat)
    requires n > 0
    ensures forall i :: 0 <= i < |Chunks(s, n)| ==> 0 < |Chunks(s, n)[i]| <= n
    ensures forall i :: 0 <= i < |Chunks(s, n)| - 1 ==> |Chunks(s, n)[i]| == n
    decreases |s|
  {
    if s != [] && |s| > n {
      ChunksBounded(s[n..], n);
      var cs := Chunks(s, n);
      assert cs == [s[..n]] + Chunks(s[n..], n);
      forall i | 0 <= i < |cs| ensures 0 < |cs[i]| <= n && (i < |cs| - 1 ==> |cs[i]| == n) {
        if i > 0 {
          assert cs[i] == Chunks(s[n..], n)[i - 1];
        }
      }
    }
  }

  /** Feeding one more part adds its bytes at the end. */
  lemma ConcatSnoc(parts: seq<seq<Byte>>, part: seq<Byte>)
    ensures Concat(parts + [part]) == Concat(parts) + part
  {
    ConcatAppend(parts, [part]);
    assert Concat([part]) == part + Concat([]);
  }

  /** A non-empty read at `pos` is the first part of the rest of the file; the parts after it start where it ends. */
  lemma ReadIsNextChunk(content: seq<Byte>, pos: nat, part: seq<Byte>)
    requires pos < |content| && part == Read(content, pos, ChunkSize)
    ensures Chunks(content[pos..], ChunkSize) == [part] + Chunks(content[pos + |part|..], ChunkSize)
  {
    var rest := content[pos..];
    if |rest| > ChunkSize {
      assert part == rest[..ChunkSize];
      assert rest[ChunkSize..] == content[pos + |part|..];
    } else {
      assert part == rest;
      assert content[pos + |part|..] == [];
    }
  }

  /**
   * The state of the read loop at offset `pos`: the accumulator has been fed
   * exactly the parts read so far, which are the bytes before `pos`, and the
   * parts still to come are those of the rest of the file.
   */
  ghost predicate Feeding(content: seq<Byte>, pos: nat, fed: seq<Byte>, parts: seq<seq<Byte>>)
  {
    && pos <= |content|
    && fed == content[..pos]
    && fed == Concat(parts)
    && parts + Chunks(content[pos..], ChunkSize) == Chunks(content, ChunkSize)
  }

  /** Feeding the next non-empty read keeps the loop state. */
  lemma FeedStep(content: seq<Byte>, pos: nat, fed: seq<Byte>, parts: seq<seq<Byte>>, part: seq<Byte>)
    requires Feeding(content, pos, fed, parts)
    requires part == Read(content, pos, ChunkSize) && part != []
    ensures Feeding(content, pos + |part|, fed + part, parts + [part])
  {
    ReadIsNextChunk(content, pos, part);
    ConcatSnoc(parts, part);
    assert (parts + [part]) + Chunks(content[pos + |part|..], ChunkSize) == parts + Chunks(content[pos..], ChunkSize);
  }

  /**
   * The digest the source computes for a file whose bytes are `content`.
   * `parts` are the parts fed to the accumulator, in order: the accumulator
   * holds exactly their concatenation, which is the whole content.
   */
  method GetFileHash(content: seq<Byte>, md5: seq<Byte> -> HexDigest) returns (digest: HexDigest, ghost parts: seq<seq<Byte>>)
    ensures digest == md5(content)
    ensures parts == Chunks(content, ChunkSize)
    ensures Concat(parts) == content
  {
    var fed: seq<Byte> := [];
    var pos: nat := 0;
    parts := [];
    var part := Read(content, pos, ChunkSize);
    while part != []
      invariant Feeding(content, pos, fed, parts)
      invariant part == Read(content, pos, ChunkSize)
      decreases |content| - pos
    {
      FeedStep(content, pos, fed, parts, part);
      fed := fed + part;
      parts := parts + [part];
      pos := pos + |part|;
      part := Read(content, pos, ChunkSize);
    }
    assert content[pos..] == [];
    assert content[..pos] == content;
    digest := md5(fed);
  }
}
