/** Hashing a file's content in buffer-sized reads. */
module FileHash {
  import opened Tables
  import Crc32
  import BlockDigest

  const BUFFER_SIZE: nat := 65536

  /** The digest a checksum row promises for a content. */
  function DigestOf(a: Algorithm, content: seq<bv8>): seq<bv8> {
    match a
    case Sha256 => BlockDigest.Digest(BlockDigest.Sha256, content)
    case Md5 => BlockDigest.Digest(BlockDigest.Md5, content)
    case Crc32 => Crc32.BigEndian(Crc32.Checksum(content))
  }

  /** The n-th read: up to a buffer's worth of bytes. */
  function ReadEnd(content: seq<bv8>, at: nat): (end: nat)
    requires at < |content|
    ensures at < end <= |content|
  {
    if |content| - at < BUFFER_SIZE then |content| else at + BUFFER_SIZE
  }

  method HashFile(a: Algorithm, content: seq<bv8>) returns (digest: seq<bv8>)
    ensures digest == DigestOf(a, content)
  {
    if a.Crc32? {
      digest := HashCrc(content);
    } else {
      digest := HashBlocks(if a.Sha256? then BlockDigest.Sha256 else BlockDigest.Md5, content);
    }
  }

  method HashBlocks(kind: BlockDigest.Kind, content: seq<bv8>) returns (digest: seq<bv8>)
    ensures digest == BlockDigest.Digest(kind, content)
  {
    hide *;
    var engine := new BlockDigest.BlockChecksum(kind);
    var at := 0;
    while at < |content|
      invariant 0 <= at <= |content|
      invariant engine.Valid() && engine.kind == kind && engine.message == content[..at]
      invariant fresh(engine) && fresh(engine.buffer)
    {
      var end := ReadEnd(content, at);
      engine.Update(content[at..end]);
      assert content[..at] + content[at..end] == content[..end];
      at := end;
    }
    assert content[..at] == content;
    digest := engine.Finalize();
  }

  method HashCrc(content: seq<bv8>) returns (digest: seq<bv8>)
    ensures digest == Crc32.BigEndian(Crc32.Checksum(content))
  {
    var engine := new Crc32.Crc32Checksum();
    hide *;
    var at := 0;
    Crc32.FeedNothing(Crc32.INITIAL);
    assert content[..0] == [];
    while at < |content|
      invariant 0 <= at <= |content|
      invariant engine.TableReady() && fresh(engine) && fresh(engine.table)
      invariant engine.state == Crc32.FeedBits(Crc32.INITIAL, Crc32.BitsOf(content[..at]))
    {
      var end := ReadEnd(content, at);
      Crc32.BitsOfConcat(content[..at], content[at..end]);
      Crc32.FeedBitsConcat(Crc32.INITIAL, Crc32.BitsOf(content[..at]), Crc32.BitsOf(content[at..end]));
      assert content[..at] + content[at..end] == content[..end];
      engine.Update(content[at..end]);
      at := end;
    }
    assert content[..at] == content;
    ChecksumOf(content);
    digest := engine.Finalize();
  }

  lemma ChecksumOf(content: seq<bv8>)
    ensures Crc32.Checksum(content) == Crc32.Xor(Crc32.FeedBits(Crc32.INITIAL, Crc32.BitsOf(content)), Crc32.INITIAL)
  {
    hide Crc32.Xor;
  }
}
