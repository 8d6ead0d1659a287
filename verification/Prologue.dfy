/** The prologue of a file: magic, version, and a length-prefixed block of metadata. */
module Prologue {
  import opened Bytes
  import opened Wrappers

  const SUPPORTED_VERSION: byte := 1
  const HEADER_SIZE: nat := 8
  const MAGIC: seq<byte> := [0x44, 0x42, 0x4E]  // "DBN"

  datatype PrologueError = TruncatedHeader | BadMagic | UnsupportedVersion | TruncatedMetadata

  /** What a reader learns from the prologue: the version, and where the first record sits. */
  datatype Accepted = Accepted(version: byte, start: nat)

  /** The checks on the eight header bytes; on success, the version and the metadata length. */
  function ReadHeader(header: seq<byte>): Result<(byte, u32), PrologueError>
    requires |header| == HEADER_SIZE
  {
    if header[..3] != MAGIC then Failure(BadMagic)
    else if header[3] != SUPPORTED_VERSION then Failure(UnsupportedVersion)
    else Success((header[3], ReadU32(header[4..8])))
  }

  /** What opening a file with these bytes must come to, whichever way it is read. */
  function ReadPrologue(file: seq<byte>): Result<Accepted, PrologueError> {
    if |file| < HEADER_SIZE then Failure(TruncatedHeader)
    else
      match ReadHeader(file[..HEADER_SIZE])
      case Failure(e) => Failure(e)
      case Success((version, metadataLen)) =>
        var start := HEADER_SIZE + metadataLen;
        if start > |file| then Failure(TruncatedMetadata)
        else Success(Accepted(version, start))
  }

  predicate IsAccepted(file: seq<byte>) {
    ReadPrologue(file).Success?
  }

  /** The bytes behind the prologue. */
  function Records(file: seq<byte>): seq<byte>
    requires IsAccepted(file)
  {
    file[ReadPrologue(file).value.start..]
  }

  function WritePrologue(metadata: seq<byte>): (bs: seq<byte>)
    ensures |bs| == HEADER_SIZE + |metadata|
  {
    MAGIC + [SUPPORTED_VERSION] + NatToLe(|metadata|, 4) + metadata
  }

  /** A written prologue is read back, and the records start right behind the metadata. */
  lemma PrologueRoundTrip(metadata: seq<byte>, records: seq<byte>)
    requires |metadata| < 0x1_0000_0000
    ensures ReadPrologue(WritePrologue(metadata) + records) ==
              Success(Accepted(SUPPORTED_VERSION, HEADER_SIZE + |metadata|))
    ensures Records(WritePrologue(metadata) + records) == records
  {
    var file := WritePrologue(metadata) + records;
    var header := file[..HEADER_SIZE];
    var length := NatToLe(|metadata|, 4);
    assert header == MAGIC + [SUPPORTED_VERSION] + length;
    assert header[..3] == MAGIC && header[3] == SUPPORTED_VERSION && header[4..8] == length;
    Pow256Values();
    LeRoundTrip(|metadata|, 4);
  }

  /** A file is accepted exactly when it is a written prologue followed by anything at all. */
  lemma AcceptedIffWritten(file: seq<byte>)
    ensures IsAccepted(file) <==>
              exists metadata: seq<byte>, records: seq<byte> ::
                |metadata| < 0x1_0000_0000 && file == WritePrologue(metadata) + records
  {
    if IsAccepted(file) {
      var start := ReadPrologue(file).value.start;
      var metadata := file[HEADER_SIZE..start];
      WrittenBack(file, metadata);
      assert file == WritePrologue(metadata) + Records(file);
    }
    forall metadata: seq<byte>, records: seq<byte>
      | |metadata| < 0x1_0000_0000 && file == WritePrologue(metadata) + records
      ensures IsAccepted(file)
    {
      PrologueRoundTrip(metadata, records);
    }
  }

  lemma WrittenBack(file: seq<byte>, metadata: seq<byte>)
    requires IsAccepted(file)
    requires metadata == file[HEADER_SIZE..ReadPrologue(file).value.start]
    ensures |metadata| < 0x1_0000_0000
    ensures file == WritePrologue(metadata) + Records(file)
  {
    var header := file[..HEADER_SIZE];
    var length := header[4..8];
    LeBound(length);
    LeRoundTripBytes(length);
    Pow256Values();
    assert header == MAGIC + [SUPPORTED_VERSION] + length;
    assert file == header + metadata + Records(file);
  }

  /**
   Each reason for refusing a file, in terms of its bytes; the first check that fails
   decides. The metadata length is four bytes, least significant first.
   */
  lemma RefusalReasons(file: seq<byte>)
    ensures var r := ReadPrologue(file);
            && (r == Failure(TruncatedHeader) <==> |file| < 8)
            && (r == Failure(BadMagic) <==>
                  |file| >= 8 && (file[0] != 0x44 || file[1] != 0x42 || file[2] != 0x4E))
            && (r == Failure(UnsupportedVersion) <==>
                  |file| >= 8 && file[0] == 0x44 && file[1] == 0x42 && file[2] == 0x4E && file[3] != 1)
            && (r == Failure(TruncatedMetadata) <==>
                  && |file| >= 8 && file[0] == 0x44 && file[1] == 0x42 && file[2] == 0x4E && file[3] == 1
                  && |file| < 8 + file[4] as int + 0x100 * (file[5] as int)
                              + 0x1_0000 * (file[6] as int) + 0x100_0000 * (file[7] as int))
            && (r.Success? ==>
                  r.value == Accepted(1, 8 + file[4] as int + 0x100 * (file[5] as int)
                                         + 0x1_0000 * (file[6] as int) + 0x100_0000 * (file[7] as int)))
  {
    if |file| >= HEADER_SIZE {
      var header := file[..HEADER_SIZE];
      assert header[..3] == file[..3] && header[3] == file[3] && header[4..8] == file[4..8];
      PlaceValues(file[4..8]);
      assert file[..3] == MAGIC <==> file[0] == MAGIC[0] && file[1] == MAGIC[1] && file[2] == MAGIC[2];
    }
  }

  /** A longer file is read the same way as a prefix of it that already holds the whole prologue. */
  lemma PrologueOfPrefix(prefix: seq<byte>, more: seq<byte>)
    requires IsAccepted(prefix)
    ensures ReadPrologue(prefix + more) == ReadPrologue(prefix)
    ensures Records(prefix + more) == Records(prefix) + more
  {
    assert (prefix + more)[..HEADER_SIZE] == prefix[..HEADER_SIZE];
  }
}
