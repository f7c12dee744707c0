/** The anchor_head instruction data: its decoder and exactly which bytes decode to what. */
module AnchorHead {
  import opened Bytes
  import opened Codec

  const DISCRIMINATOR: bytes := [0x6d, 0xab, 0x20, 0x3d, 0xc5, 0x98, 0xeb, 0x71]
  const MAX_LOG_ID: nat := 64

  datatype AnchorHeadPayload = AnchorHeadPayload(logId: string, treeSize: nat, timestamp: nat, root: string)

  /** utf8 is the platform's fatal text decoder. */
  function ParseAnchorHead(data: bytes, utf8: bytes -> Option<string>): Option<AnchorHeadPayload> {
    if |data| < 58 || data[..8] != DISCRIMINATOR then None
    else
      var treeSize, timestamp, len := LeValue(data[8..16]), LeValue(data[16..24]), data[56];
      if treeSize > MAX_SAFE || treeSize == 0 || timestamp > MAX_SAFE
         || len == 0 || len > MAX_LOG_ID || |data| != 57 + len then None
      else
        match utf8(data[57..])
        case None => None
        case Some(logId) => Some(AnchorHeadPayload(logId, treeSize, timestamp, BytesToHex(data[24..56])))
  }

  /** The program's layout of one head. */
  function WriteAnchorHead(treeSize: nat, timestamp: nat, root: bytes, id: bytes): (data: bytes)
    requires |root| == 32 && |id| < 256
    ensures |data| == 57 + |id|
  {
    DISCRIMINATOR + LeBytes(treeSize, 8) + LeBytes(timestamp, 8) + root + [|id|] + id
  }

  lemma WrittenSlices(treeSize: nat, timestamp: nat, root: bytes, id: bytes)
    requires |root| == 32 && |id| < 256
    ensures var data := WriteAnchorHead(treeSize, timestamp, root, id);
            && data[..8] == DISCRIMINATOR && data[8..16] == LeBytes(treeSize, 8)
            && data[16..24] == LeBytes(timestamp, 8) && data[24..56] == root && data[56] == |id| && data[57..] == id
  {
  }

  /** Every head within the bounds decodes to itself, when its log id is text. */
  lemma WrittenHeadParses(treeSize: nat, timestamp: nat, root: bytes, id: bytes, utf8: bytes -> Option<string>)
    requires 1 <= treeSize <= MAX_SAFE && timestamp <= MAX_SAFE && |root| == 32 && 1 <= |id| <= 64
    ensures var r := ParseAnchorHead(WriteAnchorHead(treeSize, timestamp, root, id), utf8);
            && (r.Some? <==> utf8(id).Some?)
            && (r.Some? ==>
                  && r.value.logId == utf8(id).value && r.value.treeSize == treeSize
                  && r.value.timestamp == timestamp && HexToBytes(r.value.root) == Some(root))
  {
    WrittenSlices(treeSize, timestamp, root, id);
    U64leReads(treeSize);
    U64leReads(timestamp);
    HexRoundTrip(root);
  }

  lemma CutHead(data: bytes)
    requires 58 <= |data|
    ensures data == data[..8] + data[8..16] + data[16..24] + data[24..56] + [data[56]] + data[57..]
  {
  }

  /** Nothing else decodes: the bytes are the layout of the payload, with no byte to spare. */
  lemma ParsedHeadIsWritten(data: bytes, utf8: bytes -> Option<string>)
    requires ParseAnchorHead(data, utf8).Some?
    ensures var p := ParseAnchorHead(data, utf8).value;
            && 1 <= p.treeSize <= MAX_SAFE && p.timestamp <= MAX_SAFE && 58 <= |data| <= 57 + 64
            && utf8(data[57..]) == Some(p.logId)
            && HexToBytes(p.root) == Some(data[24..56])
            && data == WriteAnchorHead(p.treeSize, p.timestamp, data[24..56], data[57..])
  {
    LeCanonical(data[8..16]);
    LeCanonical(data[16..24]);
    HexRoundTrip(data[24..56]);
    CutHead(data);
  }
}
