/** The IPS patch writer and reader (src/utils/patchUtils.js,
    `generateIpsPatch` and `applyIpsPatch`). A patch is the bytes "PATCH",
    records of a 3-byte big-endian offset, a 2-byte big-endian length and
    that many payload bytes, and the bytes "EOF". */
module IpsPatch {
  import opened Common
  import opened ByteBuffer

  const Header: seq<Byte> := [0x50, 0x41, 0x54, 0x43, 0x48]
  const Eof: seq<Byte> := [0x45, 0x4F, 0x46]

  /** The longest payload one record carries. */
  const MaxRecordLength: nat := 65535

  /** One record: its payload goes to `offset`, `offset + 1`, ... */
  datatype IpsRecord = IpsRecord(offset: nat, data: seq<Byte>)

  /** What `generateIpsPatch` returns. */
  datatype PatchFile = PatchFile(name: string, data: seq<Byte>)

  // ---------------------------------------------------------------------
  // Writing

  /** `original[k] !== modified[k]`; a position past the end of `modified`
      reads `undefined` and always differs. */
  predicate Differs(original: seq<Byte>, modified: seq<Byte>, k: nat)
    requires k < |original|
  {
    k >= |modified| || original[k] != modified[k]
  }

  /** `modified[k]` as it lands in the patch: `undefined` becomes 0 in a Uint8Array. */
  function ModByte(modified: seq<Byte>, k: int): Byte {
    if 0 <= k < |modified| then modified[k] else 0
  }

  /** The payload `modified[a..b]`, read as the writer reads it. */
  function ModBytes(modified: seq<Byte>, a: int, b: int): (r: seq<Byte>)
    ensures |r| == Max(b - a, 0)
  {
    seq<Byte>(Max(b - a, 0), i => ModByte(modified, a + i))
  }

  /** Where the inner loop stops for a record that began at `start`, having
      reached `k`: at the first equal byte, the end of `original`, or after
      65535 bytes. */
  function RunEndFrom(original: seq<Byte>, modified: seq<Byte>, start: nat, k: nat): (e: nat)
    requires start <= k <= |original|
    ensures k <= e <= |original|
    decreases |original| - k
  {
    if k < |original| && Differs(original, modified, k) && k - start < MaxRecordLength
    then RunEndFrom(original, modified, start, k + 1)
    else k
  }

  /** The records the writer finds from `offset` on. */
  function DiffFrom(original: seq<Byte>, modified: seq<Byte>, offset: nat): seq<IpsRecord>
    requires offset <= |original|
    decreases |original| - offset
  {
    if offset >= |original| then []
    else if Differs(original, modified, offset) then
      var e := RunEndFrom(original, modified, offset, offset + 1);
      [IpsRecord(offset, ModBytes(modified, offset, e))] + DiffFrom(original, modified, e)
    else DiffFrom(original, modified, offset + 1)
  }

  /** The serialised form of one record: offset as `(o >> 16) & 0xFF`,
      `(o >> 8) & 0xFF`, `o & 0xFF`, the length as `(n >> 8) & 0xFF`,
      `n & 0xFF`, then the payload. */
  function EncodeRecord(r: IpsRecord): seq<Byte> {
    var n := |r.data|;
    [(r.offset / 65536) % 256, (r.offset / 256) % 256, r.offset % 256, (n / 256) % 256, n % 256] + r.data
  }

  function EncodeRecords(rs: seq<IpsRecord>): seq<Byte>
    decreases |rs|
  {
    if rs == [] then [] else EncodeRecord(rs[0]) + EncodeRecords(rs[1..])
  }

  /** `romName.replace(/\.[^/.]+$/, "")`: drops a final extension, a dot
      followed by one or more characters none of which is a dot or a slash. */
  function StripExtension(romName: string): string
    decreases |romName|
  {
    ExtensionStart(romName, |romName|)
  }

  /** Scans back from `k` for the dot that starts a final extension. */
  function ExtensionStart(s: string, k: nat): string
    requires k <= |s|
    decreases k
  {
    if k == 0 then s
    else if s[k - 1] == '/' then s
    else if s[k - 1] == '.' then (if k < |s| then s[..k - 1] else s)
    else ExtensionStart(s, k - 1)
  }

  /** `generateIpsPatch(original, modified, romName)`. */
  function GenerateIps(original: seq<Byte>, modified: seq<Byte>, romName: string): PatchFile {
    PatchFile(StripExtension(romName) + ".ips", Header + EncodeRecords(DiffFrom(original, modified, 0)) + Eof)
  }

  // ---------------------------------------------------------------------
  // Reading

  /** `patchData[k]` in a bitwise expression or a store: `undefined` reads as 0. */
  function PatchAt(p: seq<Byte>, k: int): Byte {
    if 0 <= k < |p| then p[k] else 0
  }

  /** The payload bytes `patchData[a..a+n]`. */
  function PatchBytes(p: seq<Byte>, a: int, n: int): (r: seq<Byte>)
    ensures |r| == Max(n, 0)
  {
    seq<Byte>(Max(n, 0), i => PatchAt(p, a + i))
  }

  /** The reader's loop from cursor `offset`: stops when fewer than four
      bytes remain or at "EOF"; a record of length 0 skips three bytes. */
  function ApplyFrom(rom: seq<Byte>, p: seq<Byte>, offset: nat): seq<Byte>
    decreases |p| - offset
  {
    if offset + 3 >= |p| then rom
    else if p[offset] == 0x45 && p[offset + 1] == 0x4F && p[offset + 2] == 0x46 then rom
    else
      var recordOffset: int := (p[offset] as int) * 65536 + (p[offset + 1] as int) * 256 + p[offset + 2];
      var recordLength: int := (PatchAt(p, offset + 3) as int) * 256 + PatchAt(p, offset + 4);
      if recordLength > 0 then
        ApplyFrom(WriteAt(rom, recordOffset, PatchBytes(p, offset + 5, recordLength)), p, offset + 5 + recordLength)
      else ApplyFrom(rom, p, offset + 8)
  }

  predicate HasHeader(p: seq<Byte>) {
    |p| >= 5 && p[..5] == Header
  }

  /** `applyIpsPatch(original, patchData)`; throws without the "PATCH" header. */
  function ApplyIps(original: seq<Byte>, p: seq<Byte>): Result<seq<Byte>, string> {
    if !HasHeader(p) then Err("Invalid IPS patch file") else Ok(ApplyFrom(original, p, 5))
  }

  // ---------------------------------------------------------------------
  // The imperative writer and reader

  /** Serialising one more record extends the serialised list. */
  lemma {:induction false} EncodeRecordsSnoc(rs: seq<IpsRecord>, r: IpsRecord)
    ensures EncodeRecords(rs + [r]) == EncodeRecords(rs) + EncodeRecord(r)
    decreases |rs|
  {
    if rs == [] {
      assert [r][1..] == [];
    } else {
      assert (rs + [r])[1..] == rs[1..] + [r];
      EncodeRecordsSnoc(rs[1..], r);
    }
  }

  /** The inner loop of the writer: collects the payload of one record. */
  method CollectRun(original: seq<Byte>, modified: seq<Byte>, startOffset: nat)
    returns (offset: nat, recordData: seq<Byte>)
    requires startOffset < |original|
    ensures offset == RunEndFrom(original, modified, startOffset, startOffset)
    ensures recordData == ModBytes(modified, startOffset, offset)
  {
    offset := startOffset;
    var recordLength := 0;
    recordData := [];
    while offset < |original| && (offset >= |modified| || original[offset] != modified[offset]) && recordLength < 65535
      invariant startOffset <= offset <= |original|
      invariant recordLength == offset - startOffset
      invariant RunEndFrom(original, modified, startOffset, offset) == RunEndFrom(original, modified, startOffset, startOffset)
      invariant recordData == ModBytes(modified, startOffset, offset)
      decreases |original| - offset
    {
      recordData := recordData + [ModByte(modified, offset)];
      recordLength := recordLength + 1;
      offset := offset + 1;
    }
  }

  /** One record pushed onto the patch: 24-bit offset, 16-bit length, payload. */
  method AppendRecord(patchData: seq<Byte>, record: IpsRecord) returns (out: seq<Byte>)
    ensures out == patchData + EncodeRecord(record)
  {
    var n := |record.data|;
    out := patchData + [(record.offset / 65536) % 256, (record.offset / 256) % 256, record.offset % 256];
    out := out + [(n / 256) % 256, n % 256];
    out := out + record.data;
  }

  /** The writer's record loop: appends each record's 3-byte offset, 2-byte
      length and payload to `patchData`. */
  method WriteRecords(start: seq<Byte>, records: seq<IpsRecord>) returns (patchData: seq<Byte>)
    ensures patchData == start + EncodeRecords(records)
  {
    patchData := start;
    var j := 0;
    while j < |records|
      invariant 0 <= j <= |records|
      invariant patchData == start + EncodeRecords(records[..j])
    {
      var record := records[j];
      patchData := AppendRecord(patchData, record);
      EncodeRecordsSnoc(records[..j], record);
      assert records[..j + 1] == records[..j] + [record];
      j := j + 1;
    }
    assert records[..j] == records;
  }

  /** `generateIpsPatch`: finds the differing runs, then writes header,
      records and trailer. */
  method GenerateIpsPatch(original: seq<Byte>, modified: seq<Byte>, romName: string) returns (patch: PatchFile)
    ensures patch == GenerateIps(original, modified, romName)
  {
    var patchData := Header;
    var records: seq<IpsRecord> := [];
    var offset := 0;
    while offset < |original|
      invariant offset <= |original|
      invariant records + DiffFrom(original, modified, offset) == DiffFrom(original, modified, 0)
      decreases |original| - offset
    {
      if offset >= |modified| || original[offset] != modified[offset] {
        var startOffset := offset;
        var recordData;
        offset, recordData := CollectRun(original, modified, startOffset);
        assert RunEndFrom(original, modified, startOffset, startOffset) == RunEndFrom(original, modified, startOffset, startOffset + 1);
        records := records + [IpsRecord(startOffset, recordData)];
      } else {
        offset := offset + 1;
      }
    }

    assert records == DiffFrom(original, modified, 0);
    patchData := WriteRecords(patchData, records);
    patchData := patchData + Eof;
    return PatchFile(StripExtension(romName) + ".ips", patchData);
  }

  /** The payload loop of one record: `patchedRom[recordOffset + i] =
      patchData[offset + i]`, stores outside the array dropped. */
  method WriteRecord(patchedRom: array<Byte>, patchData: seq<Byte>, recordOffset: nat, offset: int, recordLength: int)
    modifies patchedRom
    ensures patchedRom[..] == WriteAt(old(patchedRom[..]), recordOffset, PatchBytes(patchData, offset, recordLength))
  {
    ghost var before := patchedRom[..];
    ghost var payload := PatchBytes(patchData, offset, recordLength);
    var i := 0;
    while i < recordLength
      invariant 0 <= i <= |payload| && |payload| == Max(recordLength, 0)
      invariant patchedRom[..] == WriteAt(before, recordOffset, payload[..i])
    {
      if recordOffset + i < patchedRom.Length {
        patchedRom[recordOffset + i] := PatchAt(patchData, offset + i);
      }
      WriteAtSnoc(before, recordOffset, payload[..i], PatchAt(patchData, offset + i));
      assert payload[..i + 1] == payload[..i] + [PatchAt(patchData, offset + i)];
      i := i + 1;
    }
    assert payload[..i] == payload;
  }

  /** One record of the reader's loop at cursor `offset`: reads the 24-bit
      offset and 16-bit length, writes the payload, and returns the next
      cursor (three bytes further for a length of 0). */
  method ApplyRecord(patchedRom: array<Byte>, patchData: seq<Byte>, offset: nat) returns (next: nat)
    requires offset + 3 < |patchData|
    requires !(patchData[offset] == 0x45 && patchData[offset + 1] == 0x4F && patchData[offset + 2] == 0x46)
    modifies patchedRom
    ensures next > offset
    ensures ApplyFrom(patchedRom[..], patchData, next) == ApplyFrom(old(patchedRom[..]), patchData, offset)
  {
    var recordOffset: int := (patchData[offset] as int) * 65536 + (patchData[offset + 1] as int) * 256 + patchData[offset + 2];
    next := offset + 3;
    var recordLength: int := (PatchAt(patchData, next) as int) * 256 + PatchAt(patchData, next + 1);
    next := next + 2;
    if recordLength > 0 {
      WriteRecord(patchedRom, patchData, recordOffset, next, recordLength);
      next := next + recordLength;
    } else {
      next := next + 3;
    }
  }

  /** The record loop of the reader, writing into `patchedRom` in place. */
  method ApplyRecords(patchedRom: array<Byte>, patchData: seq<Byte>)
    modifies patchedRom
    ensures patchedRom[..] == ApplyFrom(old(patchedRom[..]), patchData, 5)
  {
    ghost var rom0 := patchedRom[..];
    var offset := 5;
    while offset + 3 < |patchData|
      invariant 5 <= offset
      invariant ApplyFrom(patchedRom[..], patchData, offset) == ApplyFrom(rom0, patchData, 5)
      decreases |patchData| - offset
    {
      if patchData[offset] == 0x45 && patchData[offset + 1] == 0x4F && patchData[offset + 2] == 0x46 {
        break;
      }
      offset := ApplyRecord(patchedRom, patchData, offset);
    }
  }

  /** `applyIpsPatch`: checks the header, copies the image and applies the records. */
  method ApplyIpsPatch(original: seq<Byte>, patchData: seq<Byte>) returns (result: Result<seq<Byte>, string>)
    ensures result == ApplyIps(original, patchData)
  {
    if |patchData| < 5 || patchData[..5] != Header {
      return Err("Invalid IPS patch file");
    }
    var patchedRom := new Byte[|original|](k requires 0 <= k < |original| => original[k]);
    assert patchedRom[..] == original;
    ApplyRecords(patchedRom, patchData);
    return Ok(patchedRom[..]);
  }
}
