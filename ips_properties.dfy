/** What the IPS writer and reader promise, and the round trip between them
    (src/utils/patchUtils.js). */
module IpsProperties {
  import opened Common
  import opened ByteBuffer
  import opened IpsPatch

  /** The trailer "EOF" read as a record offset. */
  const EofOffset: nat := 0x454F46

  /** Record `r` covers position `k`. */
  predicate Covers(r: IpsRecord, k: int) {
    r.offset <= k < r.offset + |r.data|
  }

  /** A record as the writer produces it from `offset` on: 1 to 65535
      payload bytes inside `original`, all at differing positions, carrying
      the bytes of `modified`. */
  predicate RecordOk(original: seq<Byte>, modified: seq<Byte>, offset: nat, r: IpsRecord) {
    && 1 <= |r.data| <= MaxRecordLength
    && offset <= r.offset
    && r.offset + |r.data| <= |original|
    && r.data == ModBytes(modified, r.offset, r.offset + |r.data|)
    && forall k :: r.offset <= k < r.offset + |r.data| ==> Differs(original, modified, k)
  }

  /** Records in ascending order, none overlapping the next. */
  predicate Ascending(rs: seq<IpsRecord>) {
    forall j, k :: 0 <= j < k < |rs| ==> rs[j].offset + |rs[j].data| <= rs[k].offset
  }

  /** A run stops at an equal byte, at the end, or at the length cap, and
      every byte it takes differs. */
  lemma {:induction false} RunEndSpec(original: seq<Byte>, modified: seq<Byte>, start: nat, k: nat)
    requires start <= k <= |original| && k - start <= MaxRecordLength
    requires forall j :: start <= j < k ==> Differs(original, modified, j)
    ensures var e := RunEndFrom(original, modified, start, k);
      && e - start <= MaxRecordLength
      && (forall j :: start <= j < e ==> Differs(original, modified, j))
      && (e < |original| && e - start < MaxRecordLength ==> !Differs(original, modified, e))
    decreases |original| - k
  {
    if k < |original| && Differs(original, modified, k) && k - start < MaxRecordLength {
      RunEndSpec(original, modified, start, k + 1);
    }
  }

  /** Every record found from `offset` is well formed. */
  lemma {:induction false} DiffRecordsOk(original: seq<Byte>, modified: seq<Byte>, offset: nat)
    requires offset <= |original|
    ensures forall r :: r in DiffFrom(original, modified, offset) ==> RecordOk(original, modified, offset, r)
    decreases |original| - offset
  {
    if offset < |original| {
      if Differs(original, modified, offset) {
        var e := RunEndFrom(original, modified, offset, offset + 1);
        RunEndSpec(original, modified, offset, offset + 1);
        DiffRecordsOk(original, modified, e);
        assert RecordOk(original, modified, offset, IpsRecord(offset, ModBytes(modified, offset, e)));
      } else {
        DiffRecordsOk(original, modified, offset + 1);
      }
    }
  }

  /** The records found from `offset` are ascending and disjoint. */
  lemma {:induction false} DiffAscending(original: seq<Byte>, modified: seq<Byte>, offset: nat)
    requires offset <= |original|
    ensures Ascending(DiffFrom(original, modified, offset))
    decreases |original| - offset
  {
    if offset < |original| {
      if Differs(original, modified, offset) {
        var e := RunEndFrom(original, modified, offset, offset + 1);
        var head := IpsRecord(offset, ModBytes(modified, offset, e));
        var rest := DiffFrom(original, modified, e);
        DiffAscending(original, modified, e);
        DiffRecordsOk(original, modified, e);
        var rs := [head] + rest;
        forall j, k | 0 <= j < k < |rs| ensures rs[j].offset + |rs[j].data| <= rs[k].offset {
          if j == 0 {
            assert rs[k] in rest;
          } else {
            assert rs[j] == rest[j - 1] && rs[k] == rest[k - 1];
          }
        }
      } else {
        DiffAscending(original, modified, offset + 1);
      }
    }
  }

  /** The records found from `offset` cover exactly the differing positions
      from `offset` on. */
  lemma {:induction false} DiffCovers(original: seq<Byte>, modified: seq<Byte>, offset: nat)
    requires offset <= |original|
    ensures forall k :: offset <= k < |original| ==>
      (Differs(original, modified, k) <==> exists r :: r in DiffFrom(original, modified, offset) && Covers(r, k))
    decreases |original| - offset
  {
    if offset < |original| {
      var rs := DiffFrom(original, modified, offset);
      DiffRecordsOk(original, modified, offset);
      if Differs(original, modified, offset) {
        var e := RunEndFrom(original, modified, offset, offset + 1);
        RunEndSpec(original, modified, offset, offset + 1);
        var head := IpsRecord(offset, ModBytes(modified, offset, e));
        var rest := DiffFrom(original, modified, e);
        DiffCovers(original, modified, e);
        assert rs == [head] + rest;
        forall k | offset <= k < |original|
          ensures Differs(original, modified, k) <==> exists r :: r in rs && Covers(r, k)
        {
          if k < e {
            assert Covers(head, k) && head in rs;
          } else if Differs(original, modified, k) {
            var r :| r in rest && Covers(r, k);
            assert r in rs;
          }
        }
      } else {
        DiffCovers(original, modified, offset + 1);
        forall k | offset <= k < |original|
          ensures Differs(original, modified, k) <==> exists r :: r in rs && Covers(r, k)
        {
          if k == offset {
            if r :| r in rs && Covers(r, k) {
              assert RecordOk(original, modified, offset, r);
            }
          }
        }
      }
    }
  }

  /** The records found from `offset` are well formed, ascending and
      disjoint, and cover exactly the differing positions from `offset` on. */
  lemma DiffSpec(original: seq<Byte>, modified: seq<Byte>, offset: nat)
    requires offset <= |original|
    ensures var rs := DiffFrom(original, modified, offset);
      && (forall r :: r in rs ==> RecordOk(original, modified, offset, r))
      && Ascending(rs)
      && (forall k :: offset <= k < |original| ==>
            (Differs(original, modified, k) <==> exists r :: r in rs && Covers(r, k)))
  {
    DiffRecordsOk(original, modified, offset);
    DiffAscending(original, modified, offset);
    DiffCovers(original, modified, offset);
  }

  /** Identical images produce no records. */
  lemma {:induction false} NoDiffWhenEqual(original: seq<Byte>, offset: nat)
    requires offset <= |original|
    ensures DiffFrom(original, original, offset) == []
    decreases |original| - offset
  {
    if offset < |original| {
      NoDiffWhenEqual(original, offset + 1);
    }
  }

  /** The patch starts with "PATCH" and ends with "EOF"; identical images
      give exactly those eight bytes. */
  lemma GenerateShape(original: seq<Byte>, modified: seq<Byte>, romName: string)
    ensures var p := GenerateIps(original, modified, romName).data;
      && |p| >= 8 && p[..5] == Header && p[|p| - 3..] == Eof
      && (modified == original ==> p == Header + Eof)
  {
    if modified == original {
      NoDiffWhenEqual(original, 0);
    }
  }

  // ---------------------------------------------------------------------
  // Reading back

  /** The reader's effect on an image that every record is written into, in order. */
  function ApplyAll(rom: seq<Byte>, rs: seq<IpsRecord>): seq<Byte>
    decreases |rs|
  {
    if rs == [] then rom else ApplyAll(WriteAt(rom, rs[0].offset, rs[0].data), rs[1..])
  }

  /** Three big-endian bytes read back the offset they encode. */
  lemma ThreeBytes(x: nat)
    requires x < 0x1000000
    ensures ((x / 65536) % 256) * 65536 + ((x / 256) % 256) * 256 + x % 256 == x
  {
    assert x / 65536 < 256;
    assert (x / 256) % 256 == (x / 256) - (x / 65536) * 256;
  }

  /** Two big-endian bytes read back the length they encode. */
  lemma TwoBytes(n: nat)
    requires n < 0x10000
    ensures ((n / 256) % 256) * 256 + n % 256 == n
  {
  }

  /** One serialised record, read at the cursor, is decoded to itself and
      the cursor moves past it. */
  lemma DecodeStep(rom: seq<Byte>, p: seq<Byte>, off: nat, r: IpsRecord)
    requires 1 <= |r.data| <= MaxRecordLength && r.offset < EofOffset
    requires off + |EncodeRecord(r)| + 3 <= |p|
    requires p[off..off + |EncodeRecord(r)|] == EncodeRecord(r)
    ensures ApplyFrom(rom, p, off) == ApplyFrom(WriteAt(rom, r.offset, r.data), p, off + |EncodeRecord(r)|)
  {
    var n := |r.data|;
    var enc := EncodeRecord(r);
    assert p[off] == enc[0] && p[off + 1] == enc[1] && p[off + 2] == enc[2];
    assert p[off + 3] == enc[3] && p[off + 4] == enc[4];
    ThreeBytes(r.offset);
    TwoBytes(n);
    assert (p[off] as int) * 65536 + (p[off + 1] as int) * 256 + p[off + 2] == r.offset;
    assert (PatchAt(p, off + 3) as int) * 256 + PatchAt(p, off + 4) == n;
    assert PatchBytes(p, off + 5, n) == r.data by {
      forall i | 0 <= i < n ensures PatchBytes(p, off + 5, n)[i] == r.data[i] {
        assert enc[5 + i] == r.data[i];
        assert p[off + 5 + i] == enc[5 + i];
        assert PatchBytes(p, off + 5, n)[i] == PatchAt(p, off + 5 + i);
      }
    }
  }

  /** The reader, started right after `pre`, applies every serialised record
      in order and stops at the trailer, provided no record offset reads as
      "EOF" and every length fits in two bytes. */
  lemma {:induction false} DecodeRecords(rom: seq<Byte>, pre: seq<Byte>, rs: seq<IpsRecord>)
    requires forall r :: r in rs ==> 1 <= |r.data| <= MaxRecordLength && r.offset < EofOffset
    ensures ApplyFrom(rom, pre + EncodeRecords(rs) + Eof, |pre|) == ApplyAll(rom, rs)
    decreases |rs|
  {
    var p := pre + EncodeRecords(rs) + Eof;
    if rs != [] {
      var r := rs[0];
      var enc := EncodeRecord(r);
      var pre' := pre + enc;
      assert p == pre' + EncodeRecords(rs[1..]) + Eof;
      assert p[|pre|..|pre| + |enc|] == enc;
      DecodeStep(rom, p, |pre|, r);
      DecodeRecords(WriteAt(rom, r.offset, r.data), pre', rs[1..]);
    } else {
      assert p[|pre|..] == Eof;
    }
  }

  /** Writing the records found from `offset` into an image that still holds
      `original` from `offset` on yields `modified` from `offset` on and
      leaves the bytes before it alone. */
  lemma {:induction false} ApplyDiff(original: seq<Byte>, modified: seq<Byte>, offset: nat, rom: seq<Byte>)
    requires |modified| == |original| == |rom| && offset <= |original|
    requires forall k :: offset <= k < |original| ==> rom[k] == original[k]
    ensures var out := ApplyAll(rom, DiffFrom(original, modified, offset));
      && |out| == |original|
      && forall k :: 0 <= k < |original| ==> out[k] == if k >= offset then modified[k] else rom[k]
    decreases |original| - offset
  {
    if offset < |original| {
      if Differs(original, modified, offset) {
        var e := RunEndFrom(original, modified, offset, offset + 1);
        var payload := ModBytes(modified, offset, e);
        var rom' := WriteAt(rom, offset, payload);
        RunEndSpec(original, modified, offset, offset + 1);
        WriteAtSpec(rom, offset, payload);
        forall k | offset <= k < e ensures rom'[k] == modified[k] {
          assert rom'[k] == Written(rom, offset, payload, k);
          assert payload[k - offset] == ModByte(modified, k);
        }
        var rs := DiffFrom(original, modified, offset);
        assert rs == [IpsRecord(offset, payload)] + DiffFrom(original, modified, e);
        assert ApplyAll(rom, rs) == ApplyAll(rom', DiffFrom(original, modified, e));
        ApplyDiff(original, modified, e, rom');
      } else {
        ApplyDiff(original, modified, offset + 1, rom);
      }
    }
  }

  /** A patch without the "PATCH" header is refused; otherwise the result
      has the length of the original image. */
  lemma {:induction false} ApplyFromLength(rom: seq<Byte>, p: seq<Byte>, offset: nat)
    ensures |ApplyFrom(rom, p, offset)| == |rom|
    decreases |p| - offset
  {
    if offset + 3 < |p| && !(p[offset] == 0x45 && p[offset + 1] == 0x4F && p[offset + 2] == 0x46) {
      var recordOffset: int := (p[offset] as int) * 65536 + (p[offset + 1] as int) * 256 + p[offset + 2];
      var recordLength: int := (PatchAt(p, offset + 3) as int) * 256 + PatchAt(p, offset + 4);
      if recordLength > 0 {
        var bytes := PatchBytes(p, offset + 5, recordLength);
        WriteAtSpec(rom, recordOffset, bytes);
        ApplyFromLength(WriteAt(rom, recordOffset, bytes), p, offset + 5 + recordLength);
      } else {
        ApplyFromLength(rom, p, offset + 8);
      }
    }
  }

  /** `applyIpsPatch` throws exactly when the header is missing, and
      otherwise returns an image of the original's length. */
  lemma ApplySpec(original: seq<Byte>, p: seq<Byte>)
    ensures ApplyIps(original, p).Err? <==> !(|p| >= 5 && p[..5] == Header)
    ensures ApplyIps(original, p).Ok? ==> |ApplyIps(original, p).value| == |original|
  {
    ApplyFromLength(original, p, 5);
  }

  /** Round trip: for images of equal length up to 0x454F46 bytes, applying
      the generated patch to the original gives the modified image. */
  lemma RoundTrip(original: seq<Byte>, modified: seq<Byte>, romName: string)
    requires |original| == |modified| <= EofOffset
    ensures ApplyIps(original, GenerateIps(original, modified, romName).data) == Ok(modified)
  {
    var rs := DiffFrom(original, modified, 0);
    DiffSpec(original, modified, 0);
    var p := GenerateIps(original, modified, romName).data;
    assert p == Header + EncodeRecords(rs) + Eof;
    assert p[..5] == Header;
    DecodeRecords(original, Header, rs);
    ApplyDiff(original, modified, 0, original);
    var out := ApplyAll(original, rs);
    assert out == modified;
  }

  /** Length-0 (run-length) records are not decoded: the reader skips the
      three bytes after the length, so the fill is never written. */
  lemma RunLengthRecordIgnored()
    ensures ApplyIps([1, 2, 3], Header + [0x00, 0x00, 0x01, 0x00, 0x00, 0x00, 0x03, 0x07] + Eof) == Ok([1, 2, 3])
  {
    var p: seq<Byte> := Header + [0x00, 0x00, 0x01, 0x00, 0x00, 0x00, 0x03, 0x07] + Eof;
    assert p[..5] == Header;
    assert ApplyFrom([1, 2, 3], p, 13) == [1, 2, 3];
  }

  /** The patch is named after the image with its final extension replaced
      by ".ips"; a dot before the last slash is not an extension. */
  lemma PatchName(original: seq<Byte>, modified: seq<Byte>)
    ensures GenerateIps(original, modified, "game.nes").name == "game.ips"
    ensures GenerateIps(original, modified, "v1.0/game").name == "v1.0/game.ips"
    ensures GenerateIps(original, modified, "game.").name == "game..ips"
  {
    var a := "game.nes";
    assert a[7] == 's' && a[6] == 'e' && a[5] == 'n' && a[4] == '.';
    assert ExtensionStart(a, 5) == "game";
    assert ExtensionStart(a, 8) == ExtensionStart(a, 7) == ExtensionStart(a, 6) == ExtensionStart(a, 5);
    var b := "v1.0/game";
    assert b[8] == 'e' && b[7] == 'm' && b[6] == 'a' && b[5] == 'g' && b[4] == '/';
    assert ExtensionStart(b, 5) == b;
    assert ExtensionStart(b, 9) == ExtensionStart(b, 8) == ExtensionStart(b, 7) == ExtensionStart(b, 6) == ExtensionStart(b, 5);
    assert ExtensionStart("game.", 5) == "game.";
  }
}
