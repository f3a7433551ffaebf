/** What `rebuildRom` promises about the image and the blocks it returns
    (src/utils/patchUtils.js). */
module RebuildProperties {
  import opened Common
  import opened ByteBuffer
  import opened JsText
  import opened RomUtils
  import opened RomRebuild

  /** What the in-place write leaves at position `k`. */
  function FitByte(rom: seq<Byte>, s: int, bytes: seq<Byte>, term: Byte, span: int, k: int): Byte
    requires 0 <= k < |rom|
  {
    if s <= k < s + |bytes| then bytes[k - s]
    else if k == s + |bytes| then term
    else if s + |bytes| < k < s + span then 0xFF
    else rom[k]
  }

  /** What the relocating write leaves at position `k`. */
  function RelocatedByte(rom: seq<Byte>, start: Option<int>, f: nat, bytes: seq<Byte>, term: Byte, k: int): Byte
    requires 0 <= k < |rom|
  {
    if start.Some? && k == start.value + 1 then (f / 256) % 256
    else if start.Some? && k == start.value then f % 256
    else if f <= k < f + |bytes| then bytes[k - f]
    else if k == f + |bytes| then term
    else rom[k]
  }

  /** The in-place write: the text, its terminator right after it, then 0xFF
      to the end of the original span; bytes outside the buffer are dropped
      and every other byte keeps its value. */
  lemma WriteFitSpec(rom: seq<Byte>, s: int, bytes: seq<Byte>, term: Byte, span: int)
    ensures var r := WriteFit(rom, s, bytes, term, span);
      && |r| == |rom|
      && forall k :: 0 <= k < |rom| ==> r[k] == FitByte(rom, s, bytes, term, span, k)
  {
    var n := |bytes|;
    var withText := WriteAt(rom, s, bytes);
    var withTerm := Store(withText, s + n, term);
    var fill := Repeat(0xFF, span - n - 1);
    WriteAtSpec(rom, s, bytes);
    WriteAtSpec(withTerm, s + n + 1, fill);
  }

  /** The relocating write: the text and its terminator at `f`, then the two
      pointer bytes at the original start, which win over anything written
      there before. */
  lemma WriteRelocatedSpec(rom: seq<Byte>, start: Option<int>, f: nat, bytes: seq<Byte>, term: Byte)
    ensures var r := WriteRelocated(rom, start, f, bytes, term);
      && |r| == |rom|
      && forall k :: 0 <= k < |rom| ==> r[k] == RelocatedByte(rom, start, f, bytes, term, k)
  {
    WriteAtSpec(rom, f, bytes);
  }

  /** The two pointer bytes, read back little-endian, give `f` modulo 2^16. */
  lemma PointerLittleEndian(f: nat)
    ensures f % 256 + 256 * ((f / 256) % 256) == f % 65536
  {
    var q := f / 256;
    var low := f % 256 + 256 * (q % 256);
    assert f == 65536 * (q / 256) + low;
    ModOfSplit(f, q / 256, low);
  }

  /** `a == 65536 * d + m` with `m` in range fixes `a % 65536`. */
  lemma ModOfSplit(a: int, d: int, m: int)
    requires a == 65536 * d + m && 0 <= m < 65536
    ensures a % 65536 == m
  {
  }

  /** Non-blank translations, in order. */
  function NonBlank(ts: seq<Translation>): (r: seq<Translation>)
    ensures |r| <= |ts|
    ensures forall t :: t in r ==> t in ts && !IsBlank(t.translatedText)
    decreases |ts|
  {
    if ts == [] then []
    else if IsBlank(ts[|ts| - 1].translatedText) then NonBlank(ts[..|ts| - 1])
    else NonBlank(ts[..|ts| - 1]) + [ts[|ts| - 1]]
  }

  /** Either write keeps the image length. */
  lemma WritesKeepLength(rom: seq<Byte>, start: Option<int>, f: nat, bytes: seq<Byte>, term: Byte, span: int)
    ensures |if |bytes| <= span then (if start.Some? then WriteFit(rom, start.value, bytes, term, span) else rom)
             else WriteRelocated(rom, start, f, bytes, term)| == |rom|
  {
    if |bytes| <= span {
      if start.Some? {
        WriteFitSpec(rom, start.value, bytes, term, span);
      }
    } else {
      WriteRelocatedSpec(rom, start, f, bytes, term);
    }
  }

  /** One callback keeps the image length and adds the block of a
      non-blank translation. */
  lemma ApplyOneShape(rom: seq<Byte>, f: nat, t: Translation, term: Byte, encode: string -> seq<Byte>)
    ensures var r := ApplyOne(rom, f, t, term, encode);
      && |r.rom| == |rom|
      && r.blocks == if IsBlank(t.translatedText) then [] else [BlockFor(t, ParseStart(t.offset), f, encode(t.translatedText))]
  {
    if !IsBlank(t.translatedText) {
      var bytes := encode(t.translatedText);
      ApplyWrites(rom, f, t, term, encode, bytes);
      WritesKeepLength(rom, ParseStart(t.offset), f, bytes, term, t.endByte - t.startByte);
    }
  }

  /** Replaying keeps the image length, and adds one block per non-blank
      translation, in order, as `BlockFor` describes it. */
  lemma {:induction false} ReplaySpec(rom: seq<Byte>, f: nat, ts: seq<Translation>, term: Byte, encode: string -> seq<Byte>)
    ensures var r := Replay(rom, f, ts, term, encode);
      && |r.rom| == |rom|
      && |r.blocks| == |NonBlank(ts)|
      && forall k :: 0 <= k < |r.blocks| ==>
           r.blocks[k] == BlockFor(NonBlank(ts)[k], ParseStart(NonBlank(ts)[k].offset), f, encode(NonBlank(ts)[k].translatedText))
    decreases |ts|
  {
    if ts != [] {
      var init := ts[..|ts| - 1];
      var last := ts[|ts| - 1];
      ReplaySpec(rom, f, init, term, encode);
      var before := Replay(rom, f, init, term, encode);
      ApplyOneShape(before.rom, f, last, term, encode);
    }
  }

  /** `rebuildRom` returns an image of the input's length and one block per
      non-blank translation in order; every relocated block starts at the one
      free-space offset computed from the original image. */
  lemma RebuildSpec(originalRom: seq<Byte>, ts: seq<Translation>, system: SystemInfo, encode: string -> seq<Byte>)
    ensures var r := Rebuild(originalRom, ts, system, encode);
      && |r.rom| == |originalRom|
      && |r.blocks| == |NonBlank(ts)|
      && (forall k :: 0 <= k < |r.blocks| ==>
            r.blocks[k].original == NonBlank(ts)[k].originalText
            && r.blocks[k].translation == NonBlank(ts)[k].translatedText)
      && (forall k :: 0 <= k < |r.blocks| && r.blocks[k].relocated ==>
            r.blocks[k].start == Some(FreeSpaceOf(originalRom)))
  {
    ReplaySpec(originalRom, FreeSpaceOf(originalRom), ts, TermByte(system), encode);
  }

  /** A blank translation changes no byte and adds no block. */
  lemma BlankSkipped(rom: seq<Byte>, f: nat, t: Translation, term: Byte, encode: string -> seq<Byte>)
    requires IsBlank(t.translatedText)
    ensures ApplyOne(rom, f, t, term, encode) == Rebuilt(rom, [])
  {
  }

  /** A translation that fits its span and whose label parses to `s` is
      written in place at `s` (what that write leaves is `WriteFitSpec`; the
      block it adds is `BlockFor`, by `ApplyOneShape`). */
  lemma FitInPlace(rom: seq<Byte>, f: nat, t: Translation, term: Byte, encode: string -> seq<Byte>, s: int)
    requires !IsBlank(t.translatedText) && ParseStart(t.offset) == Some(s)
    requires |encode(t.translatedText)| <= t.endByte - t.startByte
    ensures ApplyOne(rom, f, t, term, encode).rom == WriteFit(rom, s, encode(t.translatedText), term, t.endByte - t.startByte)
  {
    var bytes := encode(t.translatedText);
    ApplyWrites(rom, f, t, term, encode, bytes);
    FitCase(rom, t, ParseStart(t.offset), f, bytes, term, s);
  }

  /** With a parsed start `s` and bytes that fit, the write is `WriteFit` at `s`. */
  lemma FitCase(rom: seq<Byte>, t: Translation, start: Option<int>, f: nat, bytes: seq<Byte>, term: Byte, s: int)
    requires start == Some(s) && |bytes| <= t.endByte - t.startByte
    ensures var span := t.endByte - t.startByte;
      (if |bytes| <= span then (if start.Some? then WriteFit(rom, start.value, bytes, term, span) else rom)
       else WriteRelocated(rom, start, f, bytes, term)) == WriteFit(rom, s, bytes, term, span)
  {
  }

  /** A translation longer than its span goes to the free space `f`, and
      `f` is written as a little-endian pointer at the parsed start. */
  lemma Overflow(rom: seq<Byte>, f: nat, t: Translation, term: Byte, encode: string -> seq<Byte>)
    requires !IsBlank(t.translatedText)
    requires |encode(t.translatedText)| > t.endByte - t.startByte
    ensures var start := ParseStart(t.offset);
      var bytes := encode(t.translatedText);
      var r := ApplyOne(rom, f, t, term, encode);
      && |r.rom| == |rom|
      && r.blocks == [Block(Some(f), Some(f + |bytes|), t.originalText, t.translatedText, true)]
      && forall k :: 0 <= k < |rom| ==> r.rom[k] == RelocatedByte(rom, start, f, bytes, term, k)
  {
    WriteRelocatedSpec(rom, ParseStart(t.offset), f, encode(t.translatedText), term);
  }

  /** A fitting translation whose label does not parse changes no byte. */
  lemma UnparsedOffset(rom: seq<Byte>, f: nat, t: Translation, term: Byte, encode: string -> seq<Byte>)
    requires ParseStart(t.offset).None?
    requires |encode(t.translatedText)| <= t.endByte - t.startByte
    ensures ApplyOne(rom, f, t, term, encode).rom == rom
  {
  }

  /** For a text whose label was made by the extractor, the write position
      is the text's own start byte. */
  lemma StartFromLabel(t: Translation)
    requires t.startByte >= 0 && t.offset == FormatOffset(t.startByte)
    ensures ParseStart(t.offset) == Some(t.startByte)
  {
    OffsetRoundTrip(t.startByte);
  }
}
