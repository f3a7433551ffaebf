/** The rewrite engine: writes translations back into a copy of the image
    (src/utils/patchUtils.js, `rebuildRom`). */
module RomRebuild {
  import opened Common
  import opened ByteBuffer
  import opened JsText
  import opened RomUtils

  /** One text of the project as the rewrite engine reads it. */
  datatype Translation = Translation(
    offset: string,
    startByte: int,
    endByte: int,
    originalText: string,
    translatedText: string)

  /** One rewritten block; `start`/`end` are `None` when the offset label
      did not parse (`NaN` in the source). */
  datatype Block = Block(
    start: Option<int>,
    end: Option<int>,
    original: string,
    translation: string,
    relocated: bool)

  /** The copied image and the blocks written so far. */
  datatype Rebuilt = Rebuilt(rom: seq<Byte>, blocks: seq<Block>)

  /** `parseInt(offset.substring(2), 16)`. */
  function ParseStart(offset: string): Option<int> {
    ParseIntHex(if |offset| >= 2 then offset[2..] else "")
  }

  /** `system.terminator[0]`; storing `undefined` into a Uint8Array stores 0. */
  function TermByte(system: SystemInfo): Byte {
    if |system.terminator| > 0 then system.terminator[0] else 0
  }

  /** Translations that are empty or whitespace-only are skipped. */
  predicate IsBlank(text: string) {
    Trim(text) == ""
  }

  /** The in-place case: the text at `s`, the terminator after it, then 0xFF
      up to the end of the original span. */
  function WriteFit(rom: seq<Byte>, s: int, bytes: seq<Byte>, term: Byte, span: int): seq<Byte> {
    var withText := WriteAt(rom, s, bytes);
    var withTerm := Store(withText, s + |bytes|, term);
    WriteAt(withTerm, s + |bytes| + 1, Repeat(0xFF, span - |bytes| - 1))
  }

  /** The overflow case: the text and its terminator at the free-space offset
      `f`, then `f` as a 16-bit little-endian value at the original start. */
  function WriteRelocated(rom: seq<Byte>, start: Option<int>, f: nat, bytes: seq<Byte>, term: Byte): seq<Byte> {
    var withText := WriteAt(rom, f, bytes);
    var withTerm := Store(withText, f + |bytes|, term);
    if start.Some? then Store(Store(withTerm, start.value, f % 256), start.value + 1, (f / 256) % 256)
    else withTerm
  }

  /** The block a non-blank translation adds, given its parsed start. */
  function BlockFor(t: Translation, start: Option<int>, f: nat, bytes: seq<Byte>): (b: Block)
    ensures b.original == t.originalText && b.translation == t.translatedText
    ensures b.relocated <==> |bytes| > t.endByte - t.startByte
    ensures b.relocated ==> b.start == Some(f) && b.end == Some(f + |bytes|)
    ensures !b.relocated ==> b.start == start
    ensures !b.relocated ==> b.end == (if start.Some? then Some(start.value + |bytes|) else None)
  {
    if |bytes| <= t.endByte - t.startByte then
      Block(start, if start.Some? then Some(start.value + |bytes|) else None, t.originalText, t.translatedText, false)
    else
      Block(Some(f), Some(f + |bytes|), t.originalText, t.translatedText, true)
  }

  /** One call of the `forEach` callback. */
  function ApplyOne(rom: seq<Byte>, f: nat, t: Translation, term: Byte, encode: string -> seq<Byte>): Rebuilt {
    if IsBlank(t.translatedText) then Rebuilt(rom, [])
    else
      var bytes := encode(t.translatedText);
      var start := ParseStart(t.offset);
      var span := t.endByte - t.startByte;
      var rom' :=
        if |bytes| <= span then (if start.Some? then WriteFit(rom, start.value, bytes, term, span) else rom)
        else WriteRelocated(rom, start, f, bytes, term);
      Rebuilt(rom', [BlockFor(t, start, f, bytes)])
  }

  /** The translations applied in order to the image. */
  function Replay(rom: seq<Byte>, f: nat, ts: seq<Translation>, term: Byte, encode: string -> seq<Byte>): Rebuilt
    decreases |ts|
  {
    if ts == [] then Rebuilt(rom, [])
    else
      var before := Replay(rom, f, ts[..|ts| - 1], term, encode);
      var step := ApplyOne(before.rom, f, ts[|ts| - 1], term, encode);
      Rebuilt(step.rom, before.blocks + step.blocks)
  }

  /** `rebuildRom(originalRom, translations, system)`, with the text encoder a parameter. */
  function Rebuild(originalRom: seq<Byte>, ts: seq<Translation>, system: SystemInfo, encode: string -> seq<Byte>): Rebuilt {
    Replay(originalRom, FreeSpaceOf(originalRom), ts, TermByte(system), encode)
  }

  // ---------------------------------------------------------------------
  // The engine

  /** `count` more 0xFF bytes extend a 0xFF run. */
  lemma RepeatSnoc(v: Byte, count: nat)
    ensures Repeat(v, count + 1) == Repeat(v, count) + [v]
  {
    assert Repeat(v, count + 1) == Repeat(v, count) + [v] by {
      var l := Repeat(v, count + 1);
      var r := Repeat(v, count) + [v];
      assert |l| == |r|;
      assert forall k :: 0 <= k < |l| ==> l[k] == r[k];
    }
  }

  /** Copies `bytes` into `romCopy` from `pos`, dropping stores outside the array. */
  method CopyBytes(romCopy: array<Byte>, pos: int, bytes: seq<Byte>)
    modifies romCopy
    ensures romCopy[..] == WriteAt(old(romCopy[..]), pos, bytes)
  {
    ghost var before := romCopy[..];
    var i := 0;
    while i < |bytes|
      invariant 0 <= i <= |bytes|
      invariant romCopy[..] == WriteAt(before, pos, bytes[..i])
    {
      if 0 <= pos + i < romCopy.Length {
        romCopy[pos + i] := bytes[i];
      }
      WriteAtSnoc(before, pos, bytes[..i], bytes[i]);
      assert bytes[..i + 1] == bytes[..i] + [bytes[i]];
      i := i + 1;
    }
    assert bytes[..i] == bytes;
  }

  /** `romCopy[k] = v` on a typed array: dropped outside `[0, length)`. */
  method StoreByte(romCopy: array<Byte>, k: int, v: Byte)
    modifies romCopy
    ensures romCopy[..] == Store(old(romCopy[..]), k, v)
  {
    if 0 <= k < romCopy.Length {
      romCopy[k] := v;
    }
  }

  /** The in-place branch: text, terminator, then the 0xFF fill. */
  method WriteInPlace(romCopy: array<Byte>, s: int, translatedBytes: seq<Byte>, terminator: Byte, originalLength: int)
    modifies romCopy
    ensures romCopy[..] == WriteFit(old(romCopy[..]), s, translatedBytes, terminator, originalLength)
  {
    var n := |translatedBytes|;
    CopyBytes(romCopy, s, translatedBytes);
    StoreByte(romCopy, s + n, terminator);
    ghost var withTerm := romCopy[..];
    var i := n + 1;
    while i < originalLength
      invariant n + 1 <= i && (i <= originalLength || i == n + 1)
      invariant romCopy[..] == WriteAt(withTerm, s + n + 1, Repeat(0xFF, i - n - 1))
    {
      if 0 <= s + i < romCopy.Length {
        romCopy[s + i] := 0xFF;
      }
      RepeatSnoc(0xFF, i - n - 1);
      WriteAtSnoc(withTerm, s + n + 1, Repeat(0xFF, i - n - 1), 0xFF);
      i := i + 1;
    }
  }

  /** The overflow branch: text and terminator at the free space, then the pointer. */
  method WriteToFreeSpace(romCopy: array<Byte>, start: Option<int>, newStart: nat, translatedBytes: seq<Byte>, terminator: Byte)
    modifies romCopy
    ensures romCopy[..] == WriteRelocated(old(romCopy[..]), start, newStart, translatedBytes, terminator)
  {
    var n := |translatedBytes|;
    CopyBytes(romCopy, newStart, translatedBytes);
    StoreByte(romCopy, newStart + n, terminator);
    if start.Some? {
      StoreByte(romCopy, start.value, newStart % 256);
      StoreByte(romCopy, start.value + 1, (newStart / 256) % 256);
    }
  }

  /** A blank translation changes nothing and adds no block. */
  lemma ApplyBlank(rom: seq<Byte>, f: nat, t: Translation, term: Byte, encode: string -> seq<Byte>)
    requires IsBlank(t.translatedText)
    ensures ApplyOne(rom, f, t, term, encode) == Rebuilt(rom, [])
  {
  }

  /** A non-blank translation encoded as `bytes` is written in place or
      relocated, and adds its block. */
  lemma ApplyWrites(rom: seq<Byte>, f: nat, t: Translation, term: Byte, encode: string -> seq<Byte>, bytes: seq<Byte>)
    requires !IsBlank(t.translatedText) && bytes == encode(t.translatedText)
    ensures var start := ParseStart(t.offset);
      var span := t.endByte - t.startByte;
      ApplyOne(rom, f, t, term, encode) == Rebuilt(
        if |bytes| <= span then (if start.Some? then WriteFit(rom, start.value, bytes, term, span) else rom)
        else WriteRelocated(rom, start, f, bytes, term),
        [BlockFor(t, start, f, bytes)])
  {
  }

  /** The block a non-blank translation adds: its own span when the bytes
      fit, the free-space span (flagged as relocated) otherwise. */
  method NewBlock(text: Translation, start: Option<int>, freeSpaceStart: nat, translatedBytes: seq<Byte>)
    returns (block: Block)
    ensures block == BlockFor(text, start, freeSpaceStart, translatedBytes)
  {
    var n := |translatedBytes|;
    if n <= text.endByte - text.startByte {
      var end := if start.Some? then Some(start.value + n) else None;
      block := Block(start, end, text.originalText, text.translatedText, false);
    } else {
      block := Block(Some(freeSpaceStart), Some(freeSpaceStart + n), text.originalText, text.translatedText, true);
    }
  }

  /** A non-blank translation's bytes written in place when they fit the
      original span, and to the free space otherwise. */
  method WriteTranslation(romCopy: array<Byte>, freeSpaceStart: nat, text: Translation, terminator: Byte,
                          translatedBytes: seq<Byte>)
    modifies romCopy
    ensures var start := ParseStart(text.offset);
      var span := text.endByte - text.startByte;
      romCopy[..] ==
        if |translatedBytes| <= span then
          (if start.Some? then WriteFit(old(romCopy[..]), start.value, translatedBytes, terminator, span) else old(romCopy[..]))
        else WriteRelocated(old(romCopy[..]), start, freeSpaceStart, translatedBytes, terminator)
  {
    var start := ParseStart(text.offset);
    var originalLength := text.endByte - text.startByte;
    if |translatedBytes| <= originalLength {
      if start.Some? {
        WriteInPlace(romCopy, start.value, translatedBytes, terminator, originalLength);
      }
    } else {
      WriteToFreeSpace(romCopy, start, freeSpaceStart, translatedBytes, terminator);
    }
  }

  /** One call of the `forEach` callback: a blank translation is skipped,
      any other is encoded and written, returning the block it adds. */
  method ApplyTranslation(romCopy: array<Byte>, freeSpaceStart: nat, text: Translation, terminator: Byte,
                          encode: string -> seq<Byte>)
    returns (blocks: seq<Block>)
    modifies romCopy
    ensures romCopy[..] == ApplyOne(old(romCopy[..]), freeSpaceStart, text, terminator, encode).rom
    ensures blocks == ApplyOne(old(romCopy[..]), freeSpaceStart, text, terminator, encode).blocks
  {
    if Trim(text.translatedText) == "" {
      ApplyBlank(romCopy[..], freeSpaceStart, text, terminator, encode);
      return [];
    }
    var translatedBytes := encode(text.translatedText);
    ApplyWrites(romCopy[..], freeSpaceStart, text, terminator, encode, translatedBytes);
    var start := ParseStart(text.offset);
    var block := NewBlock(text, start, freeSpaceStart, translatedBytes);
    WriteTranslation(romCopy, freeSpaceStart, text, terminator, translatedBytes);
    blocks := [block];
  }

  /** Replaying one more translation applies it to the image replayed so far. */
  lemma ReplayStep(rom: seq<Byte>, f: nat, ts: seq<Translation>, j: nat, term: Byte, encode: string -> seq<Byte>)
    requires j < |ts|
    ensures var before := Replay(rom, f, ts[..j], term, encode);
      var step := ApplyOne(before.rom, f, ts[j], term, encode);
      Replay(rom, f, ts[..j + 1], term, encode) == Rebuilt(step.rom, before.blocks + step.blocks)
  {
    var done := ts[..j + 1];
    assert done[..j] == ts[..j];
  }

  /** `rebuildRom`: copies the image, finds free space once, applies every
      translation in order and returns the new image and the blocks. */
  method RebuildRom(originalRom: seq<Byte>, translations: seq<Translation>, system: SystemInfo,
                    encode: string -> seq<Byte>)
    returns (modifiedRom: seq<Byte>, modifiedBlocks: seq<Block>)
    ensures Rebuilt(modifiedRom, modifiedBlocks) == Rebuild(originalRom, translations, system, encode)
  {
    var romCopy := new Byte[|originalRom|](k requires 0 <= k < |originalRom| => originalRom[k]);
    var newTextBlocks: seq<Block> := [];
    var freeSpaceStart := FindFreeSpace(originalRom);
    var terminator := TermByte(system);
    assert romCopy[..] == originalRom;

    var j := 0;
    while j < |translations|
      invariant 0 <= j <= |translations|
      invariant romCopy[..] == Replay(originalRom, freeSpaceStart, translations[..j], terminator, encode).rom
      invariant newTextBlocks == Replay(originalRom, freeSpaceStart, translations[..j], terminator, encode).blocks
    {
      ReplayStep(originalRom, freeSpaceStart, translations, j, terminator, encode);
      var added := ApplyTranslation(romCopy, freeSpaceStart, translations[j], terminator, encode);
      newTextBlocks := newTextBlocks + added;
      j := j + 1;
    }
    assert translations[..j] == translations;
    return romCopy[..], newTextBlocks;
  }
}
