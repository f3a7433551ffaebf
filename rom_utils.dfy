/** Cartridge-family sniffing and the free-space locator (src/utils/romUtils.js). */
module RomUtils {
  import opened Common
  import opened JsText

  /** What the translator knows about a cartridge family. */
  datatype SystemInfo = SystemInfo(name: string, terminator: seq<Byte>, encoding: string)

  /** What `systems[ext] || {...}` yields. `systems` is a plain object
      literal, so a lower-case extension naming a member it inherits from
      `Object.prototype` finds that member instead of the fallback: the
      `Object` function (name "Object") for "constructor", `Object.prototype`
      (no name) for "__proto__". Neither has a terminator list or an
      encoding. */
  datatype Detection = Listed(info: SystemInfo) | Inherited(name: Option<string>)

  // ---------------------------------------------------------------------
  // detectSystem

  /** `data[k]` on a Uint8Array: `undefined` (here -1) past the end, so it
      equals no byte value. */
  function At(data: seq<Byte>, k: nat): int {
    if k < |data| then data[k] else -1
  }

  /** The last piece of `s.split(c)`: the text after the last `c`, or all of `s`. */
  function LastPiece(s: string, c: char): string {
    var pieces := Split(s, c);
    pieces[|pieces| - 1]
  }

  /** `fileName.split('.').pop().toLowerCase()`. */
  function Extension(fileName: string): string {
    ToLower(LastPiece(fileName, '.'))
  }

  /** The family named by the header bytes, checked only for buffers longer than 16 bytes. */
  function HeaderSystem(data: seq<Byte>): Option<string> {
    if |data| > 16 then
      if At(data, 0) == 0x4E && At(data, 1) == 0x45 && At(data, 2) == 0x53 && At(data, 3) == 0x1A then Some("NES")
      else if At(data, 0x7FC0) == 0xAA && At(data, 0x7FC1) == 0xBB && At(data, 0x7FC2) == 0x04 then Some("SNES")
      else if At(data, 0x104) == 0xCE && At(data, 0x105) == 0xED && At(data, 0x106) == 0x66 && At(data, 0x107) == 0x66 then Some("GB")
      else if At(data, 0xB2) == 0x96 && At(data, 0xB3) == 0x00 && At(data, 0xB4) == 0x00 then Some("GBA")
      else if At(data, 0) == 0x2E && At(data, 1) == 0x00 && At(data, 2) == 0x00 && At(data, 3) == 0xEA then Some("NDS")
      else None
    else None
  }

  /** The lower-case members every object inherits; the only inherited
      names an extension lower-cased by `toLowerCase` can spell. */
  predicate InheritedKey(ext: string) {
    ext == "constructor" || ext == "__proto__"
  }

  /** The lookup of `detectSystem`: the header guess `detected` names the
      family for the header-aware extensions and for unknown ones; the
      terminator list comes from the extension alone; the inherited keys
      find an object member instead. */
  function SystemFor(ext: string, detected: Option<string>): (d: Detection)
    ensures d.Listed? <==> !InheritedKey(ext)
    ensures d.Listed? ==> |d.info.terminator| >= 1 && d.info.encoding == "ascii"
  {
    if ext == "constructor" then Inherited(Some("Object"))
    else if ext == "__proto__" then Inherited(None)
    else Listed(SystemEntry(ext, detected))
  }

  /** The entries of `systems`, and the fallback object for every other extension. */
  function SystemEntry(ext: string, detected: Option<string>): SystemInfo
  {
    if ext == "nes" then SystemInfo(detected.GetOr("NES"), [0x00], "ascii")
    else if ext == "snes" then SystemInfo(detected.GetOr("SNES"), [0x00], "ascii")
    else if ext == "gb" then SystemInfo(detected.GetOr("Game Boy"), [0x50, 0x00], "ascii")
    else if ext == "gbc" then SystemInfo(detected.GetOr("GBC"), [0x50, 0x00], "ascii")
    else if ext == "gba" then SystemInfo(detected.GetOr("GBA"), [0x00, 0xFF, 0xFD], "ascii")
    else if ext == "nds" then SystemInfo(detected.GetOr("NDS"), [0x00, 0xFF, 0xFE], "ascii")
    else if ext == "smd" then SystemInfo("Genesis", [0x00], "ascii")
    else if ext == "bin" || ext == "iso" then SystemInfo("PlayStation", [0x00, 0xFF], "ascii")
    else if ext == "z64" || ext == "n64" || ext == "v64" then SystemInfo("Nintendo 64", [0x00], "ascii")
    else SystemInfo(detected.GetOr("Unknown"), [0x00, 0xFF], "ascii")
  }

  /** `detectSystem(fileName, data)`. */
  function DetectSystem(fileName: string, data: seq<Byte>): (d: Detection)
    ensures d.Listed? <==> !InheritedKey(Extension(fileName))
    ensures d.Listed? ==> |d.info.terminator| >= 1 && d.info.encoding == "ascii"
  {
    SystemFor(Extension(fileName), HeaderSystem(data))
  }

  /** The `terminator` property of the lookup's result; `None` for `undefined`. */
  function Terminators(d: Detection): Option<seq<Byte>> {
    match d
    case Listed(info) => Some(info.terminator)
    case Inherited(_) => None
  }

  /** The `name` property of the lookup's result; `None` for `undefined`. */
  function SystemName(d: Detection): Option<string> {
    match d
    case Listed(info) => Some(info.name)
    case Inherited(name) => name
  }

  predicate KnownExtension(ext: string) {
    ext in {"nes", "snes", "gb", "gbc", "gba", "nds", "smd", "bin", "iso", "z64", "n64", "v64"}
  }

  predicate HeaderAwareExtension(ext: string) {
    ext in {"nes", "snes", "gb", "gbc", "gba", "nds"}
  }

  /** The last piece of a split is the text after the last separator, or the
      whole string when there is none. */
  lemma {:induction false} LastPieceSpec(s: string, c: char)
    ensures var l := LastPiece(s, c);
      && c !in l && |l| <= |s| && l == s[|s| - |l|..]
      && (|l| < |s| ==> s[|s| - |l| - 1] == c)
      && (c !in s <==> l == s)
    decreases |s|
  {
    if s != "" {
      var tail := s[1..];
      LastPieceSpec(tail, c);
      assert s == [s[0]] + tail;
      if s[0] == c {
        LastPieceCons(s, c);
      } else if c !in tail {
        assert c !in s;
      } else {
        LastPieceCons(s, c);
      }
    }
  }

  /** Past its first character, a string with a separator after that
      character ends in the same piece as its tail. */
  lemma LastPieceCons(s: string, c: char)
    requires s != "" && (s[0] == c || c in s[1..])
    ensures LastPiece(s, c) == LastPiece(s[1..], c)
  {
    var rest := Split(s[1..], c);
    if s[0] != c {
      assert |rest| >= 2;
    }
  }

  /** The extension is the lower-cased text after the last dot; a name without a
      dot is its own extension. */
  lemma ExtensionIsAfterLastDot(fileName: string)
    ensures '.' !in fileName ==> Extension(fileName) == ToLower(fileName)
    ensures '.' in fileName ==>
      exists p :: 0 <= p < |fileName| && fileName[p] == '.' && '.' !in fileName[p + 1..]
        && Extension(fileName) == ToLower(fileName[p + 1..])
  {
    LastPieceSpec(fileName, '.');
    var l := LastPiece(fileName, '.');
    if '.' in fileName {
      var p := |fileName| - |l| - 1;
      assert fileName[p + 1..] == l;
    }
  }

  /** The terminator list depends on the extension only; the inherited
      keys have none, other unknown extensions end texts on 0x00 or 0xFF, and
      only Game Boy images lead with 0x50. */
  lemma TerminatorByExtension(f1: string, d1: seq<Byte>, f2: string, d2: seq<Byte>)
    ensures Extension(f1) == Extension(f2) ==> Terminators(DetectSystem(f1, d1)) == Terminators(DetectSystem(f2, d2))
    ensures Terminators(DetectSystem(f1, d1)) == None <==> InheritedKey(Extension(f1))
    ensures !KnownExtension(Extension(f1)) && !InheritedKey(Extension(f1)) ==> Terminators(DetectSystem(f1, d1)) == Some([0x00, 0xFF])
    ensures DetectSystem(f1, d1).Listed? ==>
      DetectSystem(f1, d1).info.terminator[0] == if Extension(f1) in {"gb", "gbc"} then 0x50 else 0x00
  {
    SystemTerminator(Extension(f1), HeaderSystem(d1), HeaderSystem(d2));
  }

  /** The looked-up terminator list ignores the header guess. */
  lemma SystemTerminator(ext: string, h1: Option<string>, h2: Option<string>)
    ensures Terminators(SystemFor(ext, h1)) == Terminators(SystemFor(ext, h2))
    ensures Terminators(SystemFor(ext, h1)) == None <==> InheritedKey(ext)
    ensures !KnownExtension(ext) && !InheritedKey(ext) ==> Terminators(SystemFor(ext, h1)) == Some([0x00, 0xFF])
    ensures SystemFor(ext, h1).Listed? ==>
      SystemFor(ext, h1).info.terminator[0] == if ext in {"gb", "gbc"} then 0x50 else 0x00
  {
  }

  /** An iNES header (`4E 45 53 1A`) on a buffer longer than 16 bytes names the
      family "NES" unless the extension fixes the name or finds an inherited member. */
  lemma NesHeaderDetected(fileName: string, data: seq<Byte>)
    requires |data| > 16 && data[0] == 0x4E && data[1] == 0x45 && data[2] == 0x53 && data[3] == 0x1A
    ensures var ext := Extension(fileName);
      HeaderAwareExtension(ext) || (!KnownExtension(ext) && !InheritedKey(ext))
      ==> SystemName(DetectSystem(fileName, data)) == Some("NES")
  {
    assert HeaderSystem(data) == Some("NES");
    HeaderNames(Extension(fileName), "NES");
  }

  /** For the header-aware extensions and the unknown ones that are not
      inherited keys, a header guess names the family. */
  lemma HeaderNames(ext: string, name: string)
    ensures HeaderAwareExtension(ext) || (!KnownExtension(ext) && !InheritedKey(ext))
      ==> SystemName(SystemFor(ext, Some(name))) == Some(name)
  {
  }

  /** Header bytes are ignored for buffers of at most 16 bytes, for the
      extensions whose family name is fixed, and for the inherited keys. */
  lemma HeaderIgnored(fileName: string, d1: seq<Byte>, d2: seq<Byte>)
    ensures var ext := Extension(fileName);
      (|d1| <= 16 && |d2| <= 16) || (KnownExtension(ext) && !HeaderAwareExtension(ext)) || InheritedKey(ext)
      ==> DetectSystem(fileName, d1) == DetectSystem(fileName, d2)
  {
    HeaderFixed(Extension(fileName), HeaderSystem(d1), HeaderSystem(d2));
  }

  /** The extensions whose family name is fixed ignore the header guess, and
      so do the inherited keys, named "Object" for "constructor" and nothing
      for "__proto__". */
  lemma HeaderFixed(ext: string, h1: Option<string>, h2: Option<string>)
    ensures (KnownExtension(ext) && !HeaderAwareExtension(ext)) || InheritedKey(ext) ==> SystemFor(ext, h1) == SystemFor(ext, h2)
    ensures InheritedKey(ext) ==> SystemName(SystemFor(ext, h1)) == if ext == "constructor" then Some("Object") else None
  {
  }

  // ---------------------------------------------------------------------
  // findFreeSpace

  /** Filler bytes that count as free space. */
  predicate IsFree(b: Byte) { b == 0xFF || b == 0x00 }

  const FreeRunLength: nat := 1024

  /** The 1024 bytes from `r` lie inside the buffer and are all filler. */
  predicate FreeWindow(data: seq<Byte>, r: int) {
    0 <= r && r + FreeRunLength <= |data| && forall k | r <= k < r + FreeRunLength :: IsFree(data[k])
  }

  /** Reference search: try every window start from `r` on; without a free
      window, fall back to the last 1024 bytes. */
  function FirstFreeFrom(data: seq<Byte>, r: nat): nat
    decreases |data| - r
  {
    if r + FreeRunLength > |data| then Max(0, |data| - FreeRunLength)
    else if FreeWindow(data, r) then r
    else FirstFreeFrom(data, r + 1)
  }

  /** Where relocated text goes. */
  function FreeSpaceOf(data: seq<Byte>): nat {
    FirstFreeFrom(data, 0)
  }

  lemma {:induction false} FirstFreeFromSpec(data: seq<Byte>, r: nat)
    ensures r <= FirstFreeFrom(data, r) <= Max(r, |data| - FreeRunLength) || FirstFreeFrom(data, r) == Max(0, |data| - FreeRunLength)
    ensures FirstFreeFrom(data, r) <= Max(0, |data| - FreeRunLength)
    ensures (exists w :: r <= w && FreeWindow(data, w)) ==>
      FreeWindow(data, FirstFreeFrom(data, r)) && forall w :: r <= w < FirstFreeFrom(data, r) ==> !FreeWindow(data, w)
    ensures (forall w :: r <= w ==> !FreeWindow(data, w)) ==> FirstFreeFrom(data, r) == Max(0, |data| - FreeRunLength)
    decreases |data| - r
  {
    if r + FreeRunLength <= |data| && !FreeWindow(data, r) {
      FirstFreeFromSpec(data, r + 1);
      if w :| r <= w && FreeWindow(data, w) {
        assert r + 1 <= w;
      }
    }
  }

  /** The locator returns an offset in `[0, max(0, len - 1024)]`: the first
      all-filler window when one exists, otherwise the fallback. */
  lemma FreeSpaceOfSpec(data: seq<Byte>)
    ensures 0 <= FreeSpaceOf(data) <= Max(0, |data| - FreeRunLength)
    ensures (exists w :: FreeWindow(data, w)) ==>
      FreeWindow(data, FreeSpaceOf(data)) && forall w :: 0 <= w < FreeSpaceOf(data) ==> !FreeWindow(data, w)
    ensures (forall w :: !FreeWindow(data, w)) ==> FreeSpaceOf(data) == Max(0, |data| - FreeRunLength)
  {
    FirstFreeFromSpec(data, 0);
  }

  lemma {:induction false} FirstFreeSkip(data: seq<Byte>, a: nat, b: nat)
    requires a <= b
    requires forall w :: a <= w < b ==> !FreeWindow(data, w)
    ensures FirstFreeFrom(data, a) == FirstFreeFrom(data, b)
    decreases b - a
  {
    if a < b {
      FirstFreeSkip(data, a + 1, b);
    }
  }

  /** `findFreeSpace`: one left-to-right pass counting the current run of filler bytes. */
  method FindFreeSpace(romData: seq<Byte>) returns (r: int)
    ensures r == FreeSpaceOf(romData)
  {
    var consecutiveFree := 0;
    var start := -1;
    var i := 0;
    while i < |romData|
      invariant 0 <= i <= |romData|
      invariant 0 <= consecutiveFree <= i && consecutiveFree < FreeRunLength
      invariant start == if consecutiveFree == 0 then -1 else i - consecutiveFree
      invariant forall k | i - consecutiveFree <= k < i :: IsFree(romData[k])
      invariant i - consecutiveFree > 0 ==> !IsFree(romData[i - consecutiveFree - 1])
      invariant forall w :: 0 <= w && w + FreeRunLength <= i ==> !FreeWindow(romData, w)
    {
      if romData[i] == 0xFF || romData[i] == 0x00 {
        if consecutiveFree == 0 {
          start := i;
        }
        consecutiveFree := consecutiveFree + 1;
        if consecutiveFree >= FreeRunLength {
          assert FreeWindow(romData, start);
          FirstFreeSkip(romData, 0, start);
          return start;
        }
      } else {
        consecutiveFree := 0;
        start := -1;
      }
      i := i + 1;
    }
    FirstFreeSkip(romData, 0, i - consecutiveFree);
    return Max(0, |romData| - FreeRunLength);
  }
}
