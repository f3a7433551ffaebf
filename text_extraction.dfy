/** The run scanner that turns a byte range into text records
    (src/utils/textExtraction.js). */
module TextExtraction {
  import opened Common
  import opened JsText
  import opened RomUtils

  /** The scanner's knobs; `textType` is "all" or the name of one kind. */
  datatype Options = Options(
    minLength: int,
    maxLength: int,
    includeRepeats: bool,
    textType: string,
    asciiFallback: bool,
    system: SystemInfo)

  /** The three classes a cleaned text falls into. */
  datatype TextKind = Dialogue | Menu | System {
    function Name(): string {
      match this
      case Dialogue => "dialogue"
      case Menu => "menu"
      case System => "system"
    }
  }

  /** One extracted text: `terminator` is `None` for the JavaScript `null`. */
  datatype TextRecord = TextRecord(
    offset: string,
    originalText: string,
    startByte: int,
    endByte: int,
    length: int,
    textType: TextKind,
    terminator: Option<Byte>,
    system: string)

  /** What one call scans: the buffer, the clamped end, the glyph table, the
      options and `Math.min(options.maxLength, 1024)`. */
  datatype Ctx = Ctx(data: seq<Byte>, end: int, table: map<int, string>, opts: Options, maxLen: int)

  predicate ValidCtx(ctx: Ctx) {
    0 <= ctx.end <= |ctx.data|
  }

  /** The variables of one inner scan: cursor, text so far, where the text
      starts, counted glyphs, how the run ended, the last glyph position and
      the current repeat count. */
  datatype Run = Run(
    i: int,
    text: string,
    textStart: int,
    validChars: int,
    terminatorFound: bool,
    lastValidByte: int,
    repeats: int)

  /** The state at the top of an outer iteration. */
  function InitRun(i: int): Run {
    Run(i, "", i, 0, false, i, 0)
  }

  /** `i > 0 ? data[i-1] : -1`, fixed for the whole run. */
  function LastByteBefore(data: seq<Byte>, i: int): int
    requires i <= |data|
  {
    if i > 0 then data[i - 1] else -1
  }

  /** How one pass of the inner loop body ends: with or without `break`. */
  datatype StepResult = Continue(run: Run) | Stop(run: Run)

  /** The end of the inner loop body: `i++`, then the two guards. */
  function Advance(ctx: Ctx, s: Run): StepResult {
    var s' := s.(i := s.i + 1);
    if s'.i - s'.textStart > 10000 || |s'.text| >= ctx.maxLen then Stop(s') else Continue(s')
  }

  /** The inner loop body at `data[s.i]`. A terminator closes the run when the
      text is long enough; otherwise it resets the run and falls through to the
      glyph lookup. A glyph is used only when it is a non-empty string. An
      unmapped byte equal to the byte before the run counts as a repeat; the
      fourth one aborts the run. Any other unmapped byte after enough glyphs
      rewinds to just past the last glyph. */
  function Step(ctx: Ctx, lastByte: int, s: Run): (res: StepResult)
    requires ValidCtx(ctx) && 0 <= s.i < ctx.end
    ensures res.Continue? ==> res.run.i == s.i + 1
  {
    var isTerminator := ctx.data[s.i] in ctx.opts.system.terminator;
    if isTerminator && |s.text| >= ctx.opts.minLength then
      Stop(s.(i := s.i + 1, terminatorFound := true))
    else
      StepByte(ctx, lastByte, if isTerminator then s.(text := "", textStart := s.i + 1, validChars := 0) else s)
  }

  /** The rest of the inner loop body, once a terminator has been ruled out
      or has reset the run. */
  function StepByte(ctx: Ctx, lastByte: int, s: Run): (res: StepResult)
    requires ValidCtx(ctx) && 0 <= s.i < ctx.end
    ensures res.Continue? ==> res.run.i == s.i + 1
  {
    var byte := ctx.data[s.i];
    var glyph := if byte in ctx.table then ctx.table[byte] else "";
    if glyph != "" then
      Advance(ctx, s.(text := s.text + glyph, validChars := s.validChars + 1, lastValidByte := s.i, repeats := 0))
    else if ctx.opts.asciiFallback && 0x20 <= byte <= 0x7E then
      Advance(ctx, s.(text := s.text + [byte as char], validChars := s.validChars + 1, lastValidByte := s.i, repeats := 0))
    else if byte == 0x0A then
      Advance(ctx, s.(text := s.text + "\n"))
    else
      var repeats := if byte == lastByte then s.repeats + 1 else 0;
      if byte == lastByte && repeats > 3 then
        Stop(s.(i := s.i + 1, text := "", textStart := s.i + 1, validChars := 0, repeats := 0))
      else if |s.text| > 0 && s.validChars >= ctx.opts.minLength then
        Stop(s.(i := s.lastValidByte + 1, repeats := repeats))
      else
        Advance(ctx, s.(text := "", textStart := s.i + 1, validChars := 0, repeats := repeats))
  }

  /** The inner loop from state `s` to its exit. */
  function RunFrom(ctx: Ctx, lastByte: int, s: Run): Run
    requires ValidCtx(ctx) && 0 <= s.i
    decreases ctx.end - s.i
  {
    if s.i >= ctx.end then s
    else
      match Step(ctx, lastByte, s)
      case Stop(r) => r
      case Continue(r) => RunFrom(ctx, lastByte, r)
  }

  // ---------------------------------------------------------------------
  // Cleaning and classification

  /** Drops a leading run of line feeds. */
  function DropNewlines(s: string): (r: string)
    ensures |r| <= |s|
    ensures r == s[|s| - |r|..]
    ensures r != "" ==> r[0] != '\n'
    ensures forall k :: 0 <= k < |s| - |r| ==> s[k] == '\n'
  {
    if s != "" && s[0] == '\n' then DropNewlines(s[1..]) else s
  }

  /** `s.replace(/\n+/g, ' ')`: every maximal run of line feeds becomes one space. */
  function CollapseNewlines(s: string): (r: string)
    ensures '\n' !in r
    ensures |r| <= |s|
    decreases |s|
  {
    if s == "" then ""
    else if s[0] == '\n' then " " + CollapseNewlines(DropNewlines(s[1..]))
    else [s[0]] + CollapseNewlines(s[1..])
  }

  /** The characters the regular-expression `.` does not match. */
  predicate IsLineTerminator(c: char) {
    c == '\n' || c == '\r' || c as int == 0x2028 || c as int == 0x2029
  }

  /** `/^(.)\1{3,}$/`: one non-line-terminator character, four or more times, and nothing else. */
  predicate RepeatedChar(s: string) {
    |s| >= 4 && !IsLineTerminator(s[0]) && forall k :: 0 <= k < |s| ==> s[k] == s[0]
  }

  /** `/^\d+$/`: one or more ASCII digits and nothing else. */
  predicate AllDigits(s: string) {
    |s| >= 1 && forall k :: 0 <= k < |s| ==> '0' <= s[k] <= '9'
  }

  const MenuWords: seq<string> := ["start", "option", "menu", "exit", "yes", "no", "ok", "cancel"]

  /** `/^(start|option|menu|exit|yes|no|ok|cancel)/i`. */
  predicate IsMenuText(s: string) {
    exists w :: w in MenuWords && StartsWith(ToLower(s), w)
  }

  /** Longer than 30 characters is dialogue, else a menu word prefix is a menu, else system. */
  function Classify(clean: string): (kind: TextKind)
    ensures kind == Dialogue <==> |clean| > 30
    ensures kind == Menu <==> |clean| <= 30 && IsMenuText(clean)
  {
    if |clean| > 30 then Dialogue else if IsMenuText(clean) then Menu else System
  }

  // ---------------------------------------------------------------------
  // The outer loop

  /** Some text found so far already carries `clean`. */
  predicate SeenBefore(texts: seq<TextRecord>, clean: string) {
    exists t :: t in texts && t.originalText == clean
  }

  /** The filters a finished run passes before it becomes a record: enough
      glyphs and a short enough text, then on the cleaned text no single
      repeated character, not only digits, not seen before unless repeats
      are wanted, and of the requested kind. */
  predicate Keeps(ctx: Ctx, r: Run, texts: seq<TextRecord>, clean: string) {
    && r.validChars >= ctx.opts.minLength && |r.text| <= ctx.maxLen
    && !RepeatedChar(clean) && !AllDigits(clean)
    && !(!ctx.opts.includeRepeats && SeenBefore(texts, clean))
    && (ctx.opts.textType == "all" || ctx.opts.textType == Classify(clean).Name())
  }

  /** The record a kept run yields. */
  function NewRecord(data: seq<Byte>, opts: Options, r: Run, clean: string): TextRecord
    requires 0 <= r.textStart
    requires r.terminatorFound ==> 1 <= r.i <= |data|
  {
    TextRecord(
      FormatOffset(r.textStart), clean, r.textStart, r.i, |r.text|, Classify(clean),
      if r.terminatorFound then Some(data[r.i - 1]) else None,
      opts.system.name)
  }

  /** The post-run filter and record construction: appends at most one record. */
  function Emit(ctx: Ctx, r: Run, texts: seq<TextRecord>): seq<TextRecord>
    requires ValidCtx(ctx) && 0 <= r.textStart
    requires r.terminatorFound ==> 1 <= r.i <= |ctx.data|
  {
    var clean := CollapseNewlines(Trim(r.text));
    if Keeps(ctx, r, texts, clean) then texts + [NewRecord(ctx.data, ctx.opts, r, clean)] else texts
  }

  /** The invariant of a run that started at `i0` and has not ended. */
  predicate Running(ctx: Ctx, i0: int, s: Run) {
    && 0 <= i0 <= s.textStart <= s.i <= ctx.end
    && !s.terminatorFound
    && 0 <= s.validChars <= |s.text|
    && i0 <= s.lastValidByte <= s.i
    && (s.validChars >= 1 ==> s.textStart <= s.lastValidByte + 1 && s.lastValidByte < s.i)
  }

  /** Where a finished run leaves the scanner. */
  predicate Finished(ctx: Ctx, i0: int, r: Run) {
    && ValidCtx(ctx) && i0 <= r.textStart <= ctx.end
    && r.i <= ctx.end
    && 0 <= r.validChars <= |r.text|
    && (r.validChars >= 1 ==> r.textStart <= r.i)
    && (r.terminatorFound ==> 1 <= r.i && r.textStart < r.i && ctx.data[r.i - 1] in ctx.opts.system.terminator)
  }

  /** A step that continues keeps the scan running. */
  lemma StepContinues(ctx: Ctx, lastByte: int, i0: int, s: Run)
    requires ValidCtx(ctx) && Running(ctx, i0, s) && s.i < ctx.end
    ensures Step(ctx, lastByte, s).Continue? ==> Running(ctx, i0, Step(ctx, lastByte, s).run)
  {
  }

  /** A step that stops leaves a finished run. */
  lemma StepStops(ctx: Ctx, lastByte: int, i0: int, s: Run)
    requires ValidCtx(ctx) && Running(ctx, i0, s) && s.i < ctx.end
    ensures Step(ctx, lastByte, s).Stop? ==> Finished(ctx, i0, Step(ctx, lastByte, s).run)
  {
  }

  /** Every run ends inside the scanned range, never starts its text before
      the run began, and a run closed by a terminator ends just past it. */
  lemma {:induction false} RunFromSpec(ctx: Ctx, lastByte: int, i0: int, s: Run)
    requires ValidCtx(ctx) && Running(ctx, i0, s)
    ensures Finished(ctx, i0, RunFrom(ctx, lastByte, s))
    decreases ctx.end - s.i
  {
    if s.i < ctx.end {
      StepContinues(ctx, lastByte, i0, s);
      StepStops(ctx, lastByte, i0, s);
      if Step(ctx, lastByte, s).Continue? {
        RunFromSpec(ctx, lastByte, i0, Step(ctx, lastByte, s).run);
      }
    }
  }

  /** Where the next outer iteration starts: `if (i <= textStart) i = textStart + 1`. */
  function NextStart(r: Run): int {
    if r.i <= r.textStart then r.textStart + 1 else r.i
  }

  /** The outer loop from cursor `i`, with `texts` found so far. */
  function ScanFrom(ctx: Ctx, i: int, texts: seq<TextRecord>): seq<TextRecord>
    requires ValidCtx(ctx) && 0 <= i
    decreases ctx.end - i
  {
    if i >= ctx.end then texts
    else
      var r := RunFrom(ctx, LastByteBefore(ctx.data, i), InitRun(i));
      RunFromSpec(ctx, LastByteBefore(ctx.data, i), i, InitRun(i));
      var texts' := Emit(ctx, r, texts);
      var next := NextStart(r);
      if next >= ctx.end then texts' else ScanFrom(ctx, next, texts')
  }

  /** `extractText(data, start, end, hexToChar, options)`. */
  function Extract(data: seq<Byte>, start: nat, end: int, hexToChar: map<int, string>, options: Options): seq<TextRecord> {
    if start >= end || start >= |data| then []
    else ScanFrom(ScanCtx(data, end, hexToChar, options), start, [])
  }

  /** The context of one call: the end clamped to the buffer, the length cap clamped to 1024. */
  function ScanCtx(data: seq<Byte>, end: int, hexToChar: map<int, string>, options: Options): (ctx: Ctx)
    ensures ctx.end <= |data| && ctx.maxLen <= 1024
  {
    Ctx(data, Min(end, |data|), hexToChar, options, Min(options.maxLength, 1024))
  }

  /** One pass of the inner loop body at `data[s.i]`; `Stop` stands for the
      passes that end in `break`. */
  method ScanByte(data: seq<Byte>, scanEnd: int, hexToChar: map<int, string>, options: Options, maxLength: int,
                  lastByte: int, s: Run)
    returns (res: StepResult)
    requires 0 <= s.i < scanEnd <= |data|
    ensures res == Step(Ctx(data, scanEnd, hexToChar, options, maxLength), lastByte, s)
  {
    var byte := data[s.i];
    var run := s;
    if byte in options.system.terminator {
      if |s.text| >= options.minLength {
        return Stop(s.(i := s.i + 1, terminatorFound := true));
      }
      run := s.(text := "", textStart := s.i + 1, validChars := 0);
    }
    res := ScanGlyph(data, scanEnd, hexToChar, options, maxLength, lastByte, run);
  }

  /** The part of the loop body after the terminator check. */
  method ScanGlyph(data: seq<Byte>, scanEnd: int, hexToChar: map<int, string>, options: Options, maxLength: int,
                   lastByte: int, s: Run)
    returns (res: StepResult)
    requires 0 <= s.i < scanEnd <= |data|
    ensures res == StepByte(Ctx(data, scanEnd, hexToChar, options, maxLength), lastByte, s)
  {
    var i, currentText, textStart, validChars := s.i, s.text, s.textStart, s.validChars;
    var lastValidByte, consecutiveRepeats := s.lastValidByte, s.repeats;
    var byte := data[i];

    var glyph := if byte in hexToChar then hexToChar[byte] else "";
    if glyph != "" {
      currentText := currentText + glyph;
      validChars := validChars + 1;
      lastValidByte := i;
      consecutiveRepeats := 0;
    } else if options.asciiFallback && byte >= 0x20 && byte <= 0x7E {
      currentText := currentText + [byte as char];
      validChars := validChars + 1;
      lastValidByte := i;
      consecutiveRepeats := 0;
    } else if byte == 0x0A {
      currentText := currentText + "\n";
    } else {
      if byte == lastByte {
        consecutiveRepeats := consecutiveRepeats + 1;
        if consecutiveRepeats > 3 {
          return Stop(Run(i + 1, "", i + 1, 0, s.terminatorFound, lastValidByte, 0));
        }
      } else {
        consecutiveRepeats := 0;
      }
      if |currentText| > 0 && validChars >= options.minLength {
        return Stop(Run(lastValidByte + 1, currentText, textStart, validChars, s.terminatorFound, lastValidByte, consecutiveRepeats));
      }
      currentText := "";
      textStart := i + 1;
      validChars := 0;
    }

    i := i + 1;
    var next := Run(i, currentText, textStart, validChars, s.terminatorFound, lastValidByte, consecutiveRepeats);
    if i - textStart > 10000 || |currentText| >= maxLength {
      return Stop(next);
    }
    return Continue(next);
  }


  /** The inner loop of `extractText`: one run from cursor `i0`. */
  method ScanRun(data: seq<Byte>, scanEnd: int, hexToChar: map<int, string>, options: Options, maxLength: int, i0: int)
    returns (run: Run)
    requires 0 <= i0 < scanEnd <= |data|
    ensures run == RunFrom(Ctx(data, scanEnd, hexToChar, options, maxLength), LastByteBefore(data, i0), InitRun(i0))
  {
    ghost var ctx := Ctx(data, scanEnd, hexToChar, options, maxLength);
    var lastByte := if i0 > 0 then data[i0 - 1] as int else -1;
    run := InitRun(i0);
    while run.i < scanEnd
      invariant Running(ctx, i0, run)
      invariant RunFrom(ctx, lastByte, run) == RunFrom(ctx, lastByte, InitRun(i0))
      decreases scanEnd - run.i
    {
      StepContinues(ctx, lastByte, i0, run);
      var res := ScanByte(data, scanEnd, hexToChar, options, maxLength, lastByte, run);
      if res.Stop? {
        run := res.run;
        return;
      }
      run := res.run;
    }
  }

  /** The classification as `extractText` writes it: `system`, changed to
      `dialogue` or `menu` when those tests pass. */
  method ClassifyText(cleanText: string) returns (textType: TextKind)
    ensures textType == Classify(cleanText)
  {
    textType := System;
    if |cleanText| > 30 {
      textType := Dialogue;
    } else if IsMenuText(cleanText) {
      textType := Menu;
    }
  }

  /** The classification and the record pushed for a kept run, and whether
      its kind is the one asked for. */
  method BuildRecord(data: seq<Byte>, options: Options, run: Run, cleanText: string)
    returns (record: TextRecord, wanted: bool)
    requires 0 <= run.textStart
    requires run.terminatorFound ==> 1 <= run.i <= |data|
    ensures wanted <==> options.textType == "all" || options.textType == Classify(cleanText).Name()
    ensures record == NewRecord(data, options, run, cleanText)
  {
    var textType := ClassifyText(cleanText);
    wanted := options.textType == "all" || options.textType == textType.Name();
    record := TextRecord(
      FormatOffset(run.textStart), cleanText, run.textStart, run.i, |run.text|, textType,
      if run.terminatorFound then Some(data[run.i - 1]) else None,
      options.system.name);
  }

  /** `Emit` for a given cleaned text. */
  lemma EmitOf(ctx: Ctx, r: Run, texts: seq<TextRecord>, clean: string)
    requires ValidCtx(ctx) && 0 <= r.textStart
    requires r.terminatorFound ==> 1 <= r.i <= |ctx.data|
    requires clean == CollapseNewlines(Trim(r.text))
    ensures Emit(ctx, r, texts) == if Keeps(ctx, r, texts, clean) then texts + [NewRecord(ctx.data, ctx.opts, r, clean)] else texts
  {
  }

  /** A run with too few glyphs or too long a text yields no record. */
  lemma EmitSkipsShort(ctx: Ctx, r: Run, texts: seq<TextRecord>)
    requires ValidCtx(ctx) && 0 <= r.textStart
    requires r.terminatorFound ==> 1 <= r.i <= |ctx.data|
    requires r.validChars < ctx.opts.minLength || |r.text| > ctx.maxLen
    ensures Emit(ctx, r, texts) == texts
  {
  }

  /** The filter after a run: clean the text, drop repeats, digits and
      duplicates, classify, and keep the record if its kind is wanted. */
  method EmitRun(data: seq<Byte>, scanEnd: int, hexToChar: map<int, string>, options: Options, maxLength: int, run: Run, texts: seq<TextRecord>)
    returns (texts': seq<TextRecord>)
    requires 0 <= scanEnd <= |data| && 0 <= run.textStart
    requires run.terminatorFound ==> 1 <= run.i <= |data|
    ensures texts' == Emit(Ctx(data, scanEnd, hexToChar, options, maxLength), run, texts)
  {
    ghost var ctx := Ctx(data, scanEnd, hexToChar, options, maxLength);
    texts' := texts;
    if run.validChars >= options.minLength && |run.text| <= maxLength {
      var cleanText := CollapseNewlines(Trim(run.text));
      EmitOf(ctx, run, texts, cleanText);
      if !RepeatedChar(cleanText) && !AllDigits(cleanText) {
        var isDuplicate := !options.includeRepeats && SeenBefore(texts, cleanText);
        if !isDuplicate {
          var record, wanted := BuildRecord(data, options, run, cleanText);
          if wanted {
            texts' := texts + [record];
          }
        }
      }
    } else {
      EmitSkipsShort(ctx, run, texts);
    }
  }

  /** One outer iteration of the scan from cursor `i`. */
  lemma ScanFromUnfold(ctx: Ctx, i: int, texts: seq<TextRecord>)
    requires ValidCtx(ctx) && 0 <= i < ctx.end
    ensures var r := RunFrom(ctx, LastByteBefore(ctx.data, i), InitRun(i));
      && Finished(ctx, i, r)
      && ScanFrom(ctx, i, texts) ==
        if NextStart(r) >= ctx.end then Emit(ctx, r, texts) else ScanFrom(ctx, NextStart(r), Emit(ctx, r, texts))
  {
    RunFromSpec(ctx, LastByteBefore(ctx.data, i), i, InitRun(i));
  }

  /** `extractText(data, start, end, hexToChar, options)`: runs from the
      cursor until it reaches the clamped end. */
  method ExtractText(data: seq<Byte>, start: nat, end: int, hexToChar: map<int, string>, options: Options)
    returns (texts: seq<TextRecord>)
    ensures texts == Extract(data, start, end, hexToChar, options)
  {
    texts := [];
    var i: int := start;
    var maxLength := Min(options.maxLength, 1024);
    if start >= end { return; }
    if start >= |data| { return; }
    var scanEnd := Min(end, |data|);
    ghost var ctx := ScanCtx(data, end, hexToChar, options);
    assert ctx == Ctx(data, scanEnd, hexToChar, options, maxLength);

    while i < scanEnd
      invariant start <= i
      invariant ScanFrom(ctx, i, texts) == Extract(data, start, end, hexToChar, options)
      decreases scanEnd - i
    {
      var run := ScanRun(data, scanEnd, hexToChar, options, maxLength, i);
      ScanFromUnfold(ctx, i, texts);
      ghost var rest := ScanFrom(ctx, i, texts);
      texts := EmitRun(data, scanEnd, hexToChar, options, maxLength, run, texts);
      i := if run.i <= run.textStart then run.textStart + 1 else run.i;
      assert i == NextStart(run);
      assert rest == if i >= scanEnd then texts else ScanFrom(ctx, i, texts);
      if i >= scanEnd {
        break;
      }
    }
  }
}
