/** What `extractText` promises about the records it returns
    (src/utils/textExtraction.js). */
module TextProperties {
  import opened Common
  import opened JsText
  import opened RomUtils
  import opened TextExtraction

  /** The shape of one emitted record, given the context of its call. */
  predicate RecordOk(ctx: Ctx, t: TextRecord) {
    && 0 <= t.startByte
    && t.endByte <= ctx.end
    && (ctx.opts.minLength >= 1 ==> t.startByte <= t.endByte)
    && t.offset == FormatOffset(t.startByte)
    && '\n' !in t.originalText
    && !RepeatedChar(t.originalText)
    && !AllDigits(t.originalText)
    && |t.originalText| <= t.length <= ctx.maxLen
    && ctx.opts.minLength <= t.length
    && t.textType == Classify(t.originalText)
    && (ctx.opts.textType == "all" || ctx.opts.textType == t.textType.Name())
    && t.system == ctx.opts.system.name
    && (t.terminator.Some? ==>
          && t.startByte < t.endByte
          && 1 <= t.endByte <= |ctx.data|
          && t.terminator.value == ctx.data[t.endByte - 1]
          && t.terminator.value in ctx.opts.system.terminator)
  }

  /** `t` is the record of the run the inner loop reads from cursor `s`: it
      has that run's span, cleaned text and raw length, and it carries the
      byte before its end exactly when a terminator closed the run
      (`terminatorFound`), `null` otherwise. */
  predicate FromRun(ctx: Ctx, s: int, t: TextRecord)
    requires ValidCtx(ctx)
  {
    && 0 <= s < ctx.end
    && var r := RunFrom(ctx, LastByteBefore(ctx.data, s), InitRun(s));
      RunFromSpec(ctx, LastByteBefore(ctx.data, s), s, InitRun(s));
      && t.startByte == r.textStart
      && t.endByte == r.i
      && t.originalText == CollapseNewlines(Trim(r.text))
      && t.length == |r.text|
      && t.terminator == if r.terminatorFound then Some(ctx.data[r.i - 1]) else None
  }

  /** Records come in scan order and do not overlap. */
  predicate Sorted(texts: seq<TextRecord>) {
    forall j, k :: 0 <= j < k < |texts| ==>
      texts[j].startByte < texts[k].startByte && texts[j].endByte <= texts[k].startByte
  }

  /** No two records carry the same cleaned text. */
  predicate Distinct(texts: seq<TextRecord>) {
    forall j, k :: 0 <= j < k < |texts| ==> texts[j].originalText != texts[k].originalText
  }

  /** Trimming and collapsing line feeds never lengthen a text. */
  lemma CleanShorter(s: string)
    ensures |CollapseNewlines(Trim(s))| <= |s|
  {
  }

  /** Collapsing keeps a first character that is not a line feed. */
  lemma CollapseFirst(s: string)
    requires s != "" && s[0] != '\n'
    ensures CollapseNewlines(s) != "" && CollapseNewlines(s)[0] == s[0]
  {
  }

  /** Collapsing keeps a last character that is not a line feed. */
  lemma {:induction false} CollapseLast(s: string)
    requires s != "" && s[|s| - 1] != '\n'
    ensures CollapseNewlines(s) != "" && CollapseNewlines(s)[|CollapseNewlines(s)| - 1] == s[|s| - 1]
    decreases |s|
  {
    if s[0] == '\n' {
      var x := DropNewlines(s[1..]);
      assert x[|x| - 1] == s[|s| - 1];
      CollapseLast(x);
    } else if |s| > 1 {
      CollapseLast(s[1..]);
    }
  }

  /** A text without line feeds is left as it is. */
  lemma {:induction false} CollapseNoNewline(s: string)
    requires '\n' !in s
    ensures CollapseNewlines(s) == s
    decreases |s|
  {
    if s != "" {
      assert '\n' !in s[1..];
      CollapseNoNewline(s[1..]);
    }
  }

  /** What `trim().replace(/\n+/g, ' ')` gives: no line feed, no longer
      than the input, empty exactly for an all-whitespace input, no
      whitespace at either end, and unchanged by a second cleaning. */
  lemma CleanSpec(s: string)
    ensures var c := CollapseNewlines(Trim(s));
      && '\n' !in c
      && |c| <= |s|
      && (c == "" <==> forall k :: 0 <= k < |s| ==> IsJsWhitespace(s[k]))
      && (c != "" ==> !IsJsWhitespace(c[0]) && !IsJsWhitespace(c[|c| - 1]))
      && CollapseNewlines(Trim(c)) == c
  {
    var t := Trim(s);
    var c := CollapseNewlines(t);
    TrimEmptyIff(s);
    TrimEnds(s);
    if t != "" {
      CollapseFirst(t);
      CollapseLast(t);
    }
    TrimOfTrimmed(c);
    CollapseNoNewline(c);
  }

  /** A finished run adds nothing or one well-formed record that starts and
      ends where the run did and, unless repeats are wanted, repeats no
      earlier text. */
  lemma EmitSpec(ctx: Ctx, i0: int, r: Run, texts: seq<TextRecord>)
    requires Finished(ctx, i0, r) && 0 <= i0
    ensures var out := Emit(ctx, r, texts);
      || out == texts
      || (&& out == texts + [out[|texts|]]
          && RecordOk(ctx, out[|texts|])
          && out[|texts|].startByte == r.textStart
          && out[|texts|].endByte == r.i
          && out[|texts|].originalText == CollapseNewlines(Trim(r.text))
          && out[|texts|].length == |r.text|
          && out[|texts|].terminator == (if r.terminatorFound then Some(ctx.data[r.i - 1]) else None)
          && (!ctx.opts.includeRepeats ==> forall u :: u in texts ==> u.originalText != out[|texts|].originalText))
  {
    var out := Emit(ctx, r, texts);
    if out != texts {
      EmitAppends(ctx, i0, r, texts);
      EmittedRecordOk(ctx, i0, r, texts);
    }
  }

  /** A record the filter keeps starts and ends where the run did and is new
      unless repeats are wanted. */
  lemma EmitAppends(ctx: Ctx, i0: int, r: Run, texts: seq<TextRecord>)
    requires Finished(ctx, i0, r) && 0 <= i0
    requires Emit(ctx, r, texts) != texts
    ensures var out := Emit(ctx, r, texts);
      && out == texts + [out[|texts|]]
      && out[|texts|].startByte == r.textStart
      && out[|texts|].endByte == r.i
      && out[|texts|].originalText == CollapseNewlines(Trim(r.text))
      && out[|texts|].length == |r.text|
      && out[|texts|].terminator == (if r.terminatorFound then Some(ctx.data[r.i - 1]) else None)
      && (!ctx.opts.includeRepeats ==> forall u :: u in texts ==> u.originalText != out[|texts|].originalText)
  {
  }

  /** A record the filter keeps is well formed. */
  lemma EmittedRecordOk(ctx: Ctx, i0: int, r: Run, texts: seq<TextRecord>)
    requires Finished(ctx, i0, r) && 0 <= i0
    requires Emit(ctx, r, texts) != texts
    ensures RecordOk(ctx, Emit(ctx, r, texts)[|texts|])
  {
    var clean := CollapseNewlines(Trim(r.text));
    CleanShorter(r.text);
    NewRecordOk(ctx, i0, r, texts, clean);
  }

  /** The record of a run that passes the filters is well formed, given a
      cleaned text without line feeds and no longer than the run's text. */
  lemma NewRecordOk(ctx: Ctx, i0: int, r: Run, texts: seq<TextRecord>, clean: string)
    requires Finished(ctx, i0, r) && 0 <= i0
    requires Keeps(ctx, r, texts, clean)
    requires '\n' !in clean && |clean| <= |r.text|
    ensures RecordOk(ctx, NewRecord(ctx.data, ctx.opts, r, clean))
  {
  }

  /** The scan invariant: every record found so far is well formed, starts
      at or after `lo` and lies before the cursor; they are sorted and, unless
      repeats are wanted, distinct. */
  predicate ScanInv(ctx: Ctx, lo: int, i: int, texts: seq<TextRecord>) {
    && (forall t :: t in texts ==> RecordOk(ctx, t) && lo <= t.startByte < i && t.endByte <= i)
    && Sorted(texts)
    && (!ctx.opts.includeRepeats ==> Distinct(texts))
  }

  lemma SortedSnoc(texts: seq<TextRecord>, t: TextRecord)
    requires Sorted(texts)
    requires forall u :: u in texts ==> u.startByte < t.startByte && u.endByte <= t.startByte
    ensures Sorted(texts + [t])
  {
    var out := texts + [t];
    forall j, k | 0 <= j < k < |out|
      ensures out[j].startByte < out[k].startByte && out[j].endByte <= out[k].startByte
    {
      if k == |texts| {
        assert out[j] in texts;
      }
    }
  }

  lemma DistinctSnoc(texts: seq<TextRecord>, t: TextRecord)
    requires Distinct(texts)
    requires forall u :: u in texts ==> u.originalText != t.originalText
    ensures Distinct(texts + [t])
  {
    var out := texts + [t];
    forall j, k | 0 <= j < k < |out|
      ensures out[j].originalText != out[k].originalText
    {
      if k == |texts| {
        assert out[j] in texts;
      }
    }
  }

  /** One outer iteration keeps the scan invariant, with the cursor moved to
      where the next run starts. */
  lemma EmitKeepsInv(ctx: Ctx, lo: int, i: int, r: Run, texts: seq<TextRecord>)
    requires 0 <= lo <= i && Finished(ctx, i, r)
    requires ScanInv(ctx, lo, i, texts)
    ensures texts <= Emit(ctx, r, texts)
    ensures ScanInv(ctx, lo, NextStart(r), Emit(ctx, r, texts))
  {
    EmitSpec(ctx, i, r, texts);
    var texts' := Emit(ctx, r, texts);
    var next := NextStart(r);
    assert next > r.textStart && next >= r.i;
    if texts' != texts {
      var t := texts'[|texts|];
      assert texts' == texts + [t];
      SortedSnoc(texts, t);
      if !ctx.opts.includeRepeats {
        DistinctSnoc(texts, t);
      }
      assert forall u :: u in texts' ==> u in texts || u == t;
    }
  }

  /** Every record in `texts` is the record of a run read from a cursor at or after `lo`. */
  ghost predicate AllFromRuns(ctx: Ctx, lo: int, texts: seq<TextRecord>)
    requires ValidCtx(ctx)
  {
    forall t :: t in texts ==> exists s :: lo <= s && FromRun(ctx, s, t)
  }

  /** The record one outer iteration adds, if any, is the record of the run it read. */
  lemma EmitFromRun(ctx: Ctx, lo: int, i: int, r: Run, texts: seq<TextRecord>)
    requires ValidCtx(ctx) && 0 <= lo <= i < ctx.end
    requires r == RunFrom(ctx, LastByteBefore(ctx.data, i), InitRun(i)) && Finished(ctx, i, r)
    requires AllFromRuns(ctx, lo, texts)
    ensures AllFromRuns(ctx, lo, Emit(ctx, r, texts))
  {
    var texts' := Emit(ctx, r, texts);
    if texts' != texts {
      EmitAppends(ctx, i, r, texts);
      var t := texts'[|texts|];
      assert FromRun(ctx, i, t);
      assert forall u :: u in texts' ==> u in texts || u == t;
    }
  }

  /** The outer loop keeps what it found, and everything it adds keeps the invariant. */
  lemma {:induction false} ScanFromSpec(ctx: Ctx, lo: int, i: int, texts: seq<TextRecord>)
    requires ValidCtx(ctx) && 0 <= lo <= i
    requires ScanInv(ctx, lo, i, texts) && AllFromRuns(ctx, lo, texts)
    ensures var out := ScanFrom(ctx, i, texts);
      && texts <= out
      && (forall t :: t in out ==> RecordOk(ctx, t) && lo <= t.startByte)
      && AllFromRuns(ctx, lo, out)
      && Sorted(out)
      && (!ctx.opts.includeRepeats ==> Distinct(out))
    decreases ctx.end - i
  {
    if i < ctx.end {
      var lastByte := LastByteBefore(ctx.data, i);
      var r := RunFrom(ctx, lastByte, InitRun(i));
      RunFromSpec(ctx, lastByte, i, InitRun(i));
      EmitKeepsInv(ctx, lo, i, r, texts);
      EmitFromRun(ctx, lo, i, r, texts);
      var texts' := Emit(ctx, r, texts);
      if NextStart(r) < ctx.end {
        ScanFromSpec(ctx, lo, NextStart(r), texts');
      }
    }
  }

  /** `extractText` returns well-formed records inside `[start, min(end, length))`,
      each the record of the run read from some cursor at or after `start`
      (with a terminator exactly when that run was closed by one), sorted by
      start and non-overlapping, and with distinct texts unless repeats were
      asked for. */
  lemma ExtractSpec(data: seq<Byte>, start: nat, end: int, hexToChar: map<int, string>, options: Options)
    ensures var texts := Extract(data, start, end, hexToChar, options);
      && (forall t :: t in texts ==>
            && RecordOk(ScanCtx(data, end, hexToChar, options), t)
            && start <= t.startByte
            && t.endByte <= end && t.endByte <= |data|
            && t.length <= 1024 && t.length <= options.maxLength
            && exists s :: start <= s && FromRun(ScanCtx(data, end, hexToChar, options), s, t))
      && Sorted(texts)
      && (!options.includeRepeats ==> Distinct(texts))
  {
    if start < end && start < |data| {
      ScanFromSpec(ScanCtx(data, end, hexToChar, options), start, start, []);
    }
  }

  /** An empty or inverted range, or a start past the buffer, yields no records. */
  lemma ExtractEmpty(data: seq<Byte>, start: nat, end: int, hexToChar: map<int, string>, options: Options)
    requires start >= end || start >= |data|
    ensures Extract(data, start, end, hexToChar, options) == []
  {
  }
}

module TextExamples {
  import opened Common
  import opened JsText
  import opened RomUtils
  import opened TextExtraction
  import opened TextProperties

  /** Scan settings for the worked examples: one-glyph texts, ASCII
      fallback, every kind, 0x00 as the only terminator. */
  function ExampleOptions(includeRepeats: bool): Options {
    Options(1, 100, includeRepeats, "all", true, SystemInfo("Unknown", [0x00], "ascii"))
  }

  const RepeatData: seq<Byte> := [0x41, 0x00, 0x00, 0x00, 0x00, 0x00, 0x42, 0x43, 0x00]

  function RepeatCtx(): Ctx {
    ScanCtx(RepeatData, 9, map[], ExampleOptions(true))
  }

  const RecordA := TextRecord("0x000000", "A", 0, 2, 1, System, Some(0x00), "Unknown")
  const RecordC := TextRecord("0x000007", "C", 7, 9, 1, System, Some(0x00), "Unknown")

  /** The first run reads "A" and stops just past the terminator at 1. */
  lemma RepeatFirstRun()
    ensures RunFrom(RepeatCtx(), -1, InitRun(0)) == Run(2, "A", 0, 1, true, 0, 0)
  {
    var ctx := RepeatCtx();
    assert Step(ctx, -1, InitRun(0)) == Continue(Run(1, "A", 0, 1, false, 0, 0));
    assert Step(ctx, -1, Run(1, "A", 0, 1, false, 0, 0)) == Stop(Run(2, "A", 0, 1, true, 0, 0));
  }

  /** The second run sees 0x00 four times after a 0x00 and aborts at 6 with nothing. */
  lemma RepeatSecondRun()
    ensures RunFrom(RepeatCtx(), 0x00, InitRun(2)) == Run(6, "", 6, 0, false, 2, 0)
  {
    var ctx := RepeatCtx();
    assert Step(ctx, 0x00, InitRun(2)) == Continue(Run(3, "", 3, 0, false, 2, 1));
    assert Step(ctx, 0x00, Run(3, "", 3, 0, false, 2, 1)) == Continue(Run(4, "", 4, 0, false, 2, 2));
    assert Step(ctx, 0x00, Run(4, "", 4, 0, false, 2, 2)) == Continue(Run(5, "", 5, 0, false, 2, 3));
    assert Step(ctx, 0x00, Run(5, "", 5, 0, false, 2, 3)) == Stop(Run(6, "", 6, 0, false, 2, 0));
  }

  /** The third run starts at 7, past the skipped "B", and reads "C". */
  lemma RepeatThirdRun()
    ensures RunFrom(RepeatCtx(), 0x42, InitRun(7)) == Run(9, "C", 7, 1, true, 7, 0)
  {
    var ctx := RepeatCtx();
    assert Step(ctx, 0x42, InitRun(7)) == Continue(Run(8, "C", 7, 1, false, 7, 0));
    assert Step(ctx, 0x42, Run(8, "C", 7, 1, false, 7, 0)) == Stop(Run(9, "C", 7, 1, true, 7, 0));
  }

  /** The offset label of a one-digit position. */
  lemma FormatOffsetDigit(d: nat)
    requires d < 10
    ensures FormatOffset(d) == "0x00000" + [('0' as int + d) as char]
  {
    assert HexUpper(d) == [('0' as int + d) as char];
    var p := PadStart(HexUpper(d), 6, '0');
    assert forall k :: 0 <= k < 5 ==> p[k] == '0';
    assert p == "00000" + [('0' as int + d) as char];
  }

  lemma RepeatDataFacts()
    ensures |RepeatData| == 9 && RepeatData[1] == 0x00 && RepeatData[6] == 0x42 && RepeatData[8] == 0x00
  {
  }

  /** A run with enough glyphs whose text cleans to a new, unfiltered
      text adds exactly its record. */
  lemma EmitNew(ctx: Ctx, r: Run, texts: seq<TextRecord>, clean: string)
    requires ValidCtx(ctx) && 0 <= r.textStart && r.terminatorFound && 1 <= r.i <= |ctx.data|
    requires r.validChars >= ctx.opts.minLength && |r.text| <= ctx.maxLen
    requires CollapseNewlines(Trim(r.text)) == clean && !RepeatedChar(clean) && !AllDigits(clean)
    requires forall t :: t in texts ==> t.originalText != clean
    requires ctx.opts.textType == "all"
    ensures Emit(ctx, r, texts) == texts + [NewRecord(ctx.data, ctx.opts, r, clean)]
  {
    EmitOf(ctx, r, texts, clean);
    assert !SeenBefore(texts, clean);
    assert Keeps(ctx, r, texts, clean);
  }

  lemma ExampleOffsets()
    ensures FormatOffset(0) == "0x000000" && FormatOffset(7) == "0x000007"
  {
    FormatOffsetDigit(0);
    FormatOffsetDigit(7);
  }

  /** The record for "A", read up to a terminator 0x00 at position 1. */
  lemma EmitA(ctx: Ctx)
    requires ValidCtx(ctx) && |ctx.data| >= 2 && ctx.data[1] == 0x00
    requires ctx.opts == ExampleOptions(true) && ctx.maxLen == 100
    ensures Emit(ctx, Run(2, "A", 0, 1, true, 0, 0), []) == [RecordA]
  {
    ExampleOffsets();
    SingleLetterText('A');
    EmitNew(ctx, Run(2, "A", 0, 1, true, 0, 0), [], "A");
  }

  /** The record for "C", read up to a terminator 0x00 at position 8; it
      does not repeat "A". */
  lemma EmitC(ctx: Ctx)
    requires ValidCtx(ctx) && |ctx.data| >= 9 && ctx.data[8] == 0x00
    requires ctx.opts == ExampleOptions(true) && ctx.maxLen == 100
    ensures Emit(ctx, Run(9, "C", 7, 1, true, 7, 0), [RecordA]) == [RecordA, RecordC]
  {
    ExampleOffsets();
    SingleLetterText('C');
    EmitNew(ctx, Run(9, "C", 7, 1, true, 7, 0), [RecordA], "C");
  }

  /** After a run aborted on a fourth repeat of the byte before it, the
      cursor sits on `textStart` and the outer guard moves it one further, so
      the byte right after the repeats is never read: "A", four terminators
      then "BC" yields "A" and "C", not "BC". */
  lemma SkipAfterRepeatAbort()
    ensures Extract(RepeatData, 0, 9, map[], ExampleOptions(true)) == [RecordA, RecordC]
  {
    var ctx := RepeatCtx();
    RepeatFirstRun();
    RepeatSecondRun();
    RepeatThirdRun();
    RepeatDataFacts();
    EmitA(ctx);
    EmitC(ctx);
    RepeatDataFacts();
    assert Emit(ctx, Run(6, "", 6, 0, false, 2, 0), [RecordA]) == [RecordA];
    assert ScanFrom(ctx, 7, [RecordA]) == [RecordA, RecordC];
    assert ScanFrom(ctx, 2, [RecordA]) == [RecordA, RecordC];
    assert ScanFrom(ctx, 0, []) == [RecordA, RecordC];
  }

  /** A one-letter text survives cleaning unchanged and is a system text. */
  lemma SingleLetterText(c: char)
    requires 'A' <= c <= 'Z'
    ensures CollapseNewlines(Trim([c])) == [c]
    ensures !RepeatedChar([c]) && !AllDigits([c]) && Classify([c]) == System
  {
    assert TrimStart([c]) == [c];
    assert TrimEnd([c]) == [c];
    assert CollapseNewlines([c]) == [c] + CollapseNewlines([]);
    forall w | w in MenuWords ensures !StartsWith(ToLower([c]), w) {
    }
  }

  /** A terminator closes a run once the text is long enough, counting line
      feeds, but a record needs that many glyphs: two line feeds and a 0x00
      with a two-glyph minimum close a run and yield nothing. */
  lemma ClosedWithoutRecord()
    ensures Extract([0x0A, 0x0A, 0x00], 0, 3, map[], ExampleOptions(true).(minLength := 2)) == []
  {
    var ctx := ScanCtx([0x0A, 0x0A, 0x00], 3, map[], ExampleOptions(true).(minLength := 2));
    assert Step(ctx, -1, InitRun(0)) == Continue(Run(1, "\n", 0, 0, false, 0, 0));
    assert Step(ctx, -1, Run(1, "\n", 0, 0, false, 0, 0)) == Continue(Run(2, "\n\n", 0, 0, false, 0, 0));
    assert Step(ctx, -1, Run(2, "\n\n", 0, 0, false, 0, 0)) == Stop(Run(3, "\n\n", 0, 0, true, 0, 0));
    assert RunFrom(ctx, -1, InitRun(0)) == Run(3, "\n\n", 0, 0, true, 0, 0);
  }

  const TwoTextsData: seq<Byte> := [0x41, 0x42, 0x00, 0x43, 0x44, 0x00]

  const RecordAB := TextRecord("0x000000", "AB", 0, 3, 2, System, Some(0x00), "Unknown")
  const RecordCD := TextRecord("0x000003", "CD", 3, 6, 2, System, Some(0x00), "Unknown")

  /** A two-letter text that cannot start a menu word survives cleaning
      unchanged and is a system text. */
  lemma LetterPairText(a: char, b: char)
    requires 'A' <= a <= 'Z' && 'A' <= b <= 'Z' && a != 'N' && a != 'O'
    ensures CollapseNewlines(Trim([a, b])) == [a, b]
    ensures !RepeatedChar([a, b]) && !AllDigits([a, b]) && Classify([a, b]) == System
  {
    var s := [a, b];
    assert !IsJsWhitespace(a) && !IsJsWhitespace(b);
    TrimOfTrimmed(s);
    CollapseNoNewline(s);
    PairNotMenu(a, b);
    assert !('0' <= a <= '9');
  }

  /** Only "no" and "ok" are menu words short enough to start a two-letter
      text, and both start with a letter other than `a`. */
  lemma PairNotMenu(a: char, b: char)
    requires 'A' <= a <= 'Z' && a != 'N' && a != 'O'
    ensures !IsMenuText([a, b])
  {
    var l := ToLower([a, b]);
    assert |l| == 2 && l[0] == LowerChar(a) && l[0] != 'n' && l[0] != 'o';
    forall w | w in MenuWords ensures !StartsWith(l, w) {
    }
  }

  function TwoTextsCtx(): Ctx {
    ScanCtx(TwoTextsData, 6, map[], ExampleOptions(false))
  }

  /** The first run reads "AB" and stops just past the 0x00 at 2. */
  lemma TwoTextsFirstRun()
    ensures RunFrom(TwoTextsCtx(), -1, InitRun(0)) == Run(3, "AB", 0, 2, true, 1, 0)
  {
    var ctx := TwoTextsCtx();
    assert Step(ctx, -1, InitRun(0)) == Continue(Run(1, "A", 0, 1, false, 0, 0));
    assert Step(ctx, -1, Run(1, "A", 0, 1, false, 0, 0)) == Continue(Run(2, "AB", 0, 2, false, 1, 0));
    assert Step(ctx, -1, Run(2, "AB", 0, 2, false, 1, 0)) == Stop(Run(3, "AB", 0, 2, true, 1, 0));
  }

  /** The second run starts at 3 and reads "CD" up to the 0x00 at 5. */
  lemma TwoTextsSecondRun()
    ensures RunFrom(TwoTextsCtx(), 0x00, InitRun(3)) == Run(6, "CD", 3, 2, true, 4, 0)
  {
    var ctx := TwoTextsCtx();
    assert Step(ctx, 0x00, InitRun(3)) == Continue(Run(4, "C", 3, 1, false, 3, 0));
    assert Step(ctx, 0x00, Run(4, "C", 3, 1, false, 3, 0)) == Continue(Run(5, "CD", 3, 2, false, 4, 0));
    assert Step(ctx, 0x00, Run(5, "CD", 3, 2, false, 4, 0)) == Stop(Run(6, "CD", 3, 2, true, 4, 0));
  }

  /** The record for "AB", closed by the 0x00 at position 2. */
  lemma EmitAB(ctx: Ctx)
    requires ValidCtx(ctx) && |ctx.data| >= 3 && ctx.data[2] == 0x00
    requires ctx.opts == ExampleOptions(false) && ctx.maxLen == 100
    ensures Emit(ctx, Run(3, "AB", 0, 2, true, 1, 0), []) == [RecordAB]
  {
    ExampleOffsets();
    LetterPairText('A', 'B');
    EmitNew(ctx, Run(3, "AB", 0, 2, true, 1, 0), [], "AB");
    assert NewRecord(ctx.data, ctx.opts, Run(3, "AB", 0, 2, true, 1, 0), "AB") == RecordAB;
  }

  /** The record for "CD", closed by the 0x00 at position 5; it does not repeat "AB". */
  lemma EmitCD(ctx: Ctx)
    requires ValidCtx(ctx) && |ctx.data| >= 6 && ctx.data[5] == 0x00
    requires ctx.opts == ExampleOptions(false) && ctx.maxLen == 100
    ensures Emit(ctx, Run(6, "CD", 3, 2, true, 4, 0), [RecordAB]) == [RecordAB, RecordCD]
  {
    FormatOffsetDigit(3);
    assert FormatOffset(3) == "0x000003";
    LetterPairText('C', 'D');
    EmitNew(ctx, Run(6, "CD", 3, 2, true, 4, 0), [RecordAB], "CD");
    assert NewRecord(ctx.data, ctx.opts, Run(6, "CD", 3, 2, true, 4, 0), "CD") == RecordCD;
  }

  /** Two texts each closed by a terminator: "AB" spans 0..3 and "CD" spans
      3..6, each ending one past its 0x00, which it records. */
  lemma TwoTerminatedTexts()
    ensures Extract(TwoTextsData, 0, 6, map[], ExampleOptions(false)) == [RecordAB, RecordCD]
  {
    var ctx := TwoTextsCtx();
    TwoTextsFirstRun();
    TwoTextsSecondRun();
    assert ctx.data[2] == 0x00 && ctx.data[5] == 0x00;
    EmitAB(ctx);
    EmitCD(ctx);
    assert LastByteBefore(ctx.data, 3) == 0x00;
    assert ScanFrom(ctx, 3, [RecordAB]) == [RecordAB, RecordCD];
  }
}
