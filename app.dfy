/** The list and table helpers of the editor (src/components/App.js): the
    `.tbl` loader and its display text, the search filter, editing one
    translation, the JSON export/import of translations and the counters. */
module TranslatorApp {
  import opened Common
  import opened JsText

  // ---------------------------------------------------------------------
  // The table as a JavaScript object

  /** A plain object used as a dictionary with numeric keys: the values, and
      the keys in the order they were first assigned. */
  datatype JsTable = JsTable(entries: map<int, string>, order: seq<int>)

  predicate DistinctKeys(s: seq<int>) {
    forall i, j :: 0 <= i < j < |s| ==> s[i] != s[j]
  }

  /** `order` lists every key of `entries` exactly once. */
  ghost predicate WellFormed(t: JsTable) {
    DistinctKeys(t.order) && forall k :: k in t.entries <==> k in t.order
  }

  const EmptyTable: JsTable := JsTable(map[], [])

  /** `table[k] = v`: a new key goes to the end of the insertion order, an
      existing key keeps its place. */
  function Put(t: JsTable, k: int, v: string): (r: JsTable)
    ensures WellFormed(t) ==> WellFormed(r)
  {
    JsTable(t.entries[k := v], if k in t.entries then t.order else t.order + [k])
  }

  /** Keys that are array indices; `Object.keys` lists them first, ascending. */
  predicate IsIndexKey(k: int) {
    0 <= k < 0xFFFF_FFFF
  }

  function IndexKeys(s: seq<int>): (r: seq<int>)
    ensures forall k :: k in r ==> IsIndexKey(k)
  {
    if s == [] then []
    else if IsIndexKey(s[0]) then [s[0]] + IndexKeys(s[1..])
    else IndexKeys(s[1..])
  }

  function OtherKeys(s: seq<int>): (r: seq<int>)
    ensures forall k :: k in r ==> !IsIndexKey(k)
  {
    if s == [] then []
    else if IsIndexKey(s[0]) then OtherKeys(s[1..])
    else [s[0]] + OtherKeys(s[1..])
  }

  predicate Ascending(s: seq<int>) {
    forall i, j :: 0 <= i < j < |s| ==> s[i] <= s[j]
  }

  function Insert(x: int, s: seq<int>): seq<int> {
    if s == [] || x <= s[0] then [x] + s else [s[0]] + Insert(x, s[1..])
  }

  function SortAscending(s: seq<int>): seq<int> {
    if s == [] then [] else Insert(s[0], SortAscending(s[1..]))
  }

  /** `Object.keys(table)`: index keys in ascending order, then the other
      keys in insertion order. */
  function ObjectKeys(t: JsTable): seq<int> {
    SortAscending(IndexKeys(t.order)) + OtherKeys(t.order)
  }

  lemma {:induction false} InsertMultiset(x: int, s: seq<int>)
    ensures multiset(Insert(x, s)) == multiset(s) + multiset{x}
  {
    if s != [] && x > s[0] {
      InsertMultiset(x, s[1..]);
      assert s == [s[0]] + s[1..];
    }
  }

  lemma {:induction false} InsertAscending(x: int, s: seq<int>)
    requires Ascending(s)
    ensures Ascending(Insert(x, s))
  {
    if s != [] && x > s[0] {
      var r := Insert(x, s[1..]);
      InsertAscending(x, s[1..]);
      InsertMultiset(x, s[1..]);
      forall y | y in r ensures s[0] <= y {
        assert y in multiset(r);
      }
      AscendingCons(s[0], r);
    }
  }

  /** A head no larger than anything after it extends an ascending run. */
  lemma AscendingCons(h: int, r: seq<int>)
    requires Ascending(r)
    requires forall y :: y in r ==> h <= y
    ensures Ascending([h] + r)
  {
    var out := [h] + r;
    forall i, j | 0 <= i < j < |out| ensures out[i] <= out[j] {
      assert out[j] == r[j - 1];
      if i > 0 {
        assert out[i] == r[i - 1];
      } else {
        assert r[j - 1] in r;
      }
    }
  }

  lemma {:induction false} SortSpec(s: seq<int>)
    ensures multiset(SortAscending(s)) == multiset(s)
    ensures Ascending(SortAscending(s))
  {
    if s != [] {
      SortSpec(s[1..]);
      InsertMultiset(s[0], SortAscending(s[1..]));
      InsertAscending(s[0], SortAscending(s[1..]));
      assert s == [s[0]] + s[1..];
    }
  }

  lemma {:induction false} PartitionKeys(s: seq<int>)
    ensures multiset(IndexKeys(s)) + multiset(OtherKeys(s)) == multiset(s)
  {
    if s != [] {
      PartitionKeys(s[1..]);
      assert s == [s[0]] + s[1..];
    }
  }

  lemma {:induction false} OnlyIndexKeys(s: seq<int>)
    requires forall k :: k in s ==> IsIndexKey(k)
    ensures OtherKeys(s) == []
  {
    if s != [] {
      OnlyIndexKeys(s[1..]);
    }
  }

  lemma {:induction false} DistinctCard(s: seq<int>)
    requires DistinctKeys(s)
    ensures |set k | k in s| == |s|
  {
    if s != [] {
      var p := s[..|s| - 1];
      DistinctCard(p);
      assert (set k | k in s) == (set k | k in p) + {s[|s| - 1]};
      assert s[|s| - 1] !in (set k | k in p);
    }
  }

  /** `Object.keys(table)` lists each key of the table once; for a table
      whose keys are all byte values it is in ascending order. */
  lemma ObjectKeysSpec(t: JsTable)
    requires WellFormed(t)
    ensures |ObjectKeys(t)| == |t.entries.Keys|
    ensures forall k :: k in ObjectKeys(t) <==> k in t.entries
    ensures (forall k :: k in t.entries ==> IsIndexKey(k)) ==> Ascending(ObjectKeys(t))
  {
    var keys := ObjectKeys(t);
    SortSpec(IndexKeys(t.order));
    PartitionKeys(t.order);
    assert multiset(keys) == multiset(t.order);
    forall k ensures k in keys <==> k in t.entries {
      assert k in keys <==> k in multiset(keys);
    }
    DistinctCard(t.order);
    assert t.entries.Keys == set k | k in t.order;
    assert |keys| == |multiset(keys)| == |multiset(t.order)| == |t.order|;
    if forall k :: k in t.entries ==> IsIndexKey(k) {
      OnlyIndexKeys(t.order);
      assert keys == SortAscending(IndexKeys(t.order));
    }
  }

  // ---------------------------------------------------------------------
  // Loading a .tbl file

  /** The key and glyph one line defines. */
  datatype TableEntry = TableEntry(key: int, glyph: string)

  /** A trimmed line that is blank, a `//` comment or has no `=` is skipped. */
  predicate IsSkipped(trimmed: string) {
    trimmed == "" || StartsWith(trimmed, "//") || '=' !in trimmed
  }

  /** One line of a `.tbl` file: `hex = glyph`, the glyph being the trimmed
      text between the first and the second `=`; a key that does not parse
      as hexadecimal defines nothing. */
  function LineEntry(line: string): Option<TableEntry> {
    var trimmed := Trim(line);
    if IsSkipped(trimmed) then None
    else
      var pieces := Split(trimmed, '=');
      match ParseIntHex(Trim(pieces[0]))
      case None => None
      case Some(key) => Some(TableEntry(key, Trim(pieces[1])))
  }

  /** What each line defines, line by line. */
  function LineEntries(lines: seq<string>): (es: seq<Option<TableEntry>>)
    ensures |es| == |lines|
  {
    seq(|lines|, i requires 0 <= i < |lines| => LineEntry(lines[i]))
  }

  /** The object after the assignments of `es`, in order. */
  function Assign(es: seq<Option<TableEntry>>): JsTable
    decreases |es|
  {
    if es == [] then EmptyTable
    else
      var t := Assign(es[..|es| - 1]);
      match es[|es| - 1]
      case None => t
      case Some(e) => Put(t, e.key, e.glyph)
  }

  /** The table `handleTableLoad` builds from the file's text. */
  function ParseTable(content: string): (t: JsTable)
    ensures WellFormed(t)
  {
    var es := LineEntries(Split(content, '\n'));
    AssignWellFormed(es);
    Assign(es)
  }

  /** The body of `handleTableLoad` after the file is read: the table and
      its `entryCount`. */
  method LoadTable(content: string) returns (table: JsTable, entryCount: nat)
    ensures table == ParseTable(content)
    ensures WellFormed(table)
    ensures entryCount == |table.entries.Keys|
  {
    var lines := Split(content, '\n');
    ghost var es := LineEntries(lines);
    table := EmptyTable;
    var j := 0;
    while j < |lines|
      invariant 0 <= j <= |lines|
      invariant table == Assign(es[..j])
      invariant WellFormed(table)
    {
      assert es[..j + 1][..j] == es[..j];
      assert es[..j + 1][j] == LineEntry(lines[j]);
      var trimmed := Trim(lines[j]);
      if trimmed != "" && !StartsWith(trimmed, "//") && '=' in trimmed {
        var pieces := Split(trimmed, '=');
        var hexValue := ParseIntHex(Trim(pieces[0]));
        var charValue := Trim(pieces[1]);
        if hexValue.Some? {
          table := Put(table, hexValue.value, charValue);
        }
      }
      j := j + 1;
    }
    assert es[..j] == es;
    ObjectKeysSpec(table);
    entryCount := |ObjectKeys(table)|;
  }

  /** The entry `e` assigns key `k`. */
  predicate Defines(e: Option<TableEntry>, k: int) {
    e.Some? && e.value.key == k
  }

  /** Entry `j` is the last one that assigns `k`. */
  predicate LastDefinition(es: seq<Option<TableEntry>>, k: int, j: int) {
    0 <= j < |es| && Defines(es[j], k)
    && forall i :: j < i < |es| ==> !Defines(es[i], k)
  }

  lemma {:induction false} AssignWellFormed(es: seq<Option<TableEntry>>)
    ensures WellFormed(Assign(es))
    decreases |es|
  {
    if es != [] {
      AssignWellFormed(es[..|es| - 1]);
    }
  }

  lemma {:induction false} AssignKeys(es: seq<Option<TableEntry>>)
    ensures forall k :: k in Assign(es).entries <==> exists j :: 0 <= j < |es| && Defines(es[j], k)
    decreases |es|
  {
    if es != [] {
      var n := |es| - 1;
      var pre := es[..n];
      AssignKeys(pre);
      var t := Assign(pre);
      var r := Assign(es);
      assert forall k :: !Defines(es[n], k) ==> (k in r.entries <==> k in t.entries);
      forall k ensures k in r.entries <==> exists j :: 0 <= j < |es| && Defines(es[j], k) {
        if k in r.entries && !Defines(es[n], k) {
          assert k in t.entries;
          var j :| 0 <= j < n && Defines(pre[j], k);
          assert Defines(es[j], k);
        }
        if j :| 0 <= j < |es| && Defines(es[j], k) {
          if j < n {
            assert Defines(pre[j], k);
          }
        }
      }
    }
  }

  lemma {:induction false} AssignLast(es: seq<Option<TableEntry>>)
    ensures forall k :: k in Assign(es).entries ==>
      exists j :: LastDefinition(es, k, j) && Assign(es).entries[k] == es[j].value.glyph
    decreases |es|
  {
    if es != [] {
      var n := |es| - 1;
      var pre := es[..n];
      AssignLast(pre);
      var t := Assign(pre);
      var r := Assign(es);
      forall k | k in r.entries
        ensures exists j :: LastDefinition(es, k, j) && r.entries[k] == es[j].value.glyph
      {
        if Defines(es[n], k) {
          assert LastDefinition(es, k, n);
        } else {
          assert k in t.entries;
          var j :| LastDefinition(pre, k, j) && t.entries[k] == pre[j].value.glyph;
          assert es[j] == pre[j];
          assert LastDefinition(es, k, j);
        }
      }
    }
  }

  /** A key is in the table exactly when some line defines it, and its glyph
      is the one on the last line that defines it. */
  lemma AssignSpec(es: seq<Option<TableEntry>>)
    ensures WellFormed(Assign(es))
    ensures forall k :: k in Assign(es).entries <==> exists j :: 0 <= j < |es| && Defines(es[j], k)
    ensures forall k :: k in Assign(es).entries ==>
      exists j :: LastDefinition(es, k, j) && Assign(es).entries[k] == es[j].value.glyph
  {
    AssignWellFormed(es);
    AssignKeys(es);
    AssignLast(es);
  }

  // ---------------------------------------------------------------------
  // The display text of a table

  /** The key as shown: `0x`, then upper-case hex padded to two digits. */
  function HexLabel(k: int): string {
    "0x" + PadStart(HexString(k), 2, '0')
  }

  /** One display line without its newline: `0xHH = glyph`. */
  function EntryBody(k: int, glyph: string): string {
    HexLabel(k) + " = " + glyph
  }

  /** The lines, each followed by a newline. */
  function JoinLines(lines: seq<string>): string {
    if lines == [] then "" else lines[0] + "\n" + JoinLines(lines[1..])
  }

  /** The display lines of `keys`. */
  function DisplayBodies(t: JsTable, keys: seq<int>): (r: seq<string>)
    requires forall k :: k in keys ==> k in t.entries
    ensures |r| == |keys|
  {
    seq(|keys|, i requires 0 <= i < |keys| => EntryBody(keys[i], t.entries[keys[i]]))
  }

  /** The text shown for a loaded table, one line per `Object.entries` item. */
  function TableDisplay(t: JsTable): string
    requires WellFormed(t)
  {
    ObjectKeysSpec(t);
    JoinLines(DisplayBodies(t, ObjectKeys(t)))
  }

  lemma PrefixSnoc<T>(s: seq<T>, j: nat)
    requires j < |s|
    ensures s[..j + 1] == s[..j] + [s[j]]
  {
  }

  lemma {:induction false} JoinLinesSnoc(lines: seq<string>, line: string)
    ensures JoinLines(lines + [line]) == JoinLines(lines) + line + "\n"
  {
    if lines == [] {
      assert [line][1..] == [];
    } else {
      assert (lines + [line])[1..] == lines[1..] + [line];
      JoinLinesSnoc(lines[1..], line);
    }
  }

  /** Joining one more line appends it and its newline. */
  lemma JoinLinesStep(lines: seq<string>, j: nat)
    requires j < |lines|
    ensures JoinLines(lines[..j + 1]) == JoinLines(lines[..j]) + lines[j] + "\n"
  {
    JoinLinesSnoc(lines[..j], lines[j]);
    PrefixSnoc(lines, j);
  }

  /** The display loop of `handleTableLoad`. */
  method FormatTable(table: JsTable) returns (displayContent: string)
    requires WellFormed(table)
    ensures displayContent == TableDisplay(table)
  {
    ObjectKeysSpec(table);
    var keys := ObjectKeys(table);
    ghost var bodies := DisplayBodies(table, keys);
    displayContent := "";
    var j := 0;
    while j < |keys|
      invariant 0 <= j <= |keys|
      invariant displayContent == JoinLines(bodies[..j])
    {
      var line := EntryBody(keys[j], table.entries[keys[j]]);
      assert line == bodies[j];
      JoinLinesStep(bodies, j);
      displayContent := displayContent + line + "\n";
      j := j + 1;
    }
    assert bodies[..j] == bodies;
  }

  /** A glyph as the loader produces it: trimmed, without `=` or newline. */
  predicate LoadableGlyph(g: string) {
    Trim(g) == g && '=' !in g && '\n' !in g
  }

  /** The glyph a line defines can be written back to a line. */
  lemma LineGlyph(line: string)
    requires '\n' !in line
    requires LineEntry(line).Some?
    ensures LoadableGlyph(LineEntry(line).value.glyph)
  {
    var trimmed := Trim(line);
    var pieces := Split(trimmed, '=');
    var g := Trim(pieces[1]);
    assert LineEntry(line).value.glyph == g;
    TrimChars(line);
    SplitChars(trimmed, '=');
    TrimChars(pieces[1]);
    assert '\n' !in pieces[1];
    TrimIdempotent(pieces[1]);
  }

  /** Every glyph of a loaded table can be written back to a line. */
  lemma ParsedGlyphs(content: string)
    ensures forall k :: k in ParseTable(content).entries ==> LoadableGlyph(ParseTable(content).entries[k])
  {
    var lines := Split(content, '\n');
    var es := LineEntries(lines);
    AssignSpec(es);
    var t := ParseTable(content);
    forall k | k in t.entries ensures LoadableGlyph(t.entries[k]) {
      var j :| LastDefinition(es, k, j) && t.entries[k] == es[j].value.glyph;
      LineGlyph(lines[j]);
    }
  }

  /** A run of hex digits behind a `0x` prefix reads back its value. */
  lemma ParsePrefixedHex(p: string)
    requires p != ""
    requires forall i :: 0 <= i < |p| ==> IsHexDigit(p[i])
    ensures ParseIntHex("0x" + p) == Some(HexValue(p))
  {
    var s := "0x" + p;
    assert s[0] == '0' && s[1] == 'x' && s[2..] == p;
    ParseUnsigned(s);
    AllHexPrefix(p);
  }

  /** The padded digits of a non-negative key. */
  lemma PaddedDigits(k: nat)
    ensures var h := PadStart(HexUpper(k), 2, '0');
      |h| >= 2 && forall i :: 0 <= i < |h| ==> IsHexDigit(h[i])
  {
    var u := HexUpper(k);
    var h := PadStart(u, 2, '0');
    forall i | 0 <= i < |h| ensures IsHexDigit(h[i]) {
      if i >= |h| - |u| {
        assert h[i] == u[i - (|h| - |u|)];
      }
    }
  }

  /** The label of a non-negative key reads back the key. */
  lemma LabelParses(k: nat)
    ensures ParseIntHex(HexLabel(k)) == Some(k)
  {
    var h := PadStart(HexUpper(k), 2, '0');
    PaddedDigits(k);
    ParsePrefixedHex(h);
    ParseAllHex(h);
    PaddedHexRoundTrip(k, 2);
  }

  /** The label of a non-negative key has no whitespace, `=` or newline,
      and starts with `0`. */
  lemma LabelChars(k: nat)
    ensures |HexLabel(k)| >= 4 && HexLabel(k)[0] == '0' && HexLabel(k)[1] == 'x'
    ensures forall i :: 0 <= i < |HexLabel(k)| ==> PlainChar(HexLabel(k)[i])
  {
    var h := PadStart(HexUpper(k), 2, '0');
    PaddedDigits(k);
    var l := HexLabel(k);
    assert l == "0x" + h;
    forall i | 0 <= i < |l| ensures PlainChar(l[i]) {
      if i >= 2 {
        assert l[i] == h[i - 2];
        HexDigitFacts(l[i]);
      } else if i == 0 {
        assert l[i] == '0';
      } else {
        assert l[i] == 'x';
      }
    }
  }

  /** Neither whitespace nor `=` nor a newline. */
  predicate PlainChar(c: char) {
    !IsJsWhitespace(c) && c != '=' && c != '\n'
  }

  /** The line parser, given what each of its steps yields. */
  lemma LineEntryOf(line: string, trimmed: string, a: string, rest: string, k: int, g: string)
    requires Trim(line) == trimmed && !IsSkipped(trimmed)
    requires Split(trimmed, '=') == [a, rest]
    requires ParseIntHex(Trim(a)) == Some(k) && Trim(rest) == g
    ensures LineEntry(line) == Some(TableEntry(k, g))
  {
  }

  /** What follows the `=` of a display line once trimmed. */
  function GlyphPart(g: string): string {
    if g == "" then "" else " " + g
  }

  /** A line starting `0x` and holding an `=` is not skipped. */
  lemma NotSkipped(s: string, i: nat)
    requires |s| >= 2 && s[1] == 'x' && i < |s| && s[i] == '='
    ensures !IsSkipped(s)
  {
  }

  /** A display line trims to itself, or loses the one space after an empty glyph. */
  lemma EntryTrim(k: nat, g: string)
    requires LoadableGlyph(g)
    ensures Trim(EntryBody(k, g)) == HexLabel(k) + " " + "=" + GlyphPart(g)
  {
    LabelChars(k);
    TrimLineOf(HexLabel(k), g);
  }

  lemma TrimLineOf(l: string, g: string)
    requires |l| >= 1 && !IsJsWhitespace(l[0])
    requires LoadableGlyph(g)
    ensures Trim(l + " = " + g) == l + " " + "=" + GlyphPart(g)
  {
    if g == "" {
      EntryTrimEmpty(l);
      assert l + " = " + g == l + " = ";
      assert l + " " + "=" + GlyphPart(g) == l + " " + "=";
    } else {
      TrimEnds(g);
      EntryTrimGlyph(l, g);
    }
  }

  lemma EntryTrimEmpty(l: string)
    requires |l| >= 1 && !IsJsWhitespace(l[0])
    ensures Trim(l + " = ") == l + " " + "="
  {
    var trimmed := l + " " + "=";
    assert trimmed[0] == l[0];
    assert l + " = " == trimmed + " ";
    TrimOfTrimmed(trimmed);
    TrimDropsTrailing(trimmed, ' ');
  }

  lemma EntryTrimGlyph(l: string, g: string)
    requires |l| >= 1 && !IsJsWhitespace(l[0])
    requires g != "" && !IsJsWhitespace(g[|g| - 1])
    ensures Trim(l + " = " + g) == l + " " + "=" + (" " + g)
  {
    var trimmed := l + " " + "=" + (" " + g);
    assert trimmed[0] == l[0];
    assert l + " = " + g == trimmed;
    assert trimmed[|trimmed| - 1] == g[|g| - 1];
    TrimOfTrimmed(trimmed);
  }

  /** The label and the space after it hold no `=`. */
  lemma LabelNoEquals(k: nat)
    ensures '=' !in HexLabel(k) + " "
  {
    var a := HexLabel(k) + " ";
    LabelChars(k);
    forall i | 0 <= i < |a| ensures a[i] != '=' {
      if i < |HexLabel(k)| {
        assert a[i] == HexLabel(k)[i];
      }
    }
  }

  /** The trimmed display line splits at its one `=`. */
  lemma EntrySplit(k: nat, g: string)
    requires '=' !in g
    ensures Split(HexLabel(k) + " " + "=" + GlyphPart(g), '=') == [HexLabel(k) + " ", GlyphPart(g)]
  {
    var a := HexLabel(k) + " ";
    LabelNoEquals(k);
    assert '=' !in GlyphPart(g);
    assert HexLabel(k) + " " + "=" + GlyphPart(g) == a + ['='] + GlyphPart(g);
    SplitAppend(a, GlyphPart(g), '=');
  }

  /** A display line reads back as the entry it shows. */
  lemma EntryLineRoundTrip(k: nat, g: string)
    requires LoadableGlyph(g)
    ensures LineEntry(EntryBody(k, g)) == Some(TableEntry(k, g))
  {
    var l := HexLabel(k);
    var a := l + " ";
    var rest := GlyphPart(g);
    var trimmed := a + "=" + rest;
    EntryTrim(k, g);
    EntrySplit(k, g);
    LabelChars(k);
    LabelParses(k);
    assert trimmed[1] == l[1] == 'x';
    assert trimmed[|a|] == '=';
    NotSkipped(trimmed, |a|);
    TrimDropsTrailing(l, ' ');
    TrimOfTrimmed(l);
    if g != "" {
      assert rest == [' '] + g;
      TrimDropsLeading(' ', g);
    }
    LineEntryOf(EntryBody(k, g), trimmed, a, rest, k, g);
  }

  /** Splitting joined lines at newlines gives the lines and a final empty
      piece. */
  lemma {:induction false} SplitJoin(lines: seq<string>)
    requires forall i :: 0 <= i < |lines| ==> '\n' !in lines[i]
    ensures Split(JoinLines(lines), '\n') == lines + [""]
  {
    if lines != [] {
      SplitAppend(lines[0], JoinLines(lines[1..]), '\n');
      SplitJoin(lines[1..]);
      assert lines == [lines[0]] + lines[1..];
    }
  }

  /** A line made of plain label characters and a glyph without newline
      holds no newline. */
  lemma NoNewline(l: string, g: string)
    requires forall i :: 0 <= i < |l| ==> PlainChar(l[i])
    requires '\n' !in g
    ensures '\n' !in l + " = " + g
  {
    var s := l + " = " + g;
    forall i | 0 <= i < |s| ensures s[i] != '\n' {
      if i < |l| {
        assert s[i] == l[i];
      } else if i >= |l| + 3 {
        assert s[i] == g[i - |l| - 3];
      }
    }
  }

  /** Display line `i` holds no newline and reads back as the entry of
      key `i`. */
  lemma BodyLoads(t: JsTable, keys: seq<int>, i: nat)
    requires forall k :: k in keys ==> k in t.entries
    requires forall k :: k in t.entries ==> k >= 0 && LoadableGlyph(t.entries[k])
    requires i < |keys|
    ensures '\n' !in DisplayBodies(t, keys)[i]
    ensures LineEntry(DisplayBodies(t, keys)[i]) == Some(TableEntry(keys[i], t.entries[keys[i]]))
  {
    var k := keys[i];
    assert k in t.entries;
    var g := t.entries[k];
    assert DisplayBodies(t, keys)[i] == EntryBody(k, g);
    EntryLineRoundTrip(k, g);
    LabelChars(k);
    NoNewline(HexLabel(k), g);
  }

  /** Assigning one entry per key, in any order and with repeats, and then
      nothing, gives back the map the entries were taken from. */
  lemma AssignEntries(es: seq<Option<TableEntry>>, keys: seq<int>, m: map<int, string>)
    requires |es| == |keys| + 1 && es[|keys|].None?
    requires forall i :: 0 <= i < |keys| ==> keys[i] in m
    requires forall k :: k in m ==> k in keys
    requires forall i :: 0 <= i < |keys| ==> es[i] == Some(TableEntry(keys[i], m[keys[i]]))
    ensures Assign(es).entries == m
  {
    var r := Assign(es);
    AssignEntryKeys(es, keys, m);
    AssignEntryValues(es, keys, m);
    assert forall k :: k in r.entries <==> k in m;
  }

  lemma AssignEntryKeys(es: seq<Option<TableEntry>>, keys: seq<int>, m: map<int, string>)
    requires |es| == |keys| + 1 && es[|keys|].None?
    requires forall i :: 0 <= i < |keys| ==> keys[i] in m
    requires forall k :: k in m ==> k in keys
    requires forall i :: 0 <= i < |keys| ==> es[i] == Some(TableEntry(keys[i], m[keys[i]]))
    ensures forall k :: k in Assign(es).entries <==> k in m
  {
    AssignKeys(es);
    forall k ensures k in Assign(es).entries <==> k in m {
      DefinedIff(es, keys, m, k);
    }
  }

  /** With one entry per key, a key is assigned by some entry exactly when
      it is in the map. */
  lemma DefinedIff(es: seq<Option<TableEntry>>, keys: seq<int>, m: map<int, string>, k: int)
    requires |es| == |keys| + 1 && es[|keys|].None?
    requires forall i :: 0 <= i < |keys| ==> keys[i] in m
    requires forall k :: k in m ==> k in keys
    requires forall i :: 0 <= i < |keys| ==> es[i] == Some(TableEntry(keys[i], m[keys[i]]))
    ensures (exists j :: 0 <= j < |es| && Defines(es[j], k)) <==> k in m
  {
    if k in m {
      var i :| 0 <= i < |keys| && keys[i] == k;
      assert Defines(es[i], k);
    }
    if j :| 0 <= j < |es| && Defines(es[j], k) {
      assert j < |keys|;
    }
  }

  lemma AssignEntryValues(es: seq<Option<TableEntry>>, keys: seq<int>, m: map<int, string>)
    requires |es| == |keys| + 1 && es[|keys|].None?
    requires forall i :: 0 <= i < |keys| ==> keys[i] in m
    requires forall i :: 0 <= i < |keys| ==> es[i] == Some(TableEntry(keys[i], m[keys[i]]))
    ensures forall k :: k in Assign(es).entries && k in m ==> Assign(es).entries[k] == m[k]
  {
    AssignLast(es);
    var r := Assign(es);
    forall k | k in r.entries && k in m ensures r.entries[k] == m[k] {
      var j :| LastDefinition(es, k, j) && r.entries[k] == es[j].value.glyph;
      assert j < |keys|;
    }
  }

  /** The display text splits at newlines into its lines and a final
      empty piece. */
  lemma DisplayLines(t: JsTable)
    requires WellFormed(t)
    requires forall k :: k in t.entries ==> k >= 0 && LoadableGlyph(t.entries[k])
    ensures forall k :: k in ObjectKeys(t) ==> k in t.entries
    ensures Split(TableDisplay(t), '\n') == DisplayBodies(t, ObjectKeys(t)) + [""]
  {
    ObjectKeysSpec(t);
    var keys := ObjectKeys(t);
    var bodies := DisplayBodies(t, keys);
    forall i | 0 <= i < |keys| {
      BodyLoads(t, keys, i);
    }
    SplitJoin(bodies);
  }

  /** What each line of the display text defines. */
  lemma DisplayEntries(t: JsTable, keys: seq<int>)
    requires forall k :: k in keys ==> k in t.entries
    requires forall k :: k in t.entries ==> k >= 0 && LoadableGlyph(t.entries[k])
    ensures var es := LineEntries(DisplayBodies(t, keys) + [""]);
      |es| == |keys| + 1 && es[|keys|].None? &&
      forall i :: 0 <= i < |keys| ==> es[i] == Some(TableEntry(keys[i], t.entries[keys[i]]))
  {
    var bodies := DisplayBodies(t, keys);
    var lines := bodies + [""];
    var es := LineEntries(lines);
    forall i | 0 <= i < |keys| ensures es[i] == Some(TableEntry(keys[i], t.entries[keys[i]])) {
      BodyLoads(t, keys, i);
      assert lines[i] == bodies[i];
    }
    assert es[|keys|] == LineEntry("");
  }

  /** The display text is itself a `.tbl` file: loading it gives back the
      table, when every key is non-negative and every glyph loadable. */
  lemma DisplayRoundTrip(t: JsTable)
    requires WellFormed(t)
    requires forall k :: k in t.entries ==> k >= 0 && LoadableGlyph(t.entries[k])
    ensures ParseTable(TableDisplay(t)).entries == t.entries
  {
    ObjectKeysSpec(t);
    var keys := ObjectKeys(t);
    DisplayLines(t);
    DisplayEntries(t, keys);
    AssignEntries(LineEntries(DisplayBodies(t, keys) + [""]), keys, t.entries);
  }

  /** Loading the display text of a loaded table gives the same table. */
  lemma ReloadDisplay(content: string)
    requires forall k :: k in ParseTable(content).entries ==> k >= 0
    ensures ParseTable(TableDisplay(ParseTable(content))).entries == ParseTable(content).entries
  {
    var t := ParseTable(content);
    ParsedGlyphs(content);
    DisplayRoundTrip(t);
  }

  // ---------------------------------------------------------------------
  // The list of texts

  /** One row of the editor: an extracted text with its id and translation. */
  datatype TextItem = TextItem(
    id: int,
    offset: string,
    startByte: int,
    endByte: int,
    originalText: string,
    textType: string,
    translatedText: string)

  /** The search condition, case-insensitive: the original text, a
      non-empty translation or the offset contains the term. */
  predicate Matches(text: TextItem, term: string) {
    var needle := ToLower(term);
    Contains(ToLower(text.originalText), needle)
    || (text.translatedText != "" && Contains(ToLower(text.translatedText), needle))
    || Contains(ToLower(text.offset), needle)
  }

  function FilterMatching(texts: seq<TextItem>, term: string): seq<TextItem> {
    if texts == [] then []
    else if Matches(texts[0], term) then [texts[0]] + FilterMatching(texts[1..], term)
    else FilterMatching(texts[1..], term)
  }

  /** `handleSearch`'s filtered list: everything for a blank term. */
  function SearchFilter(allTexts: seq<TextItem>, term: string): seq<TextItem> {
    if Trim(term) == "" then allTexts else FilterMatching(allTexts, term)
  }

  /** `a` is `b` with some elements left out, order kept. */
  predicate IsSubsequence(a: seq<TextItem>, b: seq<TextItem>)
    decreases |b|
  {
    if a == [] then true
    else if b == [] then false
    else if a[0] == b[0] then IsSubsequence(a[1..], b[1..])
    else IsSubsequence(a, b[1..])
  }

  lemma {:induction false} FilterMatchingSpec(texts: seq<TextItem>, term: string)
    ensures forall x :: x in FilterMatching(texts, term) <==> x in texts && Matches(x, term)
    ensures IsSubsequence(FilterMatching(texts, term), texts)
  {
    if texts != [] {
      FilterMatchingSpec(texts[1..], term);
      assert texts == [texts[0]] + texts[1..];
      var rest := FilterMatching(texts[1..], term);
      if Matches(texts[0], term) {
        assert ([texts[0]] + rest)[1..] == rest;
      } else if rest != [] {
        assert rest[0] in rest;
      }
    }
  }

  /** A blank term keeps the whole list; otherwise the result keeps, in
      order, exactly the texts that match. */
  lemma SearchSpec(allTexts: seq<TextItem>, term: string)
    ensures Trim(term) == "" ==> SearchFilter(allTexts, term) == allTexts
    ensures Trim(term) != "" ==>
      && IsSubsequence(SearchFilter(allTexts, term), allTexts)
      && forall x :: x in SearchFilter(allTexts, term) <==> x in allTexts && Matches(x, term)
  {
    FilterMatchingSpec(allTexts, term);
  }

  /** `updateTranslation(textId, newTranslation)` on one list. */
  function UpdateTranslation(texts: seq<TextItem>, textId: int, newTranslation: string): (r: seq<TextItem>)
    ensures |r| == |texts|
    ensures forall k :: 0 <= k < |texts| ==> r[k].(translatedText := texts[k].translatedText) == texts[k]
    ensures forall k :: 0 <= k < |texts| ==>
      r[k].translatedText == if texts[k].id == textId then newTranslation else texts[k].translatedText
  {
    if texts == [] then []
    else
      var head := if texts[0].id == textId then texts[0].(translatedText := newTranslation) else texts[0];
      [head] + UpdateTranslation(texts[1..], textId, newTranslation)
  }

  /** The translation `stats` counts as done. */
  predicate IsTranslated(text: TextItem) {
    Trim(text.translatedText) != ""
  }

  function CountTranslated(texts: seq<TextItem>): (n: nat)
    ensures n <= |texts|
  {
    if texts == [] then 0 else (if IsTranslated(texts[0]) then 1 else 0) + CountTranslated(texts[1..])
  }

  datatype TranslationStats = TranslationStats(total: nat, translated: nat, untranslated: nat)

  /** `stats`: how many texts have a non-blank translation, and how many not. */
  function Stats(allTexts: seq<TextItem>): (s: TranslationStats)
    ensures s.total == |allTexts| && s.translated + s.untranslated == s.total
    ensures s.translated == CountTranslated(allTexts)
  {
    var translated := CountTranslated(allTexts);
    TranslationStats(|allTexts|, translated, |allTexts| - translated)
  }

  predicate UniqueIds(texts: seq<TextItem>) {
    forall i, j :: 0 <= i < j < |texts| ==> texts[i].id != texts[j].id
  }

  lemma {:induction false} UpdateAbsent(texts: seq<TextItem>, textId: int, newTranslation: string)
    requires forall i :: 0 <= i < |texts| ==> texts[i].id != textId
    ensures UpdateTranslation(texts, textId, newTranslation) == texts
  {
    var r := UpdateTranslation(texts, textId, newTranslation);
    assert forall k :: 0 <= k < |texts| ==> r[k] == r[k].(translatedText := texts[k].translatedText);
  }

  /** Editing the translation of the text with a given id moves the
      translated counter by the change in that one text. */
  lemma UpdateStats(texts: seq<TextItem>, i: nat, newTranslation: string)
    requires UniqueIds(texts) && i < |texts|
    ensures var after := UpdateTranslation(texts, texts[i].id, newTranslation);
      var was := if IsTranslated(texts[i]) then 1 else 0;
      var now := if Trim(newTranslation) != "" then 1 else 0;
      Stats(after).total == Stats(texts).total && Stats(after).translated == Stats(texts).translated - was + now
  {
    UpdateCount(texts, i, newTranslation);
  }

  lemma {:induction false} UpdateCount(texts: seq<TextItem>, i: nat, newTranslation: string)
    requires UniqueIds(texts) && i < |texts|
    ensures var was := if IsTranslated(texts[i]) then 1 else 0;
      var now := if Trim(newTranslation) != "" then 1 else 0;
      CountTranslated(UpdateTranslation(texts, texts[i].id, newTranslation)) == CountTranslated(texts) - was + now
  {
    var id := texts[i].id;
    var after := UpdateTranslation(texts, id, newTranslation);
    var rest := texts[1..];
    UniqueTail(texts);
    assert after[1..] == UpdateTranslation(rest, id, newTranslation);
    assert CountTranslated(after) == (if IsTranslated(after[0]) then 1 else 0) + CountTranslated(after[1..]);
    if i == 0 {
      UpdateAbsent(rest, id, newTranslation);
      assert IsTranslated(after[0]) <==> Trim(newTranslation) != "";
    } else {
      assert after[0] == texts[0];
      assert rest[i - 1] == texts[i];
      UpdateCount(rest, i - 1, newTranslation);
    }
  }

  /** Unique ids stay unique after the first text, and differ from its id. */
  lemma UniqueTail(texts: seq<TextItem>)
    requires UniqueIds(texts) && texts != []
    ensures UniqueIds(texts[1..])
    ensures forall k :: 0 <= k < |texts[1..]| ==> texts[1..][k].id != texts[0].id
  {
    var rest := texts[1..];
    forall a, b | 0 <= a < b < |rest| ensures rest[a].id != rest[b].id {
      assert rest[a] == texts[a + 1] && rest[b] == texts[b + 1];
    }
    forall k | 0 <= k < |rest| ensures rest[k].id != texts[0].id {
      assert rest[k] == texts[k + 1];
    }
  }

  // ---------------------------------------------------------------------
  // JSON export and import of translations

  /** One element of the `texts` array of an exported or imported JSON file;
      an imported element may lack `translation`. */
  datatype JsonText = JsonText(offset: string, original: string, translation: Option<string>, textType: string)

  /** The `texts` array `exportJSON` writes. */
  function ExportTexts(allTexts: seq<TextItem>): (r: seq<JsonText>)
    ensures |r| == |allTexts|
    ensures forall k :: 0 <= k < |r| ==> r[k].offset == allTexts[k].offset
  {
    if allTexts == [] then []
    else
      var t := allTexts[0];
      [JsonText(t.offset, t.originalText, Some(t.translatedText), t.textType)] + ExportTexts(allTexts[1..])
  }

  /** `jsonData.texts.find(t => t.offset === offset)`, as an index. */
  function FindByOffset(entries: seq<JsonText>, offset: string): (r: Option<nat>)
    ensures r.Some? ==> r.value < |entries| && entries[r.value].offset == offset
    ensures r.Some? ==> forall i :: 0 <= i < r.value ==> entries[i].offset != offset
    ensures r.None? ==> forall i :: 0 <= i < |entries| ==> entries[i].offset != offset
  {
    if entries == [] then None
    else if entries[0].offset == offset then Some(0)
    else match FindByOffset(entries[1..], offset)
      case None => None
      case Some(j) => Some(j + 1)
  }

  /** `matched.translation || ''`. */
  function TranslationOf(entry: JsonText): string {
    entry.translation.GetOr("")
  }

  /** The import merge: each text takes the translation of the first entry
      with its offset; the others are left as they were. */
  function MergeImport(allTexts: seq<TextItem>, entries: seq<JsonText>): (r: seq<TextItem>)
    ensures |r| == |allTexts|
    ensures forall k :: 0 <= k < |allTexts| ==> r[k].(translatedText := allTexts[k].translatedText) == allTexts[k]
    ensures forall k :: 0 <= k < |allTexts| ==> FindByOffset(entries, allTexts[k].offset).None? ==> r[k] == allTexts[k]
    ensures forall k :: 0 <= k < |allTexts| ==> FindByOffset(entries, allTexts[k].offset).Some? ==>
      r[k].translatedText == TranslationOf(entries[FindByOffset(entries, allTexts[k].offset).value])
  {
    if allTexts == [] then []
    else
      var t := allTexts[0];
      var head := match FindByOffset(entries, t.offset)
        case None => t
        case Some(j) => t.(translatedText := TranslationOf(entries[j]));
      [head] + MergeImport(allTexts[1..], entries)
  }

  /** `handleImportJSON` after parsing: a file without a `texts` array is
      refused. */
  function ImportJson(allTexts: seq<TextItem>, texts: Option<seq<JsonText>>): Result<seq<TextItem>, string> {
    match texts
    case None => Err("Invalid JSON format: Missing texts array")
    case Some(entries) => Ok(MergeImport(allTexts, entries))
  }

  predicate UniqueOffsets(texts: seq<TextItem>) {
    forall i, j :: 0 <= i < j < |texts| ==> texts[i].offset != texts[j].offset
  }

  /** Importing the export of a list whose offsets are distinct carries every
      translation over to a list with the same offsets. */
  lemma ExportImportRoundTrip(source: seq<TextItem>, target: seq<TextItem>)
    requires UniqueOffsets(source)
    requires |target| == |source|
    requires forall k :: 0 <= k < |source| ==> target[k].offset == source[k].offset
    ensures var r := MergeImport(target, ExportTexts(source));
      forall k :: 0 <= k < |target| ==>
        r[k] == target[k].(translatedText := source[k].translatedText)
  {
    forall k | 0 <= k < |target| {
      ImportedAt(source, target, k);
    }
  }

  /** Text `k` of the target finds entry `k` of the export, and only that. */
  lemma ImportedAt(source: seq<TextItem>, target: seq<TextItem>, k: nat)
    requires UniqueOffsets(source)
    requires |target| == |source| && k < |target|
    requires target[k].offset == source[k].offset
    ensures MergeImport(target, ExportTexts(source))[k] == target[k].(translatedText := source[k].translatedText)
  {
    var entries := ExportTexts(source);
    var found := FindByOffset(entries, target[k].offset);
    if found.None? || found.value != k {
      assert false;
    }
    ExportedEntry(source, k);
  }

  /** Entry `k` of the export carries text `k`'s translation. */
  lemma {:induction false} ExportedEntry(source: seq<TextItem>, k: nat)
    requires k < |source|
    ensures TranslationOf(ExportTexts(source)[k]) == source[k].translatedText
  {
    if k > 0 {
      ExportedEntry(source[1..], k - 1);
    }
  }

  /** Importing the export of the same list changes nothing. */
  lemma ImportOwnExport(allTexts: seq<TextItem>)
    requires UniqueOffsets(allTexts)
    ensures ImportJson(allTexts, Some(ExportTexts(allTexts))) == Ok(allTexts)
  {
    ExportImportRoundTrip(allTexts, allTexts);
    var r := MergeImport(allTexts, ExportTexts(allTexts));
    assert |r| == |allTexts|;
    forall k | 0 <= k < |allTexts| ensures r[k] == allTexts[k] {
      assert r[k] == allTexts[k].(translatedText := allTexts[k].translatedText);
    }
    assert r == allTexts;
  }
}
