/** The editor's "generate table" action (src/components/App.js): the
    heuristic table is shown with the same display loop as a loaded table
    and counted with `Object.keys`. */
module GeneratedTable {
  import opened Common
  import opened JsText
  import opened TableUtils
  import opened TableProperties
  import opened TranslatorApp

  /** Whatever order the generator assigned its keys in, the display lists
      every key of the generated table once, in ascending byte order, and
      `entryCount` is the number of keys. */
  lemma GeneratedDisplayOrder(data: seq<Byte>, order: seq<int>)
    requires WellFormed(JsTable(HeuristicTable(data), order))
    ensures var t := JsTable(HeuristicTable(data), order);
      && Ascending(ObjectKeys(t))
      && (forall k :: k in ObjectKeys(t) <==> k in HeuristicTable(data))
      && |ObjectKeys(t)| == |HeuristicTable(data).Keys|
  {
    TableKeys(data);
    ObjectKeysSpec(JsTable(HeuristicTable(data), order));
  }

  /** The display line of a byte mapped to " " (the generated space) reads
      back with an empty glyph: `trim` drops the space along with the
      padding around `=`. */
  lemma SpaceLineReadsEmpty(k: nat)
    ensures EntryBody(k, " ") == EntryBody(k, "") + " "
    ensures LineEntry(EntryBody(k, " ")) == Some(TableEntry(k, ""))
  {
    assert EntryBody(k, " ") == EntryBody(k, "") + [' '];
    TrimDropsTrailing(EntryBody(k, ""), ' ');
    EntryLineRoundTrip(k, "");
  }
}
