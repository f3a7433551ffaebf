/** The heuristic character-table generator (src/utils/tableUtils.js):
    byte and bigram statistics pick a text terminator, a space byte, and map
    the remaining bytes, most frequent first, onto common letters. */
module TableUtils {
  import opened Common

  /** One `{ byte, count }` record of the candidate and ranking lists. */
  datatype Entry = Entry(byte: Byte, count: int)

  /** The characters handed out by rank, most frequent byte first. */
  const CommonChars: string := "ETAOINSHRDLCUMWFGYPBVKJXQZetaoinshrdlcumwfgypbvkjxqz0123456789.,!?'\";:()- "

  // ---------------------------------------------------------------------
  // Byte statistics

  /** Occurrences of `b` among the first `n` bytes. */
  function CountBefore(data: seq<Byte>, n: nat, b: int): nat
    requires n <= |data|
  {
    if n == 0 then 0 else CountBefore(data, n - 1, b) + (if data[n - 1] == b then 1 else 0)
  }

  /** Occurrences of `b` anywhere in the buffer. */
  function Occurrences(data: seq<Byte>, b: int): nat {
    CountBefore(data, |data|, b)
  }

  /** Number of adjacent pairs the first pass visits: `romData.length - 1` iterations. */
  function PairSpan(data: seq<Byte>): nat {
    if |data| == 0 then 0 else |data| - 1
  }

  /** `freq[b]` after the first pass: the pass counts every byte but the last,
      and the statement meant to count the last byte increments the slot whose
      index is the buffer length minus one instead. */
  function Freq(data: seq<Byte>, b: Byte): nat {
    CountBefore(data, PairSpan(data), b) + (if b == |data| - 1 then 1 else 0)
  }

  /** Adjacent pairs `(a, b)` starting before position `n`. */
  function BigramBefore(data: seq<Byte>, n: nat, a: int, b: int): nat
    requires n <= PairSpan(data)
  {
    if n == 0 then 0 else BigramBefore(data, n - 1, a, b) + (if data[n - 1] == a && data[n] == b then 1 else 0)
  }

  /** `bigramFreq[a][b]`: how often byte `b` directly follows byte `a`. */
  function Bigram(data: seq<Byte>, a: int, b: int): nat {
    BigramBefore(data, PairSpan(data), a, b)
  }

  /** Some follower of `b` occurs after it more than 50 times. */
  predicate StartsCommonBigram(data: seq<Byte>, b: Byte) {
    exists c: int :: 0 <= c < 256 && Bigram(data, b, c) > 50
  }

  /** Distinct predecessors plus distinct successors of `b`. */
  function Diversity(data: seq<Byte>, b: Byte): nat {
    |set r: int | 0 <= r < 256 && Bigram(data, r, b) > 0| + |set c: int | 0 <= c < 256 && Bigram(data, b, c) > 0|
  }

  // ---------------------------------------------------------------------
  // Candidate order

  /** `x` sorts before `y`: larger count first, and on equal counts the
      earlier position of the stable sort's input, which lists bytes ascending. */
  predicate Precedes(x: Entry, y: Entry) {
    x.count > y.count || (x.count == y.count && x.byte < y.byte)
  }

  predicate OrderedByCount(s: seq<Entry>) {
    forall i, j :: 0 <= i < j < |s| ==> Precedes(s[i], s[j])
  }

  predicate BytesAscending(s: seq<Entry>) {
    forall i, j :: 0 <= i < j < |s| ==> s[i].byte < s[j].byte
  }

  /** Places `x` before the first entry whose count does not exceed its own. */
  function InsertByCount(x: Entry, s: seq<Entry>): seq<Entry> {
    if s == [] || x.count >= s[0].count then [x] + s else [s[0]] + InsertByCount(x, s[1..])
  }

  /** `list.sort((a, b) => b.count - a.count)`: a stable sort, count descending. */
  function SortByCount(s: seq<Entry>): seq<Entry> {
    if s == [] then [] else InsertByCount(s[0], SortByCount(s[1..]))
  }

  lemma {:induction false} InsertByCountSpec(x: Entry, s: seq<Entry>)
    requires OrderedByCount(s)
    requires forall k :: 0 <= k < |s| ==> x.byte < s[k].byte
    ensures OrderedByCount(InsertByCount(x, s))
    ensures multiset(InsertByCount(x, s)) == multiset(s) + multiset{x}
    decreases |s|
  {
    if s != [] && x.count < s[0].count {
      OrderedTail(s);
      InsertByCountSpec(x, s[1..]);
      var r := InsertByCount(x, s[1..]);
      assert s == [s[0]] + s[1..];
      PrecededAll(s[0], r, s[1..], x);
      OrderedCons(s[0], r);
    }
  }

  /** The tail of an ordered list is ordered, and follows its head. */
  lemma OrderedTail(s: seq<Entry>)
    requires OrderedByCount(s) && s != []
    ensures OrderedByCount(s[1..])
    ensures forall e :: e in s[1..] ==> Precedes(s[0], e)
  {
    forall e | e in s[1..] ensures Precedes(s[0], e) {
      var j :| 0 <= j < |s[1..]| && s[1..][j] == e;
      assert s[j + 1] == e;
    }
  }

  /** What precedes every entry of `u` and `x` precedes every entry of a
      permutation of `u` plus `x`. */
  lemma PrecededAll(h: Entry, r: seq<Entry>, u: seq<Entry>, x: Entry)
    requires multiset(r) == multiset(u) + multiset{x}
    requires Precedes(h, x) && forall e :: e in u ==> Precedes(h, e)
    ensures forall k :: 0 <= k < |r| ==> Precedes(h, r[k])
  {
    forall k | 0 <= k < |r| ensures Precedes(h, r[k]) {
      assert r[k] in multiset(r);
      if r[k] != x {
        assert r[k] in multiset(u);
      }
    }
  }

  /** A head that precedes every entry extends an ordered list. */
  lemma OrderedCons(h: Entry, r: seq<Entry>)
    requires OrderedByCount(r)
    requires forall k :: 0 <= k < |r| ==> Precedes(h, r[k])
    ensures OrderedByCount([h] + r)
  {
    var out := [h] + r;
    forall i, j | 0 <= i < j < |out| ensures Precedes(out[i], out[j]) {
      assert out[j] == r[j - 1];
      if i > 0 {
        assert out[i] == r[i - 1];
      }
    }
  }

  /** Sorting an ascending-by-byte list yields the unique order of `Precedes`
      and keeps every entry. */
  lemma {:induction false} SortByCountSpec(s: seq<Entry>)
    requires BytesAscending(s)
    ensures OrderedByCount(SortByCount(s))
    ensures multiset(SortByCount(s)) == multiset(s)
    decreases |s|
  {
    if s != [] {
      AscendingTail(s);
      SortByCountSpec(s[1..]);
      var t := SortByCount(s[1..]);
      AboveAll(s[0].byte, t, s[1..]);
      InsertByCountSpec(s[0], t);
      assert s == [s[0]] + s[1..];
    }
  }

  /** A bound on every byte of a list holds for any permutation of it. */
  lemma AboveAll(h: int, t: seq<Entry>, u: seq<Entry>)
    requires multiset(t) == multiset(u)
    requires forall e :: e in u ==> h < e.byte
    ensures forall k :: 0 <= k < |t| ==> h < t[k].byte
  {
    forall k | 0 <= k < |t| ensures h < t[k].byte {
      assert t[k] in multiset(u);
    }
  }

  /** The tail of a list ascending by byte is ascending, and lies above the head. */
  lemma AscendingTail(s: seq<Entry>)
    requires BytesAscending(s) && s != []
    ensures BytesAscending(s[1..])
    ensures forall e :: e in s[1..] ==> s[0].byte < e.byte
  {
    forall e | e in s[1..] ensures s[0].byte < e.byte {
      var j :| 0 <= j < |s[1..]| && s[1..][j] == e;
      assert s[j + 1] == e;
    }
  }

  // ---------------------------------------------------------------------
  // Pass 2: terminator and space

  /** Bytes seen more than 100 times, ascending, as the candidate loop collects them. */
  function CandidatesBelow(data: seq<Byte>, n: nat): seq<Entry>
    requires n <= 256
  {
    if n == 0 then []
    else CandidatesBelow(data, n - 1) + (if Freq(data, n - 1) > 100 then [Entry(n - 1, Freq(data, n - 1))] else [])
  }

  /** The sorted candidate list. */
  function Candidates(data: seq<Byte>): seq<Entry> {
    SortByCount(CandidatesBelow(data, 256))
  }

  predicate QualifiesAsTerminator(data: seq<Byte>, e: Entry) {
    !StartsCommonBigram(data, e.byte) && e.count > 1000
  }

  /** The first listed entry that is frequent and starts no common bigram. */
  function FindTerminator(data: seq<Byte>, cs: seq<Entry>): Option<Byte> {
    if cs == [] then None
    else if QualifiesAsTerminator(data, cs[0]) then Some(cs[0].byte)
    else FindTerminator(data, cs[1..])
  }

  function Terminator(data: seq<Byte>): Option<Byte> {
    FindTerminator(data, Candidates(data))
  }

  function TerminatorSet(data: seq<Byte>): set<int> {
    if Terminator(data).Some? then {Terminator(data).value as int} else {}
  }

  /** The scan for the most diverse unassigned entry, keeping the first one on
      ties because the comparison is strict; -1 while none beats `maxDiversity`. */
  function FindSpace(data: seq<Byte>, cs: seq<Entry>, taken: set<int>, space: int, maxDiversity: int): int {
    if cs == [] then space
    else if cs[0].byte in taken then FindSpace(data, cs[1..], taken, space, maxDiversity)
    else
      var diversity := Diversity(data, cs[0].byte);
      if diversity > maxDiversity then FindSpace(data, cs[1..], taken, cs[0].byte, diversity)
      else FindSpace(data, cs[1..], taken, space, maxDiversity)
  }

  function Space(data: seq<Byte>): int {
    FindSpace(data, Candidates(data), TerminatorSet(data), -1, 0)
  }

  /** The bytes taken by the terminator and the space. */
  function Assigned(data: seq<Byte>): set<int> {
    TerminatorSet(data) + (if Space(data) != -1 then {Space(data)} else {})
  }

  /** The table after pass 2. */
  function SpecialTable(data: seq<Byte>): map<int, string> {
    var t0: map<int, string> := if Terminator(data).Some? then map[Terminator(data).value as int := "[END]"] else map[];
    if Space(data) != -1 then t0[Space(data) := " "] else t0
  }

  // ---------------------------------------------------------------------
  // Passes 3 and 4: ranking the remaining bytes

  /** `charFreq` over the first `n` bytes, skipping taken ones. */
  function CharFreqBefore(data: seq<Byte>, n: nat, taken: set<int>): map<Byte, nat>
    requires n <= |data|
  {
    if n == 0 then map[]
    else
      var m := CharFreqBefore(data, n - 1, taken);
      var b := data[n - 1];
      if b in taken then m else m[b := (if b in m then m[b] else 0) + 1]
  }

  /** `Object.entries(m)` for integer keys: ascending key order from `k` on. */
  function EntriesFrom(m: map<Byte, nat>, k: nat): seq<Entry>
    requires k <= 256
    decreases 256 - k
  {
    if k == 256 then []
    else (if k in m then [Entry(k, m[k])] else []) + EntriesFrom(m, k + 1)
  }

  /** `charCounts`: the unassigned bytes with their counts, most frequent first. */
  function Ranked(data: seq<Byte>): seq<Entry> {
    SortByCount(EntriesFrom(CharFreqBefore(data, |data|, Assigned(data)), 0))
  }

  /** Hands out `CommonChars[i]` to the `i`-th ranked byte unless it is taken. */
  function AssignRanks(table: map<int, string>, taken: set<int>, ranked: seq<Entry>, i: nat, limit: nat): map<int, string>
    requires i <= limit <= |ranked| && limit <= |CommonChars|
    decreases limit - i
  {
    if i == limit then table
    else
      var b := ranked[i].byte;
      if b in taken then AssignRanks(table, taken, ranked, i + 1, limit)
      else AssignRanks(table[b := [CommonChars[i]]], taken + {b}, ranked, i + 1, limit)
  }

  /** The four control labels, each added only when its byte is still free. */
  function WithControls(t: map<int, string>): map<int, string> {
    AddIfAbsent(AddIfAbsent(AddIfAbsent(AddIfAbsent(t, 0x0A, "[LF]"), 0x0D, "[CR]"), 0x01, "[PLAYER]"), 0x02, "[ITEM]")
  }

  /** `if (!table.hasOwnProperty(k)) table[k] = v`. */
  function AddIfAbsent(t: map<int, string>, k: int, v: string): map<int, string> {
    if k in t then t else t[k := v]
  }

  /** The table `generateHeuristicTable` returns. */
  function HeuristicTable(data: seq<Byte>): map<int, string> {
    var ranked := Ranked(data);
    WithControls(AssignRanks(SpecialTable(data), Assigned(data), ranked, 0, Min(|ranked|, |CommonChars|)))
  }

  // ---------------------------------------------------------------------
  // The generator

  /** The arrays hold the statistics of the first pass. */
  predicate Tallied(data: seq<Byte>, freq: array<int>, bigramFreq: array2<int>)
    reads freq, bigramFreq
  {
    && freq.Length == 256 && bigramFreq.Length0 == 256 && bigramFreq.Length1 == 256
    && (forall b :: 0 <= b < 256 ==> freq[b] == Freq(data, b))
    && (forall a, b :: 0 <= a < 256 && 0 <= b < 256 ==> bigramFreq[a, b] == Bigram(data, a, b))
  }

  /** `freq[romData[i]]++`: the counts now cover one more position. */
  method CountByte(romData: seq<Byte>, freq: array<int>, i: nat)
    requires i < PairSpan(romData) && freq.Length == 256
    requires forall b :: 0 <= b < 256 ==> freq[b] == CountBefore(romData, i, b)
    modifies freq
    ensures forall b :: 0 <= b < 256 ==> freq[b] == CountBefore(romData, i + 1, b)
  {
    var byte1 := romData[i];
    freq[byte1] := freq[byte1] + 1;
  }

  /** `bigramFreq[romData[i]][romData[i + 1]]++`: the pair counts now cover
      one more position. */
  method CountPair(romData: seq<Byte>, bigramFreq: array2<int>, i: nat)
    requires i < PairSpan(romData) && bigramFreq.Length0 == 256 && bigramFreq.Length1 == 256
    requires forall a, b :: 0 <= a < 256 && 0 <= b < 256 ==> bigramFreq[a, b] == BigramBefore(romData, i, a, b)
    modifies bigramFreq
    ensures forall a, b :: 0 <= a < 256 && 0 <= b < 256 ==> bigramFreq[a, b] == BigramBefore(romData, i + 1, a, b)
  {
    var byte1 := romData[i];
    var byte2 := romData[i + 1];
    bigramFreq[byte1, byte2] := bigramFreq[byte1, byte2] + 1;
  }

  /** Pass 1 of `generateHeuristicTable`: pair statistics over positions
      `0 .. length - 2`, then the stray `freq[romData.length - 1]++`. */
  method TallyPairs(romData: seq<Byte>) returns (freq: array<int>, bigramFreq: array2<int>)
    ensures fresh(freq) && fresh(bigramFreq)
    ensures Tallied(romData, freq, bigramFreq)
  {
    freq := new int[256](_ => 0);
    bigramFreq := new int[256, 256]((_, _) => 0);
    var i := 0;
    while i < |romData| - 1
      invariant 0 <= i <= PairSpan(romData)
      invariant forall b :: 0 <= b < 256 ==> freq[b] == CountBefore(romData, i, b)
      invariant forall a, b :: 0 <= a < 256 && 0 <= b < 256 ==> bigramFreq[a, b] == BigramBefore(romData, i, a, b)
    {
      CountByte(romData, freq, i);
      CountPair(romData, bigramFreq, i);
      i := i + 1;
    }
    // outside 0..255 the increment touches no slot the later passes read
    if 0 <= |romData| - 1 < 256 {
      freq[|romData| - 1] := freq[|romData| - 1] + 1;
    }
  }

  /** The bytes counted more than 100 times, sorted by count. */
  method CollectCandidates(romData: seq<Byte>, freq: array<int>, bigramFreq: array2<int>) returns (candidates: seq<Entry>)
    requires Tallied(romData, freq, bigramFreq)
    ensures candidates == Candidates(romData)
  {
    candidates := [];
    var b := 0;
    while b < 256
      invariant 0 <= b <= 256
      invariant candidates == CandidatesBelow(romData, b)
    {
      if freq[b] > 100 {
        candidates := candidates + [Entry(b, freq[b])];
      }
      b := b + 1;
    }
    candidates := SortByCount(candidates);
  }

  /** The first candidate seen over 1000 times that starts no bigram seen over
      50 times; -1 when there is none. */
  method PickTerminator(romData: seq<Byte>, candidates: seq<Entry>, freq: array<int>, bigramFreq: array2<int>) returns (terminator: int)
    requires Tallied(romData, freq, bigramFreq)
    requires candidates == Candidates(romData)
    ensures terminator == if Terminator(romData).Some? then Terminator(romData).value as int else -1
  {
    terminator := -1;
    var j := 0;
    while j < |candidates|
      invariant 0 <= j <= |candidates|
      invariant FindTerminator(romData, candidates[j..]) == Terminator(romData)
    {
      var byte := candidates[j].byte;
      var startsCommonBigram := exists c :: 0 <= c < 256 && bigramFreq[byte, c] > 50;
      assert startsCommonBigram == StartsCommonBigram(romData, byte);
      if !startsCommonBigram && candidates[j].count > 1000 {
        terminator := byte;
        return;
      }
      j := j + 1;
    }
  }

  /** The unassigned candidate with the most distinct neighbours, the first on
      ties; -1 when every one has none. */
  method PickSpace(romData: seq<Byte>, candidates: seq<Entry>, freq: array<int>, bigramFreq: array2<int>, assignedBytes: set<int>)
    returns (space: int)
    requires Tallied(romData, freq, bigramFreq)
    requires candidates == Candidates(romData) && assignedBytes == TerminatorSet(romData)
    ensures space == Space(romData)
  {
    space := -1;
    var maxDiversity := 0;
    var j := 0;
    while j < |candidates|
      invariant 0 <= j <= |candidates|
      invariant FindSpace(romData, candidates[j..], assignedBytes, space, maxDiversity) == Space(romData)
    {
      var c := candidates[j];
      if c.byte !in assignedBytes {
        var beforeDiversity := |set r | 0 <= r < 256 && bigramFreq[r, c.byte] > 0|;
        var afterDiversity := |set k | 0 <= k < 256 && bigramFreq[c.byte, k] > 0|;
        assert (set r | 0 <= r < 256 && bigramFreq[r, c.byte] > 0) == (set r: int | 0 <= r < 256 && Bigram(romData, r, c.byte) > 0);
        assert (set k | 0 <= k < 256 && bigramFreq[c.byte, k] > 0) == (set k: int | 0 <= k < 256 && Bigram(romData, c.byte, k) > 0);
        var diversity := beforeDiversity + afterDiversity;
        if diversity > maxDiversity {
          maxDiversity := diversity;
          space := c.byte;
        }
      }
      j := j + 1;
    }
  }

  /** Pass 3: occurrences of every byte outside `assignedBytes`. */
  method CountUnassigned(romData: seq<Byte>, assignedBytes: set<int>) returns (charFreq: map<Byte, nat>)
    ensures charFreq == CharFreqBefore(romData, |romData|, assignedBytes)
  {
    charFreq := map[];
    var i := 0;
    while i < |romData|
      invariant 0 <= i <= |romData|
      invariant charFreq == CharFreqBefore(romData, i, assignedBytes)
    {
      var byte := romData[i];
      if byte !in assignedBytes {
        charFreq := charFreq[byte := (if byte in charFreq then charFreq[byte] else 0) + 1];
      }
      i := i + 1;
    }
  }

  /** Pass 4: the `i`-th ranked byte gets the `i`-th common character unless taken. */
  method MapByRank(table0: map<int, string>, assigned0: set<int>, charCounts: seq<Entry>) returns (table: map<int, string>)
    ensures table == AssignRanks(table0, assigned0, charCounts, 0, Min(|charCounts|, |CommonChars|))
  {
    table := table0;
    var assignedBytes := assigned0;
    var limit := Min(|charCounts|, |CommonChars|);
    var i := 0;
    while i < limit
      invariant 0 <= i <= limit
      invariant AssignRanks(table, assignedBytes, charCounts, i, limit) == AssignRanks(table0, assigned0, charCounts, 0, limit)
    {
      var byte := charCounts[i].byte;
      if byte !in assignedBytes {
        table := table[byte := [CommonChars[i]]];
        assignedBytes := assignedBytes + {byte};
      }
      i := i + 1;
    }
  }

  /** Passes 1 and 2: the terminator and space entries and the bytes they take. */
  method PickSpecialBytes(romData: seq<Byte>) returns (table: map<int, string>, assignedBytes: set<int>)
    ensures table == SpecialTable(romData) && assignedBytes == Assigned(romData)
  {
    var freq, bigramFreq := TallyPairs(romData);
    var candidates := CollectCandidates(romData, freq, bigramFreq);

    var terminator := PickTerminator(romData, candidates, freq, bigramFreq);
    table := map[];
    assignedBytes := {};
    if terminator != -1 {
      table := table[terminator := "[END]"];
      assignedBytes := assignedBytes + {terminator};
    }
    var space := PickSpace(romData, candidates, freq, bigramFreq, assignedBytes);
    if space != -1 {
      table := table[space := " "];
      assignedBytes := assignedBytes + {space};
    }
  }

  /** `generateHeuristicTable(romData)`. */
  method GenerateHeuristicTable(romData: seq<Byte>) returns (table: map<int, string>)
    ensures table == HeuristicTable(romData)
  {
    var assignedBytes;
    table, assignedBytes := PickSpecialBytes(romData);

    var charFreq := CountUnassigned(romData, assignedBytes);
    var charCounts := SortByCount(EntriesFrom(charFreq, 0));
    assert charCounts == Ranked(romData);
    table := MapByRank(table, assignedBytes, charCounts);
    ghost var ranked := table;

    if 0x0A !in table { table := table[0x0A := "[LF]"]; }
    assert table == AddIfAbsent(ranked, 0x0A, "[LF]");
    if 0x0D !in table { table := table[0x0D := "[CR]"]; }
    assert table == AddIfAbsent(AddIfAbsent(ranked, 0x0A, "[LF]"), 0x0D, "[CR]");
    if 0x01 !in table { table := table[0x01 := "[PLAYER]"]; }
    assert table == AddIfAbsent(AddIfAbsent(AddIfAbsent(ranked, 0x0A, "[LF]"), 0x0D, "[CR]"), 0x01, "[PLAYER]");
    if 0x02 !in table { table := table[0x02 := "[ITEM]"]; }
  }
}
