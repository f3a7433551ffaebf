/** What the heuristic table promises: which byte becomes the terminator and
    which the space, how the remaining bytes are ranked, and which keys the
    table always holds. */
module TableProperties {
  import opened Common
  import opened TableUtils

  // ---------------------------------------------------------------------
  // Statistics

  /** A byte counted at least once among the first `n` positions occurs there. */
  lemma {:induction false} CountBeforePositive(data: seq<Byte>, n: nat, b: int)
    requires n <= |data| && CountBefore(data, n, b) > 0
    ensures exists i :: 0 <= i < n && data[i] == b
  {
    if data[n - 1] != b {
      CountBeforePositive(data, n - 1, b);
    }
  }

  /** Every pair visited by the first pass is tallied in its bigram slot. */
  lemma {:induction false} BigramBeforeCounts(data: seq<Byte>, n: nat, i: nat)
    requires n <= PairSpan(data) && i < n
    ensures BigramBefore(data, n, data[i], data[i + 1]) > 0
  {
    if i < n - 1 {
      BigramBeforeCounts(data, n - 1, i);
    }
  }

  /** The first pass misses the last byte and counts the slot named by the
      buffer length instead: for `[5, 7]`, byte 7 gets no count and byte 1 gets one. */
  lemma LastByteMiscounted()
    ensures Freq([5, 7], 7) == 0 && Occurrences([5, 7], 7) == 1
    ensures Freq([5, 7], 1) == 1 && Occurrences([5, 7], 1) == 0
  {
  }

  /** A byte counted by the first pass (beyond the stray increment) always has
      a successor, so its diversity is positive. */
  lemma FrequentHasSuccessor(data: seq<Byte>, b: Byte)
    requires Freq(data, b) > 1
    ensures Diversity(data, b) > 0
  {
    CountBeforePositive(data, PairSpan(data), b);
    var i :| 0 <= i < PairSpan(data) && data[i] == b;
    BigramBeforeCounts(data, PairSpan(data), i);
    var after := set c: int | 0 <= c < 256 && Bigram(data, b, c) > 0;
    assert data[i + 1] as int in after;
  }

  // ---------------------------------------------------------------------
  // Candidates

  lemma {:induction false} CandidatesBelowSpec(data: seq<Byte>, n: nat)
    requires n <= 256
    ensures BytesAscending(CandidatesBelow(data, n))
    ensures forall e :: e in CandidatesBelow(data, n) <==> e.byte < n && Freq(data, e.byte) > 100 && e.count == Freq(data, e.byte)
  {
    if n > 0 {
      CandidatesBelowSpec(data, n - 1);
    }
  }

  /** The candidates are exactly the bytes counted more than 100 times, each
      with its count, in `Precedes` order. */
  lemma CandidatesSpec(data: seq<Byte>)
    ensures OrderedByCount(Candidates(data))
    ensures forall e :: e in Candidates(data) <==> Freq(data, e.byte) > 100 && e.count == Freq(data, e.byte)
  {
    var below := CandidatesBelow(data, 256);
    CandidatesBelowSpec(data, 256);
    SortByCountSpec(below);
    forall e ensures e in Candidates(data) <==> e in below {
      assert e in multiset(Candidates(data)) <==> e in multiset(below);
    }
  }

  /** An entry of an ordered list whose bytes are tied to their counts sits at
      a unique position. */
  lemma OrderedPositions(cs: seq<Entry>, i: int, j: int)
    requires OrderedByCount(cs) && 0 <= i < |cs| && 0 <= j < |cs| && i != j
    ensures Precedes(cs[i], cs[j]) <==> i < j
  {
  }

  // ---------------------------------------------------------------------
  // Terminator

  lemma {:induction false} FindTerminatorSpec(data: seq<Byte>, cs: seq<Entry>)
    ensures FindTerminator(data, cs) == None <==> forall j :: 0 <= j < |cs| ==> !QualifiesAsTerminator(data, cs[j])
    ensures FindTerminator(data, cs).Some? ==>
      exists i :: 0 <= i < |cs| && cs[i].byte == FindTerminator(data, cs).value && QualifiesAsTerminator(data, cs[i])
        && forall j :: 0 <= j < i ==> !QualifiesAsTerminator(data, cs[j])
    decreases |cs|
  {
    if cs != [] && !QualifiesAsTerminator(data, cs[0]) {
      var tail := cs[1..];
      FindTerminatorSpec(data, tail);
      if FindTerminator(data, tail).Some? {
        var i :| 0 <= i < |tail| && tail[i].byte == FindTerminator(data, tail).value && QualifiesAsTerminator(data, tail[i])
          && forall j :: 0 <= j < i ==> !QualifiesAsTerminator(data, tail[j]);
        assert cs[i + 1] == tail[i];
        forall j | 0 <= j < i + 1 ensures !QualifiesAsTerminator(data, cs[j]) {
          if j > 0 { assert cs[j] == tail[j - 1]; }
        }
      } else {
        forall j | 0 <= j < |cs| ensures !QualifiesAsTerminator(data, cs[j]) {
          if j > 0 { assert cs[j] == tail[j - 1]; }
        }
      }
    } else if cs != [] {
      assert QualifiesAsTerminator(data, cs[0]);
    }
  }

  /** A byte the terminator rule accepts: seen more than 1000 times and
      followed by no byte more than 50 times. */
  predicate IsTerminatorByte(data: seq<Byte>, b: Byte) {
    Freq(data, b) > 1000 && !StartsCommonBigram(data, b)
  }

  /** `cs` lists the candidates of `data`, as `CandidatesSpec` proves. */
  ghost predicate ListsCandidates(data: seq<Byte>, cs: seq<Entry>) {
    && OrderedByCount(cs)
    && forall e :: e in cs <==> Freq(data, e.byte) > 100 && e.count == Freq(data, e.byte)
  }

  /** An acceptable byte sits in the candidate list, with its count. */
  lemma TerminatorListed(data: seq<Byte>, cs: seq<Entry>, b: Byte)
    requires ListsCandidates(data, cs) && IsTerminatorByte(data, b)
    ensures exists j :: 0 <= j < |cs| && cs[j] == Entry(b, Freq(data, b)) && QualifiesAsTerminator(data, cs[j])
  {
    assert Entry(b, Freq(data, b)) in cs;
  }

  lemma TerminatorNoneIff(data: seq<Byte>, cs: seq<Entry>)
    requires ListsCandidates(data, cs)
    ensures FindTerminator(data, cs) == None <==> forall b: Byte :: !IsTerminatorByte(data, b)
  {
    FindTerminatorSpec(data, cs);
    if FindTerminator(data, cs) == None {
      forall b: Byte ensures !IsTerminatorByte(data, b) {
        if IsTerminatorByte(data, b) {
          TerminatorListed(data, cs, b);
        }
      }
    } else {
      var i :| 0 <= i < |cs| && cs[i].byte == FindTerminator(data, cs).value && QualifiesAsTerminator(data, cs[i]);
      assert cs[i] in cs;
      assert IsTerminatorByte(data, cs[i].byte);
    }
  }

  lemma TerminatorBest(data: seq<Byte>, cs: seq<Entry>)
    requires ListsCandidates(data, cs) && FindTerminator(data, cs).Some?
    ensures var t := FindTerminator(data, cs).value;
      IsTerminatorByte(data, t)
      && forall b: Byte :: IsTerminatorByte(data, b) && b != t ==>
           Freq(data, t) > Freq(data, b) || (Freq(data, t) == Freq(data, b) && t < b)
  {
    FindTerminatorSpec(data, cs);
    var t := FindTerminator(data, cs).value;
    var i :| 0 <= i < |cs| && cs[i].byte == t && QualifiesAsTerminator(data, cs[i])
      && forall j :: 0 <= j < i ==> !QualifiesAsTerminator(data, cs[j]);
    assert cs[i] in cs;
    forall b: Byte | IsTerminatorByte(data, b) && b != t
      ensures Freq(data, t) > Freq(data, b) || (Freq(data, t) == Freq(data, b) && t < b)
    {
      TerminatorListed(data, cs, b);
      var j :| 0 <= j < |cs| && cs[j] == Entry(b, Freq(data, b)) && QualifiesAsTerminator(data, cs[j]);
      assert i < j;
    }
  }

  /** The terminator is the most frequent acceptable byte, the lowest one on
      ties, and there is none exactly when no byte is acceptable. */
  lemma TerminatorChoice(data: seq<Byte>)
    ensures Terminator(data) == None <==> forall b: Byte :: !IsTerminatorByte(data, b)
    ensures Terminator(data).Some? ==>
      var t := Terminator(data).value;
      IsTerminatorByte(data, t)
      && forall b: Byte :: IsTerminatorByte(data, b) && b != t ==>
           Freq(data, t) > Freq(data, b) || (Freq(data, t) == Freq(data, b) && t < b)
  {
    var cs := Candidates(data);
    CandidatesSpec(data);
    TerminatorNoneIff(data, cs);
    if Terminator(data).Some? {
      TerminatorBest(data, cs);
    }
  }

  // ---------------------------------------------------------------------
  // Space

  /** No entry outside `taken` beats `floor`. */
  predicate NoneAbove(data: seq<Byte>, cs: seq<Entry>, taken: set<int>, floor: int) {
    forall j :: 0 <= j < |cs| && cs[j].byte !in taken ==> Diversity(data, cs[j].byte) <= floor
  }

  /** Entry `i` is outside `taken`, beats `floor`, is at least as diverse as
      every entry outside `taken` and strictly more than every earlier one. */
  predicate BestAt(data: seq<Byte>, cs: seq<Entry>, taken: set<int>, floor: int, i: int) {
    && 0 <= i < |cs| && cs[i].byte !in taken && Diversity(data, cs[i].byte) > floor
    && (forall j :: 0 <= j < |cs| && cs[j].byte !in taken ==> Diversity(data, cs[j].byte) <= Diversity(data, cs[i].byte))
    && (forall j :: 0 <= j < i && cs[j].byte !in taken ==> Diversity(data, cs[j].byte) < Diversity(data, cs[i].byte))
  }

  lemma {:induction false} FindSpaceSpec(data: seq<Byte>, cs: seq<Entry>, taken: set<int>, space: int, maxDiversity: int)
    ensures NoneAbove(data, cs, taken, maxDiversity) ==> FindSpace(data, cs, taken, space, maxDiversity) == space
    ensures !NoneAbove(data, cs, taken, maxDiversity) ==>
      exists i :: BestAt(data, cs, taken, maxDiversity, i) && cs[i].byte == FindSpace(data, cs, taken, space, maxDiversity)
    decreases |cs|
  {
    if cs != [] {
      var tail := cs[1..];
      var d0 := Diversity(data, cs[0].byte);
      var skip := cs[0].byte in taken || d0 <= maxDiversity;
      var s' := if skip then space else cs[0].byte as int;
      var m' := if skip then maxDiversity else d0;
      FindSpaceSpec(data, tail, taken, s', m');
      var r := FindSpace(data, cs, taken, space, maxDiversity);
      assert r == FindSpace(data, tail, taken, s', m');
      if !NoneAbove(data, tail, taken, m') {
        var i :| BestAt(data, tail, taken, m', i) && tail[i].byte == r;
        assert cs[i + 1] == tail[i];
        forall j | 0 <= j < |cs| && cs[j].byte !in taken
          ensures Diversity(data, cs[j].byte) <= Diversity(data, cs[i + 1].byte)
          ensures j < i + 1 ==> Diversity(data, cs[j].byte) < Diversity(data, cs[i + 1].byte)
        {
          if j > 0 { assert cs[j] == tail[j - 1]; }
        }
        assert BestAt(data, cs, taken, maxDiversity, i + 1);
      } else if !skip {
        forall j | 0 <= j < |cs| && cs[j].byte !in taken
          ensures Diversity(data, cs[j].byte) <= d0
        {
          if j > 0 { assert cs[j] == tail[j - 1]; }
        }
        assert BestAt(data, cs, taken, maxDiversity, 0);
      } else {
        forall j | 0 <= j < |cs| && cs[j].byte !in taken
          ensures Diversity(data, cs[j].byte) <= maxDiversity
        {
          if j > 0 { assert cs[j] == tail[j - 1]; }
        }
      }
    }
  }

  /** A byte the space rule considers: a candidate other than the terminator. */
  predicate IsSpaceCandidate(data: seq<Byte>, b: Byte) {
    Freq(data, b) > 100 && b as int !in TerminatorSet(data)
  }

  /** A byte the space scan considers when `taken` is already assigned. */
  predicate Considered(data: seq<Byte>, taken: set<int>, b: Byte) {
    Freq(data, b) > 100 && b as int !in taken
  }

  /** A considered byte is listed and beats diversity 0. */
  lemma ConsideredListed(data: seq<Byte>, cs: seq<Entry>, taken: set<int>, b: Byte)
    requires ListsCandidates(data, cs) && Considered(data, taken, b)
    ensures exists j :: 0 <= j < |cs| && cs[j] == Entry(b, Freq(data, b))
    ensures !NoneAbove(data, cs, taken, 0)
  {
    FrequentHasSuccessor(data, b);
    assert Entry(b, Freq(data, b)) in cs;
  }

  lemma SpaceNoneIff(data: seq<Byte>, cs: seq<Entry>, taken: set<int>)
    requires ListsCandidates(data, cs)
    ensures FindSpace(data, cs, taken, -1, 0) == -1 <==> forall b: Byte :: !Considered(data, taken, b)
  {
    FindSpaceSpec(data, cs, taken, -1, 0);
    if NoneAbove(data, cs, taken, 0) {
      forall b: Byte ensures !Considered(data, taken, b) {
        if Considered(data, taken, b) {
          ConsideredListed(data, cs, taken, b);
        }
      }
    } else {
      var i :| BestAt(data, cs, taken, 0, i) && cs[i].byte == FindSpace(data, cs, taken, -1, 0);
      assert cs[i] in cs;
      assert Considered(data, taken, cs[i].byte);
    }
  }

  lemma SpaceBest(data: seq<Byte>, cs: seq<Entry>, taken: set<int>)
    requires ListsCandidates(data, cs) && !NoneAbove(data, cs, taken, 0)
    ensures var r := FindSpace(data, cs, taken, -1, 0);
      0 <= r < 256
      && var s: Byte := r;
      Considered(data, taken, s)
      && forall b: Byte :: Considered(data, taken, b) && b != s ==>
           Diversity(data, b) < Diversity(data, s)
           || (Diversity(data, b) == Diversity(data, s) && Precedes(Entry(s, Freq(data, s)), Entry(b, Freq(data, b))))
  {
    FindSpaceSpec(data, cs, taken, -1, 0);
    var i :| BestAt(data, cs, taken, 0, i) && cs[i].byte == FindSpace(data, cs, taken, -1, 0);
    var s: Byte := cs[i].byte;
    assert cs[i] in cs;
    forall b: Byte | Considered(data, taken, b) && b != s
      ensures Diversity(data, b) < Diversity(data, s)
        || (Diversity(data, b) == Diversity(data, s) && Precedes(Entry(s, Freq(data, s)), Entry(b, Freq(data, b))))
    {
      ConsideredListed(data, cs, taken, b);
      var j :| 0 <= j < |cs| && cs[j] == Entry(b, Freq(data, b));
      if Diversity(data, b) == Diversity(data, s) {
        assert i < j;
      }
    }
  }

  /** The space is the considered byte with the most distinct neighbours, the
      earliest in candidate order on ties; every considered byte has a
      neighbour, so there is a space exactly when there is a considered byte. */
  lemma SpaceChoice(data: seq<Byte>)
    ensures Space(data) == -1 <==> forall b: Byte :: !IsSpaceCandidate(data, b)
    ensures Space(data) != -1 ==>
      0 <= Space(data) < 256
      && var s: Byte := Space(data);
      IsSpaceCandidate(data, s)
      && forall b: Byte :: IsSpaceCandidate(data, b) && b != s ==>
           Diversity(data, b) < Diversity(data, s)
           || (Diversity(data, b) == Diversity(data, s) && Precedes(Entry(s, Freq(data, s)), Entry(b, Freq(data, b))))
  {
    var cs := Candidates(data);
    var taken := TerminatorSet(data);
    CandidatesSpec(data);
    assert forall b: Byte :: IsSpaceCandidate(data, b) == Considered(data, taken, b);
    SpaceNoneIff(data, cs, taken);
    FindSpaceSpec(data, cs, taken, -1, 0);
    if !NoneAbove(data, cs, taken, 0) {
      SpaceBest(data, cs, taken);
    }
  }

  /** Terminator and space are distinct bytes. */
  lemma SpecialTableSpec(data: seq<Byte>)
    ensures SpecialTable(data).Keys == Assigned(data)
    ensures forall key :: key in Assigned(data) ==> 0 <= key < 256
    ensures Terminator(data).Some? ==> SpecialTable(data)[Terminator(data).value as int] == "[END]"
    ensures Space(data) != -1 ==> Space(data) !in TerminatorSet(data) && SpecialTable(data)[Space(data)] == " "
  {
    SpaceChoice(data);
  }

  // ---------------------------------------------------------------------
  // Ranking

  lemma {:induction false} CharFreqSpec(data: seq<Byte>, n: nat, taken: set<int>)
    requires n <= |data|
    ensures forall b: Byte :: b in CharFreqBefore(data, n, taken) <==> b as int !in taken && CountBefore(data, n, b) > 0
    ensures forall b: Byte :: b in CharFreqBefore(data, n, taken) ==> CharFreqBefore(data, n, taken)[b] == CountBefore(data, n, b)
  {
    if n > 0 {
      CharFreqSpec(data, n - 1, taken);
    }
  }

  lemma {:induction false} EntriesFromSpec(m: map<Byte, nat>, k: nat)
    requires k <= 256
    ensures BytesAscending(EntriesFrom(m, k))
    ensures forall e :: e in EntriesFrom(m, k) <==> k <= e.byte && e.byte in m && e.count == m[e.byte]
    decreases 256 - k
  {
    if k < 256 {
      EntriesFromSpec(m, k + 1);
    }
  }

  /** The ranking lists every unassigned byte of the buffer once, with its
      full occurrence count, most frequent first and ascending on ties. */
  lemma RankedSpec(data: seq<Byte>)
    ensures OrderedByCount(Ranked(data))
    ensures forall e :: e in Ranked(data) <==> e.byte as int !in Assigned(data) && e.count == Occurrences(data, e.byte) && e.count > 0
    ensures forall k, l :: 0 <= k < l < |Ranked(data)| ==> Ranked(data)[k].byte != Ranked(data)[l].byte
  {
    var m := CharFreqBefore(data, |data|, Assigned(data));
    var entries := EntriesFrom(m, 0);
    CharFreqSpec(data, |data|, Assigned(data));
    EntriesFromSpec(m, 0);
    SortByCountSpec(entries);
    forall e ensures e in Ranked(data) <==> e in entries {
      assert e in multiset(Ranked(data)) <==> e in multiset(entries);
    }
    forall k, l | 0 <= k < l < |Ranked(data)| ensures Ranked(data)[k].byte != Ranked(data)[l].byte {
      assert Ranked(data)[k] in Ranked(data) && Ranked(data)[l] in Ranked(data);
    }
  }

  lemma {:induction false} AssignRanksSpec(table: map<int, string>, taken: set<int>, ranked: seq<Entry>, i: nat, limit: nat)
    requires i <= limit <= |ranked| && limit <= |CommonChars|
    requires table.Keys <= taken
    requires forall k :: i <= k < limit ==> ranked[k].byte as int !in taken
    requires forall k, l :: i <= k < l < limit ==> ranked[k].byte != ranked[l].byte
    ensures var r := AssignRanks(table, taken, ranked, i, limit);
      && (forall key :: key in table ==> key in r && r[key] == table[key])
      && (forall k :: i <= k < limit ==> ranked[k].byte as int in r && r[ranked[k].byte as int] == [CommonChars[k]])
      && (forall key :: key in r ==> key in table || exists k :: i <= k < limit && ranked[k].byte as int == key)
    decreases limit - i
  {
    if i < limit {
      var b := ranked[i].byte as int;
      AssignRanksSpec(table[b := [CommonChars[i]]], taken + {b}, ranked, i + 1, limit);
    }
  }

  // ---------------------------------------------------------------------
  // The table

  /** The bytes mapped by rank: the first `min(|ranking|, 74)` ranked bytes. */
  function RankedBytes(data: seq<Byte>): set<int> {
    var ranked := Ranked(data);
    set k | 0 <= k < Min(|ranked|, |CommonChars|) :: ranked[k].byte as int
  }

  /** The table after pass 4. */
  function RankedTable(data: seq<Byte>): map<int, string> {
    var ranked := Ranked(data);
    AssignRanks(SpecialTable(data), Assigned(data), ranked, 0, Min(|ranked|, |CommonChars|))
  }

  /** Pass 4 keeps the terminator and space entries and adds one
      single-character entry per ranked byte. */
  lemma RankedTableSpec(data: seq<Byte>)
    ensures var r := RankedTable(data);
      && (forall key :: key in r <==> key in Assigned(data) || key in RankedBytes(data))
      && (forall key :: key in Assigned(data) ==> r[key] == SpecialTable(data)[key])
      && (forall k :: 0 <= k < Min(|Ranked(data)|, |CommonChars|) ==> r[Ranked(data)[k].byte as int] == [CommonChars[k]])
      && (forall key :: key in r && key !in Assigned(data) ==> |r[key]| == 1)
  {
    var ranked := Ranked(data);
    var limit := Min(|ranked|, |CommonChars|);
    var special := SpecialTable(data);
    SpecialTableSpec(data);
    RankedSpec(data);
    forall k | 0 <= k < limit ensures ranked[k].byte as int !in Assigned(data) {
      assert ranked[k] in ranked;
    }
    AssignRanksSpec(special, Assigned(data), ranked, 0, limit);
    var r := RankedTable(data);
    forall key | key in r && key !in Assigned(data) ensures |r[key]| == 1 {
      var k :| 0 <= k < limit && ranked[k].byte as int == key;
    }
  }

  /** Adding the control labels keeps every entry and fills in the absent controls. */
  lemma WithControlsSpec(t: map<int, string>)
    ensures var w := WithControls(t);
      && (forall key :: key in w <==> key in t || key in {0x0A, 0x0D, 0x01, 0x02})
      && (forall key :: key in t ==> w[key] == t[key])
      && (0x0A !in t ==> w[0x0A] == "[LF]") && (0x0D !in t ==> w[0x0D] == "[CR]")
      && (0x01 !in t ==> w[0x01] == "[PLAYER]") && (0x02 !in t ==> w[0x02] == "[ITEM]")
  {
  }

  /** The generated table holds the terminator, the space, the ranked bytes
      and the four control bytes, and nothing else; every key is a byte. */
  lemma TableKeys(data: seq<Byte>)
    ensures var t := HeuristicTable(data);
      && (forall key :: key in t <==> key in Assigned(data) || key in RankedBytes(data) || key in {0x0A, 0x0D, 0x01, 0x02})
      && (forall key :: key in t ==> 0 <= key < 256)
  {
    var r := RankedTable(data);
    assert HeuristicTable(data) == WithControls(r);
    SpecialTableSpec(data);
    RankedTableSpec(data);
    WithControlsSpec(r);
  }

  /** The terminator maps to "[END]" and no other byte does; the space maps
      to " " and the `k`-th ranked byte to the `k`-th common character. */
  lemma TableValues(data: seq<Byte>)
    ensures var t := HeuristicTable(data);
      && (forall key :: key in t ==> (t[key] == "[END]" <==> Terminator(data).Some? && Terminator(data).value as int == key))
      && (Space(data) != -1 ==> Space(data) in t && t[Space(data)] == " ")
      && (forall k :: 0 <= k < Min(|Ranked(data)|, |CommonChars|) ==>
            Ranked(data)[k].byte as int in t && t[Ranked(data)[k].byte as int] == [CommonChars[k]])
  {
    TableEndValues(data);
    TableSpaceValue(data);
    TableRankValues(data);
  }

  lemma TableEndValues(data: seq<Byte>)
    ensures var t := HeuristicTable(data);
      forall key :: key in t ==> (t[key] == "[END]" <==> Terminator(data).Some? && Terminator(data).value as int == key)
  {
    var r := RankedTable(data);
    assert HeuristicTable(data) == WithControls(r);
    SpecialTableSpec(data);
    RankedTableSpec(data);
    WithControlsSpec(r);
    var t := HeuristicTable(data);
    forall key | key in t ensures t[key] == "[END]" <==> Terminator(data).Some? && Terminator(data).value as int == key {
      if key in Assigned(data) {
        assert t[key] == SpecialTable(data)[key];
      } else if key in r {
        assert |t[key]| == 1;
      }
    }
  }

  lemma TableSpaceValue(data: seq<Byte>)
    ensures var t := HeuristicTable(data);
      Space(data) != -1 ==> Space(data) in t && t[Space(data)] == " "
  {
    var r := RankedTable(data);
    assert HeuristicTable(data) == WithControls(r);
    SpecialTableSpec(data);
    RankedTableSpec(data);
    WithControlsSpec(r);
  }

  lemma TableRankValues(data: seq<Byte>)
    ensures var t := HeuristicTable(data);
      forall k :: 0 <= k < Min(|Ranked(data)|, |CommonChars|) ==>
        Ranked(data)[k].byte as int in t && t[Ranked(data)[k].byte as int] == [CommonChars[k]]
  {
    var r := RankedTable(data);
    assert HeuristicTable(data) == WithControls(r);
    RankedTableSpec(data);
    WithControlsSpec(r);
  }

  /** Each control byte carries its label unless the terminator, the space
      or a ranked byte took it first. */
  lemma TableControls(data: seq<Byte>)
    ensures var t := HeuristicTable(data);
      && (0x0A !in Assigned(data) + RankedBytes(data) ==> t[0x0A] == "[LF]")
      && (0x0D !in Assigned(data) + RankedBytes(data) ==> t[0x0D] == "[CR]")
      && (0x01 !in Assigned(data) + RankedBytes(data) ==> t[0x01] == "[PLAYER]")
      && (0x02 !in Assigned(data) + RankedBytes(data) ==> t[0x02] == "[ITEM]")
  {
    var r := RankedTable(data);
    assert HeuristicTable(data) == WithControls(r);
    RankedTableSpec(data);
    WithControlsSpec(r);
  }

  // ---------------------------------------------------------------------
  // An empty buffer

  lemma {:induction false} NoCandidatesInEmpty(n: nat)
    requires n <= 256
    ensures CandidatesBelow([], n) == []
  {
    if n > 0 {
      NoCandidatesInEmpty(n - 1);
    }
  }

  lemma {:induction false} NoEntriesInEmptyMap(k: nat)
    requires k <= 256
    ensures EntriesFrom(map[], k) == []
    decreases 256 - k
  {
    if k < 256 {
      NoEntriesInEmptyMap(k + 1);
    }
  }

  /** An empty buffer yields exactly the four control labels. */
  lemma EmptyRomTable()
    ensures HeuristicTable([]) == map[0x0A := "[LF]", 0x0D := "[CR]", 0x01 := "[PLAYER]", 0x02 := "[ITEM]"]
  {
    NoCandidatesInEmpty(256);
    NoEntriesInEmptyMap(0);
  }
}
