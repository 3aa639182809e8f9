/**
  The two representations of an exFAT file's cluster list, an implicit range or a FAT chain,
  and the allocation bitmap that must agree with both.
*/
module ExFatLists {
  import opened FatTable
  import opened ExFatPartition

  ghost predicate Range(ch: Chain) {
    forall i :: 0 <= i < |ch| ==> ch[i] == ch[0] + i
  }

  /** A list as the volume represents it: consecutive clusters, or linked entries. */
  ghost predicate ListOk(fat: seq<nat>, ch: Chain, range: bool) {
    ch != [] && AllInTable(fat, ch) && if range then Range(ch) else XChain(fat, ch)
  }

  ghost predicate AllLists(fat: seq<nat>, chains: Chains, ranges: set<nat>) {
    forall h :: h in chains ==> ListOk(fat, chains[h], h in ranges) && chains[h][0] == h
  }

  /** A bit is set exactly when its cluster lies on some file's list. */
  ghost predicate BitsAgree(fat: seq<nat>, bits: seq<bool>, chains: Chains) {
    && |bits| == |fat| - 2
    && forall c :: InTable(fat, c) ==> (bits[c - 2] <==> Owned(chains, c))
  }

  /** Set bits are the clusters of the files, each on exactly one list of either kind. */
  ghost predicate XWellFormed(fat: seq<nat>, bits: seq<bool>, chains: Chains, ranges: set<nat>) {
    && 2 <= |fat| <= EXFAT_EOC
    && AllLists(fat, chains, ranges) && Disjoint(chains) && BitsAgree(fat, bits, chains)
    && ranges <= chains.Keys
  }

  lemma ListDistinct(fat: seq<nat>, ch: Chain, range: bool)
    requires ListOk(fat, ch, range)
    ensures NoRepeats(ch)
  {
    if !range { ChainAcyclic(fat, ch); }
  }

  // ----- One lemma for every change of a list -----

  /** The lists after the file at `h` gets list `l` (none, when empty). */
  function Replaced(chains: Chains, h: nat, l: Chain): Chains {
    if l == [] then chains - {h} else chains[h := l]
  }

  /** The new list uses only clusters the file had or that were free. */
  ghost predicate Takes(bits: seq<bool>, old_: Chain, l: Chain) {
    forall c :: c in l && c !in old_ ==> 2 <= c < |bits| + 2 && !bits[c - 2]
  }

  /** Exactly the bits of the file's old and new clusters have been brought up to date. */
  ghost predicate BitsFollow(bits: seq<bool>, bits': seq<bool>, old_: Chain, l: Chain) {
    && |bits'| == |bits|
    && forall i :: 0 <= i < |bits| ==> bits'[i] == (i + 2 in l || (bits[i] && i + 2 !in old_))
  }

  /** Entries outside the file's old and new clusters are untouched. */
  ghost predicate FatFollows(fat: seq<nat>, fat': seq<nat>, old_: Chain, l: Chain) {
    && |fat'| == |fat|
    && forall c :: InTable(fat, c) && c !in old_ && c !in l ==> fat'[c] == fat[c]
  }

  /**
    Replacing one file's list keeps the invariant, whichever representation it had and gets, as
    long as the bits, the entries and the clusters taken are those of that file alone.
  */
  lemma ReplaceList(fat: seq<nat>, bits: seq<bool>, chains: Chains, ranges: set<nat>,
                    fat': seq<nat>, bits': seq<bool>, h: nat, l: Chain, range: bool)
    requires XWellFormed(fat, bits, chains, ranges)
    requires (l != [] ==> l[0] == h && ListOk(fat', l, range)) && (l == [] ==> !range)
    requires Takes(bits, ListOf(chains, h), l)
    requires BitsFollow(bits, bits', ListOf(chains, h), l)
    requires FatFollows(fat, fat', ListOf(chains, h), l)
    ensures XWellFormed(fat', bits', Replaced(chains, h, l), if range then ranges + {h} else ranges - {h})
  {
    OthersAvoid(fat, bits, chains, ranges, h, l);
    ReplaceKeepsLists(fat, chains, ranges, fat', h, l, range);
    ReplaceKeepsDisjoint(chains, h, l);
    ReplaceKeepsBits(fat, bits, chains, fat', bits', h, l);
    hide AllLists, Disjoint, BitsAgree;
  }

  lemma OthersAvoid(fat: seq<nat>, bits: seq<bool>, chains: Chains, ranges: set<nat>, h: nat, l: Chain)
    requires XWellFormed(fat, bits, chains, ranges) && Takes(bits, ListOf(chains, h), l)
    ensures forall g, c :: Owns(chains, g, c) && g != h ==> c !in l && c !in ListOf(chains, h)
  {
    forall g, c | Owns(chains, g, c) && g != h ensures c !in l && c !in ListOf(chains, h) {
      assert c in ListOf(chains, h) ==> Owns(chains, h, c);
      OwnedBit(fat, bits, chains, ranges, g, c);
    }
  }

  lemma OwnedBit(fat: seq<nat>, bits: seq<bool>, chains: Chains, ranges: set<nat>, g: nat, c: int)
    requires AllLists(fat, chains, ranges) && BitsAgree(fat, bits, chains) && Owns(chains, g, c)
    ensures InTable(fat, c) && bits[c - 2]
  {
    var i :| 0 <= i < |chains[g]| && chains[g][i] == c;
    assert ListOk(fat, chains[g], g in ranges);
    assert InTable(fat, c) && Owned(chains, c);
  }

  lemma ReplaceKeepsLists(fat: seq<nat>, chains: Chains, ranges: set<nat>, fat': seq<nat>, h: nat, l: Chain, range: bool)
    requires AllLists(fat, chains, ranges) && FatFollows(fat, fat', ListOf(chains, h), l)
    requires forall g, c :: Owns(chains, g, c) && g != h ==> c !in l && c !in ListOf(chains, h)
    requires l != [] ==> l[0] == h && ListOk(fat', l, range)
    ensures AllLists(fat', Replaced(chains, h, l), if range then ranges + {h} else ranges - {h})
  {
    var chains' := Replaced(chains, h, l);
    var ranges' := if range then ranges + {h} else ranges - {h};
    forall g | g in chains' ensures ListOk(fat', chains'[g], g in ranges') && chains'[g][0] == g {
      if g != h {
        KeepList(fat, chains, fat', g, h, l, g in ranges);
      }
    }
  }

  lemma KeepList(fat: seq<nat>, chains: Chains, fat': seq<nat>, g: nat, h: nat, l: Chain, range: bool)
    requires g in chains && g != h && ListOk(fat, chains[g], range)
    requires FatFollows(fat, fat', ListOf(chains, h), l)
    requires forall c :: Owns(chains, g, c) ==> c !in l && c !in ListOf(chains, h)
    ensures ListOk(fat', chains[g], range)
  {
    var ch := chains[g];
    forall i | 0 <= i < |ch| ensures fat'[ch[i]] == fat[ch[i]] && InTable(fat', ch[i]) {
      assert InTable(fat, ch[i]) && Owns(chains, g, ch[i]);
    }
    if !range { ChainFrame(fat, fat', ch); }
  }

  lemma ReplaceKeepsDisjoint(chains: Chains, h: nat, l: Chain)
    requires Disjoint(chains)
    requires forall g, c :: Owns(chains, g, c) && g != h ==> c !in l && c !in ListOf(chains, h)
    ensures Disjoint(Replaced(chains, h, l))
  {
    var chains' := Replaced(chains, h, l);
    forall g, k, c | Owns(chains', g, c) && Owns(chains', k, c) ensures g == k {
      assert g != h ==> Owns(chains, g, c);
      assert k != h ==> Owns(chains, k, c);
    }
  }

  lemma ReplaceKeepsBits(fat: seq<nat>, bits: seq<bool>, chains: Chains, fat': seq<nat>, bits': seq<bool>, h: nat, l: Chain)
    requires BitsAgree(fat, bits, chains) && |fat'| == |fat|
    requires BitsFollow(bits, bits', ListOf(chains, h), l)
    requires forall g, c :: Owns(chains, g, c) && g != h ==> c !in l && c !in ListOf(chains, h)
    ensures BitsAgree(fat', bits', Replaced(chains, h, l))
  {
    var chains' := Replaced(chains, h, l);
    forall c | InTable(fat', c) ensures bits'[c - 2] <==> Owned(chains', c) {
      assert bits'[c - 2] == (c in l || (bits[c - 2] && c !in ListOf(chains, h)));
      assert InTable(fat, c);
      if c in l { assert Owns(chains', h, c); }
      if bits[c - 2] && c !in ListOf(chains, h) {
        var g :| Owns(chains, g, c);
        assert Owns(chains', g, c);
      }
      if Owned(chains', c) {
        var g :| Owns(chains', g, c);
        assert g != h ==> Owns(chains, g, c);
      }
    }
  }

  // ----- What the invariant says about one list -----

  lemma ListFacts(fat: seq<nat>, bits: seq<bool>, chains: Chains, ranges: set<nat>, h: nat)
    requires XWellFormed(fat, bits, chains, ranges) && h in chains
    ensures ListOk(fat, chains[h], h in ranges) && NoRepeats(chains[h]) && chains[h][0] == h
    ensures forall c :: InTable(fat, c) && !bits[c - 2] ==> c !in chains[h]
  {
    ListDistinct(fat, chains[h], h in ranges);
    forall c | InTable(fat, c) && !bits[c - 2] ensures c !in chains[h] {
      assert c in chains[h] ==> Owns(chains, h, c);
    }
  }

  lemma NoZeroList(fat: seq<nat>, bits: seq<bool>, chains: Chains, ranges: set<nat>)
    requires XWellFormed(fat, bits, chains, ranges)
    ensures 0 !in chains && 0 !in ranges
  {}

  lemma TableSize(fat: seq<nat>, bits: seq<bool>, chains: Chains, ranges: set<nat>)
    requires XWellFormed(fat, bits, chains, ranges)
    ensures |bits| == |fat| - 2 && |fat| <= EXFAT_EOC
  {}

  lemma FreeNoHead(fat: seq<nat>, bits: seq<bool>, chains: Chains, ranges: set<nat>, c: nat)
    requires XWellFormed(fat, bits, chains, ranges) && InTable(fat, c) && !bits[c - 2]
    ensures c !in chains && c !in ranges
  {
    if c in chains {
      ListFacts(fat, bits, chains, ranges, c);
    }
  }

  lemma BitsOfList(fat: seq<nat>, bits: seq<bool>, chains: Chains, ranges: set<nat>, h: nat)
    requires XWellFormed(fat, bits, chains, ranges) && h in chains
    ensures AllSet(bits, chains[h])
  {
    forall i | 0 <= i < |chains[h]| ensures 2 <= chains[h][i] < |bits| + 2 && bits[chains[h][i] - 2] {
      assert Owns(chains, h, chains[h][i]);
      OwnedBit(fat, bits, chains, ranges, h, chains[h][i]);
    }
  }

  lemma RangeHas(ch: Chain, c: int)
    requires ch != [] && Range(ch)
    ensures c in ch <==> ch[0] <= c < ch[0] + |ch|
  {
    if ch[0] <= c < ch[0] + |ch| { assert ch[c - ch[0]] == c; }
  }

  lemma EndInTable(fat: seq<nat>, ch: Chain)
    requires ch != [] && AllInTable(fat, ch)
    ensures InTable(fat, ch[|ch| - 1])
  {}

  /** Linking one more cluster behind the last one. */
  lemma LinkedLast(fat0: seq<nat>, fat: seq<nat>, ch: Chain, c: nat)
    requires ch != [] && |fat| == |fat0| && AllInTable(fat0, ch) && NoRepeats(ch) && InTable(fat0, c) && c !in ch
    requires forall i :: 0 <= i < |ch| - 1 ==> InTable(fat, ch[i]) && fat[ch[i]] == ch[i + 1]
    requires forall d :: InTable(fat, d) && d !in ch ==> fat[d] == fat0[d]
    ensures InTable(fat, ch[|ch| - 1]) && LinkedAfter(fat0, fat[c := EXFAT_EOC][ch[|ch| - 1] := c], ch, c)
  {
    assert InTable(fat0, ch[|ch| - 1]);
  }

  lemma RangeMember(ch: Chain, d: nat)
    requires ch != [] && Range(ch) && ch[0] <= d <= ch[|ch| - 1]
    ensures d in ch
  {
    assert ch[d - ch[0]] == d;
  }

  lemma SplitMember(ch: Chain, k: nat, c: int)
    requires NoRepeats(ch) && k <= |ch|
    ensures c in ch <==> c in ch[..k] || c in ch[k..]
    ensures !(c in ch[..k] && c in ch[k..])
  {
    assert ch == ch[..k] + ch[k..];
  }

  lemma PrefixTakes(bits: seq<bool>, ch: Chain, k: nat)
    requires k <= |ch|
    ensures Takes(bits, ch, ch[..k])
  {}

  lemma NothingReleased(bits: seq<bool>, ch: Chain)
    ensures BitsReleased(bits, bits, ch[|ch|..])
  {}

  // ----- Growing a list -----

  /** A free run becomes the range of an empty file. */
  lemma NewRange(fat: seq<nat>, bits: seq<bool>, chains: Chains, ranges: set<nat>, b: nat, n: nat)
    requires XWellFormed(fat, bits, chains, ranges) && b >= 2 && n > 0 && ClearRun(bits, b - 2, n)
    ensures XWellFormed(fat, SetRun(bits, b - 2, n, true), chains[b := Run(b, n)], ranges + {b})
    ensures b !in chains && b !in ranges
  {
    hide XWellFormed;
    var bits' := SetRun(bits, b - 2, n, true);
    TableSize(fat, bits, chains, ranges);
    FreeNoHead(fat, bits, chains, ranges, b);
    SetRunBits(bits, b - 2, n, true);
    RunMembers(b, n);
    ReplaceList(fat, bits, chains, ranges, fat, bits', b, Run(b, n), true);
  }

  lemma SetOne(bits: seq<bool>, b: nat)
    requires b < |bits|
    ensures SetRun(bits, b, 1, true) == bits[b := true]
  {
    SetRunBits(bits, b, 1, true);
  }

  lemma ExtendRange(fat: seq<nat>, bits: seq<bool>, chains: Chains, ranges: set<nat>, head: nat, c: nat)
    requires XWellFormed(fat, bits, chains, ranges) && InTable(fat, c) && !bits[c - 2]
    requires head in chains && head in ranges && chains[head] != [] && c == chains[head][|chains[head]| - 1] + 1
    ensures XWellFormed(fat, bits[c - 2 := true], chains[head := chains[head] + [c]], ranges + {head})
  {
    ListFacts(fat, bits, chains, ranges, head);
    TableSize(fat, bits, chains, ranges);
    hide XWellFormed, ListOk, Takes, BitsFollow, FatFollows;
    RangeExtended(fat, chains[head], c);
    OneMore(fat, bits, chains[head], c);
    ReplaceList(fat, bits, chains, ranges, fat, bits[c - 2 := true], head, chains[head] + [c], true);
  }

  lemma RangeExtended(fat: seq<nat>, ch: Chain, c: nat)
    requires ListOk(fat, ch, true) && InTable(fat, c) && c == ch[|ch| - 1] + 1
    ensures ListOk(fat, ch + [c], true)
  {}

  /** The bitmap after one cluster is added to a list. */
  lemma OneMore(fat: seq<nat>, bits: seq<bool>, ch: Chain, c: nat)
    requires InTable(fat, c) && |bits| == |fat| - 2 && !bits[c - 2]
    requires forall d :: d in ch ==> 2 <= d < |fat| && bits[d - 2]
    ensures Takes(bits, ch, ch + [c]) && BitsFollow(bits, bits[c - 2 := true], ch, ch + [c])
    ensures FatFollows(fat, fat, ch, ch + [c])
  {}

  /** The entries after linking cluster c behind the list, all earlier links in place. */
  ghost predicate LinkedAfter(fat: seq<nat>, fat': seq<nat>, ch: Chain, c: nat)
    requires ch != []
  {
    && |fat'| == |fat| && AllInTable(fat, ch) && InTable(fat, c)
    && (forall i :: 0 <= i < |ch| - 1 ==> fat'[ch[i]] == ch[i + 1])
    && fat'[ch[|ch| - 1]] == c && fat'[c] == EXFAT_EOC
    && forall d :: InTable(fat, d) && d !in ch && d != c ==> fat'[d] == fat[d]
  }

  /** Links inside the list, after LinkRange when it was a range. */
  lemma LinksInside(fat0: seq<nat>, fat: seq<nat>, ch: Chain, range: bool)
    requires ch != [] && |fat| == |fat0| && AllInTable(fat0, ch)
    requires if range then
        Range(ch) && forall c :: 0 <= c < |fat| ==>
          fat[c] == if ch[0] <= c < ch[|ch| - 1] then c + 1 else fat0[c]
      else fat == fat0 && XChain(fat, ch)
    ensures forall i :: 0 <= i < |ch| - 1 ==> InTable(fat, ch[i]) && fat[ch[i]] == ch[i + 1]
    ensures forall d :: InTable(fat, d) && d !in ch ==> fat[d] == fat0[d]
  {
    forall i | 0 <= i < |ch| - 1 ensures InTable(fat, ch[i]) && fat[ch[i]] == ch[i + 1] {
      assert InTable(fat0, ch[i]);
      if !range { assert Follows(fat, ch, i); }
    }
    if range {
      forall d | InTable(fat, d) && d !in ch ensures fat[d] == fat0[d] {
        if ch[0] <= d < ch[|ch| - 1] { RangeMember(ch, d); }
      }
    }
  }

  lemma GrowChain(fat: seq<nat>, bits: seq<bool>, chains: Chains, ranges: set<nat>, fat': seq<nat>, head: nat, c: nat)
    requires XWellFormed(fat, bits, chains, ranges) && InTable(fat, c) && !bits[c - 2]
    requires head in chains && chains[head] != [] && LinkedAfter(fat, fat', chains[head], c)
    ensures XWellFormed(fat', bits[c - 2 := true], chains[head := chains[head] + [c]], ranges - {head})
  {
    ListFacts(fat, bits, chains, ranges, head);
    var ch := chains[head];
    var l := ch + [c];
    forall i | 0 <= i < |l| ensures InTable(fat', l[i]) {
      assert i < |ch| ==> InTable(fat, ch[i]);
    }
    forall i | 0 <= i < |l| - 1 ensures Follows(fat', l, i) {}
    ReplaceList(fat, bits, chains, ranges, fat', bits[c - 2 := true], head, l, false);
  }

  // ----- Conservation -----

  predicate Used(bits: seq<bool>, c: nat) {
    2 <= c < |bits| + 2 && bits[c - 2]
  }

  function UsedClusters(bits: seq<bool>, n: nat): set<nat>
    requires n <= |bits|
  {
    set c: nat | c < n + 2 && Used(bits, c)
  }

  /** Free clusters and the lengths of all lists always add up to the clusters of the volume. */
  lemma ListsAndFreeAddUp(fat: seq<nat>, bits: seq<bool>, chains: Chains, ranges: set<nat>)
    requires XWellFormed(fat, bits, chains, ranges)
    ensures |FreeBits(bits, |bits|)| + TotalLength(chains, chains.Keys) == |bits|
  {
    forall h | h in chains ensures NoRepeats(chains[h]) {
      ListDistinct(fat, chains[h], h in ranges);
    }
    LengthsCountClusters(chains, chains.Keys);
    forall c | c in ClustersOf(chains, chains.Keys) ensures c in UsedClusters(bits, |bits|) {
      var h :| h in chains.Keys && c in chains[h];
      OwnedBit(fat, bits, chains, ranges, h, c);
    }
    forall c | c in UsedClusters(bits, |bits|) ensures c in ClustersOf(chains, chains.Keys) {
      assert InTable(fat, c);
      var h :| Owns(chains, h, c);
    }
    assert ClustersOf(chains, chains.Keys) == UsedClusters(bits, |bits|);
    UsedAndFree(bits, |bits|);
  }

  lemma {:induction false} UsedAndFree(bits: seq<bool>, n: nat)
    requires n <= |bits|
    ensures |UsedClusters(bits, n)| + |FreeBits(bits, n)| == n
  {
    if n > 0 {
      hide UsedClusters, FreeBits;
      UsedAndFree(bits, n - 1);
      UsedGrow(bits, n - 1);
      FreeBitsGrow(bits, n - 1);
      FreeBitsBelow(bits, n - 1, n - 1);
    }
  }

  lemma UsedGrow(bits: seq<bool>, n: nat)
    requires n < |bits|
    ensures |UsedClusters(bits, n + 1)| == |UsedClusters(bits, n)| + if bits[n] then 1 else 0
  {
    assert UsedClusters(bits, n + 1) == if bits[n] then UsedClusters(bits, n) + {n + 2} else UsedClusters(bits, n);
  }

  // ----- The search start -----

  /** With a sound hint, "no space" for one cluster means that no cluster is free. */
  lemma NoSpaceMeansFull(bits: seq<bool>, start: nat)
    requires start < |bits| && !HasRun(bits, start, |bits|, 1) && !HasRun(bits, 0, start, 1)
    ensures forall i :: 0 <= i < |bits| ==> bits[i]
  {
    forall i | 0 <= i < |bits| ensures bits[i] {
      assert !bits[i] ==> ClearRun(bits, i, 1);
    }
  }

  /** Every cluster up to `c` is in use. */
  predicate UsedUpTo(bits: seq<bool>, c: int) {
    forall i :: 0 <= i < |bits| && i + 2 <= c ==> bits[i]
  }

  /** No cluster of the list lies behind `c`, and every cluster up to it is in use. */
  ghost predicate PackedTo(bits: seq<bool>, ch: Chain, c: nat) {
    UsedUpTo(bits, c) && forall i :: 0 <= i < |ch| ==> ch[i] <= c
  }

  lemma UsedUpToNone(bits: seq<bool>)
    ensures UsedUpTo(bits, 0) && UsedUpTo(bits, -1)
  {}

  /** Where nothing free lies behind the search, it finds the lowest free cluster of all. */
  lemma LowestIsNext(bits: seq<bool>, hint: nat, start: nat, from: nat, c: nat)
    requires from != 1 && start < |bits| && c >= 2
    requires from == 0 ==> start == hint && HintSound(bits, hint)
    requires from != 0 ==> start == if from - 2 < |bits| then from - 2 else 0
    requires if HasRun(bits, start, |bits|, 1) then LowestRun(bits, start, |bits|, 1, c - 2)
             else LowestRun(bits, 0, start, 1, c - 2)
    ensures UsedUpTo(bits, from - 1) ==> c >= from && UsedUpTo(bits[c - 2 := true], c)
  {
    if !UsedUpTo(bits, from - 1) {
      return;
    }
    assert !bits[c - 2];
    assert forall i :: 0 <= i < start ==> bits[i];
    assert ClearRun(bits, c - 2, 1);
    forall i | start <= i < c - 2 ensures bits[i] {
      assert !bits[i] ==> ClearRun(bits, i, 1);
    }
  }

  /** A found single cluster becomes the hint without passing over a free one. */
  lemma FindKeepsHint(bits: seq<bool>, hint: nat, c: nat)
    requires HintSound(bits, hint) && hint < |bits| && c >= 2
    requires if HasRun(bits, hint, |bits|, 1) then LowestRun(bits, hint, |bits|, 1, c - 2)
             else LowestRun(bits, 0, hint, 1, c - 2)
    ensures HintSound(bits, c - 2) && hint <= c - 2
  {
    assert !bits[c - 2];
    forall i | hint <= i < c - 2 ensures bits[i] {
      assert !bits[i] ==> ClearRun(bits, i, 1);
    }
  }

  /** Marking a free run used, or a used run free, keeps the hint sound. */
  lemma ModifyKeepsHint(bits: seq<bool>, hint: nat, b: nat, n: nat, value: bool)
    requires HintSound(bits, hint) && n > 0 && b + n <= |bits|
    requires forall i :: b <= i < b + n ==> bits[i] != value
    ensures HintSound(SetRun(bits, b, n, value), HintAfterModify(hint, b, n, value, |bits|))
  {
    SetRunBits(bits, b, n, value);
    assert value ==> !bits[b];
  }

  lemma {:induction false} ReleaseKeepsHint(bits: seq<bool>, bits': seq<bool>, hint: nat, ch: Chain)
    requires HintSound(bits, hint) && BitsReleased(bits, bits', ch)
    requires forall i :: 0 <= i < |ch| ==> ch[i] >= 2
    ensures HintSound(bits', HintAfterRelease(hint, ch)) && HintAfterRelease(hint, ch) <= hint
  {
    HintUnder(hint, ch);
    forall i | 0 <= i < HintAfterRelease(hint, ch) ensures bits'[i] {
      assert i + 2 !in ch;
    }
  }

  lemma {:induction false} HintUnder(hint: nat, ch: Chain)
    requires forall i :: 0 <= i < |ch| ==> ch[i] >= 2
    ensures HintAfterRelease(hint, ch) <= hint
    ensures forall i :: 0 <= i < |ch| ==> HintAfterRelease(hint, ch) <= ch[i] - 2
  {
    if ch != [] { HintUnder(hint, ch[..|ch| - 1]); }
  }

  /** Whatever the search reports, the hint it leaves is sound. */
  lemma FindHint(bits: seq<bool>, hint: nat, count: nat, r: FindResult)
    requires HintSound(bits, hint) && hint < |bits| && count > 0
    requires match r
      case Found(c) => 2 <= c && (if HasRun(bits, hint, |bits|, count) then LowestRun(bits, hint, |bits|, count, c - 2)
                                  else LowestRun(bits, 0, hint, count, c - 2))
      case NoSpace => true
    ensures HintSound(bits, if r.Found? && count == 1 then r.cluster - 2 else hint)
    ensures r.Found? ==> ClearRun(bits, r.cluster - 2, count)
    ensures r.Found? ==> HasRun(bits, hint, |bits|, count) || HasRun(bits, 0, hint, count)
  {
    if r.Found? && count == 1 { FindKeepsHint(bits, hint, r.cluster); }
  }

  lemma FoundRun(bits: seq<bool>, c: nat, n: nat)
    requires c >= 2 && ClearRun(bits, c - 2, n)
    ensures c - 2 + n <= |bits| && forall i :: c - 2 <= i < c - 2 + n ==> !bits[i]
  {}

  // ----- Cutting the tail of a list off -----

  /** Clearing the tail of a range leaves the range of the first k clusters. */
  lemma RangeTail(fat: seq<nat>, bits: seq<bool>, chains: Chains, ranges: set<nat>, hint: nat, h: nat, k: nat)
    requires XWellFormed(fat, bits, chains, ranges) && HintSound(bits, hint)
    requires h in chains && h in ranges && k <= |chains[h]|
    ensures var ch := chains[h];
            && |ch| > 0 && 2 <= h && h - 2 + |ch| <= |bits|
            && (forall i :: h - 2 <= i < h - 2 + |ch| ==> bits[i])
    ensures var ch := chains[h];
            var bits' := SetRun(bits, h - 2 + k, |ch| - k, false);
            && XWellFormed(fat, bits', Replaced(chains, h, ch[..k]), if k == 0 then ranges - {h} else ranges)
            && BitsReleased(bits, bits', ch[k..])
            && (k < |ch| ==> HintSound(bits', HintAfterModify(hint, h - 2 + k, |ch| - k, false, |bits|)))
            && (k == |ch| ==> bits' == bits)
  {
    hide XWellFormed, BitsFollow, BitsReleased, SetRun, HintSound, Range, AllInTable;
    var ch := chains[h];
    TableSize(fat, bits, chains, ranges);
    RangeBits(fat, bits, chains, ranges, h);
    var bits' := SetRun(bits, h - 2 + k, |ch| - k, false);
    RangeTailBits(bits, ch, k);
    RangePrefix(fat, ch, k);
    PrefixTakes(bits, ch, k);
    if k < |ch| { ModifyKeepsHint(bits, hint, h - 2 + k, |ch| - k, false); }
    ReplaceList(fat, bits, chains, ranges, fat, bits', h, ch[..k], k > 0);
    assert k > 0 ==> ranges + {h} == ranges;
  }

  lemma RangePrefix(fat: seq<nat>, ch: Chain, k: nat)
    requires ListOk(fat, ch, true) && k <= |ch|
    ensures k > 0 ==> ListOk(fat, ch[..k], true)
  {}

  lemma RangeBits(fat: seq<nat>, bits: seq<bool>, chains: Chains, ranges: set<nat>, h: nat)
    requires XWellFormed(fat, bits, chains, ranges) && h in chains && h in ranges
    ensures var ch := chains[h];
            && ListOk(fat, ch, true) && ch[0] == h && 2 <= h && h - 2 + |ch| <= |bits|
            && forall i :: h - 2 <= i < h - 2 + |ch| ==> bits[i]
  {
    var ch := chains[h];
    BitsOfList(fat, bits, chains, ranges, h);
    ListFacts(fat, bits, chains, ranges, h);
    assert ch[|ch| - 1] < |bits| + 2 && ch[0] >= 2;
    forall i | h - 2 <= i < h - 2 + |ch| ensures bits[i] {
      assert ch[i + 2 - h] == i + 2;
    }
  }

  lemma RangeTailBits(bits: seq<bool>, ch: Chain, k: nat)
    requires ch != [] && Range(ch) && 2 <= ch[0] && ch[0] - 2 + |ch| <= |bits| && k <= |ch|
    requires forall i :: ch[0] - 2 <= i < ch[0] - 2 + |ch| ==> bits[i]
    ensures var bits' := SetRun(bits, ch[0] - 2 + k, |ch| - k, false);
            BitsFollow(bits, bits', ch, ch[..k]) && BitsReleased(bits, bits', ch[k..]) && (k == |ch| ==> bits' == bits)
  {
    var bits' := SetRun(bits, ch[0] - 2 + k, |ch| - k, false);
    SetRunBits(bits, ch[0] - 2 + k, |ch| - k, false);
    forall i | 0 <= i < |bits|
      ensures bits'[i] == (i + 2 in ch[..k] || (bits[i] && i + 2 !in ch)) && bits'[i] == (bits[i] && i + 2 !in ch[k..])
    {
      RangeHas(ch, i + 2);
      if k > 0 { RangeHas(ch[..k], i + 2); }
      if k < |ch| { RangeHas(ch[k..], i + 2); }
    }
  }

  /** After the new end mark the tail of a chain is a chain of used clusters. */
  lemma ChainTailReady(fat: seq<nat>, bits: seq<bool>, chains: Chains, ranges: set<nat>, h: nat, k: nat)
    requires XWellFormed(fat, bits, chains, ranges) && h in chains && h !in ranges && k < |chains[h]|
    ensures var ch := chains[h];
            && ch[0] == h && AllSet(bits, ch[k..])
            && (k > 0 ==> ch[k - 1] < |fat|)
            && XChain(if k == 0 then fat else fat[ch[k - 1] := EXFAT_EOC], ch[k..])
  {
    var ch := chains[h];
    ListFacts(fat, bits, chains, ranges, h);
    BitsOfList(fat, bits, chains, ranges, h);
    ChainTail(fat, ch, k);
    if k > 0 {
      assert InTable(fat, ch[k - 1]);
      ChainFrame(fat, fat[ch[k - 1] := EXFAT_EOC], ch[k..]);
    }
  }

  /** Releasing the tail of a chain leaves the chain of the first k clusters. */
  lemma ChainTailGone(fat: seq<nat>, bits: seq<bool>, chains: Chains, ranges: set<nat>,
                      fat': seq<nat>, bits': seq<bool>, h: nat, k: nat)
    requires XWellFormed(fat, bits, chains, ranges) && h in chains && h !in ranges && k < |chains[h]|
    requires k > 0 ==> chains[h][k - 1] < |fat|
    requires Cleared(if k == 0 then fat else fat[chains[h][k - 1] := EXFAT_EOC], fat', chains[h][k..])
    requires BitsReleased(bits, bits', chains[h][k..])
    ensures XWellFormed(fat', bits', Replaced(chains, h, chains[h][..k]), ranges)
  {
    hide XWellFormed, BitsFollow, FatFollows, Cleared, XChain, AllSet, NoRepeats, BitsReleased, Takes;
    var ch := chains[h];
    TableSize(fat, bits, chains, ranges);
    ListFacts(fat, bits, chains, ranges, h);
    BitsOfList(fat, bits, chains, ranges, h);
    ChainTailBits(bits, bits', ch, k);
    if k > 0 { ChainTailLinks(fat, fat', ch, k); }
    ChainTailFat(fat, fat', ch, k);
    PrefixTakes(bits, ch, k);
    ReplaceList(fat, bits, chains, ranges, fat', bits', h, ch[..k], false);
    assert ranges - {h} == ranges;
  }

  lemma ChainTailBits(bits: seq<bool>, bits': seq<bool>, ch: Chain, k: nat)
    requires NoRepeats(ch) && AllSet(bits, ch) && k <= |ch| && BitsReleased(bits, bits', ch[k..])
    ensures BitsFollow(bits, bits', ch, ch[..k])
  {
    forall i | 0 <= i < |bits| ensures bits'[i] == (i + 2 in ch[..k] || (bits[i] && i + 2 !in ch)) {
      SplitMember(ch, k, i + 2);
    }
  }

  lemma ChainTailFat(fat: seq<nat>, fat': seq<nat>, ch: Chain, k: nat)
    requires NoRepeats(ch) && k < |ch| && (k > 0 ==> ch[k - 1] < |fat|)
    requires Cleared(if k == 0 then fat else fat[ch[k - 1] := EXFAT_EOC], fat', ch[k..])
    ensures FatFollows(fat, fat', ch, ch[..k])
  {
    forall c | InTable(fat, c) && c !in ch && c !in ch[..k] ensures fat'[c] == fat[c] {
      SplitMember(ch, k, c);
    }
  }

  lemma ChainTailLinks(fat: seq<nat>, fat': seq<nat>, ch: Chain, k: nat)
    requires XChain(fat, ch) && NoRepeats(ch) && 0 < k < |ch| && ch[k - 1] < |fat| && |fat| <= EXFAT_EOC
    requires Cleared(fat[ch[k - 1] := EXFAT_EOC], fat', ch[k..])
    ensures ListOk(fat', ch[..k], false)
  {
    var l := ch[..k];
    forall i | 0 <= i < k ensures fat'[l[i]] == (if i == k - 1 then EXFAT_EOC else ch[i + 1]) && InTable(fat', l[i]) {
      assert InTable(fat, ch[i]);
      SplitMember(ch, k, ch[i]);
      assert l[i] in l;
      assert Follows(fat, ch, i);
    }
    forall i | 0 <= i < |l| - 1 ensures Follows(fat', l, i) {}
  }
}
