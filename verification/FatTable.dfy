/**
  The File Allocation Table as a heap of linked chains.

  A table is a sequence indexed by cluster number: entries 0 and 1 are reserved, the last
  index is the last cluster of the volume, 0 means free and any value beyond the last index
  ends a chain (fatgen103, section "FAT Data Structure").
*/
module FatTable {

  type Chain = seq<nat>

  // ----- Single chains -----

  predicate InTable(fat: seq<nat>, c: int) {
    2 <= c < |fat|
  }

  predicate IsEoc(fat: seq<nat>, value: nat) {
    value >= |fat|
  }

  ghost predicate AllInTable(fat: seq<nat>, ch: Chain) {
    forall i :: 0 <= i < |ch| ==> InTable(fat, ch[i])
  }

  ghost predicate Follows(fat: seq<nat>, ch: Chain, i: int)
    requires AllInTable(fat, ch) && 0 <= i < |ch| - 1
  {
    fat[ch[i]] == ch[i + 1]
  }

  /** `ch` lists, in order, the clusters met by following links until an end-of-chain mark. */
  ghost predicate IsChain(fat: seq<nat>, ch: Chain) {
    && ch != []
    && AllInTable(fat, ch)
    && (forall i :: 0 <= i < |ch| - 1 ==> Follows(fat, ch, i))
    && IsEoc(fat, fat[ch[|ch| - 1]])
  }

  lemma ChainTail(fat: seq<nat>, ch: Chain, k: nat)
    requires IsChain(fat, ch) && k < |ch|
    ensures IsChain(fat, ch[k..])
  {
    forall i | 0 <= i < |ch[k..]| - 1 ensures Follows(fat, ch[k..], i) {
      assert Follows(fat, ch, k + i);
    }
  }

  /** A chain is determined by its first cluster. */
  lemma {:induction false} ChainUnique(fat: seq<nat>, a: Chain, b: Chain)
    requires IsChain(fat, a) && IsChain(fat, b) && a[0] == b[0]
    ensures a == b
    decreases |a|
  {
    assert |a| > 1 ==> Follows(fat, a, 0);
    assert |b| > 1 ==> Follows(fat, b, 0);
    if |a| > 1 && |b| > 1 {
      ChainTail(fat, a, 1);
      ChainTail(fat, b, 1);
      ChainUnique(fat, a[1..], b[1..]);
      assert a == [a[0]] + a[1..] && b == [b[0]] + b[1..];
    }
  }

  ghost predicate NoRepeats(ch: Chain) {
    forall i, j :: 0 <= i < j < |ch| ==> ch[i] != ch[j]
  }

  /** A chain that ends cannot visit a cluster twice: chains are acyclic. */
  lemma ChainAcyclic(fat: seq<nat>, ch: Chain)
    requires IsChain(fat, ch)
    ensures NoRepeats(ch)
  {
    forall i, j | 0 <= i < j < |ch| ensures ch[i] != ch[j] {
      if ch[i] == ch[j] {
        SharedClusterSharesTail(fat, ch, i, ch, j);
      }
    }
  }

  /** Two chains that share a cluster share everything after it. */
  lemma SharedClusterSharesTail(fat: seq<nat>, a: Chain, i: nat, b: Chain, j: nat)
    requires IsChain(fat, a) && IsChain(fat, b)
    requires i < |a| && j < |b| && a[i] == b[j]
    ensures a[i..] == b[j..]
  {
    ChainTail(fat, a, i);
    ChainTail(fat, b, j);
    ChainUnique(fat, a[i..], b[j..]);
  }

  lemma ChainFrame(fat: seq<nat>, fat': seq<nat>, ch: Chain)
    requires IsChain(fat, ch) && |fat'| == |fat|
    requires forall i :: 0 <= i < |ch| ==> fat'[ch[i]] == fat[ch[i]]
    ensures IsChain(fat', ch)
  {
    forall i | 0 <= i < |ch| - 1 ensures Follows(fat', ch, i) {
      assert Follows(fat, ch, i);
    }
  }

  // ----- The whole table -----

  /** The chains of a table, keyed by their first cluster. */
  type Chains = map<nat, Chain>

  /** The list of the file that starts at `h`; none for an empty file. */
  function ListOf(chains: Chains, h: nat): Chain {
    if h in chains then chains[h] else []
  }

  ghost predicate Owns(chains: Chains, h: nat, c: int) {
    h in chains && c in chains[h]
  }

  ghost predicate Owned(chains: Chains, c: int) {
    exists h :: Owns(chains, h, c)
  }

  ghost predicate AllChains(fat: seq<nat>, chains: Chains) {
    forall h :: h in chains ==> IsChain(fat, chains[h]) && chains[h][0] == h
  }

  ghost predicate Disjoint(chains: Chains) {
    forall h, g, c {:trigger Owns(chains, h, c), Owns(chains, g, c)} ::
      Owns(chains, h, c) && Owns(chains, g, c) ==> h == g
  }

  /** In use means nonzero, and nonzero means on some chain. */
  ghost predicate Covered(fat: seq<nat>, chains: Chains) {
    forall c :: InTable(fat, c) && fat[c] != 0 ==> Owned(chains, c)
  }

  /** Every nonzero entry lies on exactly one acyclic, terminated chain. */
  ghost predicate WellFormed(fat: seq<nat>, chains: Chains) {
    |fat| >= 2 && AllChains(fat, chains) && Disjoint(chains) && Covered(fat, chains)
  }

  lemma OwnedInUse(fat: seq<nat>, chains: Chains, h: nat, c: nat)
    requires AllChains(fat, chains) && Owns(chains, h, c)
    ensures InTable(fat, c) && fat[c] != 0
  {
    var ch := chains[h];
    var i :| 0 <= i < |ch| && ch[i] == c;
    assert IsChain(fat, ch);
    assert i < |ch| - 1 ==> Follows(fat, ch, i) && InTable(fat, ch[i + 1]);
  }

  lemma KeepChain(fat: seq<nat>, chains: Chains, fat': seq<nat>, h: nat)
    requires AllChains(fat, chains) && h in chains && |fat'| == |fat|
    requires forall c: nat :: Owns(chains, h, c) && c < |fat| ==> fat'[c] == fat[c]
    ensures IsChain(fat', chains[h])
  {
    var ch := chains[h];
    forall i | 0 <= i < |ch| ensures fat'[ch[i]] == fat[ch[i]] {
      assert InTable(fat, ch[i]) && Owns(chains, h, ch[i]);
    }
    ChainFrame(fat, fat', ch);
  }

  // ----- What the partition operations do to the heap of chains -----

  /** The run of clusters b, b+1, ..., b+n-1. */
  function Run(b: nat, n: nat): (r: seq<nat>)
    ensures |r| == n && forall i :: 0 <= i < n ==> r[i] == b + i
  {
    seq(n, i requires 0 <= i < n => b + i)
  }

  lemma RunMembers(b: nat, n: nat)
    ensures forall c :: c in Run(b, n) <==> b <= c < b + n
  {
    forall c ensures c in Run(b, n) <==> b <= c < b + n {
      if b <= c < b + n { assert Run(b, n)[c - b] == c; }
    }
  }

  /** The table after linking a free run b..b+n-1 into one new chain. */
  ghost predicate LinksRun(fat: seq<nat>, fat': seq<nat>, b: nat, n: nat) {
    && |fat'| == |fat| && n > 0 && 2 <= b && b + n <= |fat|
    && (forall c :: 0 <= c < |fat| && !(b <= c < b + n) ==> fat'[c] == fat[c])
    && (forall c :: b <= c < b + n - 1 ==> fat'[c] == c + 1)
    && IsEoc(fat, fat'[b + n - 1])
  }

  lemma NewRun(fat: seq<nat>, chains: Chains, fat': seq<nat>, b: nat, n: nat)
    requires WellFormed(fat, chains) && LinksRun(fat, fat', b, n)
    requires forall c :: b <= c < b + n ==> fat[c] == 0
    ensures b !in chains
    ensures WellFormed(fat', chains[b := Run(b, n)])
  {
    NewRunKeepsChains(fat, chains, fat', b, n);
    RunMembers(b, n);
    var chains' := chains[b := Run(b, n)];
    forall c | InTable(fat', c) && fat'[c] != 0 ensures Owned(chains', c) {
      if b <= c < b + n {
        assert Owns(chains', b, c);
      } else {
        var h :| Owns(chains, h, c);
        assert Owns(chains', h, c);
      }
    }
    forall h, g, c | Owns(chains', h, c) && Owns(chains', g, c) ensures h == g {
      if h != b && g != b {
        assert Owns(chains, h, c) && Owns(chains, g, c);
      } else {
        assert h != b ==> Owns(chains, h, c);
        assert g != b ==> Owns(chains, g, c);
      }
    }
  }

  lemma FreeNotHead(fat: seq<nat>, chains: Chains, b: nat)
    requires AllChains(fat, chains) && b < |fat| && fat[b] == 0
    ensures b !in chains
  {
    if b in chains { OwnedInUse(fat, chains, b, b); }
  }

  lemma NewRunKeepsChains(fat: seq<nat>, chains: Chains, fat': seq<nat>, b: nat, n: nat)
    requires AllChains(fat, chains) && LinksRun(fat, fat', b, n)
    requires forall c :: b <= c < b + n ==> fat[c] == 0
    ensures b !in chains
    ensures AllChains(fat', chains[b := Run(b, n)])
    ensures forall h, c :: Owns(chains, h, c) ==> !(b <= c < b + n)
  {
    var chains' := chains[b := Run(b, n)];
    FreeNotHead(fat, chains, b);
    forall h, c | Owns(chains, h, c) ensures !(b <= c < b + n) {
      if b <= c { OwnedInUse(fat, chains, h, c); }
    }
    forall h | h in chains' ensures IsChain(fat', chains'[h]) && chains'[h][0] == h {
      if h != b {
        KeepChain(fat, chains, fat', h);
      } else {
        var r := Run(b, n);
        forall i | 0 <= i < |r| - 1 ensures Follows(fat', r, i) {}
      }
    }
  }

  /** Appending a free cluster to the chain that starts at `h`. */
  lemma AppendCluster(fat: seq<nat>, chains: Chains, h: nat, c: nat, eoc: nat)
    requires WellFormed(fat, chains) && h in chains
    requires InTable(fat, c) && fat[c] == 0 && IsEoc(fat, eoc)
    ensures var ch := chains[h]; ch != [] && ch[|ch| - 1] < |fat|
    ensures var ch := chains[h];
            WellFormed(fat[c := eoc][ch[|ch| - 1] := c], chains[h := ch + [c]])
  {
    LastInTable(fat, chains, h);
    if Owned(chains, c) {
      var g :| Owns(chains, g, c);
      OwnedInUse(fat, chains, g, c);
    }
    AppendKeepsChains(fat, chains, h, c, eoc);
    AppendOwners(chains, h, c);
    AppendCovered(fat, chains, h, c, eoc);
    hide AllChains, Disjoint, Covered;
  }

  lemma LastInTable(fat: seq<nat>, chains: Chains, h: nat)
    requires AllChains(fat, chains) && h in chains
    ensures var ch := chains[h]; ch != [] && InTable(fat, ch[|ch| - 1]) && Owns(chains, h, ch[|ch| - 1])
  {
    assert IsChain(fat, chains[h]);
  }

  lemma AppendCovered(fat: seq<nat>, chains: Chains, h: nat, c: nat, eoc: nat)
    requires Covered(fat, chains) && h in chains && chains[h] != [] && InTable(fat, c)
    requires var last := chains[h][|chains[h]| - 1]; InTable(fat, last) && Owns(chains, h, last)
    requires var chains' := chains[h := chains[h] + [c]];
             forall d :: Owned(chains, d) ==> Owned(chains', d)
    ensures Covered(fat[c := eoc][chains[h][|chains[h]| - 1] := c], chains[h := chains[h] + [c]])
  {
    assert Owns(chains[h := chains[h] + [c]], h, c);
  }

  lemma AppendOwners(chains: Chains, h: nat, c: nat)
    requires Disjoint(chains) && h in chains && !Owned(chains, c)
    ensures var chains' := chains[h := chains[h] + [c]];
            && Disjoint(chains')
            && forall d :: Owned(chains, d) ==> Owned(chains', d)
  {
    var chains' := chains[h := chains[h] + [c]];
    assert forall g :: !Owns(chains, g, c);
    assert forall g, d :: Owns(chains', g, d) <==> Owns(chains, g, d) || (g == h && d == c);
    forall d | Owned(chains, d) ensures Owned(chains', d) {
      var g :| Owns(chains, g, d);
      assert Owns(chains', g, d);
    }
  }

  lemma AppendKeepsChains(fat: seq<nat>, chains: Chains, h: nat, c: nat, eoc: nat)
    requires AllChains(fat, chains) && Disjoint(chains) && h in chains
    requires InTable(fat, c) && fat[c] == 0 && IsEoc(fat, eoc)
    requires chains[h] != [] && chains[h][|chains[h]| - 1] < |fat|
    ensures AllChains(fat[c := eoc][chains[h][|chains[h]| - 1] := c], chains[h := chains[h] + [c]])
  {
    var ch := chains[h];
    var last := ch[|ch| - 1];
    var fat' := fat[c := eoc][last := c];
    var chains' := chains[h := ch + [c]];
    assert Owns(chains, h, last);
    ChainAcyclic(fat, ch);
    forall g | g in chains' ensures IsChain(fat', chains'[g]) && chains'[g][0] == g {
      forall d: nat | Owns(chains, g, d) ensures d != c && (g != h ==> d != last) {
        OwnedInUse(fat, chains, g, d);
      }
      if g != h {
        KeepChain(fat, chains, fat', g);
      } else {
        forall i | 0 <= i < |ch| ensures Follows(fat', ch + [c], i) {
          assert Owns(chains, h, ch[i]);
          assert i < |ch| - 1 ==> Follows(fat, ch, i);
        }
      }
    }
  }

  /** Marking cluster `i` of a chain as its end cuts the chain in two. */
  lemma CutChain(fat: seq<nat>, chains: Chains, h: nat, i: nat, eoc: nat)
    requires WellFormed(fat, chains) && h in chains && i < |chains[h]| - 1 && IsEoc(fat, eoc)
    ensures chains[h][i] < |fat| && chains[h][i + 1] !in chains
    ensures WellFormed(fat[chains[h][i] := eoc], Cut(chains, h, i))
  {
    CutPoint(fat, chains, h, i);
    CutKeepsChains(fat, chains, h, i, eoc);
    CutOwners(chains, h, i);
    hide AllChains, Disjoint;
  }

  /** The chain at `h` is cut behind its cluster `i`. */
  function Cut(chains: Chains, h: nat, i: nat): Chains
    requires h in chains && i < |chains[h]| - 1
  {
    chains[h := chains[h][..i + 1]][chains[h][i + 1] := chains[h][i + 1..]]
  }

  lemma CutPoint(fat: seq<nat>, chains: Chains, h: nat, i: nat)
    requires AllChains(fat, chains) && Disjoint(chains) && h in chains && i < |chains[h]| - 1
    ensures var ch := chains[h];
            ch[i] < |fat| && ch[i + 1] !in chains && NoRepeats(ch) && Owns(chains, h, ch[i])
  {
    var ch := chains[h];
    assert IsChain(fat, ch) && InTable(fat, ch[i]);
    ChainAcyclic(fat, ch);
    var next := ch[i + 1];
    assert Owns(chains, h, ch[i]) && Owns(chains, h, next);
    assert next in chains ==> Owns(chains, next, chains[next][0]);
  }

  lemma CutOwners(chains: Chains, h: nat, i: nat)
    requires h in chains && i < |chains[h]| - 1 && chains[h][i + 1] !in chains
    requires Disjoint(chains) && NoRepeats(chains[h])
    ensures var ch, next := chains[h], chains[h][i + 1];
            var chains' := chains[h := ch[..i + 1]][next := ch[i + 1..]];
            && Disjoint(chains')
            && forall d :: Owned(chains, d) ==> Owned(chains', d)
  {
    var ch, next := chains[h], chains[h][i + 1];
    var front, back := ch[..i + 1], ch[i + 1..];
    var chains' := chains[h := front][next := back];
    assert ch == front + back;
    forall d | Owned(chains, d) ensures Owned(chains', d) {
      var g :| Owns(chains, g, d);
      assert g == h ==> d in front || d in back;
      assert Owns(chains', g, d) || Owns(chains', next, d);
    }
    forall g, k, d | Owns(chains', g, d) && Owns(chains', k, d) ensures g == k {
      assert Owns(chains, if g == next then h else g, d);
      assert Owns(chains, if k == next then h else k, d);
    }
  }

  lemma CutKeepsChains(fat: seq<nat>, chains: Chains, h: nat, i: nat, eoc: nat)
    requires AllChains(fat, chains) && Disjoint(chains) && h in chains
    requires i < |chains[h]| - 1 && IsEoc(fat, eoc)
    requires chains[h][i] < |fat| && chains[h][i + 1] !in chains
    ensures var ch := chains[h];
            AllChains(fat[ch[i] := eoc], chains[h := ch[..i + 1]][ch[i + 1] := ch[i + 1..]])
  {
    var ch := chains[h];
    var fat' := fat[ch[i] := eoc];
    var next := ch[i + 1];
    var chains' := chains[h := ch[..i + 1]][next := ch[i + 1..]];
    ChainAcyclic(fat, ch);
    ChainTail(fat, ch, i + 1);
    ChainFrame(fat, fat', ch[i + 1..]);
    var t := ch[..i + 1];
    forall j | 0 <= j < |t| - 1 ensures Follows(fat', t, j) {
      assert Follows(fat, ch, j);
    }
    forall g | g in chains' ensures IsChain(fat', chains'[g]) && chains'[g][0] == g {
      if g != h && g != next {
        assert Owns(chains, h, ch[i]);
        KeepChain(fat, chains, fat', g);
      }
    }
  }

  /** The table after clearing exactly the entries of one chain. */
  ghost predicate Cleared(fat: seq<nat>, fat': seq<nat>, ch: Chain) {
    && |fat'| == |fat|
    && forall c :: 0 <= c < |fat| ==> fat'[c] == if c in ch then 0 else fat[c]
  }

  /** The other chains of a table are apart from each other and hold what else is in use. */
  lemma OthersCover(fat: seq<nat>, chains: Chains, fat': seq<nat>, h: nat)
    requires Disjoint(chains) && Covered(fat, chains) && h in chains && Cleared(fat, fat', chains[h])
    ensures Disjoint(chains - {h}) && Covered(fat', chains - {h})
  {
    var chains' := chains - {h};
    forall g, k, d | Owns(chains', g, d) && Owns(chains', k, d) ensures g == k {
      assert Owns(chains, g, d) && Owns(chains, k, d);
    }
    forall d | InTable(fat', d) && fat'[d] != 0 ensures Owned(chains', d) {
      var g :| Owns(chains, g, d);
      assert Owns(chains', g, d);
    }
  }

  lemma RemoveChain(fat: seq<nat>, chains: Chains, fat': seq<nat>, h: nat)
    requires WellFormed(fat, chains) && h in chains && Cleared(fat, fat', chains[h])
    ensures WellFormed(fat', chains - {h})
  {
    hide IsChain, Covered;
    OthersCover(fat, chains, fat', h);
    forall g | g in chains && g != h ensures IsChain(fat', chains[g]) {
      forall d: nat | Owns(chains, g, d) && d < |fat| ensures fat'[d] == fat[d] {
        assert d in chains[h] ==> Owns(chains, h, d);
      }
      KeepChain(fat, chains, fat', g);
    }
  }

  // ----- Freeing from an arbitrary table -----

  function NonZero(fat: seq<nat>): set<nat> {
    set c | 2 <= c < |fat| && fat[c] != 0
  }

  lemma ClearShrinks(fat: seq<nat>, c: nat)
    requires InTable(fat, c)
    ensures NonZero(fat[c := 0]) == NonZero(fat) - {c}
  {}

  /** Outcome of freeing from cluster `c`: the table left behind, and whether an end was met. */
  function FreeFrom(fat: seq<nat>, c: nat): (r: (seq<nat>, bool))
    decreases NonZero(fat), c
  {
    if c < 2 || c >= |fat| then (fat, false)
    else
      ClearShrinks(fat, c);
      if IsEoc(fat, fat[c]) then (fat[c := 0], true)
      else if fat[c] == 0 then (fat, false)
      else FreeFrom(fat[c := 0], fat[c])
  }

  /** Where the allocation hint ends up: it only drops below a freed cluster that is under it. */
  function HintAfterFree(fat: seq<nat>, c: nat, hint: nat): nat
    decreases NonZero(fat), c
  {
    if c < 2 || c >= |fat| then hint
    else
      ClearShrinks(fat, c);
      var hint' := if c < hint then c - 1 else hint;
      if IsEoc(fat, fat[c]) || fat[c] == 0 then hint'
      else HintAfterFree(fat[c := 0], fat[c], hint')
  }

  lemma {:induction false} HintAfterFreeBounds(fat: seq<nat>, c: nat, hint: nat)
    requires hint >= 1
    ensures 1 <= HintAfterFree(fat, c, hint) <= hint
    decreases NonZero(fat), c
  {
    if 2 <= c < |fat| && !IsEoc(fat, fat[c]) && fat[c] != 0 {
      ClearShrinks(fat, c);
      HintAfterFreeBounds(fat[c := 0], fat[c], if c < hint then c - 1 else hint);
    }
  }

  /** On any table whatever, freeing changes an entry only to zero. */
  lemma {:induction false} FreeOnlyClears(fat: seq<nat>, c: nat)
    ensures var fat' := FreeFrom(fat, c).0;
            |fat'| == |fat| && forall d :: 0 <= d < |fat| ==> fat'[d] == 0 || fat'[d] == fat[d]
    decreases NonZero(fat), c
  {
    if 2 <= c < |fat| && !IsEoc(fat, fat[c]) && fat[c] != 0 {
      ClearShrinks(fat, c);
      FreeOnlyClears(fat[c := 0], fat[c]);
    }
  }

  /** Freeing a chain clears exactly the entries of that chain. */
  lemma {:induction false} FreeChainClears(fat: seq<nat>, ch: Chain)
    requires IsChain(fat, ch)
    ensures FreeFrom(fat, ch[0]).1 && Cleared(fat, FreeFrom(fat, ch[0]).0, ch)
    decreases |ch|
  {
    assert InTable(fat, ch[0]);
    ClearShrinks(fat, ch[0]);
    if |ch| > 1 {
      assert Follows(fat, ch, 0) && InTable(fat, ch[1]);
      ChainAcyclic(fat, ch);
      ChainTail(fat, ch, 1);
      ChainFrame(fat, fat[ch[0] := 0], ch[1..]);
      FreeChainClears(fat[ch[0] := 0], ch[1..]);
    }
    assert ch == [ch[0]] + ch[1..];
  }

  /** Freeing reports success exactly when the start cluster begins a terminated chain. */
  lemma FreeSucceedsIffChain(fat: seq<nat>, c: nat)
    ensures FreeFrom(fat, c).1 <==> exists ch :: IsChain(fat, ch) && ch[0] == c
  {
    if FreeFrom(fat, c).1 {
      var ch := FreedChain(fat, c);
    }
    if ch :| IsChain(fat, ch) && ch[0] == c {
      FreeChainClears(fat, ch);
    }
  }

  lemma {:induction false} FreedChain(fat: seq<nat>, c: nat) returns (ch: Chain)
    requires FreeFrom(fat, c).1
    ensures IsChain(fat, ch) && ch[0] == c
    decreases NonZero(fat), c
  {
    if IsEoc(fat, fat[c]) {
      ch := [c];
    } else {
      ClearShrinks(fat, c);
      var fat1 := fat[c := 0];
      var t := FreedChain(fat1, fat[c]);
      forall i | 0 <= i < |t| ensures t[i] != c {
        assert InTable(fat1, t[i]);
        assert i < |t| - 1 ==> Follows(fat1, t, i) && InTable(fat1, t[i + 1]);
      }
      ChainFrame(fat1, fat, t);
      ch := [c] + t;
      forall i | 0 <= i < |ch| - 1 ensures Follows(fat, ch, i) {
        assert i > 0 ==> Follows(fat, t, i - 1);
      }
    }
  }

  // ----- Shortening a chain -----

  /** The table after keeping the first k clusters of a chain: a new end mark, and the rest cleared. */
  ghost predicate Shortened(fat: seq<nat>, fat': seq<nat>, ch: Chain, k: nat, eoc: nat)
  {
    && |fat'| == |fat| && k <= |ch|
    && forall c :: 0 <= c < |fat| ==>
         fat'[c] == if c in ch[k..] then 0 else if 0 < k < |ch| && c == ch[k - 1] then eoc else fat[c]
  }

  lemma ShortenChain(fat: seq<nat>, chains: Chains, h: nat, k: nat, eoc: nat)
    requires WellFormed(fat, chains) && h in chains && 0 < k < |chains[h]| && IsEoc(fat, eoc)
    ensures var ch := chains[h];
            && ch[k - 1] < |fat|
            && var (fat', ok) := FreeFrom(fat[ch[k - 1] := eoc], ch[k]);
               ok && WellFormed(fat', chains[h := ch[..k]]) && Shortened(fat, fat', ch, k, eoc)
  {
    hide AllChains, Disjoint, Covered, IsChain, FreeFrom;
    var ch := chains[h];
    CutChain(fat, chains, h, k - 1, eoc);
    CutPoint(fat, chains, h, k - 1);
    var fat1 := fat[ch[k - 1] := eoc];
    var chains1 := chains[h := ch[..k]][ch[k] := ch[k..]];
    HeadOf(fat1, chains1, ch[k]);
    FreeChainClears(fat1, ch[k..]);
    RemoveChain(fat1, chains1, FreeFrom(fat1, ch[k]).0, ch[k]);
    assert chains1 - {ch[k]} == chains[h := ch[..k]];
  }

  lemma HeadOf(fat: seq<nat>, chains: Chains, h: nat)
    requires AllChains(fat, chains) && h in chains
    ensures IsChain(fat, chains[h]) && chains[h][0] == h
  {}

  lemma ReleaseChain(fat: seq<nat>, chains: Chains, h: nat, eoc: nat)
    requires WellFormed(fat, chains) && h in chains
    ensures var (fat', ok) := FreeFrom(fat, h);
            ok && WellFormed(fat', chains - {h}) && Shortened(fat, fat', chains[h], 0, eoc)
  {
    assert IsChain(fat, chains[h]);
    FreeChainClears(fat, chains[h]);
    RemoveChain(fat, chains, FreeFrom(fat, h).0, h);
    assert chains[h][0..] == chains[h];
  }

  // ----- Conservation -----

  ghost function FreeClusters(fat: seq<nat>): set<nat> {
    set c | 2 <= c < |fat| && fat[c] == 0
  }

  ghost function TotalLength(chains: Chains, heads: set<nat>): nat
    requires heads <= chains.Keys
  {
    if heads == {} then 0
    else var h :| h in heads; |chains[h]| + TotalLength(chains, heads - {h})
  }

  ghost function ClustersOf(chains: Chains, heads: set<nat>): set<nat>
    requires heads <= chains.Keys
  {
    set h, c | h in heads && c in chains[h] :: c
  }

  ghost function Elements(ch: Chain): set<nat> {
    set c | c in ch
  }

  lemma {:induction false} ElementCount(ch: Chain)
    requires NoRepeats(ch)
    ensures |Elements(ch)| == |ch|
  {
    if ch == [] {
      assert Elements(ch) == {};
    } else {
      var n := |ch| - 1;
      ElementCount(ch[..n]);
      var init := ch[..n];
      assert ch == init + [ch[n]];
      assert Elements(ch) == Elements(init) + {ch[n]};
      assert ch[n] !in init;
    }
  }

  lemma {:induction false} LengthsCountClusters(chains: Chains, heads: set<nat>)
    requires Disjoint(chains) && heads <= chains.Keys && forall h :: h in chains ==> NoRepeats(chains[h])
    ensures |ClustersOf(chains, heads)| == TotalLength(chains, heads)
    decreases heads
  {
    if heads == {} {
      assert ClustersOf(chains, heads) == {};
    } else {
      var h :| h in heads && TotalLength(chains, heads) == |chains[h]| + TotalLength(chains, heads - {h});
      LengthsCountClusters(chains, heads - {h});
      ElementCount(chains[h]);
      SplitClusters(chains, heads, h);
    }
  }

  lemma SplitClusters(chains: Chains, heads: set<nat>, h: nat)
    requires Disjoint(chains) && heads <= chains.Keys && h in heads
    ensures |ClustersOf(chains, heads)| == |Elements(chains[h])| + |ClustersOf(chains, heads - {h})|
  {
    var here := Elements(chains[h]);
    var rest := ClustersOf(chains, heads - {h});
    assert ClustersOf(chains, heads) == here + rest;
    forall c | c in here ensures c !in rest {
      assert Owns(chains, h, c);
      if g :| g in heads - {h} && c in chains[g] { assert Owns(chains, g, c); }
    }
    assert here !! rest;
  }

  lemma OthersApart(chains: Chains, h: nat)
    requires Disjoint(chains)
    ensures Disjoint(chains - {h})
  {
    var rest := chains - {h};
    forall a, b, c | Owns(rest, a, c) && Owns(rest, b, c) ensures a == b {
      assert Owns(chains, a, c) && Owns(chains, b, c);
    }
  }

  lemma OtherClusters(chains: Chains, h: nat)
    ensures (chains - {h}).Keys == chains.Keys - {h}
    ensures ClustersOf(chains, chains.Keys - {h}) == ClustersOf(chains - {h}, chains.Keys - {h})
  {
    var rest, heads := chains - {h}, chains.Keys - {h};
    assert rest.Keys == heads;
    forall c ensures c in ClustersOf(chains, heads) <==> c in ClustersOf(rest, heads) {
      if g :| g in heads && c in chains[g] { assert c in rest[g]; }
      if g :| g in heads && c in rest[g] { assert c in chains[g]; }
    }
  }

  /** The total length of all chains, with one of them taken out. */
  lemma TotalWithout(chains: Chains, h: nat)
    requires Disjoint(chains) && forall h :: h in chains ==> NoRepeats(chains[h])
    ensures TotalLength(chains, chains.Keys)
            == (if h in chains then |chains[h]| else 0) + TotalLength(chains - {h}, (chains - {h}).Keys)
  {
    hide Disjoint, NoRepeats, ClustersOf;
    var rest := chains - {h};
    OthersApart(chains, h);
    OtherClusters(chains, h);
    LengthsCountClusters(chains, chains.Keys);
    LengthsCountClusters(rest, rest.Keys);
    if h in chains {
      SplitClusters(chains, chains.Keys, h);
      ElementCount(chains[h]);
    } else {
      assert rest == chains;
    }
  }

  /** Free clusters and chain lengths always add up to the clusters of the volume. */
  lemma Conservation(fat: seq<nat>, chains: Chains)
    requires WellFormed(fat, chains)
    ensures |FreeClusters(fat)| + TotalLength(chains, chains.Keys) == |fat| - 2
  {
    forall h | h in chains ensures NoRepeats(chains[h]) {
      ChainAcyclic(fat, chains[h]);
    }
    LengthsCountClusters(chains, chains.Keys);
    var used := ClustersOf(chains, chains.Keys);
    UsedAreChained(fat, chains);
    CountPartition(fat, used, FreeClusters(fat), |fat|);
  }

  lemma UsedAreChained(fat: seq<nat>, chains: Chains)
    requires WellFormed(fat, chains)
    ensures ClustersOf(chains, chains.Keys) == NonZero(fat)
  {
    hide IsChain, Disjoint;
    forall c: nat ensures c in ClustersOf(chains, chains.Keys) <==> c in NonZero(fat) {
      if c in ClustersOf(chains, chains.Keys) {
        var h :| h in chains.Keys && c in chains[h];
        OwnedInUse(fat, chains, h, c);
      }
      if c in NonZero(fat) {
        assert InTable(fat, c);
        var h :| Owns(chains, h, c);
      }
    }
  }

  lemma {:induction false} CountPartition(fat: seq<nat>, used: set<nat>, free: set<nat>, n: nat)
    requires 2 <= n <= |fat|
    requires used == set c | 2 <= c < n && fat[c] != 0
    requires free == set c | 2 <= c < n && fat[c] == 0
    ensures |free| + |used| == n - 2
  {
    if n > 2 {
      CountPartition(fat, used - {n - 1}, free - {n - 1}, n - 1);
    }
  }
}
