/** Cluster chains in a cluster map: what create_chain and remove_chain keep, without the device. */
module FatChain {

  /** What get_fat answers for cluster c when no request fails. */
  function Status(fat: seq<nat>, c: nat): nat {
    if 2 <= c < |fat| then fat[c] else 1
  }

  /** s follows the links of the map from s[0]. */
  ghost predicate IsPath(fat: seq<nat>, s: seq<nat>) {
    && |s| > 0
    && (forall i :: 0 <= i < |s| ==> 2 <= s[i] < |fat|)
    && (forall i :: 0 <= i < |s| - 1 ==> fat[s[i]] == s[i + 1])
  }

  ghost predicate Distinct(s: seq<nat>) {
    forall i, j :: 0 <= i < j < |s| ==> s[i] != s[j]
  }

  /** A whole chain: it ends in a value beyond the last cluster. */
  ghost predicate IsChain(fat: seq<nat>, s: seq<nat>) {
    IsPath(fat, s) && fat[s[|s| - 1]] >= |fat|
  }

  ghost predicate Disjoint(s: seq<nat>, t: seq<nat>) {
    forall c :: c in s ==> c !in t
  }

  /** The allocated clusters are exactly the disjoint chains of the set. */
  ghost predicate Forest(fat: seq<nat>, chains: set<seq<nat>>) {
    && (forall s :: s in chains ==> IsChain(fat, s))
    && (forall s, t :: s in chains && t in chains && s != t ==> Disjoint(s, t))
    && (forall c :: 2 <= c < |fat| && fat[c] != 0 ==> exists s :: s in chains && c in s)
  }

  /** An end mark cannot be met twice on a path, so a chain never revisits a cluster. */
  lemma {:induction false} ChainDistinct(fat: seq<nat>, s: seq<nat>)
    requires IsChain(fat, s)
    ensures Distinct(s)
  {
    if i, j :| 0 <= i < j < |s| && s[i] == s[j] {
      var m := |s| - 1 - j + i;
      assert fat[s[m]] == s[m + 1] < |fat|;
      SameTail(fat, s, i, j, |s| - 1 - j);
    }
  }

  lemma {:induction false} SameTail(fat: seq<nat>, s: seq<nat>, i: nat, j: nat, k: nat)
    requires IsPath(fat, s) && i < j && j + k < |s| && s[i] == s[j]
    ensures s[i + k] == s[j + k]
  {
    if k > 0 {
      SameTail(fat, s, i, j, k - 1);
      assert fat[s[i + k - 1]] == s[i + k] && fat[s[j + k - 1]] == s[j + k];
    }
  }

  // ----- counting free clusters -----

  /** The free entries from cluster i on. */
  function FreeFrom(fat: seq<nat>, i: nat): (k: nat)
    requires i <= |fat|
    ensures k <= |fat| - i
    decreases |fat| - i
  {
    if i == |fat| then 0 else (if fat[i] == 0 then 1 else 0) + FreeFrom(fat, i + 1)
  }

  /** The number of free clusters: the zero entries in 2..|fat|. */
  function FreeCount(fat: seq<nat>): nat
    requires |fat| >= 2
  {
    FreeFrom(fat, 2)
  }

  lemma {:induction false} FreeFromUpdate(fat: seq<nat>, i: nat, c: nat, v: nat)
    requires i <= |fat| && c < |fat|
    ensures FreeFrom(fat[c := v], i) ==
            FreeFrom(fat, i) + if c < i || (fat[c] == 0) == (v == 0) then 0 else if v == 0 then 1 else -1
    decreases |fat| - i
  {
    if i < |fat| {
      FreeFromUpdate(fat, i + 1, c, v);
    }
  }

  /** The count is the number of clusters whose entry is zero. */
  lemma {:induction false} FreeClusters(fat: seq<nat>, i: nat)
    requires i <= |fat|
    ensures FreeFrom(fat, i) == |set c: nat | i <= c < |fat| && fat[c] == 0|
    decreases |fat| - i
  {
    var s := set c: nat | i <= c < |fat| && fat[c] == 0;
    if i < |fat| {
      FreeClusters(fat, i + 1);
      var t := set c: nat | i + 1 <= c < |fat| && fat[c] == 0;
      assert s == if fat[i] == 0 then t + {i} else t;
    } else {
      assert s == {};
    }
  }

  lemma {:induction false} FreeFromNone(fat: seq<nat>, i: nat)
    requires i <= |fat|
    ensures FreeFrom(fat, i) == 0 <==> forall c :: i <= c < |fat| ==> fat[c] != 0
    decreases |fat| - i
  {
    if i < |fat| {
      FreeFromNone(fat, i + 1);
    }
  }

  lemma {:induction false} FreeFromAll(fat: seq<nat>, i: nat, c: nat)
    requires i <= c < |fat| && fat[c] != 0
    ensures FreeFrom(fat, i) < |fat| - i
    decreases |fat| - i
  {
    if i < c {
      FreeFromAll(fat, i + 1, c);
    }
  }

  // ----- remove_chain's loop -----

  datatype Removal = Removal(fat: seq<nat>, ok: bool)

  /** The map after the removal loop from cluster c: every visited cluster becomes free; ok fails on an entry of 1. */
  ghost function RemoveFrom(fat: seq<nat>, c: nat): (r: Removal)
    requires 2 <= c < |fat|
    ensures |r.fat| == |fat|
    decreases |fat| - FreeCount(fat)
  {
    var nxt := fat[c];
    if nxt == 0 then Removal(fat, true)
    else if nxt == 1 then Removal(fat, false)
    else
      FreeFromUpdate(fat, 2, c, 0);
      if nxt < |fat| then RemoveFrom(fat[c := 0], nxt) else Removal(fat[c := 0], true)
  }

  lemma RemoveStep(fat: seq<nat>, c: nat)
    requires 2 <= c < |fat|
    ensures fat[c] == 0 ==> RemoveFrom(fat, c) == Removal(fat, true)
    ensures fat[c] == 1 ==> RemoveFrom(fat, c) == Removal(fat, false)
    ensures 2 <= fat[c] < |fat| ==> RemoveFrom(fat, c) == RemoveFrom(fat[c := 0], fat[c])
    ensures fat[c] >= |fat| >= 2 ==> RemoveFrom(fat, c) == Removal(fat[c := 0], true)
    ensures fat[c] != 0 ==> FreeCount(fat[c := 0]) == FreeCount(fat) + 1 <= |fat| - 2
  {
    FreeFromUpdate(fat, 2, c, 0);
    if fat[c] != 0 {
      FreeFromAll(fat, 2, c);
    }
  }

  /** b is reached from a by following links. */
  ghost predicate Reaches(fat: seq<nat>, a: nat, b: nat) {
    exists p :: IsPath(fat, p) && p[0] == a && p[|p| - 1] == b
  }

  lemma ReachesStep(fat: seq<nat>, c: nat, d: nat)
    requires 2 <= c < |fat| && 2 <= fat[c] < |fat|
    requires Reaches(fat, fat[c], d)
    ensures Reaches(fat, c, d)
  {
    var p :| IsPath(fat, p) && p[0] == fat[c] && p[|p| - 1] == d;
    var q := [c] + p;
    assert IsPath(fat, q) && q[0] == c && q[|q| - 1] == d;
  }

  /** A path that survives zeroing c was a path before. */
  lemma ReachesUnzeroed(fat: seq<nat>, c: nat, a: nat, b: nat)
    requires 2 <= c < |fat| && Reaches(fat[c := 0], a, b)
    ensures Reaches(fat, a, b)
  {
    var p :| IsPath(fat[c := 0], p) && p[0] == a && p[|p| - 1] == b;
    assert IsPath(fat, p);
  }

  /** On any map, cyclic and cross-linked ones included, removal only zeroes entries, and only of clusters reached from c. */
  lemma {:induction false} RemoveFreesOnlyReached(fat: seq<nat>, c: nat, d: nat)
    requires 2 <= c < |fat| && d < |fat|
    ensures RemoveFrom(fat, c).fat[d] == fat[d] || (RemoveFrom(fat, c).fat[d] == 0 && Reaches(fat, c, d))
    decreases |fat| - FreeCount(fat)
  {
    var nxt := fat[c];
    assert IsPath(fat, [c]) && [c][0] == c;
    if nxt >= 2 {
      FreeFromUpdate(fat, 2, c, 0);
      if nxt < |fat| && RemoveFrom(fat, c).fat[d] != fat[d] && d != c {
        RemoveFreesOnlyReached(fat[c := 0], nxt, d);
        ReachesUnzeroed(fat, c, nxt, d);
        ReachesStep(fat, c, d);
      }
      if nxt < |fat| && d == c {
        RemoveFreesOnlyReached(fat[c := 0], nxt, d);
      }
    }
  }

  /** A removal that succeeds frees every cluster reached from c. */
  lemma {:induction false} RemoveFreesReached(fat: seq<nat>, c: nat, p: seq<nat>)
    requires IsPath(fat, p) && p[0] == c && RemoveFrom(fat, c).ok
    ensures RemoveFrom(fat, c).fat[p[|p| - 1]] == 0
    decreases |p|
  {
    var d := p[|p| - 1];
    if d == c {
      if 2 <= fat[c] < |fat| { RemoveFreesOnlyReached(fat[c := 0], fat[c], c); }
    } else if i :| 1 <= i < |p| && p[i] == c {
      RemoveFreesReached(fat, c, p[i..]);
    } else {
      var q := p[1..];
      forall i | 0 <= i < |q| ensures q[i] != c { assert q[i] == p[i + 1]; }
      FreeFromUpdate(fat, 2, c, 0);
      RemoveFreesReached(fat[c := 0], q[0], q);
    }
  }

  /** Entries of 1 stay; a removal fails only if there is one. */
  lemma {:induction false} RemoveKeepsOnes(fat: seq<nat>, c: nat)
    requires 2 <= c < |fat|
    ensures forall d :: 0 <= d < |fat| && fat[d] == 1 ==> RemoveFrom(fat, c).fat[d] == 1
    ensures !RemoveFrom(fat, c).ok ==> exists d :: 2 <= d < |fat| && fat[d] == 1
    decreases |fat| - FreeCount(fat)
  {
    if 2 <= fat[c] < |fat| {
      FreeFromUpdate(fat, 2, c, 0);
      RemoveKeepsOnes(fat[c := 0], fat[c]);
    }
  }

  /** Every cluster in use is reached from c, and none holds the entry 1. */
  ghost predicate ReachesAll(fat: seq<nat>, c: nat) {
    forall d :: 2 <= d < |fat| && fat[d] != 0 ==> fat[d] != 1 && Reaches(fat, c, d)
  }

  ghost predicate AllFree(fat: seq<nat>) {
    forall d :: 2 <= d < |fat| ==> fat[d] == 0
  }

  /** Removal leaves nothing in use exactly if every cluster in use is reached, and none holds the entry 1. */
  lemma RemoveFreesAll(fat: seq<nat>, c: nat)
    requires 2 <= c < |fat|
    ensures AllFree(RemoveFrom(fat, c).fat) <==> ReachesAll(fat, c)
  {
    hide Reaches;
    var r := RemoveFrom(fat, c).fat;
    RemoveKeepsOnes(fat, c);
    if AllFree(r) {
      forall d | 2 <= d < |fat| && fat[d] != 0 ensures fat[d] != 1 && Reaches(fat, c, d) {
        assert r[d] == 0;
        RemoveFreesOnlyReached(fat, c, d);
      }
    }
    if ReachesAll(fat, c) {
      forall d | 2 <= d < |fat| ensures r[d] == 0 {
        if fat[d] == 0 {
          RemoveFreesOnlyReached(fat, c, d);
        } else {
          ReachedIsFreed(fat, c, d);
        }
      }
    }
  }

  lemma ReachedIsFreed(fat: seq<nat>, c: nat, d: nat)
    requires 2 <= c < |fat| && Reaches(fat, c, d) && RemoveFrom(fat, c).ok
    ensures d < |fat| && RemoveFrom(fat, c).fat[d] == 0
  {
    var p :| IsPath(fat, p) && p[0] == c && p[|p| - 1] == d;
    RemoveFreesReached(fat, c, p);
  }

  /** The map with the clusters of s freed. */
  ghost function Zeroed(fat: seq<nat>, s: seq<nat>): (r: seq<nat>)
    ensures |r| == |fat|
    ensures forall c :: 0 <= c < |fat| ==> r[c] == if c in s then 0 else fat[c]
  {
    seq(|fat|, c requires 0 <= c < |fat| => if c in s then 0 else fat[c])
  }

  /** Removing from the head of a chain frees exactly its clusters. */
  lemma {:induction false} RemoveChainZeroes(fat: seq<nat>, s: seq<nat>)
    requires IsChain(fat, s)
    ensures RemoveFrom(fat, s[0]) == Removal(Zeroed(fat, s), true)
    ensures FreeCount(Zeroed(fat, s)) == FreeCount(fat) + |s|
    decreases |s|
  {
    hide Distinct, Zeroed;
    FreeFromUpdate(fat, 2, s[0], 0);
    var fat1 := fat[s[0] := 0];
    ZeroedHead(fat, s);
    if |s| > 1 {
      TailChain(fat, s);
      RemoveChainZeroes(fat1, s[1..]);
    }
  }

  lemma ZeroedHead(fat: seq<nat>, s: seq<nat>)
    requires |s| > 0 && s[0] < |fat|
    ensures Zeroed(fat, s) == if |s| == 1 then fat[s[0] := 0] else Zeroed(fat[s[0] := 0], s[1..])
  {
    assert s == [s[0]] + s[1..];
  }

  /** The rest of a chain is a chain once its head is free. */
  lemma TailChain(fat: seq<nat>, s: seq<nat>)
    requires IsChain(fat, s) && |s| > 1
    ensures IsChain(fat[s[0] := 0], s[1..])
  {
    ChainDistinct(fat, s);
  }

  /** Cutting a chain before s[k]: an end mark on s[k - 1], then the loop from s[k]. */
  lemma RemoveSuffixZeroes(fat: seq<nat>, s: seq<nat>, k: nat, eoc: nat)
    requires IsChain(fat, s) && 0 < k < |s| && eoc >= |fat|
    ensures var cut := fat[s[k - 1] := eoc];
            && RemoveFrom(cut, s[k]) == Removal(Zeroed(cut, s[k..]), true)
            && FreeCount(cut) == FreeCount(fat)
            && FreeCount(Zeroed(cut, s[k..])) == FreeCount(fat) + |s| - k
            && IsChain(Zeroed(cut, s[k..]), s[..k])
  {
    ChainDistinct(fat, s);
    var cut := fat[s[k - 1] := eoc];
    assert IsChain(cut, s[k..]);
    RemoveChainZeroes(cut, s[k..]);
    FreeFromUpdate(fat, 2, s[k - 1], eoc);
  }

  // ----- what the allocator keeps -----

  lemma ChainElsewhere(fat: seq<nat>, fat': seq<nat>, s: seq<nat>)
    requires IsChain(fat, s) && |fat'| == |fat|
    requires forall c :: c in s ==> fat'[c] == fat[c]
    ensures IsChain(fat', s)
  {
    assert forall i :: 0 <= i < |s| ==> s[i] in s;
  }

  lemma ChainHoldsNoFree(fat: seq<nat>, s: seq<nat>, c: nat)
    requires IsChain(fat, s) && c < |fat| && fat[c] == 0
    ensures c !in s
  {
    forall i | 0 <= i < |s|
      ensures fat[s[i]] != 0
    {
      if i < |s| - 1 {
        assert fat[s[i]] == s[i + 1];
      }
    }
  }

  /** Chains untouched by a change, and one chain that replaces another or is new, form the forest of the changed map. */
  lemma ForestReplaced(fat: seq<nat>, fat': seq<nat>, chains: set<seq<nat>>, gone: set<seq<nat>>, s': seq<nat>)
    requires Forest(fat, chains) && |fat'| == |fat| && IsChain(fat', s')
    requires forall t :: t in chains - gone ==> Disjoint(t, s') && Disjoint(s', t)
    requires forall t, c :: t in chains - gone && c in t ==> fat'[c] == fat[c]
    requires forall c :: 2 <= c < |fat| && fat'[c] != 0 && c !in s' ==>
                           fat[c] != 0 && forall t :: t in gone ==> c !in t
    ensures Forest(fat', chains - gone + {s'})
  {
    forall t | t in chains - gone
      ensures IsChain(fat', t)
    {
      ChainElsewhere(fat, fat', t);
    }
    hide IsChain, Disjoint;
    forall c | 2 <= c < |fat| && fat'[c] != 0
      ensures exists t :: t in chains - gone + {s'} && c in t
    {
      if c in s' {
        assert s' in chains - gone + {s'};
      } else {
        var t :| t in chains && c in t;
        assert t in chains - gone + {s'};
      }
    }
  }

  /** A free cluster made an end mark is a chain of its own. */
  lemma ForestNew(fat: seq<nat>, chains: set<seq<nat>>, ncl: nat, eoc: nat)
    requires Forest(fat, chains) && 2 <= ncl < |fat| <= eoc && fat[ncl] == 0
    ensures Forest(fat[ncl := eoc], chains + {[ncl]})
    ensures FreeCount(fat[ncl := eoc]) == FreeCount(fat) - 1
  {
    FreeFromUpdate(fat, 2, ncl, eoc);
    assert IsChain(fat[ncl := eoc], [ncl]);
    hide IsChain;
    forall s | s in chains
      ensures ncl !in s
    {
      ChainHoldsNoFree(fat, s, ncl);
    }
    ForestReplaced(fat, fat[ncl := eoc], chains, {}, [ncl]);
    assert chains - {} == chains;
  }

  /** The map create_chain leaves after stretching s by ncl. */
  ghost function Stretched(fat: seq<nat>, last: nat, ncl: nat, eoc: nat): (r: seq<nat>)
    requires last < |fat| && ncl < |fat|
    ensures |r| == |fat|
  {
    fat[ncl := eoc][last := ncl]
  }

  lemma ChainStretched(fat: seq<nat>, s: seq<nat>, ncl: nat, eoc: nat)
    requires IsChain(fat, s) && 2 <= ncl < |fat| <= eoc && fat[ncl] == 0
    ensures ncl !in s
    ensures IsChain(Stretched(fat, s[|s| - 1], ncl, eoc), s + [ncl])
    ensures FreeCount(Stretched(fat, s[|s| - 1], ncl, eoc)) == FreeCount(fat) - 1
  {
    ChainDistinct(fat, s);
    ChainHoldsNoFree(fat, s, ncl);
    FreeFromUpdate(fat, 2, ncl, eoc);
    FreeFromUpdate(fat[ncl := eoc], 2, s[|s| - 1], ncl);
  }

  lemma MemberStatus(fat: seq<nat>, s: seq<nat>, k: nat)
    requires IsChain(fat, s) && k < |s|
    ensures 2 <= s[k] < |fat|
    ensures fat[s[k]] == if k == |s| - 1 then fat[s[|s| - 1]] else s[k + 1]
    ensures fat[s[k]] >= |fat| <==> k == |s| - 1
  {
  }

  lemma ForestChain(fat: seq<nat>, chains: set<seq<nat>>, s: seq<nat>)
    requires Forest(fat, chains) && s in chains
    ensures IsChain(fat, s) && |s| > 0
  {
  }

  lemma OthersDisjoint(fat: seq<nat>, chains: set<seq<nat>>, s: seq<nat>, t: seq<nat>)
    requires Forest(fat, chains) && s in chains && t in chains && t != s
    ensures Disjoint(t, s) && Disjoint(s, t)
  {
    hide IsChain;
  }

  lemma InMap(fat: seq<nat>, chains: set<seq<nat>>)
    requires Forest(fat, chains)
    ensures forall t, c :: t in chains && c in t ==> 2 <= c < |fat|
  {
    forall t, c | t in chains && c in t
      ensures 2 <= c < |fat|
    {
      assert IsChain(fat, t);
    }
  }

  /** Stretching one chain by a free cluster keeps every other chain. */
  lemma ForestStretched(fat: seq<nat>, chains: set<seq<nat>>, s: seq<nat>, ncl: nat, eoc: nat)
    requires Forest(fat, chains) && s in chains
    requires 2 <= ncl < |fat| <= eoc && fat[ncl] == 0
    ensures Forest(Stretched(fat, s[|s| - 1], ncl, eoc), chains - {s} + {s + [ncl]})
  {
    hide IsChain, FreeFrom, Forest, Distinct;
    ForestChain(fat, chains, s);
    MemberStatus(fat, s, |s| - 1);
    ChainStretched(fat, s, ncl, eoc);
    assert s[|s| - 1] in s;
    forall t | t in chains - {s}
      ensures Disjoint(t, s + [ncl]) && Disjoint(s + [ncl], t) && s[|s| - 1] !in t && ncl !in t
    {
      OthersDisjoint(fat, chains, s, t);
      ForestChain(fat, chains, t);
      ChainHoldsNoFree(fat, t, ncl);
    }
    InMap(fat, chains);
    ForestReplaced(fat, Stretched(fat, s[|s| - 1], ncl, eoc), chains, {s}, s + [ncl]);
  }

  lemma PartsOf(s: seq<nat>, k: nat)
    requires 0 < k <= |s|
    ensures forall c :: c in s <==> c in s[..k] || c in s[k..]
    ensures s[k - 1] in s[..k]
  {
    assert s == s[..k] + s[k..];
    assert s[..k][k - 1] == s[k - 1];
  }

  /** Cutting a chain before s[k] keeps every other chain and the first k clusters. */
  lemma ForestCut(fat: seq<nat>, chains: set<seq<nat>>, s: seq<nat>, k: nat, eoc: nat)
    requires Forest(fat, chains) && s in chains && 0 < k < |s| && eoc >= |fat|
    ensures Forest(Zeroed(fat[s[k - 1] := eoc], s[k..]), chains - {s} + {s[..k]})
  {
    hide IsChain, FreeFrom, RemoveFrom, Forest, Distinct;
    ForestChain(fat, chains, s);
    MemberStatus(fat, s, k - 1);
    var cut := fat[s[k - 1] := eoc];
    var fat' := Zeroed(cut, s[k..]);
    RemoveSuffixZeroes(fat, s, k, eoc);
    PartsOf(s, k);
    forall t | t in chains - {s}
      ensures Disjoint(t, s[..k]) && Disjoint(s[..k], t) && forall c :: c in t ==> c !in s
    {
      OthersDisjoint(fat, chains, s, t);
    }
    InMap(fat, chains);
    forall t, c | t in chains - {s} && c in t
      ensures fat'[c] == fat[c]
    {
    }
    ForestReplaced(fat, fat', chains, {s}, s[..k]);
  }

  /** Removing a whole chain keeps every other chain. */
  lemma ForestRemoved(fat: seq<nat>, chains: set<seq<nat>>, s: seq<nat>)
    requires Forest(fat, chains) && s in chains
    ensures Forest(Zeroed(fat, s), chains - {s})
  {
    var fat' := Zeroed(fat, s);
    forall t | t in chains - {s}
      ensures IsChain(fat', t)
    {
      assert Disjoint(t, s);
      ChainElsewhere(fat, fat', t);
    }
    forall c | 2 <= c < |fat| && fat'[c] != 0
      ensures exists t :: t in chains - {s} && c in t
    {
      var t :| t in chains && c in t;
      assert t in chains - {s};
    }
  }

  // ----- the outcomes of create_chain and remove_chain -----

  /** The cached count is unknown, or it is the number of free entries. */
  ghost predicate CountOk(free: nat, fat: seq<nat>)
    requires |fat| >= 2
  {
    free <= |fat| - 2 ==> free == FreeCount(fat)
  }

  /** The cached count after k clusters of n - 2 were freed one by one: an unknown count stays, another stops at n - 2. */
  function CountUp(free: nat, n: nat, k: int): int {
    if free + 2 > n then free else if free + k + 2 <= n then free + k else n - 2
  }

  /** remove_chain's step on the count. */
  lemma CountOneMore(free: nat, fat: seq<nat>, c: nat)
    requires 2 <= c < |fat| && fat[c] != 0
    ensures FreeCount(fat[c := 0]) == FreeCount(fat) + 1
  {
    FreeFromUpdate(fat, 2, c, 0);
  }

  /** Cluster c is looked at before cluster d when the search starts after scl and wraps from the end to 2. */
  ghost predicate Before(scl: nat, c: nat, d: nat) {
    if c > scl then d <= scl || c < d else d <= scl && c < d
  }

  /** ncl is the first free cluster in search order after scl. */
  ghost predicate FirstFree(fat: seq<nat>, scl: nat, ncl: nat) {
    && 2 <= ncl < |fat| && fat[ncl] == 0
    && forall c :: 2 <= c < |fat| && Before(scl, c, ncl) ==> fat[c] > 1
  }

  ghost predicate NoneFree(fat: seq<nat>) {
    forall c :: 2 <= c < |fat| ==> fat[c] != 0
  }

  /** An entry holds the value 1, which no chain uses. */
  ghost predicate HoldsOne(fat: seq<nat>) {
    exists c :: 2 <= c < |fat| && fat[c] == 1
  }

  /** Stretching starts at a cluster that already has a next one. */
  predicate HasNext(fat: seq<nat>, clst: nat) {
    clst != 0 && 2 <= Status(fat, clst) < |fat|
  }

  /** The map with the free cluster ncl taken, and linked from clst unless clst is 0. */
  ghost function Taken(fat: seq<nat>, clst: nat, ncl: nat, eoc: nat): (r: seq<nat>)
    requires ncl < |fat| && clst < |fat|
    ensures |r| == |fat|
  {
    if clst == 0 then fat[ncl := eoc] else Stretched(fat, clst, ncl, eoc)
  }

  /** Upwards from scl, and from 2 on again, no cluster before ncl is free. */
  lemma NextFree(fat: seq<nat>, scl: nat, ncl: nat)
    requires FirstFree(fat, scl, ncl)
    ensures 2 <= ncl < |fat| && fat[ncl] == 0
    ensures ncl > scl ==> forall c :: 2 <= c && scl < c < ncl ==> fat[c] != 0
    ensures ncl <= scl ==> forall c :: 2 <= c < |fat| && (scl < c || c < ncl) ==> fat[c] != 0
  {
  }

  /** Which cluster create_chain takes: behind clst the next one if it is free; else the first free one after the hint, if
      that is a cluster, or after clst; for a new chain the first free one after the hint. */
  ghost predicate Chosen(fat: seq<nat>, clst: nat, hint: nat, ncl: nat)
    requires |fat| >= 3
  {
    var next := if clst + 1 < |fat| then clst + 1 else 2;
    if clst == 0 then FirstFree(fat, if 0 < hint < |fat| then hint else 1, ncl)
    else if fat[next] == 0 then ncl == next
    else FirstFree(fat, if 2 <= hint < |fat| then hint else clst, ncl)
  }

  /** A taken cluster ends its chain, the one before it leads there, and no other entry differs. */
  lemma TakenEntries(fat: seq<nat>, clst: nat, ncl: nat, eoc: nat)
    requires ncl < |fat| && clst < |fat| && clst != ncl
    ensures var r := Taken(fat, clst, ncl, eoc);
      r[ncl] == eoc && (clst != 0 ==> r[clst] == ncl) && forall c :: 0 <= c < |fat| && c != ncl && (clst == 0 || c != clst) ==> r[c] == fat[c]
  {
  }

  /** What create_chain's answer ncl says about the map and the count before and after. */
  ghost predicate CreateOutcome(fat: seq<nat>, free: nat, clst: nat, ncl: nat, eoc: nat, fat': seq<nat>, free': nat) {
    && (ncl < 2 || HasNext(fat, clst) ==> fat' == fat && free' == free)
    && (ncl == 0 ==> free == 0 || NoneFree(fat))
    && (ncl == 1 ==> HoldsOne(fat) || (clst != 0 && Status(fat, clst) < 2))
    && (clst != 0 && Status(fat, clst) < 2 ==> ncl == 1)
    && (HasNext(fat, clst) ==> ncl == fat[clst])
    && (ncl >= 2 && !HasNext(fat, clst) ==>
          && (clst == 0 || (2 <= clst < |fat| && fat[clst] >= |fat|))
          && free > 0 && ncl < |fat| && fat[ncl] == 0
          && fat' == Taken(fat, clst, ncl, eoc)
          && free' == free - if free + 2 <= |fat| then 1 else 0)
  }

  /** On a map without damage and with a true or unknown count, the answer 0 means exactly that no cluster is free. */
  lemma ZeroMeansFull(fat: seq<nat>, free: nat, clst: nat, ncl: nat, eoc: nat, fat': seq<nat>, free': nat)
    requires |fat| >= 2 && CreateOutcome(fat, free, clst, ncl, eoc, fat', free')
    requires CountOk(free, fat) && !HoldsOne(fat) && (clst == 0 || Status(fat, clst) >= |fat|)
    ensures ncl == 0 <==> NoneFree(fat)
  {
    FreeFromNone(fat, 2);
  }

  /** The map remove_chain's loop starts from: the previous cluster, if any, has become the end of its chain. */
  ghost function CutAt(fat: seq<nat>, pclst: nat, eoc: nat): (r: seq<nat>)
    ensures |r| == |fat|
  {
    if 2 <= pclst < |fat| then fat[pclst := eoc] else fat
  }

  ghost predicate RemoveOutcome(fat: seq<nat>, free: nat, clst: nat, pclst: nat, eoc: nat, ok: bool, fat': seq<nat>, free': nat)
    requires |fat| >= 2
  {
    && |fat'| == |fat|
    && if 2 <= clst < |fat| && (pclst == 0 || 2 <= pclst < |fat|)
       then
         var start := CutAt(fat, pclst, eoc);
         && fat' == RemoveFrom(start, clst).fat && ok == RemoveFrom(start, clst).ok
         && free' == CountUp(free, |fat|, FreeCount(fat') - FreeCount(start))
       else !ok && fat' == fat && free' == free
  }

  /** Ending a chain at a cluster that is in use leaves the count of free clusters; at a free one it takes one off. */
  lemma CutCount(fat: seq<nat>, pclst: nat, eoc: nat)
    requires 2 <= pclst < |fat| && eoc > 0
    ensures FreeCount(CutAt(fat, pclst, eoc)) == FreeCount(fat) - if fat[pclst] == 0 then 1 else 0
  {
    FreeFromUpdate(fat, 2, pclst, eoc);
  }

  /** A known and true count stays true through remove_chain exactly if pclst is 0 or was in use, or if the removal
      reaches every cluster in use, where the count stops. */
  lemma RemovedCount(fat: seq<nat>, free: nat, clst: nat, pclst: nat, eoc: nat, ok: bool, fat': seq<nat>, free': nat)
    requires |fat| >= 2 && RemoveOutcome(fat, free, clst, pclst, eoc, ok, fat', free')
    requires 2 <= clst < |fat| && (pclst == 0 || 2 <= pclst < |fat|) && eoc > 0
    requires free == FreeCount(fat)
    ensures CountOk(free', fat') <==> pclst == 0 || fat[pclst] != 0 || ReachesAll(CutAt(fat, pclst, eoc), clst)
    ensures !CountOk(free', fat') ==> free' == FreeCount(fat') + 1
  {
    hide Reaches;
    RemoveFreesAll(CutAt(fat, pclst, eoc), clst);
    if pclst != 0 {
      CutCount(fat, pclst, eoc);
    }
    if c :| 2 <= c < |fat| && fat'[c] != 0 {
      FreeFromAll(fat', 2, c);
    } else {
      AllFreeCount(fat', 2);
    }
  }

  /** The calls of the source: pclst is 0, or clst is what follows it. With these a true or unknown count stays so,
      whatever the FAT and the result. */
  lemma CallsKeepCount(fat: seq<nat>, free: nat, clst: nat, pclst: nat, eoc: nat, ok: bool, fat': seq<nat>, free': nat)
    requires |fat| >= 2 && RemoveOutcome(fat, free, clst, pclst, eoc, ok, fat', free') && eoc > 0
    requires pclst == 0 || (2 <= pclst < |fat| && fat[pclst] == clst)
    requires CountOk(free, fat)
    ensures CountOk(free', fat') && (free + 2 > |fat| ==> free' == free)
  {
    if 2 <= clst < |fat| && free + 2 <= |fat| {
      RemovedCount(fat, free, clst, pclst, eoc, ok, fat', free');
    }
  }

  lemma {:induction false} AllFreeCount(fat: seq<nat>, i: nat)
    requires i <= |fat| && forall c :: i <= c < |fat| ==> fat[c] == 0
    ensures FreeFrom(fat, i) == |fat| - i
    decreases |fat| - i
  {
    if i < |fat| {
      AllFreeCount(fat, i + 1);
    }
  }

  /** Where the condition fails, on two volumes of two clusters with the second one free and given as pclst: the count
      becomes one too large, but not when the chain runs into pclst and nothing stays in use. No call of the source is
      like that: CallsKeepCount. */
  lemma CountTooLarge()
    ensures FreeCount([4088, 4095, 4095, 0]) == 1 && FreeCount([4088, 4095, 0, 4095]) == 1
    ensures RemoveOutcome([4088, 4095, 4095, 0], 1, 2, 3, 4095, true, [4088, 4095, 0, 4095], 2)
    ensures FreeCount([4088, 4095, 3, 0]) == 1 && FreeCount([4088, 4095, 0, 0]) == 2
    ensures RemoveOutcome([4088, 4095, 3, 0], 1, 2, 3, 4095, true, [4088, 4095, 0, 0], 2)
  {
    var a, x: seq<nat> := [4088, 4095, 4095, 4095], [4088, 4095, 3, 4095];
    assert CutAt([4088, 4095, 4095, 0], 3, 4095) == a && CutAt([4088, 4095, 3, 0], 3, 4095) == x;
    RemoveStep(a, 2);
    assert a[2 := 0] == [4088, 4095, 0, 4095];
    RemoveStep(x, 2);
    RemoveStep(x[2 := 0], 3);
    assert x[2 := 0][3 := 0] == [4088, 4095, 0, 0];
    TwoClusters(a);
    TwoClusters(x);
    TwoClusters([4088, 4095, 4095, 0]);
    TwoClusters([4088, 4095, 3, 0]);
    TwoClusters([4088, 4095, 0, 4095]);
    TwoClusters([4088, 4095, 0, 0]);
  }

  lemma TwoClusters(fat: seq<nat>)
    requires |fat| == 4
    ensures FreeCount(fat) == (if fat[2] == 0 then 1 else 0) + if fat[3] == 0 then 1 else 0
  {
    assert FreeFrom(fat, 4) == 0;
    assert FreeFrom(fat, 3) == if fat[3] == 0 then 1 else 0;
  }

  /** The first entry of 1, where a FAT12 scan stops. */
  ghost predicate FirstOne(fat: seq<nat>, c: nat) {
    2 <= c < |fat| && fat[c] == 1 && forall d :: 2 <= d < c ==> fat[d] != 1
  }

  /** What f_getfree does to the count: a known one stays; else it becomes what the scan found, which on FAT12 looks at
      the clusters up to the first entry of 1 and on the others at entries 0 and 1 as well. */
  ghost predicate ScanOutcome(fat: seq<nat>, free: nat, wide: bool, ok: bool, free': nat)
    requires |fat| >= 2
  {
    && (free + 2 <= |fat| ==> ok && free' == free)
    && (free + 2 > |fat| && ok ==> free' == FreeFrom(fat, if wide then 0 else 2) && (wide || !HoldsOne(fat)))
    && (!ok ==> !wide && exists c :: FirstOne(fat, c) && free' == FreeFrom(fat, 2) - FreeFrom(fat, c))
  }

  // ----- every run -----

  datatype Call = Create(clst: nat, ncl: nat) | Remove(clst: nat, pclst: nat, ok: bool) | Scan(wide: bool, ok: bool)

  datatype AllocState = AllocState(fat: seq<nat>, free: nat)

  predicate InUse(fat: seq<nat>, c: nat) {
    2 <= c < |fat| && fat[c] != 0
  }

  /** A call as the file and directory layers make it: on a cluster in use, and cut either behind its predecessor or at a
      head; f_getfree at any time, on a FAT whose two reserved entries are not zero. */
  ghost predicate Proper(fat: seq<nat>, call: Call) {
    match call
    case Create(clst, _) => clst == 0 || InUse(fat, clst)
    case Remove(clst, pclst, _) =>
      && InUse(fat, clst)
      && if pclst == 0 then forall d :: 2 <= d < |fat| ==> fat[d] != clst else InUse(fat, pclst) && fat[pclst] == clst
    case Scan(wide, _) => wide ==> |fat| >= 2 && fat[0] != 0 && fat[1] != 0
  }

  ghost predicate Outcome(a: AllocState, call: Call, eoc: nat, b: AllocState)
    requires |a.fat| >= 2
  {
    match call
    case Create(clst, ncl) => CreateOutcome(a.fat, a.free, clst, ncl, eoc, b.fat, b.free)
    case Remove(clst, pclst, ok) => RemoveOutcome(a.fat, a.free, clst, pclst, eoc, ok, b.fat, b.free)
    case Scan(wide, ok) => b.fat == a.fat && ScanOutcome(a.fat, a.free, wide, ok, b.free)
  }

  ghost predicate Sound(st: AllocState, chains: set<seq<nat>>) {
    |st.fat| >= 2 && Forest(st.fat, chains) && CountOk(st.free, st.fat)
  }

  /** One create_chain call on a sound state leaves a sound state, with at most one chain changed. */
  lemma CreateKeeps(a: AllocState, chains: set<seq<nat>>, clst: nat, ncl: nat, eoc: nat, b: AllocState)
      returns (chains': set<seq<nat>>)
    requires Sound(a, chains) && eoc >= |a.fat|
    requires Proper(a.fat, Create(clst, ncl)) && Outcome(a, Create(clst, ncl), eoc, b)
    ensures Sound(b, chains')
    ensures ncl < 2 || HasNext(a.fat, clst) ==> chains' == chains
    ensures ncl >= 2 && clst == 0 ==> chains' == chains + {[ncl]}
    ensures ncl >= 2 && clst != 0 && !HasNext(a.fat, clst) ==>
              exists s :: s in chains && s[|s| - 1] == clst && chains' == chains - {s} + {s + [ncl]}
  {
    hide FreeFrom, Forest;
    chains' := chains;
    if ncl >= 2 && clst == 0 {
      ForestNew(a.fat, chains, ncl, eoc);
      chains' := chains + {[ncl]};
    } else if ncl >= 2 && !HasNext(a.fat, clst) {
      var s, k := Cover(a.fat, chains, clst);
      MemberStatus(a.fat, s, k);
      ChainStretched(a.fat, s, ncl, eoc);
      ForestStretched(a.fat, chains, s, ncl, eoc);
      chains' := chains - {s} + {s + [ncl]};
    }
  }

  /** One remove_chain call on a sound state succeeds, frees exactly the rest of one chain and leaves a sound state. */
  lemma RemoveKeeps(a: AllocState, chains: set<seq<nat>>, s: seq<nat>, k: nat, eoc: nat, ok: bool, b: AllocState)
    requires Sound(a, chains) && eoc >= |a.fat| && s in chains && k < |s|
    requires Outcome(a, Remove(s[k], if k == 0 then 0 else s[k - 1], ok), eoc, b)
    ensures ok
    ensures Sound(b, if k == 0 then chains - {s} else chains - {s} + {s[..k]})
    ensures FreeCount(b.fat) == FreeCount(a.fat) + |s| - k
  {
    hide FreeFrom, Forest, RemoveFrom;
    ForestChain(a.fat, chains, s);
    if k > 0 {
      MemberStatus(a.fat, s, k - 1);
      CutCount(a.fat, s[k - 1], eoc);
    }
    if k == 0 {
      RemoveChainZeroes(a.fat, s);
      ForestRemoved(a.fat, chains, s);
    } else {
      RemoveSuffixZeroes(a.fat, s, k, eoc);
      ForestCut(a.fat, chains, s, k, eoc);
    }
  }

  /** f_getfree on a sound state succeeds, and the count is the number of free clusters. */
  lemma ScanKeeps(a: AllocState, chains: set<seq<nat>>, wide: bool, ok: bool, b: AllocState)
    requires |a.fat| >= 2 && Sound(a, chains) && Proper(a.fat, Scan(wide, ok)) && b.fat == a.fat && ScanOutcome(a.fat, a.free, wide, ok, b.free)
    ensures ok && Sound(b, chains) && b.free == FreeCount(b.fat)
  {
    if c :| 2 <= c < |a.fat| && a.fat[c] == 1 {
      var s, k := Cover(a.fat, chains, c);
      MemberStatus(a.fat, s, k);
    }
    if wide {
      assert FreeFrom(a.fat, 0) == FreeFrom(a.fat, 1) == FreeFrom(a.fat, 2);
    }
  }

  /** The reserved entries are never written. */
  lemma {:induction false} RemoveReserved(fat: seq<nat>, c: nat)
    requires 2 <= c < |fat|
    ensures RemoveFrom(fat, c).fat[..2] == fat[..2]
    decreases |fat| - FreeCount(fat)
  {
    if 2 <= fat[c] < |fat| {
      FreeFromUpdate(fat, 2, c, 0);
      RemoveReserved(fat[c := 0], fat[c]);
    }
  }

  lemma ReservedKept(a: AllocState, call: Call, eoc: nat, b: AllocState)
    requires |a.fat| >= 2 && Outcome(a, call, eoc, b) && Proper(a.fat, call)
    ensures |b.fat| >= 2 && b.fat[..2] == a.fat[..2]
  {
    if call.Remove? {
      RemoveReserved(CutAt(a.fat, call.pclst, eoc), call.clst);
    }
  }

  lemma Cover(fat: seq<nat>, chains: set<seq<nat>>, c: nat) returns (s: seq<nat>, k: nat)
    requires Forest(fat, chains) && InUse(fat, c)
    ensures s in chains && IsChain(fat, s) && k < |s| && s[k] == c
  {
    s :| s in chains && c in s;
    k :| 0 <= k < |s| && s[k] == c;
  }

  lemma SameChain(fat: seq<nat>, chains: set<seq<nat>>, s: seq<nat>, i: nat, t: seq<nat>, j: nat)
    requires Forest(fat, chains) && s in chains && t in chains && i < |s| && j < |t| && s[i] == t[j]
    ensures s == t && i == j
  {
    hide Forest;
    Overlap(fat, chains, s, t, s[i]);
    ForestChain(fat, chains, s);
    ChainDistinct(fat, s);
  }

  lemma Overlap(fat: seq<nat>, chains: set<seq<nat>>, s: seq<nat>, t: seq<nat>, c: nat)
    requires Forest(fat, chains) && s in chains && t in chains && c in s && c in t
    ensures s == t
  {
    hide IsChain;
  }

  /** The place of a cluster and its predecessor in the forest. */
  lemma Locate(fat: seq<nat>, chains: set<seq<nat>>, clst: nat, pclst: nat, ok: bool) returns (s: seq<nat>, k: nat)
    requires Forest(fat, chains) && Proper(fat, Remove(clst, pclst, ok))
    ensures s in chains && k < |s| && s[k] == clst && pclst == if k == 0 then 0 else s[k - 1]
  {
    hide Forest;
    s, k := Cover(fat, chains, clst);
    if pclst == 0 {
      if k > 0 {
        MemberStatus(fat, s, k - 1);
      }
    } else {
      var t, m := Cover(fat, chains, pclst);
      MemberStatus(fat, t, m);
      SameChain(fat, chains, t, m + 1, s, k);
    }
  }

  /** The calls lead from each state to the next. */
  ghost predicate IsRun(states: seq<AllocState>, calls: seq<Call>, eoc: nat) {
    && |states| == |calls| + 1
    && (forall i :: 0 <= i < |states| ==> |states[i].fat| >= 2)
    && (forall i :: 0 <= i < |calls| ==> Proper(states[i].fat, calls[i]) && Outcome(states[i], calls[i], eoc, states[i + 1]))
  }

  /** Every run of the allocator keeps the map a set of disjoint, acyclic, end-marked chains with a true count. */
  lemma {:induction false} RunKeeps(states: seq<AllocState>, calls: seq<Call>, chains: set<seq<nat>>, eoc: nat)
      returns (last: set<seq<nat>>)
    requires IsRun(states, calls, eoc) && eoc >= |states[0].fat|
    requires Sound(states[0], chains)
    ensures Sound(states[|calls|], last) && |states[|calls|].fat| == |states[0].fat|
    ensures states[|calls|].fat[..2] == states[0].fat[..2]
    decreases |calls|
  {
    hide Forest, FreeFrom, RemoveFrom;
    last := chains;
    if |calls| > 0 {
      var a, b := states[0], states[1];
      var next;
      ReservedKept(a, calls[0], eoc, b);
      match calls[0] {
        case Create(clst, ncl) =>
          next := CreateKeeps(a, chains, clst, ncl, eoc, b);
        case Remove(clst, pclst, ok) =>
          var s, k := Locate(a.fat, chains, clst, pclst, ok);
          RemoveKeeps(a, chains, s, k, eoc, ok, b);
          next := if k == 0 then chains - {s} else chains - {s} + {s[..k]};
        case Scan(wide, ok) =>
          ScanKeeps(a, chains, wide, ok, b);
          next := chains;
      }
      assert states[1..][|calls| - 1] == states[|calls|];
      last := RunKeeps(states[1..], calls[1..], next, eoc);
    }
  }
}
