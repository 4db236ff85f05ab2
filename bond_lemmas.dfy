/**
 * Properties of the token bonds: exactly the atom bonds whose two endpoints
 * have tokens are kept, in their original order and orientation, the atom
 * bonds before the connections; each kept bond joins the tokens that own its
 * endpoints.
 */
module BondLemmas {
  import opened Structures
  import opened TokenSpec
  import opened TokenLemmas
  import opened AtomIndexLemmas

  /** Which of the first `n` bonds of `bs` have both endpoints in `m`. */
  function KeptMask(m: map<int, nat>, bs: seq<Bond>, n: nat): (r: seq<bool>)
    requires n <= |bs|
    ensures |r| == n && forall k :: 0 <= k < n ==> r[k] == Mapped(m, bs[k])
  {
    seq(n, k requires 0 <= k < n => Mapped(m, bs[k]))
  }

  /** The positions of the kept bonds among the first `n` bonds of `bs`, in increasing order. */
  function KeptIndices(m: map<int, nat>, bs: seq<Bond>, n: nat): (r: seq<nat>)
    requires n <= |bs|
    ensures forall i :: 0 <= i < |r| ==> r[i] < n && Mapped(m, bs[r[i]])
    ensures forall i, l :: 0 <= i < l < |r| ==> r[i] < r[l]
  {
    MaskIndices(KeptMask(m, bs, n))
  }

  /** A bond is kept exactly when both of its endpoints have a token. */
  lemma KeptIndicesComplete(m: map<int, nat>, bs: seq<Bond>, n: nat)
    requires n <= |bs|
    ensures forall k :: 0 <= k < n ==> (Mapped(m, bs[k]) <==> k in KeptIndices(m, bs, n))
  {
    MaskIndicesComplete(KeptMask(m, bs, n));
  }

  /** One more bond extends the kept positions by that bond's position exactly when it is kept. */
  lemma KeptIndicesStep(m: map<int, nat>, bs: seq<Bond>, n: nat)
    requires 0 < n <= |bs|
    ensures KeptIndices(m, bs, n) == KeptIndices(m, bs, n - 1) + (if Mapped(m, bs[n - 1]) then [n - 1] else [])
  {
    var mask := KeptMask(m, bs, n);
    assert mask[..n - 1] == KeptMask(m, bs, n - 1);
  }

  /** The bonds of `bs` at positions `K`, in that order, projected onto token pairs. */
  function Projected(m: map<int, nat>, bs: seq<Bond>, K: seq<nat>): (r: seq<TokenBond>)
    requires forall i :: 0 <= i < |K| ==> K[i] < |bs| && Mapped(m, bs[K[i]])
    ensures |r| == |K|
    decreases |K|
  {
    if K == [] then []
    else
      var n := |K| - 1;
      Projected(m, bs, K[..n]) + [ProjectBond(m, bs[K[n]])]
  }

  /** Token bond `i` of `Projected(m, bs, K)` is the projection of bond `K[i]`. */
  lemma {:induction false} ProjectedAt(m: map<int, nat>, bs: seq<Bond>, K: seq<nat>)
    requires forall i :: 0 <= i < |K| ==> K[i] < |bs| && Mapped(m, bs[K[i]])
    ensures forall i :: 0 <= i < |K| ==> Projected(m, bs, K)[i] == ProjectBond(m, bs[K[i]])
    decreases |K|
  {
    if K != [] {
      var n := |K| - 1;
      ProjectedAt(m, bs, K[..n]);
    }
  }

  /** One more kept position appends that bond's projection. */
  lemma ProjectedSnoc(m: map<int, nat>, bs: seq<Bond>, K: seq<nat>, k: nat)
    requires forall i :: 0 <= i < |K| ==> K[i] < |bs| && Mapped(m, bs[K[i]])
    requires k < |bs| && Mapped(m, bs[k])
    ensures Projected(m, bs, K + [k]) == Projected(m, bs, K) + [ProjectBond(m, bs[k])]
  {
    assert (K + [k])[..|K|] == K;
  }

  lemma AppendAssoc(a: seq<TokenBond>, b: seq<TokenBond>, c: seq<TokenBond>)
    ensures (a + b) + c == a + (b + c)
  {
  }

  /**
   * Projecting the first `n` bonds of `bs` on top of `acc` appends exactly the
   * projections of the kept bonds, in bond order.
   */
  lemma {:induction false} ProjectBondsKept(acc: seq<TokenBond>, m: map<int, nat>, bs: seq<Bond>, n: nat)
    requires n <= |bs|
    ensures ProjectBonds(acc, m, bs, n) == acc + Projected(m, bs, KeptIndices(m, bs, n))
    decreases n
  {
    if n == 0 {
      assert acc + [] == acc;
    } else {
      ProjectBondsKept(acc, m, bs, n - 1);
      KeptIndicesStep(m, bs, n);
      var K' := KeptIndices(m, bs, n - 1);
      var P' := Projected(m, bs, K');
      if Mapped(m, bs[n - 1]) {
        ProjectedSnoc(m, bs, K', n - 1);
        AppendAssoc(acc, P', [ProjectBond(m, bs[n - 1])]);
      } else {
        assert K' + [] == K';
      }
    }
  }

  /** The bond from which token bond `t` was projected joins the tokens that own its endpoints. */
  lemma ProjectBondOwners(ts: seq<TokenData>, b: Bond)
    requires Mapped(TokenMap(ts), b)
    ensures var t := ProjectBond(TokenMap(ts), b);
      && t.token1 < |ts| && Covers(ts[t.token1], b.atom1)
      && t.token2 < |ts| && Covers(ts[t.token2], b.atom2)
  {
    TokenMapLast(ts);
  }

  /** A bond's endpoints both have tokens exactly when both lie in residues of valid chains. */
  lemma MappedIffValid(cfg: Config, s: Structure, b: Bond)
    requires WellFormed(cfg, s)
    ensures Mapped(TokenMap(Tokens(cfg, s)), b) <==> InValidChain(s, b.atom1) && InValidChain(s, b.atom2)
  {
    AtomToTokenDomain(cfg, s);
  }

  /** Token bonds between ids below `bound`. */
  ghost predicate Bounded(ts: seq<TokenBond>, bound: nat) {
    forall j :: 0 <= j < |ts| ==> ts[j].token1 < bound && ts[j].token2 < bound
  }

  /** When the index only holds ids below `bound`, projecting adds only token bonds between such ids. */
  lemma {:induction false} ProjectBondsBounded(acc: seq<TokenBond>, m: map<int, nat>, bs: seq<Bond>, n: nat, bound: nat)
    requires n <= |bs| && Bounded(acc, bound) && forall x :: x in m ==> m[x] < bound
    ensures Bounded(ProjectBonds(acc, m, bs, n), bound)
    decreases n
  {
    if n > 0 {
      ProjectBondsBounded(acc, m, bs, n - 1, bound);
    }
  }

  /** A bond of `bs` is kept exactly when both of its endpoints lie in residues of valid chains. */
  lemma KeptIffValid(cfg: Config, s: Structure, bs: seq<Bond>)
    requires WellFormed(cfg, s)
    ensures var K := KeptIndices(TokenMap(Tokens(cfg, s)), bs, |bs|);
      forall k :: 0 <= k < |bs| ==> (k in K <==> InValidChain(s, bs[k].atom1) && InValidChain(s, bs[k].atom2))
  {
    KeptIndicesComplete(TokenMap(Tokens(cfg, s)), bs, |bs|);
    AtomToTokenDomain(cfg, s);
  }

  /**
   * The token bonds of a structure: the projections of the kept atom bonds,
   * then those of the kept connections, each in its original order (which
   * bonds are kept: `KeptIffValid`); every token bond joins two existing tokens.
   */
  lemma TokenBondsShape(cfg: Config, s: Structure)
    requires WellFormed(cfg, s)
    ensures var ts := Tokens(cfg, s); var m := TokenMap(ts); var r := TokenBonds(cfg, s);
      && r == Projected(m, s.bonds, KeptIndices(m, s.bonds, |s.bonds|))
              + Projected(m, s.connections, KeptIndices(m, s.connections, |s.connections|))
      && Bounded(r, |ts|)
  {
    var ts := Tokens(cfg, s);
    var m := TokenMap(ts);
    var fromBonds := ProjectBonds([], m, s.bonds, |s.bonds|);
    ProjectBondsKept([], m, s.bonds, |s.bonds|);
    ProjectBondsKept(fromBonds, m, s.connections, |s.connections|);
    assert [] + Projected(m, s.bonds, KeptIndices(m, s.bonds, |s.bonds|)) == Projected(m, s.bonds, KeptIndices(m, s.bonds, |s.bonds|));
    TokenMapLast(ts);
    ProjectBondsBounded([], m, s.bonds, |s.bonds|, |ts|);
    ProjectBondsBounded(fromBonds, m, s.connections, |s.connections|, |ts|);
  }

  /** Projecting through an empty index keeps nothing. */
  lemma {:induction false} ProjectBondsEmpty(acc: seq<TokenBond>, bs: seq<Bond>, n: nat)
    requires n <= |bs|
    ensures ProjectBonds(acc, map[], bs, n) == acc
    decreases n
  {
    if n > 0 {
      ProjectBondsEmpty(acc, bs, n - 1);
    }
  }

  /** With no valid chain the tokenizer yields no tokens. */
  lemma NoValidChainsNoTokens(cfg: Config, s: Structure)
    requires WellFormed(cfg, s) && forall i :: 0 <= i < |s.mask| ==> !s.mask[i]
    ensures Tokens(cfg, s) == []
  {
    MaskIndicesNone(s.mask);
  }

  /** With no valid chain the tokenizer yields no tokens and no token bonds. */
  lemma NoValidChains(cfg: Config, s: Structure)
    requires WellFormed(cfg, s) && forall i :: 0 <= i < |s.mask| ==> !s.mask[i]
    ensures Tokens(cfg, s) == [] && TokenBonds(cfg, s) == []
  {
    NoValidChainsNoTokens(cfg, s);
    ProjectBondsEmpty([], s.bonds, |s.bonds|);
    ProjectBondsEmpty([], s.connections, |s.connections|);
  }
}
