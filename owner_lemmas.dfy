/**
 * When no atom belongs to two residues and no residue to two valid chains,
 * no two tokens share an atom, so the atom-to-token index maps every atom
 * a token owns to that very token.
 */
module OwnerLemmas {
  import opened Structures
  import opened TokenSpec
  import opened TokenLemmas
  import opened AtomIndexLemmas

  /** No token of `ts` covers an atom of `res`. */
  ghost predicate Avoids(ts: seq<TokenData>, res: Residue) {
    forall j, x :: 0 <= j < |ts| && Covers(ts[j], x) ==> !InResidue(res, x)
  }

  /** A token of one of the first `n` residues of `c` covers no atom of a residue outside that range. */
  lemma FromChainAvoids(cfg: Config, s: Structure, c: Chain, n: nat, t: TokenData, q: nat, x: int)
    requires ResidueAtomsDisjoint(s) && FromChain(cfg, s, c, n, t) && Covers(t, x)
    requires q < |s.residues| && !(c.resIdx <= q < c.resIdx + n)
    ensures !InResidue(s.residues[q], x)
  {
    var q' :| c.resIdx <= q' < c.resIdx + n && q' < |s.residues| && TokenFrom(cfg, s, c, s.residues[q'], t);
    TokenFromCovers(cfg, s, c, s.residues[q'], t, x);
  }

  /** Tokenizing a residue whose atoms no earlier token covers keeps the tokens pairwise disjoint. */
  lemma EmitResidueDisjoint(cfg: Config, s: Structure, c: Chain, res: Residue, acc: seq<TokenData>)
    requires ResidueWellFormed(cfg, s, c, res) && Disjoint(acc) && Avoids(acc, res)
    ensures Disjoint(EmitResidue(cfg, s, c, res, acc))
  {
    var r := EmitResidue(cfg, s, c, res, acc);
    EmitResidueShape(cfg, s, c, res, acc);
    forall i, j, x | 0 <= i < j < |r| && Covers(r[i], x)
      ensures !Covers(r[j], x)
    {
      if j < |acc| {
        assert r[i] == acc[i] && r[j] == acc[j];
      } else if i < |acc| {
        assert r[i] == acc[i];
        if Covers(r[j], x) {
          TokenFromCovers(cfg, s, c, res, r[j], x);
        }
      }
    }
  }

  /** The tokens of the first `n` residues of a chain cover no atom of its residue `n`, if `acc` covers none. */
  lemma ChainPrefixAvoids(cfg: Config, s: Structure, c: Chain, acc: seq<TokenData>, n: nat)
    requires ChainWellFormed(cfg, s, c) && n < c.resNum && ResidueAtomsDisjoint(s)
    requires Avoids(acc, s.residues[c.resIdx + n])
    ensures Avoids(EmitChain(cfg, s, c, acc, n), s.residues[c.resIdx + n])
  {
    var p := EmitChain(cfg, s, c, acc, n);
    EmitChainShape(cfg, s, c, acc, n);
    forall j, x | 0 <= j < |p| && Covers(p[j], x)
      ensures !InResidue(s.residues[c.resIdx + n], x)
    {
      if j < |acc| {
        assert p[j] == acc[j];
      } else {
        FromChainAvoids(cfg, s, c, n, p[j], c.resIdx + n, x);
      }
    }
  }

  /**
   * Tokenizing the first `n` residues of a chain on top of disjoint tokens
   * that cover none of those residues' atoms keeps the tokens disjoint.
   */
  lemma {:induction false} EmitChainDisjoint(cfg: Config, s: Structure, c: Chain, acc: seq<TokenData>, n: nat)
    requires ChainWellFormed(cfg, s, c) && n <= c.resNum && ResidueAtomsDisjoint(s) && Disjoint(acc)
    requires forall q :: c.resIdx <= q < c.resIdx + n ==> Avoids(acc, s.residues[q])
    ensures Disjoint(EmitChain(cfg, s, c, acc, n))
    decreases n
  {
    if n > 0 {
      EmitChainDisjoint(cfg, s, c, acc, n - 1);
      var p := EmitChain(cfg, s, c, acc, n - 1);
      var res := s.residues[c.resIdx + n - 1];
      ChainPrefixAvoids(cfg, s, c, acc, n - 1);
      EmitResidueDisjoint(cfg, s, c, res, p);
    }
  }

  /** Chains whose residue ranges do not overlap. */
  ghost predicate ChainsDisjoint(cs: seq<Chain>) {
    forall a, b :: 0 <= a < b < |cs| ==> ResidueRangesDisjoint(cs[a], cs[b])
  }

  /** The tokens of the first chains cover none of the atoms of a later chain's residues. */
  lemma EarlierChainsAvoid(cfg: Config, s: Structure, cs: seq<Chain>, n: nat, q: nat)
    requires ChainsWellFormed(cfg, s, cs) && n < |cs| && ResidueAtomsDisjoint(s) && ChainsDisjoint(cs)
    requires cs[n].resIdx <= q < cs[n].resIdx + cs[n].resNum
    ensures Avoids(EmitChains(cfg, s, cs, n), s.residues[q])
  {
    var p := EmitChains(cfg, s, cs, n);
    EmitChainsShape(cfg, s, cs, n);
    forall j, x | 0 <= j < |p| && Covers(p[j], x)
      ensures !InResidue(s.residues[q], x)
    {
      var k :| 0 <= k < n && FromChain(cfg, s, cs[k], cs[k].resNum, p[j]);
      assert ResidueRangesDisjoint(cs[k], cs[n]);
      FromChainAvoids(cfg, s, cs[k], cs[k].resNum, p[j], q, x);
    }
  }

  /** The tokens of the first `n` of a list of non-overlapping chains are pairwise disjoint. */
  lemma {:induction false} EmitChainsDisjoint(cfg: Config, s: Structure, cs: seq<Chain>, n: nat)
    requires ChainsWellFormed(cfg, s, cs) && n <= |cs| && ResidueAtomsDisjoint(s) && ChainsDisjoint(cs)
    ensures Disjoint(EmitChains(cfg, s, cs, n))
    decreases n
  {
    if n > 0 {
      EmitChainsDisjoint(cfg, s, cs, n - 1);
      var p := EmitChains(cfg, s, cs, n - 1);
      var c := cs[n - 1];
      forall q | c.resIdx <= q < c.resIdx + c.resNum
        ensures Avoids(p, s.residues[q])
      {
        EarlierChainsAvoid(cfg, s, cs, n - 1, q);
      }
      EmitChainDisjoint(cfg, s, c, p, c.resNum);
    }
  }

  /** The valid chains of a structure whose valid chains do not overlap do not overlap. */
  lemma ValidChainsDisjointChains(s: Structure)
    requires |s.mask| == |s.chains| && ValidChainsDisjoint(s)
    ensures ChainsDisjoint(ValidChains(s.chains, s.mask))
  {
    var cs := ValidChains(s.chains, s.mask);
    var idx := MaskIndices(s.mask);
    forall a, b | 0 <= a < b < |cs| ensures ResidueRangesDisjoint(cs[a], cs[b]) {
      assert cs[a] == s.chains[idx[a]] && cs[b] == s.chains[idx[b]];
      assert idx[a] < idx[b];
    }
  }

  /**
   * When no atom belongs to two residues and no residue to two valid chains,
   * every atom a token owns is in the atom-to-token index and is mapped to
   * that token: a standard residue's atoms to its single token, each atom of
   * a non-standard residue to its own token.
   */
  lemma AtomToTokenOwner(cfg: Config, s: Structure)
    requires WellFormed(cfg, s) && ResidueAtomsDisjoint(s) && ValidChainsDisjoint(s)
    ensures var ts := Tokens(cfg, s);
      forall j, x :: 0 <= j < |ts| && Covers(ts[j], x) ==> x in TokenMap(ts) && TokenMap(ts)[x] == j
  {
    var cs := ValidChains(s.chains, s.mask);
    ValidChainsWellFormed(cfg, s);
    ValidChainsDisjointChains(s);
    EmitChainsDisjoint(cfg, s, cs, |cs|);
    TokenMapOwner(Tokens(cfg, s));
  }
}
