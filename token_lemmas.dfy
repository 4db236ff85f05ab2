/**
 * Properties of the token list: what each residue contributes, that token
 * indices are contiguous, where every token comes from, and how many tokens
 * a structure yields.
 */
module TokenLemmas {
  import opened Structures
  import opened TokenSpec

  /** The tokens of `ts` are numbered 0, 1, 2, ... in list order. */
  ghost predicate Numbered(ts: seq<TokenData>) {
    forall i :: 0 <= i < |ts| ==> ts[i].tokenIdx == i
  }

  /** `r` starts with `acc`. */
  ghost predicate Extends(r: seq<TokenData>, acc: seq<TokenData>) {
    |acc| <= |r| && forall j :: 0 <= j < |acc| ==> r[j] == acc[j]
  }

  /**
   * The atom tokens of a non-standard residue: `acc` is kept, and the token
   * at position `j` past `acc` is the token of atom `res.atomIdx + (j - |acc|)`,
   * numbered `j`.
   */
  lemma {:induction false} AtomTokensAt(s: Structure, c: Chain, res: Residue, resType: int, acc: seq<TokenData>, n: nat)
    requires res.atomIdx + n <= |s.atoms|
    ensures var r := AtomTokens(s, c, res, resType, acc, n);
      && Extends(r, acc)
      && forall j :: |acc| <= j < |r| ==> r[j] == AtomToken(s, c, res, resType, res.atomIdx + (j - |acc|), j)
    decreases n
  {
    if n > 0 {
      var p := AtomTokens(s, c, res, resType, acc, n - 1);
      AtomTokensAt(s, c, res, resType, acc, n - 1);
      var r := AtomTokens(s, c, res, resType, acc, n);
      assert r == p + [AtomToken(s, c, res, resType, res.atomIdx + n - 1, |p|)];
      forall j | |acc| <= j < |r|
        ensures r[j] == AtomToken(s, c, res, resType, res.atomIdx + (j - |acc|), j)
      {
        if j < |p| {
          assert r[j] == p[j];
        }
      }
    }
  }

  /**
   * One residue's tokens: `acc` is kept; a standard residue adds exactly one
   * token, a non-standard residue one token per atom, in atom order; every
   * new token is numbered by its position and carries the fields `TokenFrom`
   * lists for its residue.
   */
  lemma EmitResidueShape(cfg: Config, s: Structure, c: Chain, res: Residue, acc: seq<TokenData>)
    requires ResidueWellFormed(cfg, s, c, res)
    ensures var r := EmitResidue(cfg, s, c, res, acc);
      && Extends(r, acc)
      && |r| == |acc| + (if res.isStandard then 1 else res.atomNum)
      && forall j :: |acc| <= j < |r| ==>
           && r[j].tokenIdx == j
           && TokenFrom(cfg, s, c, res, r[j])
           && (!res.isStandard ==> r[j].atomIdx == res.atomIdx + (j - |acc|))
  {
    var r := EmitResidue(cfg, s, c, res, acc);
    if !res.isStandard {
      AtomTokensAt(s, c, res, AtomTokenType(cfg, c, res), acc, res.atomNum);
    } else {
      assert r == acc + [StandardToken(s, c, res, |acc|)];
    }
  }

  /** A residue that is not present yields tokens whose resolved and distogram masks are both false. */
  lemma AbsentResidueMasks(cfg: Config, s: Structure, c: Chain, res: Residue, acc: seq<TokenData>)
    requires ResidueWellFormed(cfg, s, c, res) && !res.isPresent
    ensures var r := EmitResidue(cfg, s, c, res, acc);
      forall j :: |acc| <= j < |r| ==> !r[j].resolvedMask && !r[j].distoMask
  {
    EmitResidueShape(cfg, s, c, res, acc);
  }

  /**
   * All atom tokens of a non-standard residue carry one residue type: the
   * residue's own when its chain is not a non-polymer and its name has a
   * one-letter code, the unknown type otherwise.
   */
  lemma ResidueTypeSubstitution(cfg: Config, s: Structure, c: Chain, res: Residue, acc: seq<TokenData>)
    requires ResidueWellFormed(cfg, s, c, res) && !res.isStandard
    ensures var r := EmitResidue(cfg, s, c, res, acc);
      forall j :: |acc| <= j < |r| ==>
        r[j].resType == (if cfg.chainTypes[c.molType] != NonPolymer && res.name in cfg.oneLetterCode then res.resType else cfg.unkId)
  {
    EmitResidueShape(cfg, s, c, res, acc);
  }

  /** Tokenizing a residue only appends. */
  lemma EmitResidueExtends(cfg: Config, s: Structure, c: Chain, res: Residue, acc: seq<TokenData>)
    requires ResidueWellFormed(cfg, s, c, res)
    ensures Extends(EmitResidue(cfg, s, c, res, acc), acc)
  {
    EmitResidueShape(cfg, s, c, res, acc);
  }

  /** How many tokens the first `n` residues of chain `c` yield: the sum of their residue counts. */
  function ChainTokenCount(s: Structure, c: Chain, n: nat): nat
    requires c.resIdx + n <= |s.residues|
    decreases n
  {
    if n == 0 then 0 else ChainTokenCount(s, c, n - 1) + ResidueTokenCount(s.residues[c.resIdx + n - 1])
  }

  /** Token `t` was emitted for one of the first `n` residues of chain `c`. */
  ghost predicate FromChain(cfg: Config, s: Structure, c: Chain, n: nat, t: TokenData) {
    exists q :: c.resIdx <= q < c.resIdx + n && q < |s.residues| && TokenFrom(cfg, s, c, s.residues[q], t)
  }

  /**
   * A chain's tokens: `acc` is kept, the chain adds `ChainTokenCount` tokens,
   * each numbered by its position and emitted for one of the chain's residues.
   */
  lemma {:induction false} EmitChainShape(cfg: Config, s: Structure, c: Chain, acc: seq<TokenData>, n: nat)
    requires ChainWellFormed(cfg, s, c) && n <= c.resNum
    ensures var r := EmitChain(cfg, s, c, acc, n);
      && Extends(r, acc)
      && |r| == |acc| + ChainTokenCount(s, c, n)
      && forall j :: |acc| <= j < |r| ==> r[j].tokenIdx == j && FromChain(cfg, s, c, n, r[j])
    decreases n
  {
    if n > 0 {
      var p := EmitChain(cfg, s, c, acc, n - 1);
      EmitChainShape(cfg, s, c, acc, n - 1);
      var q := c.resIdx + n - 1;
      var res := s.residues[q];
      EmitResidueShape(cfg, s, c, res, p);
      var r := EmitChain(cfg, s, c, acc, n);
      assert r == EmitResidue(cfg, s, c, res, p);
      forall j | |acc| <= j < |r|
        ensures r[j].tokenIdx == j && FromChain(cfg, s, c, n, r[j])
      {
        if j < |p| {
          assert r[j] == p[j];
          var q' :| c.resIdx <= q' < c.resIdx + (n - 1) && q' < |s.residues| && TokenFrom(cfg, s, c, s.residues[q'], p[j]);
          assert c.resIdx <= q' < c.resIdx + n;
        } else {
          assert TokenFrom(cfg, s, c, s.residues[q], r[j]);
        }
      }
    }
  }

  /** Tokenizing a chain only appends. */
  lemma EmitChainExtends(cfg: Config, s: Structure, c: Chain, acc: seq<TokenData>, n: nat)
    requires ChainWellFormed(cfg, s, c) && n <= c.resNum
    ensures Extends(EmitChain(cfg, s, c, acc, n), acc)
  {
    EmitChainShape(cfg, s, c, acc, n);
  }

  /** How many tokens the first `n` chains of `cs` yield. */
  function ChainsTokenCount(s: Structure, cs: seq<Chain>, n: nat): nat
    requires n <= |cs| && forall k :: 0 <= k < |cs| ==> cs[k].resIdx + cs[k].resNum <= |s.residues|
    decreases n
  {
    if n == 0 then 0 else ChainsTokenCount(s, cs, n - 1) + ChainTokenCount(s, cs[n - 1], cs[n - 1].resNum)
  }

  /**
   * The tokens of the first `n` chains of `cs`: numbered from 0, as many as
   * those chains' residues yield, each emitted for a residue of one of them.
   */
  lemma {:induction false} EmitChainsShape(cfg: Config, s: Structure, cs: seq<Chain>, n: nat)
    requires ChainsWellFormed(cfg, s, cs) && n <= |cs|
    ensures var r := EmitChains(cfg, s, cs, n);
      && Numbered(r)
      && |r| == ChainsTokenCount(s, cs, n)
      && forall j :: 0 <= j < |r| ==> exists k :: 0 <= k < n && FromChain(cfg, s, cs[k], cs[k].resNum, r[j])
    decreases n
  {
    if n > 0 {
      var p := EmitChains(cfg, s, cs, n - 1);
      EmitChainsShape(cfg, s, cs, n - 1);
      var c := cs[n - 1];
      EmitChainShape(cfg, s, c, p, c.resNum);
      var r := EmitChains(cfg, s, cs, n);
      assert r == EmitChain(cfg, s, c, p, c.resNum);
      forall j | 0 <= j < |r|
        ensures r[j].tokenIdx == j && exists k :: 0 <= k < n && FromChain(cfg, s, cs[k], cs[k].resNum, r[j])
      {
        if j < |p| {
          assert r[j] == p[j];
          var k :| 0 <= k < n - 1 && FromChain(cfg, s, cs[k], cs[k].resNum, p[j]);
        } else {
          assert FromChain(cfg, s, cs[n - 1], cs[n - 1].resNum, r[j]);
        }
      }
    }
  }

  /** Token `t` was emitted for a residue of a chain the mask marks valid. */
  ghost predicate FromValidChain(cfg: Config, s: Structure, t: TokenData) {
    exists i :: 0 <= i < |s.chains| && i < |s.mask| && s.mask[i] && FromChain(cfg, s, s.chains[i], s.chains[i].resNum, t)
  }

  /**
   * The token list of a structure: token `i` has index `i`, and every token
   * was emitted for a residue of a valid chain, copying that chain's and that
   * residue's fields as `TokenFrom` states.
   */
  lemma TokensShape(cfg: Config, s: Structure)
    requires WellFormed(cfg, s)
    ensures var ts := Tokens(cfg, s);
      && Numbered(ts)
      && |ts| == ChainsTokenCount(s, ValidChains(s.chains, s.mask), |ValidChains(s.chains, s.mask)|)
      && forall j :: 0 <= j < |ts| ==> FromValidChain(cfg, s, ts[j])
  {
    var cs := ValidChains(s.chains, s.mask);
    ValidChainsWellFormed(cfg, s);
    EmitChainsShape(cfg, s, cs, |cs|);
    var ts := Tokens(cfg, s);
    assert ts == EmitChains(cfg, s, cs, |cs|);
    forall j | 0 <= j < |ts| ensures FromValidChain(cfg, s, ts[j]) {
      var k :| 0 <= k < |cs| && FromChain(cfg, s, cs[k], cs[k].resNum, ts[j]);
      var i := MaskIndices(s.mask)[k];
      assert cs[k] == s.chains[i];
    }
  }
}
