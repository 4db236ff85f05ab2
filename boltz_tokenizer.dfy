/**
 * The tokenizer itself: one pass over the valid chains that appends token
 * records and fills the atom-to-token index in place, followed by two passes
 * that project the atom bonds and the connections onto token pairs.
 */
module BoltzTokenizer {
  import opened Structures
  import opened TokenSpec

  /**
   * Tokenize a structure: one token per standard residue, one token per atom
   * of every other residue, then the token bonds. The result is exactly the
   * specification's token list and bond list.
   */
  method Tokenize(cfg: Config, s: Structure) returns (tokenData: seq<TokenData>, tokenBonds: seq<TokenBond>)
    requires WellFormed(cfg, s)
    ensures tokenData == Tokens(cfg, s)
    ensures tokenBonds == TokenBonds(cfg, s)
  {
    var chains := ValidChains(s.chains, s.mask);
    ValidChainsWellFormed(cfg, s);
    var atomToToken;
    tokenData, atomToToken := TokenizeChains(cfg, s, chains);
    tokenBonds := ProjectBondList(atomToToken, s.bonds, []);
    tokenBonds := ProjectBondList(atomToToken, s.connections, tokenBonds);
  }

  /** The chain loop: tokenize the chains of `chains` in order, numbering tokens from 0. */
  method TokenizeChains(cfg: Config, s: Structure, chains: seq<Chain>)
    returns (tokenData: seq<TokenData>, atomToToken: map<int, nat>)
    requires ChainsWellFormed(cfg, s, chains)
    ensures tokenData == EmitChains(cfg, s, chains, |chains|)
    ensures atomToToken == TokenMap(tokenData)
  {
    tokenData := [];
    var tokenIdx: nat := 0;
    atomToToken := map[];
    for ci := 0 to |chains|
      invariant tokenData == EmitChains(cfg, s, chains, ci)
      invariant tokenIdx == |tokenData|
      invariant atomToToken == TokenMap(tokenData)
    {
      EmitChainsStep(cfg, s, chains, ci, tokenData);
      tokenData, tokenIdx, atomToToken := TokenizeChain(cfg, s, chains[ci], tokenData, tokenIdx, atomToToken);
    }
  }

  /** The body of the chain loop: tokenize the residues of `chain` in order. */
  method TokenizeChain(cfg: Config, s: Structure, chain: Chain,
                       tokenData: seq<TokenData>, tokenIdx: nat, atomToToken: map<int, nat>)
    returns (tokenData': seq<TokenData>, tokenIdx': nat, atomToToken': map<int, nat>)
    requires ChainWellFormed(cfg, s, chain)
    requires tokenIdx == |tokenData| && atomToToken == TokenMap(tokenData)
    ensures tokenData' == EmitChain(cfg, s, chain, tokenData, chain.resNum)
    ensures tokenIdx' == |tokenData'| && atomToToken' == TokenMap(tokenData')
  {
    tokenData', tokenIdx', atomToToken' := tokenData, tokenIdx, atomToToken;
    for k := 0 to chain.resNum
      invariant tokenData' == EmitChain(cfg, s, chain, tokenData, k)
      invariant tokenIdx' == |tokenData'| && atomToToken' == TokenMap(tokenData')
    {
      var res := s.residues[chain.resIdx + k];
      EmitChainStep(cfg, s, chain, tokenData, k, tokenData', res);
      tokenData', tokenIdx', atomToToken' := TokenizeResidue(cfg, s, chain, res, tokenData', tokenIdx', atomToToken');
    }
  }

  /**
   * The body of the residue loop: append the tokens of `res` (one for a
   * standard residue, one per atom otherwise), advancing the token counter
   * and entering each of the residue's atoms into the atom-to-token index.
   */
  method TokenizeResidue(cfg: Config, s: Structure, chain: Chain, res: Residue,
                         tokenData: seq<TokenData>, tokenIdx: nat, atomToToken: map<int, nat>)
    returns (tokenData': seq<TokenData>, tokenIdx': nat, atomToToken': map<int, nat>)
    requires ResidueWellFormed(cfg, s, chain, res)
    requires tokenIdx == |tokenData| && atomToToken == TokenMap(tokenData)
    ensures tokenData' == EmitResidue(cfg, s, chain, res, tokenData)
    ensures tokenIdx' == |tokenData'| && atomToToken' == TokenMap(tokenData')
  {
    if res.isStandard {
      tokenData', tokenIdx', atomToToken' := TokenizeStandardResidue(s, chain, res, tokenData, tokenIdx, atomToToken);
    } else {
      var resType: int;
      if cfg.chainTypes[chain.molType] != NonPolymer && res.name in cfg.oneLetterCode {
        resType := res.resType;
      } else {
        resType := cfg.unkId;
      }
      tokenData', tokenIdx', atomToToken' := TokenizeAtoms(s, chain, res, resType, tokenData, tokenIdx, atomToToken);
    }
  }

  /**
   * A standard residue: one token centred on the residue's center atom, then
   * every atom of the residue entered into the index under that token.
   */
  method TokenizeStandardResidue(s: Structure, chain: Chain, res: Residue,
                                 tokenData: seq<TokenData>, tokenIdx: nat, atomToToken: map<int, nat>)
    returns (tokenData': seq<TokenData>, tokenIdx': nat, atomToToken': map<int, nat>)
    requires res.atomCenter < |s.atoms| && res.atomDisto < |s.atoms|
    requires tokenIdx == |tokenData| && atomToToken == TokenMap(tokenData)
    ensures tokenData' == tokenData + [StandardToken(s, chain, res, tokenIdx)]
    ensures tokenIdx' == |tokenData'| && atomToToken' == TokenMap(tokenData')
  {
    var center := s.atoms[res.atomCenter];
    var disto := s.atoms[res.atomDisto];
    var isPresent := res.isPresent && center.isPresent;
    var isDistoPresent := res.isPresent && disto.isPresent;
    var token := TokenData(tokenIdx, res.atomIdx, res.atomNum, res.resIdx, res.resType,
                           chain.symId, chain.asymId, chain.entityId, chain.molType,
                           res.atomCenter, res.atomDisto, center.coords, disto.coords,
                           isPresent, isDistoPresent, chain.cyclicPeriod);
    tokenData' := tokenData + [token];

    var atomStart := res.atomIdx;
    var atomEnd := res.atomIdx + res.atomNum;
    atomToToken' := atomToToken;
    for a := atomStart to atomEnd
      invariant atomToToken' == Enter(atomToToken, atomStart, a - atomStart, tokenIdx)
    {
      atomToToken' := atomToToken'[a := tokenIdx];
    }
    TokenMapSnoc(tokenData, token);
    tokenIdx' := tokenIdx + 1;
  }

  /**
   * A non-standard residue: one token per atom, in atom order, each of type
   * `resType` and entered into the index under its own token.
   */
  method TokenizeAtoms(s: Structure, chain: Chain, res: Residue, resType: int,
                       tokenData: seq<TokenData>, tokenIdx: nat, atomToToken: map<int, nat>)
    returns (tokenData': seq<TokenData>, tokenIdx': nat, atomToToken': map<int, nat>)
    requires res.atomIdx + res.atomNum <= |s.atoms|
    requires tokenIdx == |tokenData| && atomToToken == TokenMap(tokenData)
    ensures tokenData' == AtomTokens(s, chain, res, resType, tokenData, res.atomNum)
    ensures tokenIdx' == |tokenData'| && atomToToken' == TokenMap(tokenData')
  {
    tokenData', tokenIdx', atomToToken' := tokenData, tokenIdx, atomToToken;
    var atomStart := res.atomIdx;
    for i := 0 to res.atomNum
      invariant tokenData' == AtomTokens(s, chain, res, resType, tokenData, i)
      invariant tokenIdx' == |tokenData'| && atomToToken' == TokenMap(tokenData')
    {
      var atom := s.atoms[atomStart + i];
      var isPresent := res.isPresent && atom.isPresent;
      var index := atomStart + i;
      var token := TokenData(tokenIdx', index, 1, res.resIdx, resType,
                             chain.symId, chain.asymId, chain.entityId, chain.molType,
                             index, index, atom.coords, atom.coords,
                             isPresent, isPresent, chain.cyclicPeriod);
      AtomTokensStep(s, chain, res, resType, tokenData, i, tokenData', index);
      TokenMapSnoc(tokenData', token);
      tokenData' := tokenData' + [token];
      atomToToken' := atomToToken'[index := tokenIdx'];
      tokenIdx' := tokenIdx' + 1;
    }
  }

  /**
   * One of the two bond loops: append, in order, the token pair of every bond
   * of `bs` whose endpoints are both in the atom-to-token index, and skip the rest.
   */
  method ProjectBondList(atomToToken: map<int, nat>, bs: seq<Bond>, tokenBonds: seq<TokenBond>)
    returns (tokenBonds': seq<TokenBond>)
    ensures tokenBonds' == ProjectBonds(tokenBonds, atomToToken, bs, |bs|)
  {
    tokenBonds' := tokenBonds;
    for j := 0 to |bs|
      invariant tokenBonds' == ProjectBonds(tokenBonds, atomToToken, bs, j)
    {
      var bond := bs[j];
      if bond.atom1 !in atomToToken || bond.atom2 !in atomToToken {
        continue;
      }
      tokenBonds' := tokenBonds' + [TokenBond(atomToToken[bond.atom1], atomToToken[bond.atom2])];
    }
  }
}
