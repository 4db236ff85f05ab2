/**
 * What the tokenizer produces, stated as pure functions of the structure:
 * the token records in emission order, the atom-to-token index built while
 * emitting them, and the token bonds obtained by projecting atom bonds and
 * connections through that index.
 */
module TokenSpec {
  import opened Structures

  /** One token record, field for field as the tokenizer fills it in. */
  datatype TokenData = TokenData(
    tokenIdx: nat,
    atomIdx: nat,
    atomNum: nat,
    resIdx: int,
    resType: int,
    symId: int,
    asymId: int,
    entityId: int,
    molType: nat,
    centerIdx: nat,
    distoIdx: nat,
    centerCoords: Coords,
    distoCoords: Coords,
    resolvedMask: bool,
    distoMask: bool,
    cyclicPeriod: int)

  datatype TokenBond = TokenBond(token1: nat, token2: nat)

  /** The single token of a standard residue. */
  function StandardToken(s: Structure, c: Chain, res: Residue, idx: nat): TokenData
    requires res.atomCenter < |s.atoms| && res.atomDisto < |s.atoms|
  {
    var center := s.atoms[res.atomCenter];
    var disto := s.atoms[res.atomDisto];
    TokenData(idx, res.atomIdx, res.atomNum, res.resIdx, res.resType,
              c.symId, c.asymId, c.entityId, c.molType,
              res.atomCenter, res.atomDisto, center.coords, disto.coords,
              res.isPresent && center.isPresent, res.isPresent && disto.isPresent,
              c.cyclicPeriod)
  }

  /**
   * The residue type given to every atom token of a non-standard residue: its
   * own type when its chain is a polymer and its name has a one-letter code,
   * the unknown protein type otherwise.
   */
  function AtomTokenType(cfg: Config, c: Chain, res: Residue): int
    requires c.molType < |cfg.chainTypes|
  {
    if cfg.chainTypes[c.molType] != NonPolymer && res.name in cfg.oneLetterCode then res.resType else cfg.unkId
  }

  /** The token of atom `index` of a non-standard residue. */
  function AtomToken(s: Structure, c: Chain, res: Residue, resType: int, index: nat, idx: nat): TokenData
    requires index < |s.atoms|
  {
    var atom := s.atoms[index];
    TokenData(idx, index, 1, res.resIdx, resType,
              c.symId, c.asymId, c.entityId, c.molType,
              index, index, atom.coords, atom.coords,
              res.isPresent && atom.isPresent, res.isPresent && atom.isPresent,
              c.cyclicPeriod)
  }

  /**
   * `acc` followed by the tokens of the first `n` atoms of a non-standard
   * residue, each numbered by its position in the list.
   */
  function AtomTokens(s: Structure, c: Chain, res: Residue, resType: int, acc: seq<TokenData>, n: nat): (r: seq<TokenData>)
    requires res.atomIdx + n <= |s.atoms|
    ensures |r| == |acc| + n
    decreases n
  {
    if n == 0 then acc
    else
      var p := AtomTokens(s, c, res, resType, acc, n - 1);
      p + [AtomToken(s, c, res, resType, res.atomIdx + n - 1, |p|)]
  }

  /** One more atom token: the token of atom `index`, numbered `|prev|`, appended to `prev`. */
  lemma {:induction false} AtomTokensStep(s: Structure, c: Chain, res: Residue, resType: int, acc: seq<TokenData>, i: nat,
                                          prev: seq<TokenData>, index: nat)
    requires res.atomIdx + i < |s.atoms|
    requires prev == AtomTokens(s, c, res, resType, acc, i) && index == res.atomIdx + i
    ensures AtomTokens(s, c, res, resType, acc, i + 1) == prev + [AtomToken(s, c, res, resType, index, |prev|)]
  {
  }

  /** How many tokens a residue yields: one if standard, one per atom otherwise. */
  function ResidueTokenCount(res: Residue): nat {
    if res.isStandard then 1 else res.atomNum
  }

  /**
   * Token `t` was emitted for residue `res` of chain `c`: the fields every
   * token copies from its chain and residue, and then either the fields of a
   * residue token or those of an atom token.
   */
  ghost predicate TokenFrom(cfg: Config, s: Structure, c: Chain, res: Residue, t: TokenData) {
    && ResidueWellFormed(cfg, s, c, res)
    && t.resIdx == res.resIdx
    && t.symId == c.symId && t.asymId == c.asymId && t.entityId == c.entityId
    && t.molType == c.molType && t.cyclicPeriod == c.cyclicPeriod
    && (res.isStandard ==>
          && t.atomIdx == res.atomIdx && t.atomNum == res.atomNum && t.resType == res.resType
          && t.centerIdx == res.atomCenter && t.distoIdx == res.atomDisto
          && t.centerCoords == s.atoms[res.atomCenter].coords
          && t.distoCoords == s.atoms[res.atomDisto].coords
          && t.resolvedMask == (res.isPresent && s.atoms[res.atomCenter].isPresent)
          && t.distoMask == (res.isPresent && s.atoms[res.atomDisto].isPresent))
    && (!res.isStandard ==>
          && InResidue(res, t.atomIdx) && t.atomNum == 1
          && t.centerIdx == t.atomIdx && t.distoIdx == t.atomIdx
          && t.centerCoords == s.atoms[t.atomIdx].coords
          && t.distoCoords == s.atoms[t.atomIdx].coords
          && t.resolvedMask == (res.isPresent && s.atoms[t.atomIdx].isPresent)
          && t.distoMask == t.resolvedMask
          && t.resType == AtomTokenType(cfg, c, res))
  }

  /** `acc` followed by the tokens of one residue, numbered on from `|acc|`. */
  function EmitResidue(cfg: Config, s: Structure, c: Chain, res: Residue, acc: seq<TokenData>): (r: seq<TokenData>)
    requires ResidueWellFormed(cfg, s, c, res)
    ensures |r| == |acc| + ResidueTokenCount(res)
  {
    if res.isStandard then acc + [StandardToken(s, c, res, |acc|)]
    else AtomTokens(s, c, res, AtomTokenType(cfg, c, res), acc, res.atomNum)
  }

  /** `acc` followed by the tokens of the first `n` residues of chain `c`. */
  function EmitChain(cfg: Config, s: Structure, c: Chain, acc: seq<TokenData>, n: nat): seq<TokenData>
    requires ChainWellFormed(cfg, s, c) && n <= c.resNum
    decreases n
  {
    if n == 0 then acc
    else EmitResidue(cfg, s, c, s.residues[c.resIdx + n - 1], EmitChain(cfg, s, c, acc, n - 1))
  }

  /** One more residue of the chain: residue `res` emitted on top of `prev`. */
  lemma {:induction false} EmitChainStep(cfg: Config, s: Structure, c: Chain, acc: seq<TokenData>, k: nat,
                                         prev: seq<TokenData>, res: Residue)
    requires ChainWellFormed(cfg, s, c) && k < c.resNum
    requires prev == EmitChain(cfg, s, c, acc, k) && res == s.residues[c.resIdx + k]
    ensures ResidueWellFormed(cfg, s, c, res)
    ensures EmitChain(cfg, s, c, acc, k + 1) == EmitResidue(cfg, s, c, res, prev)
  {
  }

  /** The tokens of all residues of the first `n` chains of `cs`, numbered from 0. */
  function EmitChains(cfg: Config, s: Structure, cs: seq<Chain>, n: nat): seq<TokenData>
    requires ChainsWellFormed(cfg, s, cs) && n <= |cs|
    decreases n
  {
    if n == 0 then []
    else EmitChain(cfg, s, cs[n - 1], EmitChains(cfg, s, cs, n - 1), cs[n - 1].resNum)
  }

  /** One more chain: all of chain `cs[k]` emitted on top of `prev`. */
  lemma {:induction false} EmitChainsStep(cfg: Config, s: Structure, cs: seq<Chain>, k: nat, prev: seq<TokenData>)
    requires ChainsWellFormed(cfg, s, cs) && k < |cs|
    requires prev == EmitChains(cfg, s, cs, k)
    ensures ChainWellFormed(cfg, s, cs[k])
    ensures EmitChains(cfg, s, cs, k + 1) == EmitChain(cfg, s, cs[k], prev, cs[k].resNum)
  {
  }

  lemma ValidChainsWellFormed(cfg: Config, s: Structure)
    requires WellFormed(cfg, s)
    ensures ChainsWellFormed(cfg, s, ValidChains(s.chains, s.mask))
  {
    var cs := ValidChains(s.chains, s.mask);
    forall j | 0 <= j < |cs| ensures ChainWellFormed(cfg, s, cs[j]) {
      assert cs[j] == s.chains[MaskIndices(s.mask)[j]];
    }
  }

  /** The token records of the whole structure: the valid chains' tokens, in chain order. */
  function Tokens(cfg: Config, s: Structure): seq<TokenData>
    requires WellFormed(cfg, s)
  {
    var cs := ValidChains(s.chains, s.mask);
    ValidChainsWellFormed(cfg, s);
    EmitChains(cfg, s, cs, |cs|)
  }

  /** Token `t` owns atom `x`. */
  predicate Covers(t: TokenData, x: int) {
    t.atomIdx <= x < t.atomIdx + t.atomNum
  }

  /** `m` after entering token `v` for the `k` atoms starting at `lo`, in increasing order. */
  function Enter(m: map<int, nat>, lo: int, k: nat, v: nat): map<int, nat>
    decreases k
  {
    if k == 0 then m else Enter(m, lo, k - 1, v)[lo + k - 1 := v]
  }

  /**
   * The atom-to-token index after emitting `ts` in order: each token enters
   * every atom it owns, overwriting what an earlier token entered.
   */
  function TokenMap(ts: seq<TokenData>): map<int, nat>
    decreases |ts|
  {
    if ts == [] then map[]
    else
      var n := |ts| - 1;
      Enter(TokenMap(ts[..n]), ts[n].atomIdx, ts[n].atomNum, n)
  }

  /** Emitting one more token enters the atoms it owns on top of the index so far. */
  lemma {:induction false} TokenMapSnoc(ts: seq<TokenData>, t: TokenData)
    ensures TokenMap(ts + [t]) == Enter(TokenMap(ts), t.atomIdx, t.atomNum, |ts|)
  {
    assert (ts + [t])[..|ts|] == ts;
  }

  /** Both endpoints of `b` have a token. */
  predicate Mapped(m: map<int, nat>, b: Bond) {
    b.atom1 in m && b.atom2 in m
  }

  function ProjectBond(m: map<int, nat>, b: Bond): TokenBond
    requires Mapped(m, b)
  {
    TokenBond(m[b.atom1], m[b.atom2])
  }

  /**
   * `acc` followed by the first `n` bonds of `bs` whose endpoints both have
   * tokens, projected in order; the other bonds are dropped.
   */
  function ProjectBonds(acc: seq<TokenBond>, m: map<int, nat>, bs: seq<Bond>, n: nat): (r: seq<TokenBond>)
    requires n <= |bs|
    ensures |r| <= |acc| + n
    decreases n
  {
    if n == 0 then acc
    else
      var p := ProjectBonds(acc, m, bs, n - 1);
      if Mapped(m, bs[n - 1]) then p + [ProjectBond(m, bs[n - 1])] else p
  }

  /** The token bonds of the structure: projected atom bonds, then projected connections. */
  function TokenBonds(cfg: Config, s: Structure): (r: seq<TokenBond>)
    requires WellFormed(cfg, s)
    ensures |r| <= |s.bonds| + |s.connections|
  {
    var m := TokenMap(Tokens(cfg, s));
    var fromBonds := ProjectBonds([], m, s.bonds, |s.bonds|);
    ProjectBonds(fromBonds, m, s.connections, |s.connections|)
  }
}
