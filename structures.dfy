/**
 * The atom-resolution structure that the tokenizer reads, the constant tables
 * it consults, and the well-formedness conditions that the structure loader
 * guarantees and the tokenizer relies on without checking.
 */
module Structures {

  /** A 3-D coordinate. The tokenizer only copies coordinates, never computes with them. */
  datatype Coords = Coords(x: real, y: real, z: real)

  /** A chain: the range [resIdx, resIdx + resNum) of the structure's residues, and its identity. */
  datatype Chain = Chain(
    resIdx: nat,
    resNum: nat,
    molType: nat,
    symId: int,
    asymId: int,
    entityId: int,
    cyclicPeriod: int)

  /** A residue: the range [atomIdx, atomIdx + atomNum) of the structure's atoms and its designated atoms. */
  datatype Residue = Residue(
    name: string,
    resType: int,
    resIdx: int,
    atomIdx: nat,
    atomNum: nat,
    atomCenter: nat,
    atomDisto: nat,
    isStandard: bool,
    isPresent: bool)

  datatype Atom = Atom(coords: Coords, isPresent: bool)

  /** An atom-level bond or connection between two global atom indices. */
  datatype Bond = Bond(atom1: int, atom2: int)

  /** The structure; `mask` runs parallel to `chains` and marks the valid ones. */
  datatype Structure = Structure(
    chains: seq<Chain>,
    mask: seq<bool>,
    residues: seq<Residue>,
    atoms: seq<Atom>,
    bonds: seq<Bond>,
    connections: seq<Bond>)

  /** The molecule-type names ("PROTEIN", "DNA", "RNA", "NONPOLYMER"). */
  datatype ChainType = Protein | Dna | Rna | NonPolymer

  /**
   * The constant tables the tokenizer consults: the molecule-type names indexed
   * by a chain's `molType`, the residue-name to one-letter-code table, and the
   * token id that stands for an unknown protein residue (the unknown protein
   * token looked up in the token-id table and then translated to this model's ids).
   */
  datatype Config = Config(chainTypes: seq<ChainType>, oneLetterCode: map<string, char>, unkId: int)

  /** The positions the mask selects, in increasing order. */
  function MaskIndices(mask: seq<bool>): (r: seq<nat>)
    ensures forall k :: 0 <= k < |r| ==> r[k] < |mask| && mask[r[k]]
    ensures forall k, l :: 0 <= k < l < |r| ==> r[k] < r[l]
    decreases |mask|
  {
    if mask == [] then []
    else
      var n := |mask| - 1;
      MaskIndices(mask[..n]) + (if mask[n] then [n] else [])
  }

  /** Every position the mask selects is among the mask's indices. */
  lemma {:induction false} MaskIndicesComplete(mask: seq<bool>)
    ensures forall i :: 0 <= i < |mask| && mask[i] ==> i in MaskIndices(mask)
    decreases |mask|
  {
    if mask != [] {
      var n := |mask| - 1;
      MaskIndicesComplete(mask[..n]);
      assert forall i :: 0 <= i < n ==> mask[..n][i] == mask[i];
    }
  }

  /** A mask that selects nothing has no indices. */
  lemma {:induction false} MaskIndicesNone(mask: seq<bool>)
    requires forall i :: 0 <= i < |mask| ==> !mask[i]
    ensures MaskIndices(mask) == []
    decreases |mask|
  {
    if mask != [] {
      MaskIndicesNone(mask[..|mask| - 1]);
    }
  }

  /** The chains selected by the validity mask, in structure order. */
  function ValidChains(chains: seq<Chain>, mask: seq<bool>): (r: seq<Chain>)
    requires |mask| == |chains|
    ensures |r| == |MaskIndices(mask)|
    ensures forall k :: 0 <= k < |r| ==> r[k] == chains[MaskIndices(mask)[k]]
  {
    var idx := MaskIndices(mask);
    seq(|idx|, k requires 0 <= k < |idx| => chains[idx[k]])
  }

  /** A kept chain stands at a position the mask selects. */
  lemma KeptChainSelected(chains: seq<Chain>, mask: seq<bool>, c: Chain)
    requires |mask| == |chains| && c in ValidChains(chains, mask)
    ensures exists i :: 0 <= i < |chains| && mask[i] && chains[i] == c
  {
    var r := ValidChains(chains, mask);
    var k :| 0 <= k < |r| && r[k] == c;
    var i := MaskIndices(mask)[k];
    assert mask[i] && chains[i] == c;
  }

  /** A chain at a position the mask selects is kept. */
  lemma SelectedChainKept(chains: seq<Chain>, mask: seq<bool>, i: nat)
    requires |mask| == |chains| && i < |chains| && mask[i]
    ensures chains[i] in ValidChains(chains, mask)
  {
    var idx := MaskIndices(mask);
    MaskIndicesComplete(mask);
    var k :| 0 <= k < |idx| && idx[k] == i;
    assert ValidChains(chains, mask)[k] == chains[i];
  }

  /** A chain is kept exactly when it stands at a position the mask selects. */
  lemma ValidChainsSelected(chains: seq<Chain>, mask: seq<bool>)
    requires |mask| == |chains|
    ensures forall c :: c in ValidChains(chains, mask) <==> exists i :: 0 <= i < |chains| && mask[i] && chains[i] == c
  {
    forall c ensures c in ValidChains(chains, mask) <==> exists i :: 0 <= i < |chains| && mask[i] && chains[i] == c {
      if c in ValidChains(chains, mask) {
        KeptChainSelected(chains, mask, c);
      }
      if exists i :: 0 <= i < |chains| && mask[i] && chains[i] == c {
        var i :| 0 <= i < |chains| && mask[i] && chains[i] == c;
        SelectedChainKept(chains, mask, i);
      }
    }
  }

  /** What tokenizing `res` inside chain `c` needs of the structure and the tables. */
  predicate ResidueWellFormed(cfg: Config, s: Structure, c: Chain, res: Residue) {
    && res.atomIdx + res.atomNum <= |s.atoms|
    && (res.isStandard ==> res.atomCenter < |s.atoms| && res.atomDisto < |s.atoms|)
    && (!res.isStandard ==> c.molType < |cfg.chainTypes|)
  }

  predicate ChainWellFormed(cfg: Config, s: Structure, c: Chain) {
    && c.resIdx + c.resNum <= |s.residues|
    && forall r :: c.resIdx <= r < c.resIdx + c.resNum ==> ResidueWellFormed(cfg, s, c, s.residues[r])
  }

  predicate ChainsWellFormed(cfg: Config, s: Structure, cs: seq<Chain>) {
    forall j :: 0 <= j < |cs| ==> ChainWellFormed(cfg, s, cs[j])
  }

  /** Every valid chain is well formed; invalid chains are never looked at. */
  predicate WellFormed(cfg: Config, s: Structure) {
    && |s.mask| == |s.chains|
    && forall i :: 0 <= i < |s.chains| && s.mask[i] ==> ChainWellFormed(cfg, s, s.chains[i])
  }

  /** Atom `x` lies in the atom range of `res`. */
  predicate InResidue(res: Residue, x: int) {
    res.atomIdx <= x < res.atomIdx + res.atomNum
  }

  /** Atom `x` lies in some residue of chain `c`. */
  ghost predicate InChain(s: Structure, c: Chain, x: int) {
    exists r :: c.resIdx <= r < c.resIdx + c.resNum && r < |s.residues| && InResidue(s.residues[r], x)
  }

  /** Atom `x` lies in some residue of some valid chain. */
  ghost predicate InValidChain(s: Structure, x: int) {
    exists i :: 0 <= i < |s.chains| && i < |s.mask| && s.mask[i] && InChain(s, s.chains[i], x)
  }

  predicate ResidueRangesDisjoint(a: Chain, b: Chain) {
    a.resIdx + a.resNum <= b.resIdx || b.resIdx + b.resNum <= a.resIdx
  }

  /** No atom belongs to two residues of the structure. */
  ghost predicate ResidueAtomsDisjoint(s: Structure) {
    forall r1, r2, x :: 0 <= r1 < r2 < |s.residues| && InResidue(s.residues[r1], x) ==> !InResidue(s.residues[r2], x)
  }

  /** No residue belongs to two valid chains. */
  ghost predicate ValidChainsDisjoint(s: Structure)
    requires |s.mask| == |s.chains|
  {
    forall i, j :: 0 <= i < j < |s.chains| && s.mask[i] && s.mask[j] ==> ResidueRangesDisjoint(s.chains[i], s.chains[j])
  }
}
