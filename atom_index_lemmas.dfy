/**
 * Properties of the atom-to-token index: which atoms it holds, which token
 * each atom is mapped to, and what happens to the index when one residue is
 * tokenized.
 */
module AtomIndexLemmas {
  import opened Structures
  import opened TokenSpec
  import opened TokenLemmas

  /** Entering `k` atoms from `lo`: exactly those keys are added, all mapped to `v`; other keys keep their value. */
  lemma {:induction false} EnterAt(m: map<int, nat>, lo: int, k: nat, v: nat)
    ensures forall x :: x in Enter(m, lo, k, v) <==> x in m || lo <= x < lo + k
    ensures forall x :: x in Enter(m, lo, k, v) ==> Enter(m, lo, k, v)[x] == if lo <= x < lo + k then v else m[x]
    decreases k
  {
    if k > 0 {
      EnterAt(m, lo, k - 1, v);
    }
  }

  /** The index after emitting `ts` holds exactly the atoms some token of `ts` covers. */
  lemma {:induction false} TokenMapDomain(ts: seq<TokenData>)
    ensures forall x :: x in TokenMap(ts) <==> exists i :: 0 <= i < |ts| && Covers(ts[i], x)
    decreases |ts|
  {
    if ts != [] {
      var n := |ts| - 1;
      var p := ts[..n];
      TokenMapDomain(p);
      EnterAt(TokenMap(p), ts[n].atomIdx, ts[n].atomNum, n);
      assert forall i :: 0 <= i < n ==> p[i] == ts[i];
      forall x | x in TokenMap(ts) ensures exists i :: 0 <= i < |ts| && Covers(ts[i], x) {
        if !Covers(ts[n], x) {
          var i :| 0 <= i < |p| && Covers(p[i], x);
        }
      }
      forall x | exists i :: 0 <= i < |ts| && Covers(ts[i], x) ensures x in TokenMap(ts) {
        var i :| 0 <= i < |ts| && Covers(ts[i], x);
        if i < n {
          assert Covers(p[i], x);
        }
      }
    }
  }

  /** The index maps every atom it holds to the LAST token of `ts` that covers it. */
  lemma {:induction false} TokenMapLast(ts: seq<TokenData>)
    ensures forall x :: x in TokenMap(ts) ==>
              && TokenMap(ts)[x] < |ts|
              && Covers(ts[TokenMap(ts)[x]], x)
              && forall j :: TokenMap(ts)[x] < j < |ts| ==> !Covers(ts[j], x)
    decreases |ts|
  {
    if ts != [] {
      var n := |ts| - 1;
      var p := ts[..n];
      TokenMapLast(p);
      EnterAt(TokenMap(p), ts[n].atomIdx, ts[n].atomNum, n);
      assert forall i :: 0 <= i < n ==> p[i] == ts[i];
      forall x | x in TokenMap(ts) && !Covers(ts[n], x)
        ensures && TokenMap(ts)[x] < |ts|
                && Covers(ts[TokenMap(ts)[x]], x)
                && forall j :: TokenMap(ts)[x] < j < |ts| ==> !Covers(ts[j], x)
      {
        assert TokenMap(ts)[x] == TokenMap(p)[x];
      }
    }
  }

  /** No atom is covered by two tokens of `ts`. */
  ghost predicate Disjoint(ts: seq<TokenData>) {
    forall i, j, x :: 0 <= i < j < |ts| && Covers(ts[i], x) ==> !Covers(ts[j], x)
  }

  /** When no two tokens share an atom, every atom a token covers is mapped to that token. */
  lemma TokenMapOwner(ts: seq<TokenData>)
    requires Disjoint(ts)
    ensures forall i, x :: 0 <= i < |ts| && Covers(ts[i], x) ==> x in TokenMap(ts) && TokenMap(ts)[x] == i
  {
    TokenMapDomain(ts);
    TokenMapLast(ts);
  }

  /** A token emitted for `res` covers only atoms of `res`. */
  lemma TokenFromCovers(cfg: Config, s: Structure, c: Chain, res: Residue, t: TokenData, x: int)
    requires TokenFrom(cfg, s, c, res, t) && Covers(t, x)
    ensures InResidue(res, x)
  {
  }

  /** Two tokens that both cover `x` with no later token covering it are the same token. */
  lemma LastCoverUnique(ts: seq<TokenData>, x: int, i: nat, k: nat)
    requires i < |ts| && Covers(ts[i], x) && forall j :: i < j < |ts| ==> !Covers(ts[j], x)
    requires k < |ts| && Covers(ts[k], x) && forall j :: k < j < |ts| ==> !Covers(ts[j], x)
    ensures i == k
  {
  }

  /**
   * Tokenizing one residue on top of `acc` maps each atom of the residue to
   * the residue's token (standard residue) or to its own atom token
   * (non-standard residue).
   */
  lemma EmitResidueIndexOwn(cfg: Config, s: Structure, c: Chain, res: Residue, acc: seq<TokenData>)
    requires ResidueWellFormed(cfg, s, c, res)
    ensures var m := TokenMap(EmitResidue(cfg, s, c, res, acc));
      forall x :: InResidue(res, x) ==> x in m && m[x] == if res.isStandard then |acc| else |acc| + (x - res.atomIdx)
  {
    var r := EmitResidue(cfg, s, c, res, acc);
    var m := TokenMap(r);
    EmitResidueShape(cfg, s, c, res, acc);
    TokenMapDomain(r);
    TokenMapLast(r);
    forall x | InResidue(res, x)
      ensures x in m && m[x] == if res.isStandard then |acc| else |acc| + (x - res.atomIdx)
    {
      var j0 := if res.isStandard then |acc| else |acc| + (x - res.atomIdx);
      assert Covers(r[j0], x);
      forall j | j0 < j < |r| ensures !Covers(r[j], x) {
        assert r[j].atomIdx == res.atomIdx + (j - |acc|);
      }
      LastCoverUnique(r, x, j0, m[x]);
    }
  }

  /** Tokenizing one residue leaves the entry, or the absence, of every atom outside it unchanged. */
  lemma EmitResidueIndexOthers(cfg: Config, s: Structure, c: Chain, res: Residue, acc: seq<TokenData>)
    requires ResidueWellFormed(cfg, s, c, res)
    ensures var m := TokenMap(EmitResidue(cfg, s, c, res, acc));
      forall x :: !InResidue(res, x) ==> (x in m <==> x in TokenMap(acc)) && (x in m ==> m[x] == TokenMap(acc)[x])
  {
    var r := EmitResidue(cfg, s, c, res, acc);
    EmitResidueShape(cfg, s, c, res, acc);
    forall x | !InResidue(res, x)
      ensures (x in TokenMap(r) <==> x in TokenMap(acc)) && (x in TokenMap(r) ==> TokenMap(r)[x] == TokenMap(acc)[x])
    {
      forall j | |acc| <= j < |r| ensures !Covers(r[j], x) {
        if Covers(r[j], x) {
          TokenFromCovers(cfg, s, c, res, r[j], x);
        }
      }
      ExtensionIndex(r, acc, x);
    }
  }

  /** Appending tokens that do not cover `x` leaves the entry, or the absence, of `x` unchanged. */
  lemma ExtensionIndex(r: seq<TokenData>, acc: seq<TokenData>, x: int)
    requires Extends(r, acc)
    requires forall j :: |acc| <= j < |r| ==> !Covers(r[j], x)
    ensures x in TokenMap(r) <==> x in TokenMap(acc)
    ensures x in TokenMap(r) ==> TokenMap(r)[x] == TokenMap(acc)[x]
  {
    TokenMapDomain(r);
    TokenMapLast(r);
    TokenMapDomain(acc);
    TokenMapLast(acc);
    if x in TokenMap(acc) {
      var i :| 0 <= i < |acc| && Covers(acc[i], x);
      assert r[i] == acc[i];
    }
    if x in TokenMap(r) {
      var k := TokenMap(r)[x];
      assert k < |acc| && acc[k] == r[k];
      forall j | k < j < |acc| ensures !Covers(acc[j], x) {
        assert acc[j] == r[j];
      }
      LastCoverUnique(acc, x, k, TokenMap(acc)[x]);
    }
  }

  /** Every atom of a residue is covered by one of the tokens that residue adds. */
  lemma EmitResidueCovers(cfg: Config, s: Structure, c: Chain, res: Residue, acc: seq<TokenData>, x: int)
    requires ResidueWellFormed(cfg, s, c, res) && InResidue(res, x)
    ensures CoveredFrom(EmitResidue(cfg, s, c, res, acc), |acc|, x)
  {
    var r := EmitResidue(cfg, s, c, res, acc);
    EmitResidueShape(cfg, s, c, res, acc);
    var j0 := if res.isStandard then |acc| else |acc| + (x - res.atomIdx);
    assert Covers(r[j0], x);
  }

  /** Some token of `r` from position `lo` on covers `x`. */
  ghost predicate CoveredFrom(r: seq<TokenData>, lo: nat, x: int) {
    exists j :: lo <= j < |r| && Covers(r[j], x)
  }

  /** A cover found in `p` persists in any extension of `p`. */
  lemma CoverKept(r: seq<TokenData>, p: seq<TokenData>, lo: nat, x: int)
    requires Extends(r, p) && CoveredFrom(p, lo, x)
    ensures CoveredFrom(r, lo, x)
  {
    var j :| lo <= j < |p| && Covers(p[j], x);
    assert r[j] == p[j];
  }

  /** A cover past `mid` is a cover past any `lo <= mid`. */
  lemma CoverWiden(r: seq<TokenData>, lo: nat, mid: nat, x: int)
    requires lo <= mid && CoveredFrom(r, mid, x)
    ensures CoveredFrom(r, lo, x)
  {
    var j :| mid <= j < |r| && Covers(r[j], x);
  }

  /** An atom of residue `q`, one of the first `n` residues of chain `c`, is covered by a token the chain adds. */
  lemma {:induction false} EmitChainCovers(cfg: Config, s: Structure, c: Chain, acc: seq<TokenData>, n: nat, q: nat, x: int)
    requires ChainWellFormed(cfg, s, c) && n <= c.resNum
    requires c.resIdx <= q < c.resIdx + n && InResidue(s.residues[q], x)
    ensures CoveredFrom(EmitChain(cfg, s, c, acc, n), |acc|, x)
    decreases n
  {
    var p := EmitChain(cfg, s, c, acc, n - 1);
    var res := s.residues[c.resIdx + n - 1];
    var r := EmitChain(cfg, s, c, acc, n);
    assert r == EmitResidue(cfg, s, c, res, p);
    if q == c.resIdx + n - 1 {
      EmitChainExtends(cfg, s, c, acc, n - 1);
      EmitResidueCovers(cfg, s, c, res, p, x);
      CoverWiden(r, |acc|, |p|, x);
    } else {
      EmitChainCovers(cfg, s, c, acc, n - 1, q, x);
      EmitResidueExtends(cfg, s, c, res, p);
      CoverKept(r, p, |acc|, x);
    }
  }

  /** An atom of a residue of chain `cs[k]`, one of the first `n` chains, is covered by some token. */
  lemma {:induction false} EmitChainsCovers(cfg: Config, s: Structure, cs: seq<Chain>, n: nat, k: nat, q: nat, x: int)
    requires ChainsWellFormed(cfg, s, cs) && k < n <= |cs|
    requires cs[k].resIdx <= q < cs[k].resIdx + cs[k].resNum && InResidue(s.residues[q], x)
    ensures CoveredFrom(EmitChains(cfg, s, cs, n), 0, x)
    decreases n
  {
    var p := EmitChains(cfg, s, cs, n - 1);
    var c := cs[n - 1];
    var r := EmitChains(cfg, s, cs, n);
    assert r == EmitChain(cfg, s, c, p, c.resNum);
    if k == n - 1 {
      EmitChainCovers(cfg, s, c, p, c.resNum, q, x);
      CoverWiden(r, 0, |p|, x);
    } else {
      EmitChainsCovers(cfg, s, cs, n - 1, k, q, x);
      EmitChainExtends(cfg, s, c, p, c.resNum);
      CoverKept(r, p, 0, x);
    }
  }

  /** An atom covered by a token of a valid chain lies in that chain. */
  lemma FromValidChainCovers(cfg: Config, s: Structure, t: TokenData, x: int)
    requires FromValidChain(cfg, s, t) && Covers(t, x)
    ensures InValidChain(s, x)
  {
    var i :| 0 <= i < |s.chains| && i < |s.mask| && s.mask[i] && FromChain(cfg, s, s.chains[i], s.chains[i].resNum, t);
    var c := s.chains[i];
    var q :| c.resIdx <= q < c.resIdx + c.resNum && q < |s.residues| && TokenFrom(cfg, s, c, s.residues[q], t);
    TokenFromCovers(cfg, s, c, s.residues[q], t, x);
    assert InChain(s, c, x);
  }

  /** An atom in the index belongs to a residue of a valid chain. */
  lemma IndexedAtomInValidChain(cfg: Config, s: Structure, x: int)
    requires WellFormed(cfg, s) && x in TokenMap(Tokens(cfg, s))
    ensures InValidChain(s, x)
  {
    var ts := Tokens(cfg, s);
    TokenMapDomain(ts);
    TokensShape(cfg, s);
    var j :| 0 <= j < |ts| && Covers(ts[j], x);
    FromValidChainCovers(cfg, s, ts[j], x);
  }

  /** An atom of a residue of a valid chain is in the index. */
  lemma ValidChainAtomIndexed(cfg: Config, s: Structure, x: int)
    requires WellFormed(cfg, s) && InValidChain(s, x)
    ensures x in TokenMap(Tokens(cfg, s))
  {
    var cs := ValidChains(s.chains, s.mask);
    ValidChainsWellFormed(cfg, s);
    var ts := Tokens(cfg, s);
    assert ts == EmitChains(cfg, s, cs, |cs|);
    var i :| 0 <= i < |s.chains| && i < |s.mask| && s.mask[i] && InChain(s, s.chains[i], x);
    var q :| s.chains[i].resIdx <= q < s.chains[i].resIdx + s.chains[i].resNum && q < |s.residues| && InResidue(s.residues[q], x);
    MaskIndicesComplete(s.mask);
    var k :| 0 <= k < |MaskIndices(s.mask)| && MaskIndices(s.mask)[k] == i;
    assert cs[k] == s.chains[i];
    EmitChainsCovers(cfg, s, cs, |cs|, k, q, x);
    TokenMapDomain(ts);
  }

  /**
   * The atoms in the atom-to-token index are exactly the atoms of the
   * residues of the valid chains.
   */
  lemma AtomToTokenDomain(cfg: Config, s: Structure)
    requires WellFormed(cfg, s)
    ensures forall x :: x in TokenMap(Tokens(cfg, s)) <==> InValidChain(s, x)
  {
    forall x ensures x in TokenMap(Tokens(cfg, s)) <==> InValidChain(s, x) {
      if x in TokenMap(Tokens(cfg, s)) {
        IndexedAtomInValidChain(cfg, s, x);
      }
      if InValidChain(s, x) {
        ValidChainAtomIndexed(cfg, s, x);
      }
    }
  }
}
