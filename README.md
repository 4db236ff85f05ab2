# Boltz tokenizer, modelled and verified in Dafny

This project models `BoltzTokenizer.tokenize` from IntelliFold. The tokenizer
turns an atom-resolution structure into a list of tokens and a list of token
bonds:

- Only the chains whose validity mask is set are kept.
- Each residue of a kept chain is visited in order:
  - a standard residue becomes one token, and all of its atoms are entered
    into the atom-to-token index under that token;
  - any other residue becomes one token per atom. Every one of those tokens
    carries the same, possibly substituted, residue type.
- The atom bonds and then the connections are projected through the
  atom-to-token index. A bond is dropped when either endpoint has no token.

The source is one function with nested loops and mutable state: a running
token counter, a token list and a dictionary filled in place. The model is
imperative in the same way:

- `BoltzTokenizer.Tokenize` is a method. Its chain loop, residue loop and
  atom loops are short methods of their own, one per loop body. The bond
  loop and the connection loop have the same body, so one method,
  `ProjectBondList`, serves both and is called twice.
- Each method is proved equal to a pure specification in `TokenSpec`:
  - `Tokens` is the token list;
  - `TokenMap` is the atom-to-token index, in which later tokens overwrite
    earlier ones, as dictionary assignment does;
  - `TokenBonds` is the bond list.
- The properties the tokenizer promises are proved about those specification
  functions, in `TokenLemmas`, `AtomIndexLemmas`, `OwnerLemmas` and
  `BondLemmas`.

Files:

- `structures.dfy` (`Structures`) holds:
  - the input records;
  - the constant tables as a `Config` value;
  - the valid-chain filter;
  - the well-formedness conditions the tokenizer relies on.
- `token_spec.dfy` (`TokenSpec`) holds the token record and the
  specification functions.
- `boltz_tokenizer.dfy` (`BoltzTokenizer`) holds the tokenizer methods.
- `token_lemmas.dfy`, `atom_index_lemmas.dfy`, `owner_lemmas.dfy` and
  `bond_lemmas.dfy` hold the properties.

## Model

| member | source | states |
|---|---|---|
| Structures.MaskIndices | intellifold/data/tokenize/boltz.py:81 | the positions the chain mask selects: each is in range and selected, and they are strictly increasing |
| Structures.MaskIndicesComplete | intellifold/data/tokenize/boltz.py:81 | every position the mask selects is among them |
| Structures.MaskIndicesNone | intellifold/data/tokenize/boltz.py:81 | a mask that selects nothing yields no positions |
| Structures.ValidChainsSelected | intellifold/data/tokenize/boltz.py:81 | a chain is kept exactly when it stands at a position the mask selects (both directions); with `MaskIndices` increasing, the kept chains keep structure order |
| Structures.KeptChainSelected | intellifold/data/tokenize/boltz.py:81 | every kept chain stands at a selected position |
| Structures.SelectedChainKept | intellifold/data/tokenize/boltz.py:81 | every chain at a selected position is kept |
| TokenSpec.AtomTokens | intellifold/data/tokenize/boltz.py:151-182 | the atom tokens of a non-standard residue add exactly one token per atom |
| TokenSpec.EmitResidue | intellifold/data/tokenize/boltz.py:95-182 | a residue adds one token if standard and `atom_num` tokens otherwise |
| TokenSpec.ProjectBonds | intellifold/data/tokenize/boltz.py:188-198 | projecting `n` bonds appends at most `n` token bonds |
| TokenSpec.TokenBonds | intellifold/data/tokenize/boltz.py:185-211 | there are at most as many token bonds as atom bonds plus connections |
| BoltzTokenizer.Tokenize | intellifold/data/tokenize/boltz.py:56-214 | the token list and bond list produced are exactly `Tokens` and `TokenBonds` of the structure |
| BoltzTokenizer.TokenizeChains | intellifold/data/tokenize/boltz.py:74-89 | the chain loop yields the tokens of all given chains in order, numbered from 0, and the index equals `TokenMap` of them |
| BoltzTokenizer.TokenizeChain | intellifold/data/tokenize/boltz.py:86-182 | the residue loop appends the chain's tokens; afterwards the counter equals the list length and the index equals `TokenMap` of the list |
| BoltzTokenizer.TokenizeResidue | intellifold/data/tokenize/boltz.py:91-182 | one residue appends `EmitResidue`'s tokens, the non-standard branch choosing the residue type by the chain type and the name lookup; the counter and the index are kept in step |
| BoltzTokenizer.TokenizeStandardResidue | intellifold/data/tokenize/boltz.py:95-133 | appends exactly the residue's token, enters each atom of the residue under it, and advances the counter by one |
| BoltzTokenizer.TokenizeAtoms | intellifold/data/tokenize/boltz.py:147-182 | appends one token per atom and enters each atom under its own token; the counter rises by one per token |
| BoltzTokenizer.ProjectBondList | intellifold/data/tokenize/boltz.py:188-211 | a bond loop appends, in order, the token pair of every bond whose two endpoints are in the index, and skips the others |
| TokenLemmas.AtomTokensAt | intellifold/data/tokenize/boltz.py:151-182 | earlier tokens are kept; the atom token at position `j` is the token of atom `atom_idx + (j - start)`, numbered `j` |
| TokenLemmas.EmitResidueShape | intellifold/data/tokenize/boltz.py:95-182 | earlier tokens are kept, and 1 or `atom_num` tokens are added. Each new token is numbered by its position and copies the chain's and residue's fields. A standard token copies `atom_idx`, `atom_num`, `res_type`, center and disto, with masks `is_present` and the center's or disto atom's presence. Atom token `i` has `atom_idx = center_idx = disto_idx = atom_start + i`, `atom_num = 1`, and both masks equal to `is_present` and the atom's presence |
| TokenLemmas.AbsentResidueMasks | intellifold/data/tokenize/boltz.py:101-173 | a residue that is not present yields only tokens whose resolved and disto masks are false |
| TokenLemmas.ResidueTypeSubstitution | intellifold/data/tokenize/boltz.py:138-163 | every atom token of a non-standard residue carries the residue's own type when the chain is not a non-polymer and the name has a one-letter code, and the unknown type otherwise |
| TokenLemmas.EmitResidueExtends | intellifold/data/tokenize/boltz.py:127-178 | tokenizing a residue only appends to the token list |
| TokenLemmas.EmitChainShape | intellifold/data/tokenize/boltz.py:89-182 | a chain keeps earlier tokens and adds the sum of its residues' token counts; each new token is numbered by its position and comes from one of the chain's residues |
| TokenLemmas.EmitChainExtends | intellifold/data/tokenize/boltz.py:89-182 | tokenizing a chain only appends to the token list |
| TokenLemmas.EmitChainsShape | intellifold/data/tokenize/boltz.py:84-182 | the tokens of a chain list are numbered 0, 1, 2, … and each comes from a residue of one of those chains |
| TokenLemmas.TokensShape | intellifold/data/tokenize/boltz.py:74-182 | token `i` of a structure has `token_idx == i`; the token count is the sum over valid chains; every token comes from a residue of a valid chain, whose fields it copies |
| AtomIndexLemmas.EnterAt | intellifold/data/tokenize/boltz.py:130-131 | entering a residue's atoms adds exactly those keys, maps them to the token, and leaves every other key unchanged |
| AtomIndexLemmas.TokenMapDomain | intellifold/data/tokenize/boltz.py:129-181 | an atom is in the index exactly when some token owns it |
| AtomIndexLemmas.TokenMapLast | intellifold/data/tokenize/boltz.py:129-181 | an indexed atom maps to an existing token that owns it, and no later token owns it |
| AtomIndexLemmas.TokenMapOwner | intellifold/data/tokenize/boltz.py:129-181 | when no two tokens share an atom, every atom a token owns maps to that token |
| AtomIndexLemmas.EmitResidueIndexOwn | intellifold/data/tokenize/boltz.py:129-181 | after a residue, each of its atoms maps to the residue's token if it is standard, and to its own atom token otherwise |
| AtomIndexLemmas.EmitResidueIndexOthers | intellifold/data/tokenize/boltz.py:129-181 | a residue changes neither the presence nor the value of any index entry outside its own atoms |
| AtomIndexLemmas.EmitResidueCovers | intellifold/data/tokenize/boltz.py:95-182 | every atom of a residue is owned by one of the tokens the residue adds |
| AtomIndexLemmas.EmitChainCovers | intellifold/data/tokenize/boltz.py:89-182 | every atom of a chain's residues is owned by one of the tokens the chain adds |
| AtomIndexLemmas.EmitChainsCovers | intellifold/data/tokenize/boltz.py:84-182 | every atom of a residue of a listed chain is owned by some token |
| AtomIndexLemmas.IndexedAtomInValidChain | intellifold/data/tokenize/boltz.py:81-181 | an atom in the index lies in a residue of a valid chain |
| AtomIndexLemmas.ValidChainAtomIndexed | intellifold/data/tokenize/boltz.py:81-181 | an atom of a residue of a valid chain is in the index |
| AtomIndexLemmas.AtomToTokenDomain | intellifold/data/tokenize/boltz.py:81-181 | the index's keys are exactly the atoms of the residues of valid chains (both directions) |
| OwnerLemmas.EmitResidueDisjoint | intellifold/data/tokenize/boltz.py:95-182 | a residue whose atoms no earlier token owns keeps the tokens free of shared atoms |
| OwnerLemmas.EmitChainDisjoint | intellifold/data/tokenize/boltz.py:89-182 | the same for a whole chain, given that residues do not share atoms |
| OwnerLemmas.EmitChainsDisjoint | intellifold/data/tokenize/boltz.py:84-182 | the same for a list of chains whose residue ranges do not overlap |
| OwnerLemmas.ValidChainsDisjointChains | intellifold/data/tokenize/boltz.py:81 | the kept chains inherit non-overlapping residue ranges from the valid chains |
| OwnerLemmas.AtomToTokenOwner | intellifold/data/tokenize/boltz.py:129-181 | with non-overlapping residues and chains, every atom a token owns maps to that token. So all atoms of a standard residue map to its token, and each atom of a non-standard residue maps to its own token |
| BondLemmas.KeptIndices | intellifold/data/tokenize/boltz.py:189-193 | the positions of the kept bonds are in range, strictly increasing, and have both endpoints indexed |
| BondLemmas.KeptIndicesComplete | intellifold/data/tokenize/boltz.py:189-193 | a bond is kept exactly when both endpoints are in the index |
| BondLemmas.ProjectedAt | intellifold/data/tokenize/boltz.py:194-198 | the `i`-th projected bond is `(map[atom_1], map[atom_2])` of the `i`-th kept bond, orientation preserved |
| BondLemmas.ProjectBondsKept | intellifold/data/tokenize/boltz.py:188-198 | a bond loop appends exactly the projections of the kept bonds, in bond order, with no deduplication |
| BondLemmas.ProjectBondOwners | intellifold/data/tokenize/boltz.py:194-197 | a projected bond joins existing tokens that own its first and second endpoint respectively |
| BondLemmas.MappedIffValid | intellifold/data/tokenize/boltz.py:189-192 | both endpoints are in the index exactly when both lie in residues of valid chains |
| BondLemmas.ProjectBondsBounded | intellifold/data/tokenize/boltz.py:194-198 | when every indexed token id is below a bound, so is every projected token id |
| BondLemmas.KeptIffValid | intellifold/data/tokenize/boltz.py:188-211 | a bond or connection is kept exactly when both endpoints lie in residues of valid chains |
| BondLemmas.TokenBondsShape | intellifold/data/tokenize/boltz.py:185-211 | the token bonds are the projected kept bonds followed by the projected kept connections, and every token bond joins two existing tokens |
| BondLemmas.ProjectBondsEmpty | intellifold/data/tokenize/boltz.py:188-211 | projecting through an empty index adds nothing |
| BondLemmas.NoValidChainsNoTokens | intellifold/data/tokenize/boltz.py:74-84 | with no valid chain there are no tokens |
| BondLemmas.NoValidChains | intellifold/data/tokenize/boltz.py:74-211 | with no valid chain there are no tokens and no token bonds |

## Left out

- Array packing (boltz.py:127, 178, 213-214): building numpy arrays of `Token` and `TokenBond` records is library serialisation. Records are Dafny datatypes, and token bonds are pairs of naturals.
- Coordinates (boltz.py:105-106, 148, 170-171): a coordinate is a triple of reals, copied from the center, disto or own atom and never computed with.
- The `Tokenized` bundle (boltz.py:215-221) passes the structure, the alignment and the residue constraints through unchanged, so it is omitted. `Tokenize` returns the token list and the token bonds.
- `intellifold/data/tokenize/tokenizer.py` (the `Tokenizer` base class) is not part of this model. It is a one-method interface.
- The constant tables are the `Config` parameter:
  - `chain_types` is a sequence of a four-value `ChainType`, and the `'NONPOLYMER'` test is `!= NonPolymer`;
  - `CCD_NAME_TO_ONE_LETTER` is a map from residue names;
  - the unknown protein id is one value `unkId`. It stands for the result of the three lookups at boltz.py:138-140.
- Malformed input: `WellFormed` is a precondition. It requires that the mask runs parallel to the chains, and for every valid chain that:
  - its residue range lies inside the residues;
  - every residue's atom range lies inside the atoms;
  - standard residues have their center and disto atoms;
  - non-standard residues have a chain type for the chain's `mol_type`.

  Invalid chains are never read and need not be well formed. The model does not capture how the source behaves on input that breaks these conditions:
  - the index fields (`res_idx`, `res_num`, `atom_idx`, `atom_num`, `atom_center`, `atom_disto`) are naturals, so negative indices cannot occur. numpy would count a negative index from the end, for example at boltz.py:97-98;
  - the residue slice (boltz.py:89) and the atom slice (boltz.py:147) silently shorten a range that runs past the end, and the center and disto lookups (boltz.py:97-98) would raise;
  - a standard residue's atoms are never read; its atom range is only written as index keys (boltz.py:130-131). The atom-range condition is therefore stronger for standard residues than anything the source reads.
- Overlapping ranges are not excluded. The index remembers the last token that owns an atom, as the dictionary would (`TokenMapLast`).
- AtomToTokenOwner: assumes that no atom belongs to two residues and no residue to two valid chains. Without that, a later token overwrites an earlier token's entries, and only `TokenMapLast` holds.
- Integer fields are unbounded. The source's numpy integer widths and any wrap-around are not modelled.
- The `mol_type` taken together with each chain by `zip` (boltz.py:82-84) is the chain's own `mol_type` field, so the model reads `molType` from the chain.
