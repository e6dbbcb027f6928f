# Certificate ledger: a Dafny model

This project models the in-memory ledger of the certificate registry
`harik/cert_chain.py` and the decision logic its command-line flows put on
top of it:

- the `Block` record and its payload (genesis, mint or transfer);
- the `Blockchain` object: creating the genesis block, `last_block`,
  `compute_hash`, `add_block`, `has_cert_hash`, `history` and `serialize`;
- the owner-resolution loop that `transfer_flow` and `verify_flow` both run
  (last write wins: a mint names the owner, a later transfer overwrites it);
- the gatekeeping of the flows. A mint with a missing file or an
  already-registered fingerprint appends nothing. A transfer of an unknown
  fingerprint appends nothing. A transfer names the resolved holder as
  `from`.

Layout, one module per file:

| file | module | contents |
|---|---|---|
| `blocks.dfy` | `Blocks` | payload and block datatypes, the genesis constants, the text hashed by `compute_hash` |
| `linkage.dfy` | `Linkage` | the genesis chain, one append (`Extend`), any run of appends (`Grow`), the linkage invariant `WellFormed` |
| `lookup.dfy` | `Lookup` | `has_cert_hash` and `history` as functions over a block sequence, with their algebra |
| `ownership.dfy` | `Ownership` | the reference definition `OwnerAfter`, the resolution loop `ResolveOwner`, and last-write-wins lemmas |
| `cert_chain.dfy` | `CertChain` | the `Blockchain` class (a `seq<Block>` field that its methods reassign) and the mint, transfer and verify flows |
| `scenarios.dfy` | `Scenarios` | clients that mint, re-mint, verify and transfer using the contracts alone |

Modelling choices:

- SHA-256 is a parameter `sha: string -> string`. Nothing is assumed about it: no collision resistance, no fixed length.
- The payload dictionary is a closed datatype `Genesis | Mint | Transfer`.
- `time()` is read twice by `add_block`. The reading folded into the hash (line 50) is the string parameter `clock`, standing for its decimal text. The reading stored in the block (line 56) is the separate `real` parameter `stamp`. Because of this, a block's `current_hash` cannot be recomputed from its stored fields.
- The genesis hash is taken over the fixed genesis payload alone (line 41), so it does not depend on the clock. `CreateGenesis` states it as `sha` of that text.
- The chain length folded into the hash is written out in decimal (`Decimal`).
- The flows take their console inputs as parameters and return an outcome datatype instead of printing.
- `file_sha256` is replaced by its result, `fileDigest: Option<string>`; `None` stands for the file-not-found error.
- A chain read back from disk is any `seq<Block>` (`Blockchain.Restored`), because `_load` checks nothing. The linkage invariant is therefore stated as `old(WellFormed(chain)) ==> WellFormed(chain)` on every mutating method. For chains built from genesis it is proved outright (`GrowIsWellFormed`, the constructor).

`history` and `serialize` return `asdict` dictionaries of the blocks (lines 65, 68). `asdict` loses nothing for these records, so the model returns the blocks themselves.

## Model

| member | source | states |
|---|---|---|
| `Blocks.CertHashOf` | harik/cert_chain.py:62 | the fingerprint a payload carries is absent exactly for a genesis payload (genesis data has no `cert_hash`, line 40), present for mints and transfers |
| `Blocks.Zeros` | harik/cert_chain.py:42 | `"0" * n` has length n and every character is '0' |
| `Blocks.HashInputSeparatesClocks` | harik/cert_chain.py:49-51 | `compute_hash` folds the clock into its input: same payload, previous hash and length give equal hashed text if and only if the clock readings are equal |
| `Linkage.GenesisChain` | harik/cert_chain.py:39-42 | `_create_genesis` yields exactly one block: index 0, `prev_hash` of 64 '0' characters, the GENESIS payload, and a well-formed chain |
| `Linkage.Extend` | harik/cert_chain.py:53-57 | `add_block` on a chain of length N yields length N+1. Earlier blocks are unchanged. The new block has index N, `prev_hash` equal to the old last block's `current_hash`, the given data and timestamp |
| `Linkage.ExtendPreservesWellFormed` | harik/cert_chain.py:53-57 | one append keeps "index equals position" and "each prev_hash is the predecessor's current_hash" |
| `Linkage.Grow` | harik/cert_chain.py:39-59 | genesis followed by k appends has k+1 blocks |
| `Linkage.GrowIsWellFormed` | harik/cert_chain.py:39-59 | any sequence of `add_block` calls after `_create_genesis` gives a well-formed chain: genesis first on the sentinel, indices equal positions, every block linked to its predecessor |
| `Linkage.GrowKeepsPrefix` | harik/cert_chain.py:56-57 | appending never rewrites history: the chain after the first k appends is a prefix of the chain after more |
| `Linkage.WellFormedIsInChainOrder` | harik/cert_chain.py:56 | in a well-formed chain block indices strictly increase along the list |
| `Lookup.HasCertHash` | harik/cert_chain.py:61-62 | true if and only if some block of the chain carries the fingerprint |
| `Lookup.History` | harik/cert_chain.py:64-65 | a block is in the history if and only if it is in the chain and carries the fingerprint; the history is no longer than the chain |
| `Lookup.HistoryEmptyIffAbsent` | harik/cert_chain.py:61-65 | `history(c)` is empty exactly when `has_cert_hash(c)` is false |
| `Lookup.HistoryOfConcat` | harik/cert_chain.py:64-65 | the filter keeps chain order: the history of `s + t` is the history of `s` followed by the history of `t` |
| `Lookup.HistoryOfAppend` | harik/cert_chain.py:57-65 | an appended block joins the end of a fingerprint's history exactly when it carries that fingerprint |
| `Lookup.HistoryMultiplicity` | harik/cert_chain.py:64-65 | each block occurs in the history as often as in the chain if it carries the fingerprint, otherwise not at all |
| `Lookup.HistoryKeepsOrder` | harik/cert_chain.py:64-65 | if the chain's indices increase, so do the history's (history is in chain order) |
| `Lookup.HasCertHashPersists` | harik/cert_chain.py:57-62 | once a fingerprint is present, it stays present after any later appends |
| `Lookup.GenesisHasNoCert` | harik/cert_chain.py:61-65 | a fresh genesis chain (whose payload, line 40, has no `cert_hash`) carries no fingerprint and every history over it is empty |
| `Ownership.Holder` | harik/cert_chain.py:159-162 | a payload names a holder (a mint's owner, a transfer's recipient) exactly when it is not genesis |
| `Ownership.ResolveOwner` | harik/cert_chain.py:157-162 | the oldest-to-newest loop returns the reference owner `OwnerAfter` of the history it is given |
| `Ownership.OwnerAfterAppend` | harik/cert_chain.py:158-162 | one more block: it wins if it names a holder, otherwise the owner is unchanged |
| `Ownership.OwnerAfterNone` | harik/cert_chain.py:157-162 | the result is None exactly when no block of the history is a mint or transfer (the empty history included) |
| `Ownership.OwnerAfterIsLastHolder` | harik/cert_chain.py:185-190 | last write wins: the result is `o` exactly when some block names `o` and no later block names anyone |
| `Ownership.HistoryHasHolder` | harik/cert_chain.py:153-163 | a non-empty certificate history always resolves to some holder |
| `Ownership.ResolutionExamples` | harik/cert_chain.py:157-162 | [] gives None; [Mint A] gives A; [Mint A, Transfer B] gives B; [Mint A, Transfer B, Transfer C] gives C |
| `CertChain.Blockchain.constructor` | harik/cert_chain.py:27-37 | start-up without a stored chain installs the genesis chain: well formed, no fingerprint present |
| `CertChain.Blockchain.Restored` | harik/cert_chain.py:74-77 | a restored chain is the stored block sequence as it is, unchecked |
| `CertChain.Blockchain.CreateGenesis` | harik/cert_chain.py:39-43 | the chain becomes the single genesis block, whose hash is the digest of the fixed genesis text only |
| `CertChain.Blockchain.LastBlock` | harik/cert_chain.py:45-47 | the newest block is in the chain and, in a well-formed chain, has the greatest index |
| `CertChain.Blockchain.AddBlock` | harik/cert_chain.py:53-59 | the chain becomes `Extend` of the old one, the returned block is the new last element, and well-formedness is preserved |
| `CertChain.Blockchain.Serialize` | harik/cert_chain.py:67-68 | the dump has every block, in chain order, with its stored fields |
| `CertChain.MintRegisters` | harik/cert_chain.py:136-145 | after a mint is appended, its fingerprint is present and its history gains exactly that block. Its owner is the holder. Other fingerprints' histories are unchanged |
| `CertChain.TransferMakesRecipientHolder` | harik/cert_chain.py:165-171 | after a transfer is appended, its history gains exactly that block and the recipient is the holder. Other histories are unchanged |
| `CertChain.MintFlow` | harik/cert_chain.py:120-147 | missing file: nothing appended. Duplicate fingerprint: rejected, nothing appended. Otherwise one MINT block is appended with owner = student and the deterministic fingerprint. Afterwards the fingerprint is present either way, so a second identical mint is rejected |
| `CertChain.TransferFlow` | harik/cert_chain.py:149-172 | unknown fingerprint: nothing appended. Otherwise one TRANSFER block is appended with the requested fingerprint, `from` = the resolved current owner and `to` = the new owner, who then holds it |
| `CertChain.VerifyFlow` | harik/cert_chain.py:174-191 | not found exactly when the fingerprint is absent. Otherwise it reports the full history and its resolved holder, which always exists |
| `Scenarios.MintOnce` | harik/cert_chain.py:120-147 | a fresh ledger plus one mint of Ana's certificate has 2 blocks, and that certificate's history is the one mint, held by Ana. A second identical mint is rejected; a missing file is reported; no other fingerprint is present |
| `Scenarios.TransferOnce` | harik/cert_chain.py:149-191 | then transferring it to "org@example.com" gives 3 blocks and a 2-block history whose transfer names Ana as `from`; the holder becomes the organisation |

## Left out

- Persistence: `_save`/`_load` JSON file I/O, the `os.path.exists` check and the load-failure fallback in `__init__` (lines 29-35, 70-77). These are disk I/O. `Restored` stands for a successful load, and rewriting the file after every append is not modelled. `Block(**b)` (line 77) fails on a missing or extra key but accepts values of the wrong type, since dataclasses do not check types; a typed model of a stored record cannot express that case.
- The dictionary form of blocks: `serialize` and `history` return `asdict` dictionaries. The model returns the same records as `Block` values.
- Payloads of other shapes: the source stores an open dictionary, so a restored file could hold payloads without `type`, `owner` or `to`. The model's payloads are exactly the three kinds, so the `.get(..., current_owner)` defaults in the resolution loop never apply, and a transfer's `from` is never None in practice.
- SHA-256 (lines 41, 51, 132) is an unconstrained function parameter; collision resistance is not modelled.
- `file_sha256` (lines 80-88) reads a file; its result is the input `fileDigest`.
- `PayloadText` renders payloads as Python's `repr` would only for the genesis payload. For other payloads strings are single-quoted without Python's escaping or choice of quote character. The hash is unconstrained, so nothing proved depends on this.
- Wall-clock `time()`/`ctime()`: the readings are opaque parameters (see above), and the decimal text of a float reading is not modelled.
- Console I/O: `prompt` and its re-prompting for non-empty input, `pretty_block`, `main_menu`, `view_ledger`, `run`, and the interrupt and exit handling (lines 90-221). The flows accept any strings as inputs.
- Blockchain.AddBlock: requires a non-empty chain. On an empty restored chain the source raises `IndexError` from `last_block`, and the model does not represent that exception.
- MintFlow: requires a non-empty chain on the path that reaches `add_block` (file present), for the same reason.
