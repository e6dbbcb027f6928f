/**
 * The ledger object of harik/cert_chain.py (`Blockchain`, lines 26-77) and
 * the gatekeeping of the mint, transfer and verify flows built on it
 * (lines 120-191). Console input and output are replaced by parameters and
 * results; the digest, the clock and the file digest are parameters too.
 */
module CertChain {
  import opened Blocks
  import opened Linkage
  import opened Lookup
  import opened Ownership

  /** The certificate fingerprint: digest of file digest and metadata joined by '|'. */
  function Fingerprint(sha: string -> string, fileHash: string, student: string,
                       course: string, year: string): string
  {
    sha(fileHash + "|" + student + "|" + course + "|" + year)
  }

  class Blockchain {
    /** The digest used for block hashes and fingerprints. */
    const sha: string -> string
    var chain: seq<Block>

    /** Start-up without a stored chain: install the genesis block. */
    constructor (sha: string -> string, stamp: real)
      ensures this.sha == sha
      ensures chain == GenesisChain(sha, stamp)
      ensures WellFormed(chain) && forall c :: !HasCertHash(chain, c)
    {
      this.sha := sha;
      chain := [];
      new;
      CreateGenesis(stamp);
    }

    /** Start-up from a stored chain: whatever was read is taken as it is, unchecked. */
    constructor Restored(sha: string -> string, stored: seq<Block>)
      ensures this.sha == sha && chain == stored
    {
      this.sha := sha;
      chain := stored;
    }

    /** `_create_genesis`: replace the chain by the single genesis block. */
    method CreateGenesis(stamp: real)
      modifies this
      ensures chain == GenesisChain(sha, stamp)
      ensures chain[0].currentHash == sha(PayloadText(GenesisData))
      ensures WellFormed(chain) && forall c :: !HasCertHash(chain, c)
    {
      chain := [Block(0, stamp, Sentinel, GenesisData, sha(PayloadText(GenesisData)))];
      forall c ensures !HasCertHash(chain, c) {
        GenesisHasNoCert(sha, stamp, c);
      }
    }

    /** `last_block`: the newest block; an empty chain has none. */
    function LastBlock(): (b: Block)
      reads this
      requires |chain| > 0
      ensures b in chain
      ensures WellFormed(chain) ==> b.index == |chain| - 1
    {
      chain[|chain| - 1]
    }

    /**
     * `add_block`: seal `data` onto the newest block and append it. `clock` is
     * the reading folded into the hash, `stamp` the one stored in the block.
     */
    method AddBlock(data: Payload, clock: string, stamp: real) returns (block: Block)
      requires |chain| > 0
      modifies this
      ensures chain == Extend(sha, old(chain), data, clock, stamp)
      ensures block == chain[|chain| - 1]
      ensures old(WellFormed(chain)) ==> WellFormed(chain)
    {
      ghost var before := chain;
      var prevHash := LastBlock().currentHash;
      var currentHash := BlockHash(sha, data, prevHash, |chain|, clock);
      block := Block(|chain|, stamp, prevHash, data, currentHash);
      chain := chain + [block];
      if WellFormed(before) {
        ExtendPreservesWellFormed(sha, before, data, clock, stamp);
      }
    }

    /** `serialize`: every block, in chain order, with its fields as stored. */
    function Serialize(): (records: seq<Block>)
      reads this
      ensures |records| == |chain|
      ensures forall i :: 0 <= i < |chain| ==> records[i] == chain[i]
    {
      chain
    }
  }

  /** After a mint is appended its fingerprint is present and its owner holds it. */
  lemma MintRegisters(sha: string -> string, s: seq<Block>, fp: string, fileHash: string,
                      student: string, course: string, year: string, owner: string,
                      clock: string, stamp: real)
    requires |s| > 0
    ensures var r := Extend(sha, s, Mint(fp, fileHash, student, course, year, owner), clock, stamp);
            && HasCertHash(r, fp)
            && History(r, fp) == History(s, fp) + [r[|s|]]
            && OwnerAfter(History(r, fp)) == Some(owner)
            && forall d :: d != fp ==> History(r, d) == History(s, d)
  {
    var r := Extend(sha, s, Mint(fp, fileHash, student, course, year, owner), clock, stamp);
    assert r == s + [r[|s|]];
    assert Carries(r[|s|], fp);
    HistoryOfAppend(s, r[|s|], fp);
    OwnerAfterAppend(History(s, fp), r[|s|]);
    forall d | d != fp ensures History(r, d) == History(s, d) {
      HistoryOfAppend(s, r[|s|], d);
    }
  }

  /** After a transfer is appended the certificate's holder is its recipient. */
  lemma TransferMakesRecipientHolder(sha: string -> string, s: seq<Block>, c: string,
                                     from: Option<string>, to: string,
                                     clock: string, stamp: real)
    requires |s| > 0
    ensures var r := Extend(sha, s, Transfer(c, from, to), clock, stamp);
            && History(r, c) == History(s, c) + [r[|s|]]
            && OwnerAfter(History(r, c)) == Some(to)
            && forall d :: d != c ==> History(r, d) == History(s, d)
  {
    var r := Extend(sha, s, Transfer(c, from, to), clock, stamp);
    assert r == s + [r[|s|]];
    HistoryOfAppend(s, r[|s|], c);
    OwnerAfterAppend(History(s, c), r[|s|]);
    forall d | d != c ensures History(r, d) == History(s, d) {
      HistoryOfAppend(s, r[|s|], d);
    }
  }

  datatype MintOutcome =
    | Minted(block: Block)
    | AlreadyRegistered(certHash: string)
    | FileNotFound

  /**
   * `mint_flow`. `fileDigest` is the digest of the certificate file, or None
   * when the file does not exist. The initial owner is the student.
   */
  method MintFlow(bc: Blockchain, fileDigest: Option<string>, student: string,
                  course: string, year: string, clock: string, stamp: real)
    returns (outcome: MintOutcome)
    requires fileDigest.Some? ==> |bc.chain| > 0
    modifies bc
    ensures fileDigest.None? ==> outcome == FileNotFound && bc.chain == old(bc.chain)
    ensures fileDigest.Some? ==>
      var fp := Fingerprint(bc.sha, fileDigest.value, student, course, year);
      && (old(HasCertHash(bc.chain, fp)) ==>
            outcome == AlreadyRegistered(fp) && bc.chain == old(bc.chain))
      && (!old(HasCertHash(bc.chain, fp)) ==>
            && bc.chain == Extend(bc.sha, old(bc.chain),
                                  Mint(fp, fileDigest.value, student, course, year, student),
                                  clock, stamp)
            && outcome == Minted(bc.chain[|bc.chain| - 1])
            && History(bc.chain, fp) == History(old(bc.chain), fp) + [outcome.block]
            && (forall d :: d != fp ==> History(bc.chain, d) == History(old(bc.chain), d))
            && OwnerAfter(History(bc.chain, fp)) == Some(student))
      && HasCertHash(bc.chain, fp)
    ensures old(WellFormed(bc.chain)) ==> WellFormed(bc.chain)
  {
    if fileDigest.None? {
      return FileNotFound;
    }
    var fileHash := fileDigest.value;
    var fp := Fingerprint(bc.sha, fileHash, student, course, year);
    if HasCertHash(bc.chain, fp) {
      return AlreadyRegistered(fp);
    }
    ghost var before := bc.chain;
    var data := Mint(fp, fileHash, student, course, year, student);
    var block := bc.AddBlock(data, clock, stamp);
    MintRegisters(bc.sha, before, fp, fileHash, student, course, year, student, clock, stamp);
    outcome := Minted(block);
  }

  datatype TransferOutcome =
    | Transferred(block: Block)
    | NoRecord

  /**
   * `transfer_flow`: any caller may move any recorded certificate to
   * `newOwner`; the transfer names the currently resolved holder as `from`.
   */
  method TransferFlow(bc: Blockchain, certHash: string, newOwner: string,
                      clock: string, stamp: real)
    returns (outcome: TransferOutcome)
    modifies bc
    ensures outcome == NoRecord <==> !old(HasCertHash(bc.chain, certHash))
    ensures outcome == NoRecord ==> bc.chain == old(bc.chain)
    ensures outcome.Transferred? ==>
      && |old(bc.chain)| > 0
      && bc.chain == Extend(bc.sha, old(bc.chain),
                            Transfer(certHash, OwnerAfter(History(old(bc.chain), certHash)), newOwner),
                            clock, stamp)
      && outcome.block == bc.chain[|bc.chain| - 1]
      && outcome.block.data.from.Some?
      && History(bc.chain, certHash) == History(old(bc.chain), certHash) + [outcome.block]
      && (forall d :: d != certHash ==> History(bc.chain, d) == History(old(bc.chain), d))
      && OwnerAfter(History(bc.chain, certHash)) == Some(newOwner)
    ensures old(WellFormed(bc.chain)) ==> WellFormed(bc.chain)
  {
    var hist := History(bc.chain, certHash);
    HistoryEmptyIffAbsent(bc.chain, certHash);
    if hist == [] {
      return NoRecord;
    }
    HistoryHasHolder(bc.chain, certHash);
    var currentOwner := ResolveOwner(hist);
    ghost var before := bc.chain;
    var data := Transfer(certHash, currentOwner, newOwner);
    var block := bc.AddBlock(data, clock, stamp);
    TransferMakesRecipientHolder(bc.sha, before, certHash, currentOwner, newOwner, clock, stamp);
    outcome := Transferred(block);
  }

  datatype VerifyOutcome =
    | Verified(history: seq<Block>, owner: Option<string>)
    | NotFound

  /** `verify_flow`: report a certificate's history and its current holder. */
  method VerifyFlow(bc: Blockchain, certHash: string) returns (outcome: VerifyOutcome)
    ensures outcome == NotFound <==> !HasCertHash(bc.chain, certHash)
    ensures outcome.Verified? ==>
      && outcome.history == History(bc.chain, certHash)
      && outcome.history != []
      && outcome.owner == OwnerAfter(outcome.history)
      && outcome.owner.Some?
  {
    var hist := History(bc.chain, certHash);
    HistoryEmptyIffAbsent(bc.chain, certHash);
    if hist == [] {
      return NotFound;
    }
    HistoryHasHolder(bc.chain, certHash);
    var currentOwner := ResolveOwner(hist);
    outcome := Verified(hist, currentOwner);
  }
}
