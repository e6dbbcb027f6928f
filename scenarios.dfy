/**
 * Clients of the ledger that rely on the contracts alone: mint a
 * certificate, mint it again, verify it, transfer it, and try to transfer a
 * certificate that was never minted.
 */
module Scenarios {
  import opened Blocks
  import opened Linkage
  import opened Lookup
  import opened Ownership
  import opened CertChain

  /** A fresh ledger, one mint of Ana's CS101 certificate, and a repeated mint. */
  method MintOnce(sha: string -> string, fileDigest: string) returns (bc: Blockchain)
    ensures fresh(bc) && |bc.chain| == 2 && WellFormed(bc.chain)
    ensures var h := History(bc.chain, Fingerprint(sha, fileDigest, "Ana", "CS101", "2025"));
            |h| == 1 && OwnerAfter(h) == Some("Ana")
    ensures forall c :: c != Fingerprint(sha, fileDigest, "Ana", "CS101", "2025") ==>
            !HasCertHash(bc.chain, c)
  {
    bc := new Blockchain(sha, 0.0);
    var fp := Fingerprint(sha, fileDigest, "Ana", "CS101", "2025");
    ghost var genesis := bc.chain;
    HistoryEmptyIffAbsent(genesis, fp);

    var minted := MintFlow(bc, Some(fileDigest), "Ana", "CS101", "2025", "1.0", 1.0);
    assert minted.Minted?;
    forall c | c != fp ensures !HasCertHash(bc.chain, c) {
      HistoryEmptyIffAbsent(genesis, c);
      HistoryEmptyIffAbsent(bc.chain, c);
    }

    var again := MintFlow(bc, Some(fileDigest), "Ana", "CS101", "2025", "2.0", 2.0);
    assert again == AlreadyRegistered(fp);

    var missing := MintFlow(bc, None, "Ana", "CS101", "2025", "2.5", 2.5);
    assert missing == FileNotFound;

    var seen := VerifyFlow(bc, fp);
    assert seen.Verified? && |seen.history| == 1 && seen.owner == Some("Ana");
  }

  /** Then a transfer to an organisation, who becomes the holder. */
  method TransferOnce(sha: string -> string, fileDigest: string) returns (bc: Blockchain)
    ensures fresh(bc) && |bc.chain| == 3 && WellFormed(bc.chain)
    ensures var h := History(bc.chain, Fingerprint(sha, fileDigest, "Ana", "CS101", "2025"));
            |h| == 2 && h[1].data == Transfer(Fingerprint(sha, fileDigest, "Ana", "CS101", "2025"), Some("Ana"), "org@example.com") && OwnerAfter(h) == Some("org@example.com")
    ensures forall c :: c != Fingerprint(sha, fileDigest, "Ana", "CS101", "2025") ==>
            !HasCertHash(bc.chain, c)
  {
    bc := MintOnce(sha, fileDigest);
    var fp := Fingerprint(sha, fileDigest, "Ana", "CS101", "2025");
    ghost var minted := bc.chain;

    var moved := TransferFlow(bc, fp, "org@example.com", "3.0", 3.0);
    assert moved.Transferred?;
    forall c | c != fp ensures !HasCertHash(bc.chain, c) {
      HistoryEmptyIffAbsent(minted, c);
      HistoryEmptyIffAbsent(bc.chain, c);
    }

    var seen := VerifyFlow(bc, fp);
    assert seen.Verified? && |seen.history| == 2 && seen.owner == Some("org@example.com");
  }

  /** A transfer of a fingerprint that was never minted changes nothing. */
  method TransferUnknown(sha: string -> string, fileDigest: string, unknown: string)
    requires unknown != Fingerprint(sha, fileDigest, "Ana", "CS101", "2025")
  {
    var bc := TransferOnce(sha, fileDigest);
    ghost var before := bc.chain;
    var stray := TransferFlow(bc, unknown, "someone", "4.0", 4.0);
    assert stray == NoRecord;
    assert bc.chain == before && |bc.chain| == 3;
  }
}
