/**
 * The record stored in the certificate ledger and the text that is fed to the
 * digest when a block is sealed (harik/cert_chain.py, `Block` and
 * `compute_hash`).
 *
 * The digest itself (SHA-256 rendered as hex) is not modelled: every member
 * that needs it takes it as a parameter `sha`, an arbitrary function from
 * strings to strings with no further properties.
 */
module Blocks {

  datatype Option<+T> = None | Some(value: T)

  /** The payload dictionary of a block, as a closed sum of its three kinds. */
  datatype Payload =
    | Genesis(note: string)
    | Mint(certHash: string, fileHash: string, studentName: string,
           course: string, year: string, owner: string)
    | Transfer(certHash: string, from: Option<string>, to: string)

  /** One ledger entry; `timestamp` is an opaque clock reading. */
  datatype Block = Block(index: int, timestamp: real, prevHash: string,
                         data: Payload, currentHash: string)

  /** The payload of the first block of every freshly created chain. */
  const GenesisNote: string := "Decentralized Certificate Registry"
  const GenesisData: Payload := Genesis(GenesisNote)

  /** `"0" * n`. */
  function Zeros(n: nat): (r: string)
    ensures |r| == n && forall k :: 0 <= k < n ==> r[k] == '0'
  {
    if n == 0 then "" else Zeros(n - 1) + "0"
  }

  /** Sixty-four '0' characters: the `prev_hash` of the genesis block. */
  const Sentinel: string := Zeros(64)

  /** The value of `data.get("cert_hash")`: absent for a genesis payload. */
  function CertHashOf(p: Payload): (r: Option<string>)
    ensures r.None? <==> p.Genesis?
  {
    match p
    case Genesis(_) => None
    case Mint(c, _, _, _, _, _) => Some(c)
    case Transfer(c, _, _) => Some(c)
  }

  /** Whether block `b` is about the certificate with fingerprint `c`. */
  predicate Carries(b: Block, c: string)
  {
    CertHashOf(b.data) == Some(c)
  }

  function Quoted(s: string): string
  {
    "'" + s + "'"
  }

  /**
   * The textual rendering of a payload that the hash is taken over. For the
   * genesis payload this is exactly the dictionary's printed form; for the
   * other kinds string values are quoted without escaping.
   */
  function PayloadText(p: Payload): string
  {
    match p
    case Genesis(note) =>
      "{'type': 'GENESIS', 'note': " + Quoted(note) + "}"
    case Mint(c, f, s, co, y, o) =>
      "{'type': 'MINT', 'cert_hash': " + Quoted(c) + ", 'file_hash': " + Quoted(f)
      + ", 'student_name': " + Quoted(s) + ", 'course': " + Quoted(co)
      + ", 'year': " + Quoted(y) + ", 'owner': " + Quoted(o) + "}"
    case Transfer(c, fr, t) =>
      "{'type': 'TRANSFER', 'cert_hash': " + Quoted(c) + ", 'from': "
      + (match fr case None => "None" case Some(x) => Quoted(x))
      + ", 'to': " + Quoted(t) + "}"
  }

  function DigitChar(d: nat): char
    requires d < 10
  {
    "0123456789"[d]
  }

  /** Decimal rendering of a chain length. */
  function Decimal(n: nat): string
  {
    if n < 10 then [DigitChar(n)] else Decimal(n / 10) + [DigitChar(n % 10)]
  }

  /**
   * The string hashed by `compute_hash`: payload text, previous hash, the
   * chain length before the append and the clock reading, joined by '|'.
   */
  function HashInput(data: Payload, prevHash: string, length: nat, clock: string): string
  {
    PayloadText(data) + "|" + prevHash + "|" + Decimal(length) + "|" + clock
  }

  /** `compute_hash` with the chain length and the clock made explicit. */
  function BlockHash(sha: string -> string, data: Payload, prevHash: string,
                     length: nat, clock: string): string
  {
    sha(HashInput(data, prevHash, length, clock))
  }

  /**
   * The clock reading is folded into the hashed text: two seals of the same
   * payload onto the same predecessor at the same length but at different
   * clock readings hash different strings.
   */
  lemma HashInputSeparatesClocks(data: Payload, prevHash: string, length: nat,
                                 clock1: string, clock2: string)
    ensures HashInput(data, prevHash, length, clock1) == HashInput(data, prevHash, length, clock2)
            <==> clock1 == clock2
  {
    var prefix := PayloadText(data) + "|" + prevHash + "|" + Decimal(length) + "|";
    assert HashInput(data, prevHash, length, clock1) == prefix + clock1;
    assert HashInput(data, prevHash, length, clock2) == prefix + clock2;
    if prefix + clock1 == prefix + clock2 {
      assert clock1 == (prefix + clock1)[|prefix|..];
      assert clock2 == (prefix + clock2)[|prefix|..];
    }
  }
}
