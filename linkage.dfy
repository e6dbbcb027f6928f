/**
 * The shape of a chain built by `_create_genesis` followed by `add_block`
 * calls (harik/cert_chain.py:39-59): every block's index is its position and
 * every block after the first points at its predecessor's hash.
 */
module Linkage {
  import opened Blocks

  /** Every index equals its position; every later block links to its predecessor. */
  ghost predicate Linked(s: seq<Block>)
  {
    forall i :: 0 <= i < |s| ==>
      s[i].index == i && (i > 0 ==> s[i].prevHash == s[i - 1].currentHash)
  }

  /** A non-empty linked chain that starts with a genesis block on the sentinel. */
  ghost predicate WellFormed(s: seq<Block>)
  {
    |s| > 0 && s[0].data.Genesis? && s[0].prevHash == Sentinel && Linked(s)
  }

  /** The one-block chain `_create_genesis` installs; `stamp` is the clock reading. */
  function GenesisChain(sha: string -> string, stamp: real): (r: seq<Block>)
    ensures WellFormed(r)
    ensures |r| == 1 && r[0].index == 0 && r[0].prevHash == Sentinel && r[0].data == GenesisData
    ensures |r[0].prevHash| == 64 && forall k :: 0 <= k < 64 ==> r[0].prevHash[k] == '0'
  {
    [Block(0, stamp, Sentinel, GenesisData, sha(PayloadText(GenesisData)))]
  }

  /**
   * The chain after `add_block(data)`: `clock` is the reading folded into the
   * hash, `stamp` the (separate) reading stored in the block.
   */
  function Extend(sha: string -> string, s: seq<Block>, data: Payload,
                  clock: string, stamp: real): (r: seq<Block>)
    requires |s| > 0
    ensures |r| == |s| + 1 && r[..|s|] == s
    ensures r[|s|].index == |s| && r[|s|].prevHash == s[|s| - 1].currentHash
    ensures r[|s|].data == data && r[|s|].timestamp == stamp
  {
    var prevHash := s[|s| - 1].currentHash;
    s + [Block(|s|, stamp, prevHash, data, BlockHash(sha, data, prevHash, |s|, clock))]
  }

  lemma ExtendPreservesWellFormed(sha: string -> string, s: seq<Block>, data: Payload,
                                  clock: string, stamp: real)
    requires WellFormed(s)
    ensures WellFormed(Extend(sha, s, data, clock, stamp))
  {
    var r := Extend(sha, s, data, clock, stamp);
    forall i | 0 <= i < |r|
      ensures r[i].index == i && (i > 0 ==> r[i].prevHash == r[i - 1].currentHash)
    {
      if i < |s| {
        assert r[i] == s[i];
        if i > 0 { assert r[i - 1] == s[i - 1]; }
      } else {
        assert r[i - 1] == s[i - 1];
      }
    }
  }

  /** The arguments of one `add_block` call. */
  datatype Append = Append(data: Payload, clock: string, stamp: real)

  /** The chain after `_create_genesis` and then one `add_block` per step, in order. */
  function Grow(sha: string -> string, genesisStamp: real, steps: seq<Append>): (r: seq<Block>)
    ensures |r| == |steps| + 1
    decreases |steps|
  {
    if steps == [] then GenesisChain(sha, genesisStamp)
    else
      var last := steps[|steps| - 1];
      Extend(sha, Grow(sha, genesisStamp, steps[..|steps| - 1]), last.data, last.clock, last.stamp)
  }

  /** Any sequence of appends after genesis keeps the chain well formed. */
  lemma {:induction false} GrowIsWellFormed(sha: string -> string, genesisStamp: real,
                                            steps: seq<Append>)
    ensures WellFormed(Grow(sha, genesisStamp, steps))
    decreases |steps|
  {
    if steps != [] {
      var last := steps[|steps| - 1];
      GrowIsWellFormed(sha, genesisStamp, steps[..|steps| - 1]);
      ExtendPreservesWellFormed(sha, Grow(sha, genesisStamp, steps[..|steps| - 1]),
                                last.data, last.clock, last.stamp);
    }
  }

  /** Appending never rewrites history: a shorter run is a prefix of a longer one. */
  lemma {:induction false} GrowKeepsPrefix(sha: string -> string, genesisStamp: real,
                                           steps: seq<Append>, k: nat)
    requires k <= |steps|
    ensures Grow(sha, genesisStamp, steps)[..k + 1] == Grow(sha, genesisStamp, steps[..k])
    decreases |steps|
  {
    if k < |steps| {
      var shorter := steps[..|steps| - 1];
      var last := steps[|steps| - 1];
      var g := Grow(sha, genesisStamp, shorter);
      var r := Extend(sha, g, last.data, last.clock, last.stamp);
      assert Grow(sha, genesisStamp, steps) == r;
      GrowKeepsPrefix(sha, genesisStamp, shorter, k);
      assert shorter[..k] == steps[..k];
      calc {
        r[..k + 1];
        r[..|g|][..k + 1];
        g[..k + 1];
      }
    } else {
      assert steps[..k] == steps;
      var r := Grow(sha, genesisStamp, steps);
      assert |r| == k + 1;
      assert r[..k + 1] == r;
    }
  }

  /** In a well-formed chain indices strictly increase along the chain. */
  ghost predicate InChainOrder(s: seq<Block>)
  {
    forall i, j :: 0 <= i < j < |s| ==> s[i].index < s[j].index
  }

  lemma WellFormedIsInChainOrder(s: seq<Block>)
    requires WellFormed(s)
    ensures InChainOrder(s)
  {
  }
}
