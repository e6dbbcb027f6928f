/**
 * Lookups of a chain by certificate fingerprint: `has_cert_hash` and
 * `history` (harik/cert_chain.py:61-65). Both scan the whole chain, so they
 * are stated for any sequence of blocks, a restored one included.
 */
module Lookup {
  import opened Blocks
  import opened Linkage

  /** `has_cert_hash`: some block's payload carries fingerprint `c`. */
  function HasCertHash(s: seq<Block>, c: string): (r: bool)
    ensures r <==> exists i :: 0 <= i < |s| && Carries(s[i], c)
  {
    if s == [] then false
    else if Carries(s[0], c) then true
    else
      var rest := HasCertHash(s[1..], c);
      assert rest ==> exists i :: 1 <= i < |s| && Carries(s[i], c) by {
        if rest {
          var i :| 0 <= i < |s[1..]| && Carries(s[1..][i], c);
          assert s[i + 1] == s[1..][i];
        }
      }
      assert (exists i :: 1 <= i < |s| && Carries(s[i], c)) ==> rest by {
        if exists i :: 1 <= i < |s| && Carries(s[i], c) {
          var i :| 1 <= i < |s| && Carries(s[i], c);
          assert s[1..][i - 1] == s[i];
        }
      }
      rest
  }

  /** `history`: the blocks carrying fingerprint `c`, in chain order. */
  function History(s: seq<Block>, c: string): (h: seq<Block>)
    ensures |h| <= |s|
    ensures forall b :: b in h <==> b in s && Carries(b, c)
  {
    if s == [] then []
    else
      assert s == [s[0]] + s[1..];
      (if Carries(s[0], c) then [s[0]] else []) + History(s[1..], c)
  }

  /** `history(c)` is empty exactly when `has_cert_hash(c)` is false. */
  lemma HistoryEmptyIffAbsent(s: seq<Block>, c: string)
    ensures History(s, c) == [] <==> !HasCertHash(s, c)
  {
    var h := History(s, c);
    if h != [] {
      assert h[0] in h;
      var i :| 0 <= i < |s| && s[i] == h[0];
      assert Carries(s[i], c);
    }
  }

  /** The history of a concatenation is the concatenation of the histories. */
  lemma {:induction false} HistoryOfConcat(s: seq<Block>, t: seq<Block>, c: string)
    ensures History(s + t, c) == History(s, c) + History(t, c)
    decreases |s|
  {
    if s == [] {
      assert s + t == t;
    } else {
      assert (s + t)[0] == s[0];
      assert (s + t)[1..] == s[1..] + t;
      HistoryOfConcat(s[1..], t, c);
    }
  }

  /** Appending one block adds it to the history exactly when it carries `c`. */
  lemma HistoryOfAppend(s: seq<Block>, b: Block, c: string)
    ensures History(s + [b], c) == History(s, c) + (if Carries(b, c) then [b] else [])
  {
    HistoryOfConcat(s, [b], c);
    assert [b][1..] == [];
  }

  /** How often each block occurs in the history: as in the chain if it carries `c`, else never. */
  lemma {:induction false} HistoryMultiplicity(s: seq<Block>, c: string, b: Block)
    ensures multiset(History(s, c))[b] == if Carries(b, c) then multiset(s)[b] else 0
    decreases |s|
  {
    if s != [] {
      HistoryMultiplicity(s[1..], c, b);
      assert s == [s[0]] + s[1..];
      assert multiset(s) == multiset([s[0]]) + multiset(s[1..]);
    }
  }

  /** The history keeps the chain's order of indices. */
  lemma {:induction false} HistoryKeepsOrder(s: seq<Block>, c: string)
    requires InChainOrder(s)
    ensures InChainOrder(History(s, c))
    decreases |s|
  {
    if s != [] {
      assert InChainOrder(s[1..]) by {
        forall i, j | 0 <= i < j < |s[1..]| ensures s[1..][i].index < s[1..][j].index {
          assert s[1..][i] == s[i + 1] && s[1..][j] == s[j + 1];
        }
      }
      HistoryKeepsOrder(s[1..], c);
      var tail := History(s[1..], c);
      if Carries(s[0], c) {
        var h := [s[0]] + tail;
        forall i, j | 0 <= i < j < |h| ensures h[i].index < h[j].index {
          if i == 0 {
            assert h[j] in tail;
            var k :| 0 <= k < |s[1..]| && s[1..][k] == h[j];
            assert s[k + 1] == h[j];
          } else {
            assert h[i] == tail[i - 1] && h[j] == tail[j - 1];
          }
        }
      }
    }
  }

  /** Once a block carrying `c` is in the chain, later appends keep `c` present. */
  lemma HasCertHashPersists(s: seq<Block>, t: seq<Block>, c: string)
    requires HasCertHash(s, c)
    ensures HasCertHash(s + t, c)
  {
    var i :| 0 <= i < |s| && Carries(s[i], c);
    assert (s + t)[i] == s[i];
  }

  /** A freshly created chain has no certificate in it. */
  lemma GenesisHasNoCert(sha: string -> string, stamp: real, c: string)
    ensures !HasCertHash(GenesisChain(sha, stamp), c)
    ensures History(GenesisChain(sha, stamp), c) == []
  {
    HistoryEmptyIffAbsent(GenesisChain(sha, stamp), c);
  }
}
