/**
 * Who holds a certificate, derived from its history (the loop that appears
 * in both `transfer_flow` and `verify_flow`, harik/cert_chain.py:157-162 and
 * :185-190): scanning oldest to newest, a mint sets the holder to its owner
 * and a transfer overwrites it with its recipient. The last such block wins.
 */
module Ownership {
  import opened Blocks
  import opened Lookup

  /** The holder a single payload names, if any. */
  function Holder(p: Payload): (r: Option<string>)
    ensures r.None? <==> p.Genesis?
  {
    match p
    case Genesis(_) => None
    case Mint(_, _, _, _, _, owner) => Some(owner)
    case Transfer(_, _, to) => Some(to)
  }

  /** Reference definition: the holder named by the newest block that names one. */
  function OwnerAfter(h: seq<Block>): Option<string>
  {
    if h == [] then None
    else if Holder(h[|h| - 1].data).Some? then Holder(h[|h| - 1].data)
    else OwnerAfter(h[..|h| - 1])
  }

  /** The resolution loop, run over a history in the order given. */
  method ResolveOwner(hist: seq<Block>) returns (owner: Option<string>)
    ensures owner == OwnerAfter(hist)
  {
    owner := None;
    for i := 0 to |hist|
      invariant owner == OwnerAfter(hist[..i])
    {
      assert hist[..i + 1][..i] == hist[..i];
      match hist[i].data {
        case Mint(_, _, _, _, _, o) =>
          owner := Some(o);
        case Transfer(_, _, to) =>
          owner := Some(to);
        case Genesis(_) =>
      }
    }
    assert hist[..|hist|] == hist;
  }

  /** Appending a block: it wins if it names a holder, otherwise nothing changes. */
  lemma OwnerAfterAppend(h: seq<Block>, b: Block)
    ensures OwnerAfter(h + [b]) == if Holder(b.data).Some? then Holder(b.data) else OwnerAfter(h)
  {
    assert (h + [b])[..|h|] == h;
  }

  /** No holder is resolved exactly when no block of the history names one. */
  lemma {:induction false} OwnerAfterNone(h: seq<Block>)
    ensures OwnerAfter(h) == None <==> forall k :: 0 <= k < |h| ==> Holder(h[k].data).None?
    decreases |h|
  {
    if h != [] {
      var init := h[..|h| - 1];
      OwnerAfterNone(init);
      assert forall k :: 0 <= k < |init| ==> init[k] == h[k];
    }
  }

  /** Block `k` of `h` names holder `o` and no later block names anyone. */
  ghost predicate NamesLast(h: seq<Block>, o: string, k: int)
  {
    0 <= k < |h| && Holder(h[k].data) == Some(o) &&
    forall j :: k < j < |h| ==> Holder(h[j].data).None?
  }

  /**
   * Last write wins: the resolved holder is `o` exactly when some block names
   * `o` and no later block names anyone.
   */
  lemma {:induction false} OwnerAfterIsLastHolder(h: seq<Block>, o: string)
    ensures OwnerAfter(h) == Some(o) <==> exists k :: NamesLast(h, o, k)
    decreases |h|
  {
    if h != [] {
      var n := |h| - 1;
      var init := h[..n];
      OwnerAfterIsLastHolder(init, o);
      assert forall k :: 0 <= k < n ==> init[k] == h[k];
      if Holder(h[n].data).Some? {
        assert NamesLast(h, o, n) <==> Holder(h[n].data) == Some(o);
        assert (exists k :: NamesLast(h, o, k)) ==> NamesLast(h, o, n) by {
          if exists k :: NamesLast(h, o, k) {
            var k :| NamesLast(h, o, k);
            assert k == n;
          }
        }
      } else {
        assert (exists k :: NamesLast(h, o, k)) ==> (exists k :: NamesLast(init, o, k)) by {
          if exists k :: NamesLast(h, o, k) {
            var k :| NamesLast(h, o, k);
            assert k < n && NamesLast(init, o, k);
          }
        }
        assert (exists k :: NamesLast(init, o, k)) ==> (exists k :: NamesLast(h, o, k)) by {
          if exists k :: NamesLast(init, o, k) {
            var k :| NamesLast(init, o, k);
            assert NamesLast(h, o, k);
          }
        }
      }
    }
  }

  /** A non-empty history of a certificate always resolves to some holder. */
  lemma HistoryHasHolder(s: seq<Block>, c: string)
    requires HasCertHash(s, c)
    ensures OwnerAfter(History(s, c)).Some?
  {
    HistoryEmptyIffAbsent(s, c);
    var h := History(s, c);
    assert h[|h| - 1] in h;
  }

  /** The three orderings the loop is meant to handle. */
  lemma ResolutionExamples(m: Block, t1: Block, t2: Block)
    requires m.data.Mint? && t1.data.Transfer? && t2.data.Transfer?
    ensures OwnerAfter([]) == None
    ensures OwnerAfter([m]) == Some(m.data.owner)
    ensures OwnerAfter([m, t1]) == Some(t1.data.to)
    ensures OwnerAfter([m, t1, t2]) == Some(t2.data.to)
  {
  }
}
