/** How the CAdES verifier fills a chain builder (`crates/eidas-cades/src/verify.rs`). */
module TrustMaterial {
  import opened Chain

  class CadesTrustMaterial {
    var trustAnchors: seq<Cert>
    var intermediates: seq<Cert>

    constructor ()
      ensures trustAnchors == [] && intermediates == []
    {
      trustAnchors, intermediates := [], [];
    }

    method WithAnchors(certs: seq<Cert>)
      modifies this
      ensures trustAnchors == old(trustAnchors) + certs && intermediates == old(intermediates)
    {
      trustAnchors := trustAnchors + certs;
    }

    method WithIntermediates(certs: seq<Cert>)
      modifies this
      ensures intermediates == old(intermediates) + certs && trustAnchors == old(trustAnchors)
    {
      intermediates := intermediates + certs;
    }

    /** The caller's intermediates come first, the signature's own certificates last. */
    method Builder(extra: seq<Cert>) returns (b: ChainBuilder)
      ensures fresh(b) && b.anchors == trustAnchors && b.intermediates == intermediates + extra
    {
      b := new ChainBuilder();
      b.WithAnchors(trustAnchors);
      b.WithIntermediates(intermediates);
      for i := 0 to |extra|
        invariant fresh(b) && b.anchors == trustAnchors && b.intermediates == intermediates + extra[..i]
      {
        b.PushIntermediate(extra[i]);
      }
      assert extra[..|extra|] == extra;
    }
  }
}
