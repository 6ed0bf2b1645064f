/** The values that votes and headers are made of.

A header hash is modelled by the block it names, so two different blocks never
share a hash; `Zero` is the all-zero hash that stands for "nothing recorded yet".
A block carries its parent, so a block value is a whole branch down to genesis. */
module Chain {

  datatype Option<+T> = None | Some(value: T)

  datatype Hash = Zero | Of(block: Block)

  /** One voting range: a justified source block and the target it supports. */
  datatype VoteData = VoteData(sourceNumber: nat, sourceHash: Hash, targetNumber: nat, targetHash: Hash)

  /** The aggregated votes a header carries; `voters` are the indices set in the bit set. */
  datatype Attestation = Attestation(voters: set<nat>, data: VoteData)

  /** `salt` stands for every header field that finality does not read, and `fermi` for
      the fork schedule's answer at this header. */
  datatype Block =
    | Genesis
    | Child(parent: Block, salt: nat, fermi: bool, attestation: Option<Attestation>)

  function Number(b: Block): nat {
    match b
    case Genesis => 0
    case Child(parent, _, _, _) => Number(parent) + 1
  }

  /** `a` is `b` or lies below it on b's branch. */
  predicate Ancestor(a: Block, b: Block) {
    a == b || (b.Child? && Ancestor(a, b.parent))
  }

  lemma AncestorNumber(a: Block, b: Block)
    requires Ancestor(a, b)
    ensures Number(a) <= Number(b)
    ensures Number(a) == Number(b) ==> a == b
  {
  }

  lemma AncestorTransitive(a: Block, b: Block, c: Block)
    requires Ancestor(a, b) && Ancestor(b, c)
    ensures Ancestor(a, c)
  {
  }

  /** Two blocks below a common block lie on one branch, ordered by their numbers. */
  lemma {:induction false} AncestorsAreLinear(a: Block, b: Block, c: Block)
    requires Ancestor(a, c) && Ancestor(b, c)
    requires Number(a) <= Number(b)
    ensures Ancestor(a, b)
  {
    if b == c {
    } else if a == c {
      AncestorNumber(b, c);
    } else {
      AncestorsAreLinear(a, b, c.parent);
    }
  }

  lemma GenesisIsAncestor(b: Block)
    ensures Ancestor(Genesis, b)
  {
  }
}
