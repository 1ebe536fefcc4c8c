/** The chain bookkeeping of blockChain.py: a list of numbered blocks, each
    linked to the hash of its predecessor, and a list of pending
    transactions that the next block takes over. SHA-256 and the proof test
    are parameters. */
module BlockChain {
  import opened Wrappers

  datatype Transaction = Transaction(sender: string, recipient: string, amount: int)

  /** A block without its timestamp. */
  datatype Block = Block(index: int, transactions: seq<Transaction>, proof: int, previousHash: string)

  /** Python's truth test on the optional `previous_hash`: `None` and the
      empty string are false. */
  predicate Falsy(s: Option<string>)
  {
    s.None? || s.value == ""
  }

  /** Block `i` of a chain carries the number `i + 1`. */
  predicate Numbered(chain: seq<Block>)
  {
    forall i :: 0 <= i < |chain| ==> chain[i].index == i + 1
  }

  /** The genesis block: number 1, no transactions, proof 100, previous
      hash "1". */
  const Genesis := Block(1, [], 100, "1")

  class Blockchain {
    var chain: seq<Block>
    var currentTransactions: seq<Transaction>

    /** What every blockchain keeps once built: a non-empty, consecutively
        numbered chain. */
    predicate Valid()
      reads this
    {
      |chain| >= 1 && Numbered(chain)
    }

    /** A new chain holds the genesis block alone. */
    constructor (hash: Block -> string)
      ensures Valid()
      ensures chain == [Genesis] && currentTransactions == []
    {
      chain := [];
      currentTransactions := [];
      new;
      var b := NewBlock(100, Some("1"), hash);
    }

    /** The last block, or `IndexError` on an empty chain. */
    function LastBlock(): (b: Result<Block>)
      reads this
      ensures b.Failure? <==> chain == []
      ensures b.Failure? ==> b.error == IndexError
      ensures b.Success? ==> b.value in chain
      ensures Valid() ==> b.Success? && b.value.index == |chain|
    {
      if chain == [] then Failure(IndexError) else Success(chain[|chain| - 1])
    }

    /** `new_block`: the next number, the pending transactions, the given
        proof and the given previous hash or else the hash of the last
        block; the pending list starts afresh. Without a previous hash on an
        empty chain, reading the last block raises `IndexError` before
        anything changes. */
    method NewBlock(proof: int, previousHash: Option<string>, hash: Block -> string) returns (r: Result<Block>)
      modifies this
      ensures r.Failure? <==> Falsy(previousHash) && old(chain) == []
      ensures r.Failure? ==> r.error == IndexError
      ensures r.Failure? ==> chain == old(chain) && currentTransactions == old(currentTransactions)
      ensures r.Success? ==> chain == old(chain) + [r.value] && currentTransactions == []
      ensures r.Success? ==> r.value.index == |old(chain)| + 1
      ensures r.Success? ==> r.value.transactions == old(currentTransactions) && r.value.proof == proof
      ensures r.Success? && !Falsy(previousHash) ==> r.value.previousHash == previousHash.value
      ensures r.Success? && Falsy(previousHash) ==> r.value.previousHash == hash(old(chain)[|old(chain)| - 1])
      ensures old(Numbered(chain)) ==> Numbered(chain)
      ensures old(Valid()) ==> Valid() && r.Success?
    {
      var link: string;
      if !Falsy(previousHash) {
        link := previousHash.value;
      } else if chain == [] {
        return Failure(IndexError);
      } else {
        link := hash(chain[|chain| - 1]);
      }
      var block := Block(|chain| + 1, currentTransactions, proof, link);
      currentTransactions := [];
      chain := chain + [block];
      return Success(block);
    }

    /** `new_transaction`: the transaction joins the pending list, and the
        number of the block that will hold it comes back; on an empty chain
        reading `last_block` raises `IndexError` after the append. */
    method NewTransaction(sender: string, recipient: string, amount: int) returns (r: Result<int>)
      modifies this
      ensures currentTransactions == old(currentTransactions) + [Transaction(sender, recipient, amount)]
      ensures chain == old(chain)
      ensures r.Failure? <==> chain == []
      ensures r.Failure? ==> r.error == IndexError
      ensures Valid() ==> r == Success(|chain| + 1)
    {
      currentTransactions := currentTransactions + [Transaction(sender, recipient, amount)];
      var last := LastBlock();
      if last.Failure? {
        return Failure(IndexError);
      }
      return Success(last.value.index + 1);
    }

    /** `proof_of_work`: counting up from 0, the first proof that `valid`
        accepts. The search stops only if such a proof exists. */
    method ProofOfWork(lastProof: int, valid: (int, int) -> bool) returns (proof: int)
      requires exists p: nat :: valid(lastProof, p)
      ensures proof >= 0 && valid(lastProof, proof)
      ensures forall q :: 0 <= q < proof ==> !valid(lastProof, q)
    {
      ghost var bound: nat :| valid(lastProof, bound);
      proof := 0;
      while !valid(lastProof, proof)
        invariant 0 <= proof <= bound
        invariant forall q :: 0 <= q < proof ==> !valid(lastProof, q)
        decreases bound - proof
      {
        proof := proof + 1;
      }
    }
  }

  /** The sample run: two transactions, a proof found on top of the genesis
      proof, and a second block that takes both transactions and links to
      the hash of the genesis block. */
  method Example(hash: Block -> string, valid: (int, int) -> bool) returns (blockchain: Blockchain)
    requires exists p: nat :: valid(100, p)
    ensures blockchain.Valid() && |blockchain.chain| == 2
    ensures blockchain.chain[0] == Genesis
    ensures blockchain.chain[1].index == 2
    ensures blockchain.chain[1].transactions
      == [Transaction("Alice", "Bob", 1), Transaction("Bob", "Charlie", 2)]
    ensures blockchain.chain[1].previousHash == hash(Genesis)
    ensures valid(100, blockchain.chain[1].proof)
    ensures blockchain.currentTransactions == []
  {
    blockchain := new Blockchain(hash);
    var next := blockchain.NewTransaction("Alice", "Bob", 1);
    next := blockchain.NewTransaction("Bob", "Charlie", 2);
    var lastBlock := blockchain.LastBlock();
    var proof := blockchain.ProofOfWork(lastBlock.value.proof, valid);
    var block := blockchain.NewBlock(proof, None, hash);
  }
}
