/**
 * SnakeCoin: an append-only chain of blocks, each holding the digest of its
 * predecessor. The SHA-256 hex digest is a parameter `sha` (any function from
 * text to text), and the wall clock is a parameter `clock`, whose k-th value is
 * the text of the k-th reading of the current time.
 */
module Snakecoin {
  import opened Decimal

  /** The text form of a timestamp, as `str()` renders it; treated as opaque. */
  type Timestamp = string

  /** A hexadecimal digest, as `hexdigest()` returns it. */
  type Digest = string

  /** The digest function applied to the encoded hash input. */
  type Hasher = string -> Digest

  /** The k-th reading of the current time, for k = 0, 1, 2, ... */
  type Clock = nat -> Timestamp

  datatype Block = Block(
    index: int,
    timestamp: Timestamp,
    data: string,
    predecessorHash: Digest,
    hash: Digest)

  const GenesisData: string := "Genesis Block"
  const GenesisPredecessor: Digest := "0"
  /** Prefix of the data of every non-genesis block; note the two spaces. */
  const LabelPrefix: string := "Block index:  "
  /** How many blocks the driver appends after the genesis block. */
  const BlocksToAdd: nat := 20

  /**
   * What `hash_block` feeds to the digest: the texts of index, timestamp,
   * data and predecessor hash, in that order. The stored hash is not read.
   */
  function HashInput(b: Block): string {
    IntToString(b.index) + b.timestamp + b.data + b.predecessorHash
  }

  function HashBlock(sha: Hasher, b: Block): Digest {
    sha(HashInput(b))
  }

  /** The stored hash is the digest of the block's other four fields. */
  predicate Sealed(sha: Hasher, b: Block) {
    b.hash == HashBlock(sha, b)
  }

  /**
   * `Block(index, timestamp, data, predecessor_hash)`: store the four fields,
   * then compute and store the hash once.
   */
  function NewBlock(sha: Hasher, index: int, timestamp: Timestamp, data: string, predecessorHash: Digest): (b: Block)
    ensures b.index == index && b.timestamp == timestamp
    ensures b.data == data && b.predecessorHash == predecessorHash
    ensures Sealed(sha, b)
    ensures b.hash == sha(IntToString(index) + timestamp + data + predecessorHash)
  {
    var fields := Block(index, timestamp, data, predecessorHash, "");
    fields.(hash := HashBlock(sha, fields))
  }

  /** A sealed block is exactly what the constructor builds from its four fields. */
  lemma SealedIsConstructed(sha: Hasher, b: Block)
    requires Sealed(sha, b)
    ensures b == NewBlock(sha, b.index, b.timestamp, b.data, b.predecessorHash)
  {
  }

  /** `create_genesis_block`, with `now` the clock reading it takes. */
  function GenesisBlock(sha: Hasher, now: Timestamp): (b: Block)
    ensures b.index == 0 && b.timestamp == now
    ensures b.data == "Genesis Block" && b.predecessorHash == "0"
    ensures Sealed(sha, b)
  {
    NewBlock(sha, 0, now, GenesisData, GenesisPredecessor)
  }

  /** The data text of the block with index `i`. */
  function Label(i: int): string {
    LabelPrefix + IntToString(i)
  }

  /** The index a data text was built from, if it is a label at all. */
  function LabelIndex(data: string): Option<int> {
    if |data| >= |LabelPrefix| && data[..|LabelPrefix|] == LabelPrefix
    then ParseInt(data[|LabelPrefix|..])
    else None
  }

  /** `next_block(last)`, with `now` the clock reading it takes. */
  function NextBlock(sha: Hasher, last: Block, now: Timestamp): (b: Block)
    ensures b.index == last.index + 1 && b.timestamp == now
    ensures b.data == "Block index:  " + IntToString(last.index + 1)
    ensures b.predecessorHash == last.hash
    ensures Sealed(sha, b)
  {
    var thisIndex := last.index + 1;
    NewBlock(sha, thisIndex, now, Label(thisIndex), last.hash)
  }

  /** The data of a successor names the successor's index, and nothing else. */
  lemma LabelRoundTrip(i: int)
    ensures LabelIndex(Label(i)) == Some(i)
  {
    var s := Label(i);
    assert s[..|LabelPrefix|] == LabelPrefix;
    assert s[|LabelPrefix|..] == IntToString(i);
    IntRoundTrip(i);
  }

  /** The genesis data is not the label of any index. */
  lemma GenesisIsNoLabel()
    ensures LabelIndex(GenesisData) == None
  {
  }

  /** The shape of every chain the builder produces (genesis first, then successors). */
  predicate ValidChain(sha: Hasher, c: seq<Block>) {
    && |c| > 0
    && c[0].data == GenesisData
    && c[0].predecessorHash == GenesisPredecessor
    && (forall i :: 0 <= i < |c| ==> c[i].index == i && Sealed(sha, c[i]))
    && (forall i :: 0 < i < |c| ==> c[i].predecessorHash == c[i - 1].hash && c[i].data == Label(i))
  }

  /** Block k of a chain carries the k-th clock reading. */
  predicate StampedBy(clock: Clock, c: seq<Block>) {
    forall i :: 0 <= i < |c| ==> c[i].timestamp == clock(i)
  }

  /**
   * The chain `main` holds after `n` iterations: the genesis block and then,
   * for k = 1 .. n, the successor of the tail taken at the k-th clock reading.
   */
  function Chain(sha: Hasher, clock: Clock, n: nat): (c: seq<Block>)
    ensures |c| == n + 1
  {
    if n == 0 then [GenesisBlock(sha, clock(0))]
    else
      var prefix := Chain(sha, clock, n - 1);
      prefix + [NextBlock(sha, prefix[n - 1], clock(n))]
  }

  /** Appending the successor of the tail keeps a chain valid. */
  lemma AppendPreservesValid(sha: Hasher, c: seq<Block>, now: Timestamp)
    requires ValidChain(sha, c)
    ensures ValidChain(sha, c + [NextBlock(sha, c[|c| - 1], now)])
  {
  }

  /** Every chain the builder holds is valid and carries the clock readings in order. */
  lemma {:induction false} ChainIsValid(sha: Hasher, clock: Clock, n: nat)
    ensures ValidChain(sha, Chain(sha, clock, n))
    ensures StampedBy(clock, Chain(sha, clock, n))
  {
    if n > 0 {
      ChainIsValid(sha, clock, n - 1);
      var prefix := Chain(sha, clock, n - 1);
      AppendPreservesValid(sha, prefix, clock(n));
    }
  }

  /** The chain only grows: the chain after m iterations is a prefix of the one after n. */
  lemma {:induction false} ChainAppendOnly(sha: Hasher, clock: Clock, m: nat, n: nat)
    requires m <= n
    ensures Chain(sha, clock, n)[..m + 1] == Chain(sha, clock, m)
  {
    if m < n {
      ChainAppendOnly(sha, clock, m, n - 1);
      var prefix := Chain(sha, clock, n - 1);
      assert Chain(sha, clock, n)[..n] == prefix;
      assert Chain(sha, clock, n)[..m + 1] == prefix[..m + 1];
    }
  }

  /** Dropping the last block of a valid chain of two or more blocks leaves a valid chain. */
  lemma DropLastValid(sha: Hasher, c: seq<Block>)
    requires ValidChain(sha, c) && |c| > 1
    ensures ValidChain(sha, c[..|c| - 1])
  {
  }

  /**
   * The converse of `ChainIsValid`: validity and the clock readings determine
   * the chain completely, so they describe exactly what the builder produces.
   */
  lemma {:induction false} ValidChainIsBuilt(sha: Hasher, clock: Clock, c: seq<Block>)
    requires ValidChain(sha, c) && StampedBy(clock, c)
    ensures c == Chain(sha, clock, |c| - 1)
  {
    var n := |c| - 1;
    if n == 0 {
      SealedIsConstructed(sha, c[0]);
    } else {
      var prefix := c[..n];
      DropLastValid(sha, c);
      ValidChainIsBuilt(sha, clock, prefix);
      assert c[n] == NextBlock(sha, prefix[n - 1], clock(n)) by {
        EachIsSuccessor(sha, clock, c);
      }
      assert c == prefix + [c[n]];
    }
  }

  /** In a valid chain, each block after the genesis block is the successor of the one before. */
  lemma EachIsSuccessor(sha: Hasher, clock: Clock, c: seq<Block>)
    requires ValidChain(sha, c) && StampedBy(clock, c)
    ensures forall i :: 0 < i < |c| ==> c[i] == NextBlock(sha, c[i - 1], clock(i))
  {
    forall i | 0 < i < |c|
      ensures c[i] == NextBlock(sha, c[i - 1], clock(i))
    {
      SealedIsConstructed(sha, c[i]);
    }
  }

  /** No two blocks of a valid chain carry the same data. */
  lemma ChainDataDistinct(sha: Hasher, c: seq<Block>, i: nat, j: nat)
    requires ValidChain(sha, c) && i < j < |c|
    ensures c[i].data != c[j].data
  {
    LabelRoundTrip(j);
    if i == 0 {
      GenesisIsNoLabel();
    } else {
      LabelRoundTrip(i);
    }
  }

  /**
   * The loop of `main`, with the number of blocks to add as `n`: start from
   * the genesis block, then append the successor of `previousBlock` and move
   * `previousBlock` to it, n times.
   */
  method BuildChain(sha: Hasher, clock: Clock, n: nat) returns (blockchain: seq<Block>, previousBlock: Block)
    ensures blockchain == Chain(sha, clock, n)
    ensures |blockchain| == n + 1 && previousBlock == blockchain[n]
    ensures ValidChain(sha, blockchain) && StampedBy(clock, blockchain)
    ensures forall k :: 0 <= k <= n ==> blockchain[..k + 1] == Chain(sha, clock, k)
  {
    blockchain := [GenesisBlock(sha, clock(0))];
    previousBlock := blockchain[0];
    for i := 0 to n
      invariant |blockchain| == i + 1
      invariant blockchain == Chain(sha, clock, i)
      invariant previousBlock == blockchain[i]
    {
      ghost var before := blockchain;
      var newBlock := NextBlock(sha, previousBlock, clock(i + 1));
      blockchain := blockchain + [newBlock];
      previousBlock := newBlock;
      assert blockchain[..i + 1] == before;
    }
    ChainIsValid(sha, clock, n);
    forall k | 0 <= k <= n
      ensures blockchain[..k + 1] == Chain(sha, clock, k)
    {
      ChainAppendOnly(sha, clock, k, n);
    }
  }

  /** `main` with its fixed count of twenty blocks added after the genesis block. */
  method Run(sha: Hasher, clock: Clock) returns (blockchain: seq<Block>)
    ensures blockchain == Chain(sha, clock, BlocksToAdd)
    ensures |blockchain| == BlocksToAdd + 1
    ensures blockchain[20].index == 20 && blockchain[20].predecessorHash == blockchain[19].hash
    ensures ValidChain(sha, blockchain) && StampedBy(clock, blockchain)
  {
    var previousBlock;
    blockchain, previousBlock := BuildChain(sha, clock, BlocksToAdd);
  }
}
