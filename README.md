# SnakeCoin chain builder in Dafny

SnakeCoin (`snakecoin.py`) builds a hash-linked, append-only chain of blocks in memory.
Each `Block` holds an `index`, a `timestamp`, a `data` text and the `predecessor_hash`.
Its `hash` is computed once, when the block is constructed. The hash is the SHA-256 hex digest of
`str(index) + str(timestamp) + str(data) + str(predecessor_hash)`.
`create_genesis_block` makes block 0. Its data is `"Genesis Block"` and its predecessor hash is `"0"`.
`next_block` makes the successor of a block. Its index is one more, its data is `"Block index:  "`
(two spaces) followed by the new index, and its predecessor hash is the old block's hash.
`main` starts a list with the genesis block. It then appends 20 successors, each made from the
current tail, which it tracks in `previous_block`.

The model has two modules:

- `Decimal` (Decimal.dfy) models Python's `str()` on integers: the canonical decimal text
  (`IntToString`) and a reader for it (`ParseInt`). They are proved to be mutual inverses.
- `Snakecoin` (Snakecoin.dfy) holds the block record, the constructor, the genesis and successor
  functions, and the chain-building loop. That loop is a method over a local sequence.

Abstractions:

- The SHA-256 hex digest is a parameter `sha: string -> string`. Nothing is assumed about it.
  Every property below holds for every digest function.
- The clock is a parameter `clock: nat -> string`. `clock(k)` is the text of the k-th reading of
  the current time: reading 0 is for the genesis block, reading k for block k.
- A timestamp is represented by its text form. The model cannot see how `str()` renders a `datetime`.
- A block is an immutable value (a `datatype`), because the source assigns its fields only in
  `__init__`. `NewBlock` follows `__init__`: it stores the four fields, then computes the hash
  from them and stores it.
- The loop count of `main`, fixed at 20, is the parameter `n` of `BuildChain`. `Run` is `main`
  with n = 20.

## Model

| member | source | states |
|---|---|---|
| `Decimal.NatToString` | snakecoin.py:31 | `str()` of a non-negative integer is canonical decimal text: non-empty, digits only, and no leading zero unless the number is 0 |
| `Decimal.NatToStringValue` | snakecoin.py:31 | the digits `str(n)` produces denote `n` |
| `Decimal.LeadingDigitPositive` | snakecoin.py:31 | a digit string without a leading zero denotes a positive number (helper for the converse below) |
| `Decimal.CanonicalIsRendered` | snakecoin.py:31 | every canonical digit string is `str()` of the number it denotes, so `str()` is onto the canonical texts |
| `Decimal.IntToString` | snakecoin.py:31 | `str()` of any integer: never empty; a minus sign before the magnitude when negative |
| `Decimal.IntRoundTrip` | snakecoin.py:31 | reading back `str(i)` gives `i` |
| `Decimal.ParseIntExact` | snakecoin.py:31 | reading a text gives `i` if and only if the text is `str(i)` |
| `Decimal.IntToStringInjective` | snakecoin.py:31 | distinct indices have distinct decimal texts |
| `Snakecoin.NewBlock` | snakecoin.py:13-35 | the constructor stores the four fields unchanged, then stores `HashBlock` of them, modelling `hash_block`: the hash is the digest of str(index), timestamp, data and predecessor hash concatenated in that order |
| `Snakecoin.SealedIsConstructed` | snakecoin.py:13-19 | a block whose hash is the digest of its other fields is exactly what the constructor builds from those fields, so the hash is a function of the four fields |
| `Snakecoin.GenesisBlock` | snakecoin.py:38-43 | the genesis block has index 0, data "Genesis Block", predecessor hash "0", the given timestamp and a correct hash |
| `Snakecoin.NextBlock` | snakecoin.py:46-56 | the successor has index one more, data `Label` of the new index ("Block index:  " plus the index in decimal), predecessor hash equal to the old block's hash, the given timestamp and a correct hash |
| `Snakecoin.LabelRoundTrip` | snakecoin.py:54 | the index can be read back from a successor's data |
| `Snakecoin.GenesisIsNoLabel` | snakecoin.py:43 | the genesis data is not a successor label |
| `Snakecoin.Chain` | snakecoin.py:59-71 | after n iterations the chain has n + 1 blocks |
| `Snakecoin.AppendPreservesValid` | snakecoin.py:69-70 | appending the successor of the tail to a valid chain gives a valid chain |
| `Snakecoin.ChainIsValid` | snakecoin.py:59-71 | every chain the loop holds is valid. Block 0 is the genesis block. Block i has index i and a correct hash. Every later block links to the hash of the block before and carries its label. Block k has the k-th clock reading |
| `Snakecoin.ChainAppendOnly` | snakecoin.py:68-71 | the chain only grows: the chain after m iterations is a prefix of the chain after any n >= m |
| `Snakecoin.DropLastValid` | snakecoin.py:68-71 | removing the last block of a valid chain with at least two blocks leaves a valid chain |
| `Snakecoin.EachIsSuccessor` | snakecoin.py:69 | in a valid chain each block after the genesis block equals `next_block` of the block before it at its own clock reading |
| `Snakecoin.ValidChainIsBuilt` | snakecoin.py:59-71 | conversely, any valid chain stamped by the clock is exactly the chain the loop builds, so validity characterises what the loop produces |
| `Snakecoin.ChainDataDistinct` | snakecoin.py:43-54 | no two blocks of a valid chain carry the same data |
| `Snakecoin.BuildChain` | snakecoin.py:59-71 | the loop with count n returns the chain after n iterations: n + 1 blocks, valid, stamped in order. `previous_block` ends on the last block. Every intermediate chain is a prefix of the result |
| `Snakecoin.Run` | snakecoin.py:59-71 | `main` with count 20 yields 21 blocks; block 20 has index 20 and links to block 19's hash; the chain is valid |

## Left out

- SHA-256 and the `hashlib` hasher object (snakecoin.py:30-35) are a parameter, not a model. So nothing is claimed about collision resistance, sensitivity to field changes, the digest's length or its hex alphabet. Distinct blocks are therefore not proved to have distinct hashes.
- The clock (`datetime.now()`, snakecoin.py:43, 53) is a parameter. Its readings are arbitrary texts, with no ordering between them.
- `str()` of a `datetime` and the UTF-8 encoding (snakecoin.py:31-34) are not modelled. A timestamp is its text, and concatenating the encodings is modelled as concatenating the texts (UTF-8 encoding distributes over concatenation).
- `str(self.data)` and `str(self.predecessor_hash)` are the identity here, because both fields always hold strings.
- The two `print` calls (snakecoin.py:74-76) only produce output, and the `__main__` entry point (snakecoin.py:79-80) only calls `main`. Neither is modelled.
- IntToString: renders integers of any size. Python 3.11 and later (and the matching security releases of 3.7 to 3.10) raise `ValueError` from `str()` of an integer with more than 4300 digits, so `hash_block` and `next_block` would fail on such an index; `main` only reaches indices 0 to 20.
- Object identity: `previous_block` and the list's last element are the same Python object. In the model both are equal values, and `BuildChain` returns them together.
