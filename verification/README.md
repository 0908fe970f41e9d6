# The ACCUM node, modelled and proved in Dafny

This project models the consensus core of the ACCUM node, a UTXO proof-of-work chain with epoch
rewards, a share pool and reorganisations, and proves what its operations keep, compute and lose.
`dafny verify dfyconfig.toml` checks everything.

How it is built:

- Loops and objects of the program are methods and classes, each proved equal to a function of its
  inputs or of the old state; the theorems are lemmas about those functions.
- `Targets`, `FixedPoint`, `Compact`, `Difficulty`: 256-bit arithmetic on byte and word arrays and
  the retarget. `Merkle`, `EpochCommits`: the duplicate-last tree and the epoch commit.
- `Transactions`, `Builder`, `Payments`, `Ledger`, `Blocks`, `BlockValue`: signing, validation, fees,
  unspent outputs, who holds them, and the value a block adds. `Layouts`: where the fields stand in what is
  hashed and signed. `Verdicts`: when each check passes, and the first fault it reports.
- `Loyalty`, `Poci`, `Emission`, `Payouts`, `Economies`, `EpochOrders`, `EpochRuns`, `Slashing`: what an
  epoch end does, and what the next one finds.
- `Packets`, `SharePools`, `ShareSync`, `ShareIntake`, `ShareTwins`: the bounded pool, its archive and its
  transfer, and how a node takes in shares.
- `Chains`, `Mempools`, `NodeSpecs`: the node as a value; `Nodes`: the node as an object refining it.
- `Acceptances`, `ForkSwitches`, `Jobs`: exactly when a block is accepted, a fork taken and a job committed.
- `NodeInvariants`, `NodeRuns`, `NodeSupply`, `NodeRollback`, `SupplyRuns`, `HeaderTargets`, `PoolRuns`,
  `OwnBlocks`, `Origins`, `Sealing`: what every interleaving of network blocks, rollbacks, fork switches,
  mempool additions and late commits keeps.
- `MempoolPolicies`, `Minting`, `Ownership`, `BondBacking`, `BlockBinding`, `ForkWeights`, `Agreement`,
  `AgreementRuns`, `NodeExamples`: what is admitted, minted, signed, backed, bound, outweighed and agreed on,
  with the inputs that show where a property fails.
- `Search`, `SearchOutcomes`, `ShareReports`: the lock-free nonce search access by access, and what becomes of
  its result.

Conventions. SHA-256, Argon2id, transaction ids, signatures and address decoding are arbitrary
functions (`Crypto`). Freedom from collisions is assumed only where a lemma says so, and only on the
finitely many strings it names. Column families are maps that never fail. The clock, checkpoints, the
set of slashed miners and the iteration order of hash maps are inputs of each call. Heights and epochs
of the node are unbounded; amounts, hashes and times have the program's widths, and wrapping,
saturating and checked sums are written out. `Inv` of `NodeInvariants` says: the five chain structures
agree, no stored output carries the coinbase index, mempool ids are distinct and inputs disjoint, and
the memo is right.

## What the proofs found

- `scaled_integer` can overflow a 64-bit step for some target exactly when the numerator exceeds 2^56
  (`NumeratorBoundIsExact`); retargets stay below that.
- A retarget is monotone in elapsed time only above zero (`ZeroElapsedIsNotMonotone`).
- `compact` and `from_compact` agree exactly on zero and from 2^24 on (`RoundTripExactly`).
- A catch-up over several missed epochs spends one grace epoch in all (`CatchUpExactly`); a grace decay
  takes more than an ordinary one, whose bound by one half never applies (`GraceDecaysFasterExactly`).
- A worker with a block and another with a block or a share can between them publish the nonce of one with
  the hash of the other, and a commit files the block under the hash it is given (`RivalsMismatch`,
  `TwoWorkersUnlink`). Exactly searches with one worker or one nonce cannot (`MatchedExactly`); a search
  without a block never does (`UnfoundIsMatched`).
- A transaction of coinbase form after the first has fee zero and mints freely; the mempool admits the
  form, and templates take it (`SecondCoinbaseMints`, `CoinbaseFormAdmittedExactly`, `WaitingFormMints`).
- Acceptance verifies no input signature (`UnsignedSpendAccepted`); a node's own blocks are signed all the same
  (`OwnBlocksSignedByIds`).
- Acceptance never compares the declared target with the computed one (`TargetIsFree`); every header above
  genesis hashes to at most the one it declares (`HeadersAreWorked`).
- The first year of emission has one epoch end fewer than the others (`ScheduleAddsUp`).
- A streak of participation survives epochs that are caught up by taking part again (`ParticipationAddsOne`).
- A rollback restores neither spent outputs nor replaced bonds (`RollbackRestores`, `RollbackLosesExactly`).
- A commit does not check the time of its block, and a tip can lie ahead of the clock
  (`PreparedCommitRisesExactly`, `TimesNeedNotRise`).
- A failed fork switch drops the tip without raising the generation; commits stay safe through their
  parent and height checks (`CommitIsSafe`).
- A commit counts the block reward as emitted, an acceptance does not, so near the cap the two pay different
  epoch rewards (`RunAgreesExactly`, `NearCapDisagrees`), and commits alone take the counter past the cap
  (`CounterPassesExactly`).
- Two bodies can share a header hash; they differ in repeated transactions that spend nothing (`TwoBodies`,
  `HeaderHashBinds`).
- A deeper reorganisation can make the chain lighter (`ReorgKeepsWeightExactly`, `ReorgCanLoseWeight`).
- A bond outlives its output, and anyone can replace it by a smaller one (`BackedAfterBlockExactly`,
  `BondOutlivesOutput`, `SmallerBondReplaces`).
- One proof of work is credited once for every nonce put into its header (`KeysDifferExactly`, `TwinsExist`).
- Fetching an epoch's shares ends only if every packet passes local validation (`SyncEndsExactly`).
- A live share's time is compared with itself (`ClockTestsExactly`).
- Miner and receiver prefilter different header bytes, the receiver's prefilter target contains the share
  ratio twice, and it tests against the tip's target, so shares found at a loosening retarget can be refused by
  everyone (`ReportedShareAcceptedExactly`, `LoosenedShareRefused`).

Where the program and its documents differ, the model follows the program:

- The white paper scales by a fixed 7200 seconds; the program by 119 intervals, 7140 seconds.
- It asks for hashes strictly below a target; the program accepts equality.
- It normalises contributions by the largest in the epoch, bonds linearly, and adds fees to rewards;
  the program uses fixed maxima and square roots, and pays no fees at epoch ends.
- It says several bonds of a miner accumulate and bond outputs are locked; in the program the last
  bond replaces the others and no lock is checked on spending.
- A comment at `src/node.rs:853-854` says genesis is not among the timestamps; `init_genesis` pushes it.

## Model

| member | source | states |
|---|---|---|
| `Targets.IsMetBy` | src/types.rs:46-55 | the byte scan answers exactly whether the hash, read as a 256-bit number, is at most the target |
| `Targets.MulRatio` | src/types.rs:57-71 | the carry loop multiplies by any ratio up to 256, saturating at 2^256-1 |
| `Targets.ShareTarget` | src/types.rs:57-71 | min(2^256-1, 256 T) |
| `Targets.PrefilterTarget` | src/types.rs:73-88 | min(2^256-1, 16 * 256 T): saturating twice loses nothing |
| `Targets.ScaledInteger` | src/types.rs:239-278 | the result is min(2^256-1, floor(T n / d)) whenever no 64-bit step overflows; the overflow flag is raised exactly when some step leaves the word; zero for d = 0; never raised for n up to 2^56 |
| `Targets.Product` | src/types.rs:247-259 | the 40-byte buffer holds T n exactly unless a step overflows |
| `Targets.DivideBytes` | src/types.rs:261-268 | byte-wise long division is exact integer division |
| `Targets.NumeratorBoundIsExact` | src/types.rs:250-254 | the carry loop is safe for every target if and only if n is at most 2^56 |
| `FixedPoint.AdjustFixed` | src/types.rs:95-148 | the four-word Q32.32 core computes min(2^256-1, floor(T f / 2^32)) for every rounded factor in the word, and the largest target for the rejected ones |
| `FixedPoint.MultiplyWords` | src/types.rs:114-122 | five words hold the exact product of four words and a factor |
| `FixedPoint.ScaleBothWays` | src/types.rs:239-278 | the byte routine and the word routine return the same target for every factor the byte routine is safe for |
| `Compact.Encode` | src/types.rs:280-301 | the code of a target, or the index panic for nonzero targets below 2^16 |
| `Compact.Decode` | src/types.rs:303-331 | the target of a code, with exponents up to 3 as the code places them; above 32 the out-of-range position of a checked build and the zero target of a release build |
| `Compact.RoundTripExactly` | src/types.rs:280-331 | encoding then decoding keeps exactly the top three significant bytes if and only if the target is zero or at least 2^24 |
| `Compact.TruncationError` | src/types.rs:280-331 | from 2^24 on the loss is less than one part in 2^16 |
| `Compact.CodeRoundTripExactly` | src/types.rs:280-331 | decoding then encoding returns the code if and only if it is zero or canonical with exponent 4 to 32 |
| `Difficulty.ScaleForRetarget` | src/difficulty.rs:58-81 | inside a retarget the byte multiplication never overflows, so it returns the exact scaled target |
| `Difficulty.RetargetLaw` | src/difficulty.rs:27-95 | the new target is min(genesis, floor(T clamp(actual, 3/4 E, 5/4 E) / E)) and both clamp bounds are integers without rounding |
| `Difficulty.AdjustIsStep` | src/difficulty.rs:98-119 | over the protocol window a retarget depends only on the target's number and the time span, missing or reversed spans keeping the target |
| `Difficulty.StepMonotone` | src/difficulty.rs:78-94 | among positive elapsed times, slower blocks never give a smaller target |
| `Difficulty.ZeroElapsedIsNotMonotone` | src/difficulty.rs:53-56 | zero elapsed time breaks monotonicity for every nonzero target: it keeps T while one second tightens it |
| `Difficulty.RunBounds` | src/difficulty.rs:27-95 | over any k retargets from T0 within genesis: Tk within genesis, 4^k Tk <= 5^k T0 and 4^k (Tk+3) >= 3^k (T0+3) |
| `Merkle.RootFromLeaves` | src/epoch_commit.rs:111-136 | the level-replacing loop computes the root of the duplicate-last tree |
| `Merkle.LastLeafCanRepeat` | src/epoch_commit.rs:118-134 | [a,b,c] and [a,b,c,c] have one root for every hash function |
| `Merkle.RootOfThree` | src/epoch_commit.rs:118-134 | of three leaves the last is its own partner |
| `Merkle.RootOfHalves` | src/epoch_commit.rs:111-136 | the root over two halves of 2^k leaves is the hash of their roots, the left one first |
| `Merkle.LeftEdge` | src/epoch_commit.rs:118-134 | equal roots of trees of different depth force the first leaf of the shallow tree to be an inner node of the deep one |
| `Merkle.SameRoot` | src/epoch_commit.rs:118-134 | equal roots at equal depth: one leaf list is a prefix of the other and the rest only repeats it |
| `Merkle.Binding` | src/epoch_commit.rs:111-190 | distinct leaf strings of other lengths than 64 bytes are determined by the root, across different lengths and the empty list, when the strings really hashed do not collide |
| `EpochCommits.CollectSorted` | src/epoch_commit.rs:196-234 | collecting in any iteration order and sorting yields the strictly sorted listing of exactly the map |
| `EpochCommits.ListingUnique` | src/epoch_commit.rs:196-234 | a map has one sorted listing |
| `EpochCommits.LeavesAreGood` | src/epoch_commit.rs:139-190 | count and bond leaf strings tell entries apart and are never as long as an inner node |
| `EpochCommits.RootDeterminesMap` | src/epoch_commit.rs:139-190 | equal roots force equal share, bond or loyalty maps |
| `EpochCommits.Build` | src/epoch_commit.rs:51-80 | the commit holds the three roots over the sorted listings, the wrapped share total and the miner count |
| `EpochCommits.BuildDeterministic` | src/epoch_commit.rs:51-80 | equal maps give equal commits whatever order they iterate in |
| `EpochCommits.OneMinerCommit` | src/epoch_commit.rs:50-234 | the commit of one miner: each root is the hash of that miner's entry in its own map, the total its shares, the count one |
| `EpochCommits.CommitPreimageInjective` | src/epoch_commit.rs:33-48 | the tagged encoding of a commit loses nothing |
| `Layouts.CommitLayout` | src/epoch_commit.rs:33-48 | the hashed bytes of a commit are 173 long and hold tag, epoch, height, the three roots, total, count and previous commit at their offsets |
| `Layouts.LeafLayout` | src/epoch_commit.rs:139-190 | count leaves are 28 bytes and bond leaves 44, id first, then the numbers, little-endian |
| `Layouts.LittleEndianDigit` | src/epoch_commit.rs:33-48 | byte i of an encoded number is its digit of weight 256^i |
| `EpochCommits.CommitHashBinds` | src/epoch_commit.rs:30-81 | equal commit hashes force equal commits and equal share, bond and loyalty maps |
| `Loyalty.LoyaltyData.Update` | src/miner.rs:36-71 | the decay loops and field updates compute the specified next state; on bounded states no word overflows |
| `Loyalty.GraceDecaysFasterExactly` | src/miner.rs:73-83 | the bound by one half never applies, so a decay leaves exactly seven tenths rounded down; a grace decay leaves at most as much, and the same only from 0, 1, 2 and 4 |
| `Loyalty.HistoryBounded` | src/miner.rs:36-71 | over every history value, missed and consecutive counts stay within the last epoch and grace within three |
| `Loyalty.ParticipationAddsOne` | src/miner.rs:43-56 | taking part adds one to what the missed epochs left, and one to the streak whatever the gap was |
| `Loyalty.ParticipationsCount` | src/miner.rs:36-71 | taking part in k epochs in a row raises value and streak by exactly k and refills the grace |
| `Loyalty.RepeatIsIgnored` | src/miner.rs:37-39 | a second update for the same epoch changes nothing |
| `Loyalty.HistoryMonotone` | src/miner.rs:36-83 | through any history a larger starting value stays at least as large, all other fields being equal |
| `Loyalty.MissedEpochsBound` | src/miner.rs:57-83 | k missed epochs leave at most (7/10)^k of the value |
| `Loyalty.CatchUpExactly` | src/miner.rs:57-68 | one catch-up over k missed epochs equals k single updates if and only if k <= 1 or at most one grace epoch is left |
| `Poci.Isqrt` | src/consensus.rs:272-283 | Newton's loop ends with r^2 <= n < (r+1)^2 and never leaves the word |
| `Poci.NewtonStaysAbove` | src/consensus.rs:278-281 | a Newton step never falls below the root |
| `Poci.CalculatePoci` | src/consensus.rs:262-343 | one result per visited miner, computed from that miner's shares, loyalty and bond alone |
| `Poci.PociBounded` | src/consensus.rs:327-330 | every index is at most POCI_SCALE |
| `Poci.PociMonotone` | src/consensus.rs:306-330 | the index is monotone in shares, loyalty and bond together |
| `Poci.ComponentsAlone` | src/consensus.rs:306-330 | shares, loyalty and bond alone give 600, 200 and 200 million exactly from 4900 shares, 730 loyalty and 10^10 bond on, and nothing exactly at zero shares, zero loyalty and below the minimum bond |
| `Poci.HalfWeights` | src/consensus.rs:306-330 | shares and bonds count by square root, loyalty in proportion: a quarter of the first two and half of the last give half the weight |
| `Poci.ComponentsAdd` | src/consensus.rs:327-330 | together they add up but for at most two units of rounding |
| `Poci.OthersDoNotMatter` | src/consensus.rs:285-298 | a miner's result is unchanged by adding or removing other miners and by the iteration order |
| `Transactions.CheckedSum` | src/block.rs:494-498 | the sum of the outputs, or none exactly when it exceeds the word |
| `Transactions.ComputeFee` | src/block.rs:513-542 | the fee, or the first failure met in reading order |
| `Transactions.InputSumMeaning` | src/block.rs:518-528 | inputs sum up if and only if all exist and their values fit the word |
| `Transactions.InputSumFails` | src/block.rs:518-528 | the sum fails at the first input that is missing or no longer fits, and names which it is |
| `Transactions.ComputeSighash` | src/block.rs:403-435 | the loop builds the double hash of the length-prefixed preimage; zero for an index out of range |
| `Transactions.PreimageCoversExactly` | src/block.rs:403-435 | two transactions have one preimage if and only if they agree on everything but the input scripts |
| `Layouts.SignedFront` | src/block.rs:403-435 | the signed bytes begin with the version and the inputs, 44 bytes each, behind their number |
| `Layouts.InputStands` | src/block.rs:408-417 | input i stands 44 i bytes into their list |
| `Layouts.InputLayout` | src/block.rs:408-417 | an input is its transaction id, its index, an empty script and its sequence |
| `Layouts.OutputStands` | src/block.rs:418-424 | each output stands behind those before it: value, script length, script |
| `Layouts.SignedBack` | src/block.rs:403-435 | they end with the outputs, the lock time and the kind of signature, and what is signed is their double hash |
| `Transactions.ParseWritten` | src/block.rs:226-297 | parsing a written script signature gives back signature and key |
| `Transactions.ValidateBasic` | src/block.rs:437-470 | reports the first of emptiness, inner double spend, dust, output overflow and supply excess |
| `Transactions.InputsDistinct` | src/block.rs:442-451 | the seen-set loop decides exactly whether the spending outpoints are distinct |
| `Transactions.ValidateInputs` | src/block.rs:479-492 | looks up, adds and verifies the inputs in order and reports the first failure |
| `Transactions.Validate` | src/block.rs:472-511 | the fee of a valid transaction, zero for coinbase form, or the first failing check |
| `Transactions.ValidatedFee` | src/block.rs:472-542 | the validator and the fee routine agree on every valid transaction |
| `Verdicts.BasicFirst` | src/block.rs:437-470 | the basic checks report the first fault there is, a double spend being two inputs not of coinbase form that name one outpoint |
| `Verdicts.ValidatesExactly` | src/block.rs:437-511 | a transaction validates at a fee if and only if it has no such fault and is of coinbase form, at no fee, or its inputs exist, are signed by their owners and hold the outputs and that fee of at least fifty |
| `Verdicts.LooseFeeExactly` | src/block.rs:513-542 | the fee acceptance counts is what the outputs leave of the inputs, zero for coinbase form, and exists if and only if all inputs exist and both sums fit and cover |
| `Verdicts.InputsFail` | src/block.rs:479-492 | when the inputs fail, then at the first one that is missing, no longer fits the sum or does not verify, in this order |
| `Builder.SelectCoins` | src/block.rs:559-582 | takes the shortest nonempty prefix of coins that covers amount and fee; each error has its exact cause |
| `Builder.CreateP2pkh` | src/block.rs:552-609 | the payment, the change above the dust limit and the signatures over the selected coins, or an error with its cause |
| `Builder.SignAll` | src/block.rs:604-607 | each input gets the wallet's signature over the unsigned transaction |
| `Builder.SighashSurvivesSigning` | src/block.rs:403-435 | filling in the scripts does not change what was signed |
| `Builder.SignedInputVerifies` | src/block.rs:226-316 | a signed input verifies against an output of the wallet |
| `Builder.BuiltValidates` | src/block.rs:437-609 | a transaction built from owned coins validates if and only if it is not dust, what is left over reaches the minimum fee and its outputs stay within the supply, and then at that fee |
| `Builder.PaymentSettles` | src/block.rs:472-609 | whatever the builder returns for owned coins validates if and only if the payment is not dust, the fee left over reaches the minimum and the outputs stay within the supply, at that fee, which exceeds the asked one by at most the dust limit |
| `Builder.PaymentValidates` | src/block.rs:472-609 | so a payment above dust with at least the minimum fee from coins within the supply always validates |
| `Payments.PaymentDivides` | src/block.rs:552-609 | whatever the builder returns pays the recipient's script exactly the amount and the sender's exactly the change above dust, nobody else, out of the shortest prefix of the coins that covers it |
| `Payments.HeldAfterTx` | src/node.rs:3564-3607 | a transaction with a new id moves, script by script, exactly what its inputs held and its outputs name |
| `Payments.PaymentMoves` | src/block.rs:472-609 | once a valid payment is applied the wallet holds less by amount and validated fee, the recipient more by the amount, and everybody else the same |
| `Ledger.Store.UpdateUtxoSet` | src/node.rs:3564-3607 | the outputs and bonds after all transactions are saved and their inputs deleted in order |
| `Ledger.Store.SaveOutputs` | src/node.rs:3568-3593 | every output is stored under its index and each large enough bond output replaces its miner's bond |
| `Ledger.Store.DeleteInputs` | src/node.rs:3595-3605 | removes exactly the outpoints of inputs not of coinbase form |
| `Ledger.Store.RollbackUtxoSet` | src/node.rs:2872-2909 | deletes exactly the created outpoints and restores nothing |
| `Ledger.SpentStaysGone` | src/node.rs:3564-3607 | what a block spends is gone after it, its transactions' own outputs included, unless a later transaction has the same id as the one that made it |
| `Ledger.UndoAfterApply` | src/node.rs:2872-2909 | undoing after applying leaves the old outputs minus what was spent and minus what was written, for every hash function |
| `BondBacking.BackedAfterBlockExactly` | src/node.rs:3564-3607 | after a block with new ids every bond has an unspent output of its miner and amount behind it if and only if each old bond the block does not renew keeps one that the block does not spend |
| `BondBacking.BondOutlivesOutput` | src/node.rs:3564-3607 | the failing input: a bond, the one output behind it, and a block that moves this output |
| `BondBacking.SmallerBondReplaces` | src/node.rs:3568-3593 | whoever pays a smaller amount to a miner's bond script makes that its bond |
| `BondBacking.LastBondCounts` | src/node.rs:3568-3593 | the last bond output of a block for a miner becomes its bond, of that value, from this height on and for 20160 blocks |
| `BondBacking.TakenBlockBinds` | src/node.rs:2430-2527 | so does a block the node accepts, at the block's own height, unless it ends an epoch in which the miner is slashed |
| `BondBacking.MinedBlockBinds` | src/node.rs:3344-3490 | and a block of its own |
| `Blocks.SpliceIsNonce` | src/node.rs:4062-4071 | overwriting bytes 108 to 116 of a header's bytes is setting its nonce |
| `Blocks.HeaderBytesInjective` | src/block.rs:38-57 | the 120 bytes determine the header |
| `Layouts.HeaderLayout` | src/block.rs:38-57 | where the seven fields stand in them |
| `BlockBinding.SameRootRepeatsEnd` | src/p2p.rs:1387-1412 | of two lists with one root at one depth the longer is the shorter and then elements of its end, each of them at least once |
| `BlockBinding.HeaderHashBinds` | src/node.rs:2431-2517 | two blocks under one header hash that pass both validators have one header and the same transactions up to such a repeated end, which spends nothing, and leave the same outputs whatever these were before |
| `BlockBinding.AcceptedBlocksBind` | src/node.rs:2430-2556 | the same for blocks accepted by two nodes in any states at any times |
| `BlockBinding.TwoBodies` | src/p2p.rs:1387-1412 | they can differ: a block that repeats a last transaction of coinbase form has the same root and passes as well |
| `Blocks.SortedRank` | src/node.rs:950-958 | place k of the sorted window is the element of rank k |
| `Blocks.MedianWithin` | src/node.rs:939-959 | a window with at most one element above a bound has its median within the bound |
| `Blocks.ValidateNoDoubleSpend` | src/p2p.rs:73-90 | accepts if and only if all inputs of transactions not of coinbase form are pairwise distinct |
| `Blocks.ValidateCoinbase` | src/p2p.rs:42-70 | reports the first failing check; the coinbase sum wraps, fees saturate |
| `Verdicts.CoinbaseFirst` | src/p2p.rs:42-70 | a coinbase is refused for the first fault there is |
| `BlockValue.IndexedPreserved` | src/node.rs:3564-3607 | no stored output ever carries the coinbase index |
| `BlockValue.GrowthOfBlock` | src/node.rs:2491-2517 | value after a validated block plus fees is at most value before plus minted outputs, with equality when no outpoint is overwritten |
| `BlockValue.BlockGrowth` | src/p2p.rs:42-90 | a validated block adds at most its reward and its excess, whatever the hashes do |
| `BlockValue.BlockConserves` | src/p2p.rs:42-90 | with fresh outpoints value is conserved exactly, and the reward bounds the growth if and only if minted outputs stay within reward and fees |
| `BlockValue.NoExcess` | src/p2p.rs:47-52 | a sole coinbase whose sum fits the word has no excess |
| `BlockValue.SecondCoinbaseMints` | src/p2p.rs:54-60 | a second transaction of coinbase form passes both validators and mints any amount |
| `Emission.Divide` | src/node.rs:3692-3700 | the two loops compute the floor-divided rewards, none when the total index is zero |
| `Emission.Trim` | src/node.rs:3777-3805 | scales rewards down to the available supply only when they exceed it |
| `Emission.PayRewards` | src/node.rs:3807-3903 | outputs for every nonzero reward with a usable address and the saturated sum of all rewards |
| `Emission.CutIsSevenPercent` | src/node.rs:3664-3690 | the treasury's share is the largest whole number of units within seven hundredths of the effective reward |
| `Emission.TreasuryGetsTheCut` | src/node.rs:3664-3690 | paying the treasury on a fresh outpoint raises the value by exactly the cut and leaves every other output alone; the outpoint then holds the cut for the treasury address, or nothing when the cut is zero |
| `Emission.EmitEpoch` | src/node.rs:3650-3760 | treasury, division, trimming and payment give the specified outputs and emission counter |
| `Emission.PoolDivided` | src/node.rs:3692-3700 | floor-divided rewards fit the pool and lose less than one unit per miner |
| `Payouts.RewardsFollowIndex` | src/node.rs:3692-3700 | each miner gets its part of the pool by index, rounded down: equal indices earn equally and a larger one never less |
| `Payouts.CountedExactly` | src/node.rs:3756-3760 | the counter moves by exactly the treasury's cut and all miners' rewards, paid or not, and stays within the cap |
| `Payouts.LeftOverExactly` | src/node.rs:3664-3700 | of the effective reward less than one unit for each miner is left over, and all but the cut when nobody has an index |
| `Emission.TrimIsNoOp` | src/node.rs:3702-3805 | at its call site trimming changes nothing, and rewards with the treasury cut stay within the effective reward |
| `Payouts.TrimmedFits` | src/node.rs:3777-3805 | trimmed rewards keep their proportion but for rounding and together take no more than is left of the supply |
| `Payouts.RewardReaches` | src/node.rs:3807-3903 | at an epoch end whose payments go to new outpoints a miner finds exactly its reward under the key of its payout address, the node itself under its wallet's, and nobody anything else |
| `Payouts.ScheduleExactly` | src/node.rs:3613-3623 | the epoch reward by height |
| `Payouts.ScheduleAddsUp` | src/node.rs:3613-3623 | what the epoch ends of the first years may emit together; the first year has one end fewer than the others, and after the fourth the sum grows by the last reward for good |
| `Emission.EmissionConserves` | src/node.rs:3650-3760 | created value <= counted emission <= effective reward, and the counter never passes the supply cap unless it was past it |
| `EpochOrders.RewardsPermuted` | src/node.rs:3692-3704 | visiting the miners in another order permutes the rewards and keeps the counted emission |
| `EpochOrders.PaymentPermuted` | src/node.rs:3807-3888 | paying permuted rewards leaves the same outputs |
| `EpochOrders.LoyaltyPermuted` | src/node.rs:3941-3964 | updating loyalty in another order leaves the same map |
| `EpochOrders.EpochEndIgnoresOrder` | src/node.rs:3625-3760 | an epoch end gives one economy for every order in which the map of miners iterates |
| `EpochOrders.AcceptIgnoresOrder` | src/node.rs:2430-2556 | two nodes in one state that take the same block end in one state, whatever their iteration orders |
| `EpochOrders.CommitIgnoresOrder` | src/node.rs:3344-3562 | the same for a commit of an own block |
| `Economies.CloseEpoch` | src/node.rs:3625-3770 | slashing, index, emission, loyalty, share reset and epoch counter in the source's order |
| `Economies.UpdateLoyalty` | src/node.rs:3941-3964 | every remaining miner is updated in turn by whether it held shares |
| `Economies.EpochEndIsBounded` | src/node.rs:3650-3760 | an epoch end adds at most what the counter gains, at most the effective reward, and not past the cap |
| `Economies.LoyaltyMovesOnce` | src/node.rs:3941-3964 | each remaining miner's loyalty moves by exactly one update, others stay |
| `EpochRuns.EpochEndLeaves` | src/node.rs:3625-3972 | after an epoch end the miners are exactly the unslashed ones, at their addresses and with no share; bonds stay for them alone; each moves by one loyalty update that counts participation exactly with a share in hand; the slashed start afresh |
| `EpochRuns.ResultsByRecord` | src/consensus.rs:262-343 | every miner left has exactly one result, by its own shares, loyalty and bond, and nobody else has one |
| `EpochRuns.NextEpochFindsNoShares` | src/node.rs:3625-3972 | from there, whatever blocks, forks and commits follow without a message or share, the next epoch end pays by loyalty and bond alone, counts nobody as taking part and lets loyalty decay |
| `StableSort.Sort` | src/miner.rs:650-653 | the loop computes the stable sort used for every ordering |
| `StableSort.SortedInOrder` | src/node.rs:2301-2304 | the result is in order for every weak order |
| `StableSort.SortedKeepsAll` | src/node.rs:2301-2304 | the result holds the same elements as often |
| `Packets.KeyIdentifies` | src/miner.rs:272-280 | the 52 hashed bytes determine miner and hash and nothing else |
| `Packets.BeforeIsKeyOrder` | src/miner.rs:650-653 | the two-level comparison is the byte order of the hashed key |
| `Layouts.PaymentLayout` | src/node.rs:3818-3824 | where height, epoch and miner stand in the bytes a reward's id is taken of, and miner and hash in the key of an archived share |
| `Packets.ComputeSharesRoot` | src/miner.rs:680-708 | the Merkle root over the canonical hashes |
| `Packets.RootOfCollection` | src/miner.rs:640-661 | the archived key list and root do not depend on the order of collection |
| `SharePools.SharePool.constructor` | src/miner.rs:518-532 | the empty pool at epoch one |
| `SharePools.SharePool.AddShare` | src/miner.rs:534-574 | new pool and result on every path, in the source's order of checks |
| `SharePools.SharePool.EvictOldest` | src/miner.rs:576-601 | removes the oldest share of the first miner with most shares among those visited |
| `SharePools.SharePool.NewEpoch` | src/miner.rs:640-677 | archives the sorted packets with their root, prunes, clears and advances |
| `SharePools.VictimIsLargest` | src/miner.rs:576-585 | the victim holds a share and no visited miner holds more |
| `SharePools.VictimIsFirst` | src/miner.rs:576-585 | it comes before every other miner visited that holds as many |
| `SharePools.TakenExactly` | src/miner.rs:534-601 | a share that is taken becomes the miner's newest; room is made only when it would not fit, and then one miner loses its oldest |
| `SharePools.CountsExactly` | src/miner.rs:534-553 | an addition counts every new share of the epoch, among the invalid ones when it is invalid, and nothing else |
| `SharePools.AnswersExactly` | src/miner.rs:534-574 | which answer an addition gives, by epoch, hashes held and validity |
| `SharePools.RoomMade` | src/miner.rs:555-558 | one eviction always makes room within the larger of limit and one share |
| `SharePools.AddedKeeps` | src/miner.rs:534-574 | adding keeps counts, hash set, memory, epoch and ratio right on every path |
| `SharePools.ClosedKeeps` | src/miner.rs:640-677 | closing keeps the invariant; the archived epoch is sorted with its root |
| `SharePools.ArchiveDepth` | src/miner.rs:640-677 | after k epochs closed from an empty pool the archive holds exactly the last eleven |
| `SharePools.RunKeepsInvariant` | src/miner.rs:534-677 | after every sequence of additions, closings and merges: counts are list lengths at most 5000, the hash set is exactly the pairwise distinct hashes held, memory is within bounds, all shares are of the current epoch, invalid <= total, and every archived epoch is sorted with its root |
| `SharePools.MemoryCountsShares` | src/miner.rs:555-571 | memory used is the share size times the number of shares held by all miners |
| `SharePools.ArchiveIgnoresOrder` | src/miner.rs:640-661 | the archived keys and root do not depend on the order of the miners |
| `ShareSync.HandleGetShares` | src/node.rs:2213-2248 | the requested page of the archived list, filtered by miner, with the wrapped total |
| `ShareSync.OfMinerInOrder` | src/node.rs:2221-2232 | filtered by miner are exactly the packets at the places of that miner, in the order of the archive |
| `ShareSync.PageExactly` | src/node.rs:2233-2248 | a page is the packets from the offset on, as many as there are, as asked for and as a reply carries |
| `ShareSync.HandleShareReply` | src/node.rs:2251-2328 | validates, merges, sorts and stores with the root, and asks for more exactly while fewer are held than offered |
| `ShareSync.MergeIsUnion` | src/node.rs:2282-2304 | a merge leaves a strictly sorted list holding exactly the old keys and those of the valid packets |
| `ShareSync.KeysDetermineRoot` | src/node.rs:802-830 | the keys held determine key list, size and root |
| `ShareSync.RootDeterminesKeys` | src/node.rs:802-830 | equal roots force equal keys, even for archives of different sizes |
| `ShareSync.AnyBatching` | src/node.rs:2251-2309 | any two deliveries of the same valid keys, in any order and batching, end in the same keys and root |
| `ShareSync.MergeLaws` | src/node.rs:2282-2309 | merging is commutative, associative over batches and idempotent on keys |
| `ShareSync.PagesArrive` | src/node.rs:2221-2328 | a clean archive of locally valid packets arrives in order, a full page with every reply |
| `ShareSync.SyncEndsExactly` | src/node.rs:2213-2328 | starting with nothing the request loop ends if and only if the peer's keys are distinct and all its packets pass local validation; it then holds the peer's archive |
| `ShareSync.FetchPage` | src/node.rs:2213-2328 | one request and its reply bring in the next page |
| `ShareSync.FetchEpoch` | src/node.rs:2213-2328 | the loop of requests terminates with the peer's archive and its root |
| `Chains.PushedLinked` | src/node.rs:2501-2510 | appending an extending block keeps headers, times, index, storage and height in agreement |
| `Chains.PoppedLinked` | src/node.rs:2601-2628 | removing the tip keeps them in agreement |
| `Chains.PopUndoesPush` | src/node.rs:2601-2628 | removing the block just appended restores all five structures |
| `Chains.PoppedToLinked` | src/node.rs:2596-2636 | rolling back leaves the prefix of headers up to the target height |
| `Chains.RollbackRestoresChain` | src/node.rs:2596-2636 | any number of appended blocks rolled back restores the chain exactly |
| `Chains.MedianBelowTip` | src/node.rs:939-959 | the window median is at most the tip's time, even with an out-of-order genesis time in the window |
| `Chains.MedianTestIsImplied` | src/node.rs:2473-2482 | the median test never rejects what the parent test accepts |
| `Chains.RisingKept` | src/block.rs:74-98 | an accepted time keeps the times after genesis strictly increasing |
| `Chains.MemoAgrees` | src/node.rs:855-918 | the memoised difficulty equals the recomputed one and the memo stays right |
| `Mempools.SortedByFeeOrder` | src/node.rs:1151-1158 | sorting keeps the transactions and puts higher fees first |
| `Mempools.SortedByFeeRight` | src/node.rs:1151-1158 | sorting keeps ids distinct and inputs disjoint |
| `Mempools.ValidIsSane` | src/block.rs:472-511 | a valid transaction spends every outpoint once and has no coinbase-like input unless it is of coinbase form |
| `Mempools.AddedTxRight` | src/node.rs:1178-1228 | adding keeps ids distinct and inputs disjoint, cutting at the limit included |
| `PoolRuns.AdmittedExactly` | src/node.rs:1178-1200 | a transaction is admitted if and only if it validates, its id is neither recorded nor waiting, and no waiting one spends what it spends |
| `Verdicts.OfferFirst` | src/node.rs:1178-1200 | otherwise it is refused for the first of these faults |
| `PoolRuns.AdmissionExactly` | src/node.rs:1200-1228 | an admitted transaction takes its place by fee, its id is recorded, and what is then beyond the limit is dropped and forgotten |
| `PoolRuns.CutDropsCheapest` | src/node.rs:1214-1219 | nothing that is dropped pays more than anything that stays, and all of it can be offered again |
| `PoolRuns.PoolStaysBounded` | src/node.rs:1178-3562 | over every interleaving the mempool never holds more than its limit |
| `Mempools.WithoutRight` | src/node.rs:2543-2552 | so does dropping what a block included |
| `PoolRuns.WithoutKeepsOrder` | src/node.rs:2543-2552 | what stays keeps its order |
| `PoolRuns.AcceptedSettles` | src/node.rs:2430-2556 | after an accepted block exactly the waiting transactions stay whose id no ordinary transaction of it has, and recorded are exactly its ids, those of the last thousand heights and those waiting before |
| `PoolRuns.CommittedSettles` | src/node.rs:3344-3520 | after an own block the same stay, and recorded are its ids and those of the last thousand heights, without what still waits |
| `Mempools.ChooseTransactions` | src/node.rs:2915-2935 | transactions with a fee in mempool order up to the size limit, and their saturated fees |
| `Mempools.TemplatePasses` | src/node.rs:2912-2987 | a template built from a right mempool passes both block validators and its chosen transactions share no id or input |
| `MempoolPolicies.TakenExactly` | src/node.rs:2912-2935 | a waiting transaction is in the template if and only if it has a fee and every one up to it still fit behind the paying ones before it |
| `MempoolPolicies.SoleCoinbaseExactly` | src/node.rs:2912-2987 | the template's coinbase is its only transaction of coinbase form if and only if the choice gets as far as no waiting one of that form |
| `MempoolPolicies.CoinbaseFormAdmittedExactly` | src/node.rs:1178-1228 | a transaction of coinbase form is admitted if and only if it is basic and its id is neither processed nor waiting: nothing is asked about what it mints |
| `MempoolPolicies.CoinbaseFormIsBasic` | src/block.rs:437-470 | one such output of any amount from dust to the supply is basic |
| `MempoolPolicies.AdmittedWaits` | src/node.rs:1178-1228 | below the limit an admitted transaction waits in the mempool |
| `Minting.CommitMints` | src/node.rs:3344-3562 | committing a prepared block with fresh ids raises the value by exactly the reward and what the chosen transactions of coinbase form pay out |
| `Minting.WaitingFormMints` | src/node.rs:2912-3562 | so a waiting transaction of coinbase form that the choice reaches pays all its outputs out of nothing |
| `NodeInvariants.AcceptKeeps` | src/node.rs:2430-2556 | accepting keeps the node invariant on every path |
| `Acceptances.AcceptedExactly` | src/node.rs:2431-2499 | acceptance takes exactly the new children of the tip whose hash meets their declared target, whose key signed that hash, that match the checkpoint, lie at most two hours ahead, after the parent above genesis and after more than half of the last eleven times, carry the root of their transactions and pass both block validators |
| `Acceptances.RefusedForFirstFault` | src/node.rs:2431-2499 | a refusal names the first fault there is and changes nothing |
| `Acceptances.StoredWasBrought` | src/node.rs:2430-3562 | over every interleaving a stored block was there from the start, was earned, on the checkpoints and at most two hours ahead when it came in, or is one this node committed |
| `Sealing.ForeignIsVetted` | src/node.rs:2430-2866 | so in a run without commits every stored block above genesis is |
| `Sealing.StoredIsEarned` | src/node.rs:2430-3562 | and in every run with a sound seal and honest finds, every stored block above genesis is signed and its hash meets its declared target |
| `Sealing.HeadersAreWorked` | src/node.rs:2430-3562 | as is the hash of every header above genesis |
| `NodeInvariants.RollBackKeeps` | src/node.rs:2596-2636 | so does rolling back, to the smaller of the two heights |
| `NodeInvariants.ForkSwitchKeeps` | src/node.rs:2772-2866 | so does a fork switch, also when it fails after the tip is gone; the tip is never found missing |
| `ForkSwitches.SwitchesExactly` | src/node.rs:2687-2866 | a fork switch does nothing unless the unknown block's parent lies below the tip and the block outweighs the header above it; then everything above the parent is dropped, the block takes its place if and only if it is worthy there, and otherwise the chain stays cut back |
| `ForkSwitches.OrphanWaits` | src/node.rs:2696-2705 | a block with unknown parent waits behind those already waiting for it, and nothing else changes |
| `NodeInvariants.MultiReorgKeeps` | src/node.rs:2687-2758 | so does the deeper reorganisation |
| `NodeInvariants.PrepareKeeps` | src/node.rs:2912-2987 | a job names the tip, next height, generation and fresh difficulty, and its transactions pass both validators |
| `Jobs.JobExactly` | src/node.rs:2912-2987 | there is a job if and only if the wallet's address decodes; it asks for the next header, timed by the call, over a coinbase of reward and fees to the wallet's key at that height and the chosen transactions |
| `Jobs.PreparedRemembers` | src/node.rs:855-918 | preparing changes nothing but the memo and at a due height leaves the computed target in it |
| `Jobs.CoinbasesDiffer` | src/block.rs:374-384 | coinbases of different heights differ |
| `Jobs.CommitsExactly` | src/node.rs:3344-3471 | a commit adds the job's block if and only if generation, parent and height are current, the hash is new, a block was found and its transactions share neither ids nor inputs; otherwise nothing changes and the answer says why |
| `Jobs.CommitPaysKey` | src/node.rs:2912-3490 | once a job with fresh ids is committed, reward and fees are there to spend under the wallet's key |
| `NodeInvariants.CommitKeeps` | src/node.rs:3344-3562 | a commit with a matching pair keeps the invariant, returns no error, and either changes nothing or extends the tip the job was built on |
| `NodeInvariants.AddKeeps` | src/node.rs:1178-1228 | so does adding to the mempool |
| `NodeRuns.GenesisInv` | src/node.rs:679-741 | the node right after genesis satisfies the invariant |
| `NodeRuns.RunKeeps` | src/node.rs:2430-2866 | every interleaving of accept, rollback, fork switch, prepare, commit of any job ever issued under a nonce's own hash, mempool additions and arbitrary changes of miners, bonds and loyalty keeps chain, outputs, mempool, memo and all jobs in flight right |
| `NodeRuns.ReachableInv` | src/node.rs:679-741 | hence in every state reached from genesis |
| `NodeRuns.ReachableTemplatePasses` | src/node.rs:2912-2987 | in every reachable state a template passes both validators on the stored outputs, its root is the block root and its target the fresh one |
| `NodeRuns.CommitIsSafe` | src/main.rs:543-618 | in every reachable state a commit of any job ever issued, with any nonce and its hash, never fails and changes the chain only by extending the very chain and outputs the job was built on |
| `Sealing.EffectiveCommitTakenExactly` | src/node.rs:3416-3471 | with a sound seal, a commit that takes effect gives a block that a peer in the same state takes if and only if its hash meets the job's target, its time passes the peer's clock and no checkpoint disagrees |
| `Sealing.CommitTakenExactly` | src/node.rs:2430-3562 | in every reachable state and for any job ever issued |
| `NodeRuns.MemoIsTransparent` | src/node.rs:855-918 | in every reachable state the next difficulty is the one computed with an empty memo |
| `NodeRuns.TimesRise` | src/node.rs:2473-2482 | in every state reached without commits times after genesis increase strictly |
| `NodeRuns.MedianIsRedundant` | src/node.rs:2473-2482 | there the median test is implied by the parent test for every candidate time |
| `NodeRuns.CommitRisesExactly` | src/node.rs:3468-3471 | a commit, which checks no time, keeps the times rising if and only if the job's time lies after the tip |
| `NodeRuns.PreparedCommitRisesExactly` | src/node.rs:2966-3471 | a late commit of a job prepared on some state keeps the times rising if and only if the clock of the preparation lay after that state's tip |
| `NodeExamples.TimesNeedNotRise` | src/node.rs:2473-3471 | a tip taken two hours early, a job prepared a second later and its commit: the times of a reachable chain read 0, 7200, 1 |
| `NodeExamples.AheadExists` | src/node.rs:2473-3471 | hash functions, a genesis block and a block with that run exist |
| `HeaderTargets.AcceptFollowsExactly` | src/node.rs:2431-2499 | accepting a block keeps every header on the target computed behind its predecessors if and only if the block happens to declare that target; nothing checks it |
| `NodeExamples.TargetIsFree` | src/node.rs:2431-2499 | a block declaring the easiest target is accepted although another is computed |
| `HeaderTargets.HeadersFollowRun` | src/node.rs:855-918 | along headers on target, number 120 j + r carries the first header's target after j steps, step i over the seconds between headers 120 i and 120 i + 119 |
| `HeaderTargets.NextTargetIs` | src/node.rs:855-918 | behind height h the next target's number is that of the last one, or, when h leaves 119 by 120 and the times did not run backwards, one step over the seconds between heights h-119 and h |
| `HeaderTargets.RunFollows` | src/node.rs:2430-3562 | every interleaving whose foreign blocks declare the computed target keeps all headers on target |
| `HeaderTargets.MinedChainBounds` | src/node.rs:2912-3562 | a chain extended only by commits, with jobs prepared at any time and rollbacks in between: header i stays within genesis and within the 4^k, 5^k and 3^k bounds for k = i/120 |
| `Ownership.ChecksSignatures` | src/block.rs:472-511 | where the input values exist and fit, the input checks pass if and only if every input verifies against the output it names |
| `Ownership.ParsesExactly` | src/block.rs:226-297 | which bytes parse as a signature and a key, in both directions, the skipped zero byte included |
| `Ownership.VerifiesExactly` | src/block.rs:226-401 | an input verifies against a stored output if and only if its script holds a signature over the transaction by the key behind that output's payment or bond script |
| `Ownership.AcceptedSignedExactly` | src/node.rs:2431-2499 | acceptance verifies no input signature: the owners of all stored outputs an accepted block spends signed if and only if each transaction passes the input checks that only the mempool makes |
| `NodeExamples.UnsignedSpendAccepted` | src/node.rs:2431-2499 | a block that moves a stored output without any signature is accepted |
| `OwnBlocks.WaitingWasChecked` | src/node.rs:1178-1228 | over every interleaving, whatever waits was valid on the outputs of some earlier state |
| `OwnBlocks.TemplateIsSigned` | src/node.rs:2912-2935 | so, while no outpoint gets other content, all a template chooses is signed for the outputs held now |
| `OwnBlocks.OwnBlocksAreSigned` | src/node.rs:3344-3562 | over every interleaving from genesis, a commit of any job ever issued that changes the node spends only with signatures for the outputs held at that moment |
| `Origins.AllKnown` | src/node.rs:2430-3888 | over every interleaving from genesis each stored output comes from a transaction of a block brought in, with that transaction's content, or was paid by the epoch end of one step |
| `Origins.PaidOnce` | src/node.rs:3664-3888 | no two steps of a run pay from one hashed string while the epoch number is below the end of its word |
| `Origins.StableByIds` | src/node.rs:2430-3888 | so as long as the ids of a run do not collide no outpoint ever gets other content |
| `Origins.OwnBlocksSignedByIds` | src/node.rs:3344-3562 | and a node's own blocks are signed in every such run |
| `Agreement.EffectiveRewardsAgreeExactly` | src/node.rs:3486-3490 | counting the block reward first leaves the effective reward alone if and only if the cap is reached or leaves room for both |
| `Agreement.CommitAgreesWithAccept` | src/node.rs:2430-3562 | a miner that commits and any peer in the same state that accepts the block agree on the chain, and away from an epoch end on outputs and bonds |
| `Agreement.OutputsAgreeExactly` | src/node.rs:3650-3903 | two epoch ends over one state, with different counters and payout addresses, leave the same outputs if and only if the treasury's cuts and what every miner is owed agree, when the payments go to new outpoints |
| `Agreement.AlikeExactly` | src/node.rs:3664-3888 | for one identity they owe the same if and only if the cuts and the rewards of all miners with a usable address are equal |
| `Agreement.MinerAgreesWithPeerExactly` | src/node.rs:2430-3760 | so the miner of a block that ends an epoch and a peer that takes it, whoever the peer pays and in whatever order it visits miners, part exactly when they do not owe the same |
| `AgreementRuns.PaymentsAreApart` | src/node.rs:3664-3888 | in every run whose ids do not collide the payments of an epoch end go to outpoints that are new and differ |
| `AgreementRuns.RunAgreesExactly` | src/node.rs:2430-3760 | the same in every run whose ids do not collide, with nothing else assumed of hashes |
| `Sealing.SealedRunAgreesExactly` | src/node.rs:2430-3760 | with a sound seal the peer takes every such block it cannot object to, and then the two agree exactly when they owe the same |
| `Agreement.NearCapDisagrees` | src/node.rs:3486-3760 | the failing input: a thousand units below the cap the peer emits them and the miner, having counted the block reward, nothing |
| `Agreement.NearCapExists` | src/node.rs:3486-3760 | a node that meets its hypotheses |
| `NodeSupply.AcceptGrowth` | src/node.rs:2491-2527 | an accepted block adds at most reward, excess and counted emission; the counter gains at most the effective reward and not past the cap |
| `NodeSupply.SupplyBound` | src/node.rs:2491-2526 | over every run of offered blocks with a sole coinbase, with arbitrary changes of miners, bonds and loyalty before each, value stays within the start plus one reward per height plus counted emission, which stays within the effective rewards; no hash assumption |
| `NodeSupply.SupplyFromGenesis` | src/node.rs:679-741 | for the same runs from genesis: value <= reward * height + counter, counter <= cap, value <= genesis supply + reward * height + effective epoch rewards |
| `NodeSupply.ForkSwitchByBase` | src/node.rs:2772-2866 | a fork switch either leaves chain and economy alone or offers the block to the rolled-back node |
| `NodeSupply.ValueWithinGrants` | src/node.rs:2430-3562 | over every interleaving, commits and failed switches included, value grows at most by the grants of the blocks appended; rollbacks never add value |
| `SupplyRuns.RunCovered` | src/node.rs:2430-3562 | over every interleaving value grows by no more than the counter, one reward for each block of others and any excess; a commit's reward is counted |
| `SupplyRuns.ValueWithinCounter` | src/node.rs:679-741 | from genesis the counter and that surplus cover all value |
| `SupplyRuns.CounterPassesExactly` | src/node.rs:3486-3490 | over every interleaving that starts within the cap the counter ends past it if and only if some commit took effect with less than a block reward left; rollbacks do not bring it back |
| `ForkWeights.ReorgKeepsWeightExactly` | src/node.rs:2687-2758 | after a successful deeper reorganisation the chain weighs no less than before if and only if the new block weighs at least as much as all it drops; the program compares it with the first of them |
| `ForkWeights.ReorgCanLoseWeight` | src/node.rs:2687-2758 | the failing inputs: two or more blocks of one weight above one, and a block one unit heavier than each |
| `ForkWeights.TipSwitchGains` | src/node.rs:2772-2866 | replacing the tip alone always gains weight |
| `NodeRollback.RollbackRestores` | src/node.rs:2596-2636 | within one epoch, accepting blocks and rolling back restores chain and economy exactly but for bonds and outputs, and the outputs become the old ones minus those spent or overwritten |
| `NodeRollback.RollbackLosesExactly` | src/node.rs:2868-2909 | only the spent outputs are missing if and only if none other was overwritten; nothing is missing if and only if none was spent or overwritten |
| `Nodes.NodeState.constructor` | src/node.rs:679-741 | the state after genesis, which is pushed to headers, index, times and storage |
| `Nodes.NodeState.ComputeDifficultyForNextBlock` | src/node.rs:855-918 | the target and the memo afterwards |
| `Nodes.NodeState.CheckBlock` | src/node.rs:2431-2499 | the first failing check in the source's order |
| `Nodes.NodeState.AppendBlock` | src/node.rs:2501-2517 | chain, outputs, bonds, memo and generation after a block is appended |
| `Nodes.NodeState.ProcessEpochEnd` | src/node.rs:3625-3770 | the economy after an epoch end, everything else unchanged |
| `MempoolPolicies.IncludedIsKeptOut` | src/node.rs:2530-2552 | after a block its ids are recorded at its height and do not wait |
| `MempoolPolicies.IncludedStaysOut` | src/node.rs:1160-1176 | whatever arrives, whatever blocks follow and however often ids are pruned, an included transaction is refused for the next 999 heights |
| `PoolRuns.TakenStaysOut` | src/node.rs:1160-2556 | the same over every run of the node: an ordinary transaction of a block it took is refused while the chain neither falls below that block nor gets a thousand past it |
| `Nodes.NodeState.AcceptBlock` | src/node.rs:2430-2556 | whole new state and result of accepting, or the unchanged state and the error |
| `Nodes.NodeState.PopTip` | src/node.rs:2601-2628 | removes the tip from all five structures and undoes its outputs, also when its block is not stored |
| `Nodes.NodeState.RollbackTo` | src/node.rs:2596-2636 | whole new state of the rollback loop |
| `Nodes.NodeState.TryMultiBlockReorg` | src/node.rs:2687-2758 | whole new state and result on every path |
| `Nodes.NodeState.TryForkSwitch` | src/node.rs:2772-2866 | whole new state and result on every path |
| `Nodes.NodeState.PrepareMiningJob` | src/node.rs:2912-2987 | the job, or none without a usable wallet address; only the memo may change |
| `Nodes.NodeState.CheckDistinctIds` | src/node.rs:3394-3404 | the seen-set loop decides exactly whether ids outside coinbase form are distinct |
| `Nodes.NodeState.CommitMiningResult` | src/node.rs:3344-3562 | whole new state and result on every path |
| `Nodes.NodeState.SettleAfterAccept` | src/node.rs:2530-2552 | mempool and processed ids after a network block |
| `Nodes.NodeState.SettleAfterCommit` | src/node.rs:3493-3520 | mempool and processed ids after an own block |
| `Nodes.NodeState.TrimMempool` | src/node.rs:1214-1219 | drops from the low-fee end and forgets those ids |
| `Nodes.NodeState.AddTransactionToMempool` | src/node.rs:1178-1228 | whole new state, or the first failing check |
| `Search.LexIsNumeric` | src/main.rs:712-715 | comparing equal-length byte strings is comparing their numbers |
| `Search.HitsNested` | src/types.rs:57-71 | every block hit is a share hit |
| `Search.HuntsHeader` | src/main.rs:642-700 | each nonce hashes to the header's hash under it; a block meets the header's target, a share one 256 times as large, the prefilter one 4096 times as large |
| `Search.StopsWhen` | src/main.rs:673-702 | a worker that sees the flag or the end of its batch stops, one that sees the chain move aborts, and one that has raised the flag looks no further |
| `Search.RunKeeps` | src/main.rs:664-722 | every interleaving of single accesses to nonce, hash, flag and lock, stale flag reads included, keeps: the hash is a hit's, a raised flag means a block, one lock holder, workers' nonces apart, passed nonces covered, nonce and hash together until a worker claims a block |
| `Search.UnfoundIsMatched` | src/main.rs:695-727 | a search that ends without a block publishes a nonce with its own hash |
| `Search.SoloIsMatched` | src/main.rs:664-727 | so does every search of one worker |
| `Search.MatchedExactly` | src/main.rs:642-728 | all searches with so many workers and nonces end with a pair that belongs together if and only if there is one worker or one nonce |
| `Search.RivalsMismatch` | src/main.rs:697-702 | the interleaving of two workers with blocks that ends with the nonce of one and the hash of the other |
| `SearchOutcomes.ResultIsBacked` | src/main.rs:642-728 | the published hash is the header's under some nonce of the batch and meets the share target, and the block target with the flag raised |
| `SearchOutcomes.ResultFits` | src/main.rs:642-728 | with one worker, or without a block, it is the header's hash under the published nonce |
| `Search.SearchIsExhaustive` | src/main.rs:673-727 | when all workers stop without find or abort, no prefiltered nonce of the batch is a block and the best share is the best there is |
| `SearchOutcomes.SearchFeedsCommit` | src/main.rs:584-618 | then committing the result is committing a nonce under its own hash, as the runs of the node assume |
| `SearchOutcomes.CommitLinkedExactly` | src/node.rs:3344-3471 | a commit that is not discarded keeps the chain structures in agreement if and only if the hash it is given is the block's |
| `SearchOutcomes.SearchLinkedExactly` | src/node.rs:3344-3471 | committing the result of any ended search keeps them in agreement if and only if it is discarded, no block, or a pair that fits; with one worker always |
| `SearchOutcomes.TwoWorkersUnlink` | src/main.rs:642-728 | with two or more workers the first job of a node can end in a commit that files the block under the hash of another nonce |
| `SearchOutcomes.NumberedWorld` | src/main.rs:642-728 | hash functions for that input exist |
| `ShareIntake.Intake.AddShare` | src/node.rs:1024-1145 | the receiver's new bans, credits, loyalty and pool and the answer, in the order of the source's checks |
| `ShareIntake.Intake.Validate` | src/miner.rs:203-241 | the first failing check, with the clock arithmetic of a release build |
| `ShareIntake.ClockTestsExactly` | src/miner.rs:218-223 | called with the share's own time as the clock, the window rejects only times within two hours of the ends of the word |
| `Verdicts.ShareFirst` | src/miner.rs:203-241 | a share is faulted for the first of seven faults, whatever clock it is held against |
| `Verdicts.PrefilterExactly` | src/miner.rs:226-232 | the prefilter compares the first eight bytes as numbers |
| `ShareIntake.BannedIsTurnedAway` | src/node.rs:1024-1035 | a share before the end of its miner's ban is turned away without a trace |
| `ShareIntake.BannedExactly` | src/node.rs:1134-1145 | a miner whose share found no room is banned exactly when more than a tenth of its shares were invalid, for five minutes, and for fifteen above three tenths |
| `ShareIntake.TakenIsCredited` | src/node.rs:1090-1125 | a share that is taken is credited once and its miner has taken part; nobody else's records change |
| `ShareIntake.TakenKeepsCredit` | src/node.rs:1090-1125 | every share held stays credited to its miner |
| `ShareIntake.CreditSettlesLoyalty` | src/node.rs:1090-1125 | the epoch end's loyalty update changes nothing for a miner credited in that epoch |
| `ShareTwins.IntakeKeeps` | src/node.rs:1024-1145 | over every sequence of shares, changes of chain and register, and closed epochs the pool invariant holds and every share held hashes to what it says |
| `ShareTwins.KeysDifferExactly` | src/miner.rs:176-241 | in those states the shares held have pairwise distinct archive keys if and only if no two of them differ in the header's own nonce alone, which their ids include and their work ignores |
| `ShareTwins.CarryingHasNoTwins` | src/miner.rs:176-241 | none do when every share carries its nonce in the header, as the ones a node reports |
| `ShareTwins.TwinsBothTaken` | src/node.rs:1024-1145 | otherwise one proof of work is accepted and credited again under another header nonce |
| `ShareTwins.TwinsExist` | src/node.rs:1024-1145 | the input: a share, and the same with nonce 1 in its header, both taken by a node with an empty pool |
| `ShareTwins.TwinsSpoilArchive` | src/miner.rs:640-677 | closed with such a pair an archive repeats a key, which `SyncEndsExactly` excludes |
| `ShareReports.ReportedShareAcceptedExactly` | src/node.rs:3365-3385 | whoever receives a reported search result accepts it if and only if the pair fits and the receiver's own checks on the header with the new nonce admit it |
| `ShareReports.ReportedPacketValidExactly` | src/miner.rs:282-303 | the same for a peer that gets it out of an archive, by its own difficulty and epoch |
| `ShareReports.LoosenedShareRefused` | src/node.rs:1024-1145 | the failing input at a retarget: target 1000 at the tip, 1250 in the job, hash 281600; the job's target admits the share, the receiver's does not |
| `ShareReports.FlatExists` | src/node.rs:1024-1145 | hash functions for that input exist, with any hash |
| `Slashing.FromBlocksVerifiesExactly` | src/consensus.rs:41-164 | a proof built from two blocks verifies if and only if their hashes differ and one miner signed both, with work done, on one parent and epoch; it names that miner |
| `Slashing.SignerExactly` | src/consensus.rs:41-164 | a block counts as signed by the miner its key belongs to if and only if that key signed the hash of its header |
| `Slashing.HonestKeepsBond` | src/consensus.rs:41-245 | a miner that never signed two headers with one parent and epoch keeps its bond through a round of any proofs |
| `Slashing.SlashingPool.AddProof` | src/consensus.rs:182-197 | queues a proof unless the miner is slashed or the same evidence waits |
| `Slashing.QueuedRight` | src/consensus.rs:182-197 | no two proofs ever wait on the same evidence, none against a slashed miner, and after queueing the evidence waits exactly when the miner can still be slashed |
| `Slashing.SlashingPool.ProcessAll` | src/consensus.rs:199-245 | bonds, slashed set and records after all waiting proofs, the queue being empty |
| `Slashing.RoundIsExact` | src/consensus.rs:199-245 | the miners slashed in a round are exactly the bonded ones not slashed before with a verifying proof; each record takes the whole bond once and other bonds stay |
| `Slashing.NobodySlashedTwice` | src/consensus.rs:199-245 | over any number of rounds no miner is slashed twice |

## Left out

- Poci.Isqrt: excludes 2^64-1, where the program's `x + 1` leaves the word.
- Poci.CalculatePoci: share counts and bonds must stay below 2^64-1 for the same reason.
- Nodes.NodeState.AcceptBlock: when the block ends an epoch, and only then, it assumes an order that visits each remaining miner once and share counts and bonds below 2^64-1, as `Poci.Isqrt` does; so do the fork switches.
- Nodes.NodeState.CommitMiningResult: assumes the same; the share it records and broadcasts is not part of the node's state (`ShareIntake` models it, and runs allow any change of miners, bonds and loyalty between steps); creating a checkpoint is left out.
- Nodes.NodeState.constructor: the genesis block, with its root and signature, is a parameter.
- Nodes.NodeState.ProcessEpochEnd: without the share archive, the stored epoch commit and the reward statistics of miners; `SharePools` and `EpochCommits` model the first two.
- Emission.PayRewards: without the reward statistics kept per miner and the count of rewarded miners.
- Difficulty.ScaleForRetarget: assumes windows of at most 2^56/75 intervals, which no memory exceeds.
- Builder.CreateP2pkh: assumes fewer than 2^32 coins; transactions of 2^32 inputs, outputs or script bytes do not exist in the model.
- FixedPoint.AdjustFixed: starts from the rounded fixed-point factor; the rounding of the float is not modelled.
- Search.RunKeeps: reading the flag and reading abort flag and generation are one step, since either may be stale; taking the lock, comparing and writing the hash are one step, since nobody else reaches the hash meanwhile.
- NodeRuns.RunKeeps: commits bring a nonce under its own hash, which `SearchFeedsCommit` supplies for one worker; `CommitLinkedExactly` says what any other pair does.
- Origins.OwnBlocksSignedByIds: assumes that the ids of the transactions and payments of the run do not collide and that the epoch number stays below 2^32-1.
- BlockBinding.HeaderHashBinds: claims the same outputs, not the same bonds, and excludes that an id is also the hash of an inner node.
- BondBacking.BackedAfterBlockExactly: blocks with new ids only; epoch ends and rollbacks are not part of it.
- AgreementRuns.RunAgreesExactly: the peer starts in the miner's state and slashes the same miners; so in `SealedRunAgreesExactly`.
- Sealing.StoredIsEarned: assumes that the wallet's seal verifies and that a commit reports a block as found only when its hash meets the target, which `ResultIsBacked` supplies; commits check neither.
- Payments.PaymentMoves: payments to somebody else under a transaction id no stored output carries.
- PoolRuns.TakenStaysOut: while the chain does not fall below the block; a rollback past it does not forget the id either, but its block can be taken again.
- ShareIntake.Intake.AddShare: the ban ratio is compared in whole numbers, the program compares floating-point quotients; a miner's historical counters, logging and broadcasting are left out.
- NodeRuns.TimesRise: runs without commits, since a commit does not check times; `PreparedCommitRisesExactly` says when it keeps the order.
- NodeSupply.SupplyBound: blocks with a sole coinbase whose sum fits the word; `BlockGrowth` and `RunCovered` state the excess of all others.
- NodeRollback.RollbackRestores: runs within one epoch, since a rollback does not undo an epoch end.
- Economies.CloseEpoch: the share archive, the stored epoch commit and the miners' reward statistics of an epoch end are not in its state; `SharePools` and `EpochCommits` model the first two on their own.
- Slashing.SlashingPool.ProcessAll: records hold miner and amount; height, time and serialised proof are dropped. An epoch end of the node takes the set of slashed miners as input.
- Floating-point difficulty, `to_difficulty` and `scaled`: fork weights are an arbitrary function of the target.
- `shift_left`: only files outside the build use it. `hash_meets_target`: the same scan as `is_met_by`.
- `find_common_ancestor`, `apply_foreign_branch`, the batch reorganisation decision and `handle_epoch_commit` voting: estimates and votes without a clean contract.
- `AggregatedShare` and its pool, share proofs and rate limits.
- Sockets, threads of the operating system, RPC, dashboard, wallet and configuration files, backups, logging and storage errors.
- Bincode: transaction ids and sizes are arbitrary functions of the transaction.
