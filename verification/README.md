# Verified model of a merged-mining pool

A Dafny model of the pool's block construction, share checking, payouts, node failover and
hashrate statistics, with proofs. `dafny verify dfyconfig.toml` checks everything.

Code that changes things step by step is modelled as methods with loops and, where the program
keeps state (a block under construction, the job counter, the database tables, the node index,
the payout loop), as classes. Every such method is proved equal to a function of its inputs or of
the old state, and the lemmas are about those functions.

Conventions used throughout:

- Double SHA-256 and scrypt are parameters `H` and `scrypt` from bytes to 32 bytes. Nothing is
  assumed about them. That different work gives different headers is therefore stated as "the
  shares are equal, or these two distinct inputs, found by walking the Merkle fold, have the same
  digest".
- `Outcome` is how a Go call ends: a value, an error, or a panic. Every call to the database or
  to a wallet may fail (`Ledger.Calls`), so the payout theorems cover every pattern of failures.
  Failed calls are counted, and the contracts say that a method fails only when a call failed or
  for a reason they name; so they also say what must happen when no call fails.
- Amounts, scores, targets and difficulties are exact reals or integers. Instants of shares and
  blocks are natural numbers with 0 for Go's zero time.
- Maps are walked in an arbitrary order, and a page of shares is any answer the query allows, with
  ties in any order and cut anywhere.

## Files

| files | part of the program |
|---|---|
| `Outcomes`, `Bytes`, `MapSums` | shared vocabulary: results, byte strings and hexadecimal text, totals over maps |
| `CompactSize`, `BlockFormat` | reference formats of the Bitcoin developer reference, written independently of the program, with readers |
| `Encoding`, `Merkle`, `Templates`, `Coinbase`, `Headers`, `Generator`, `Submission`, `AuxPowProof`, `WorkSpace`, `Packet` | package `bitcoin`, and what a node, a verifier or a miner makes of its output |
| `Targets`, `ShareCheck`, `Extranonce` | targets, the verdict on a share, the clients' extranonces |
| `Ledger`, `Shares`, `FoundBlocks` | the tables the payouts use |
| `Scoring`, `Crediting`, `Pplns`, `Prop`, `Rewards`, `Unlock` | package `payouts`: what blocks earn and who is credited |
| `Payer`, `Settlement`, `Paying` | `payouts/payer.go`: sending, comparing what was sent with the records, one whole payout |
| `Books`, `History`, `Manager` | what reports, payments and log entries add up to; histories of blocks rewarded and payouts made; the endless loop |
| `PplnsWindow` | not the program: a corrected form of its PPLNS window |
| `Failover` | `rpc/manager.go` |
| `HashWindow` | the statistics of `persistence/stats.go` |

## Main results

- Block construction: the branch fold is the root of the full tree (`Merkle.HeaderRootIsTreeRoot`);
  a reader of the reference format recovers the submitted block and the AuxPoW proof
  (`Submission.SubmissionRoundTrip`, `AuxPowProof.AuxPowRoundTrip`); different shares give different
  headers or expose a digest collision (`WorkSpace.GeneratedWorkIsDisjoint`); miners, who see only the
  packet, hash the header the pool makes (`Packet.PacketMakesHeader`); which headers commit to
  the coinbase beside them (`WorkSpace.SubmitCommits`).
- Number forms: `Encoding.VarUintRoundTrip`, `Encoding.VarUintPrefixFree`,
  `Encoding.HeightMeetsBip34`, `Encoding.ReversalsCommute`.
- Shares: `Targets.MeetsTarget`, `Targets.DifficultyRounding`, `ShareCheck.StatusMeaning`,
  `ShareCheck.SmallerIsNoWorse`; paging: `Shares.VisitsOnce`, `Shares.VisitMisses`.
- Schemes: `Pplns.UpdateMinerBalances`, `Pplns.PaidByDifficulty`, `Prop.SplitIsExact`,
  `Prop.SplitByDifficulty`, `Prop.SplitIsIndependent`.
- What an answer of the nodes makes of a block (`Unlock.ClassifyMeans`), and whose address a balance
  is paid to (`Payer.AddressIsOwned`, `Settlement.PayoutPaysOwners`), in the terms of the answer and of
  the address alone.
- Payouts: sent, recorded and reset agree (`Settlement.PayoutAgrees`, `Settlement.SentIsRecorded`,
  `Paying.PayoutBalances`).
- Whole runs, with any failures (`Manager.PayoutManager.RunManager`): log, payments and transfers are
  entry by entry those of a history in which every report is explained by a block and the stored
  shares, and every payout pays balances due by the log so far. What that gives: who is rewarded how
  often (`Manager.PayoutManager.AtMostOnce`, `Manager.PayoutManager.HandedIsSaved`), what was sent
  against what is recorded (`Manager.PayoutManager.RunIsRecorded`), and the books
  (`Manager.PayoutManager.BooksBalance`, `Manager.PayoutManager.MoneyIsConserved`).
- Failover: `Failover.NodeManager.FindHealthyNode`, `Failover.OneSearchStaysInRange`,
  `Failover.OverrunExactly`, `Failover.FailsUnprobedExactly`.
- Statistics: `HashWindow.GroupsKeepDifficulty`, `HashWindow.AdjustedIsBounded`,
  `HashWindow.FrameAgainstCovered`.

## What the proofs found

Where the code and its intent differ, the model follows the code, and the exact condition is a
theorem.

- `varUint` panics on 253 and on no other 64-bit value (`Encoding.VarUintMeetsReference`). So work
  can be generated exactly when no length is 253 (`Submission.MakeJobSucceeds`).
- The trimmed height bytes stand for a smaller number whenever a zero byte lies inside the height,
  and they are what the "Specification" section of BIP 34 asks for exactly when no zero lies
  inside and the top bit of the last byte is clear (`Encoding.HeightMeetsBip34`).
- A transaction id of odd length becomes an empty tree node wherever it stands; the branch fails
  exactly when an id of even length after the first is no hexadecimal text
  (`Merkle.OddIdsAreEmptyNodes`). The first id is copied unread (`Merkle.BranchHexIsBranch`).
- A `MakeHeader` whose Merkle root fails leaves the new coinbase beside the old header. `Submit`
  serialises a header that commits to its coinbase exactly when the extranonce of the last call
  was hexadecimal text (`WorkSpace.SubmitCommits`). A good call followed by one with the extranonce
  `z` parts them (`WorkSpace.ForeignCoinbase`).
- An aux target that is no number makes the pool refuse a share that meets the pool target,
  exactly when the share misses the primary target (`ShareCheck.RefusedThoughGood`).
- PPLNS never adds to its accumulated score. It pays all stored shares if their scores total less
  than 2 and there is a positive reward, and otherwise nobody. A success always reports the zero
  time, so no share is ever deleted (`Pplns.UpdateMinerBalances`); and once stored shares total 2,
  no later block that sees them pays a miner, unless shares created at one instant straddle a page
  (`Pplns.StalledForGood`; over a run, when all creation times differ, `Manager.StalledRun`). Adding
  the missing accumulation is not enough: a full window leaves a remainder of exactly zero, which
  the guard refuses (`PplnsWindow.ScoreWindow`).
- PROP splits exactly, so its guard against a remainder of zero or less refuses every split: it
  never credits a miner (`Prop.SplitIsExact`, `Prop.UpdateMinerBalances`).
- When a block's miners cannot be paid, its pool recipients keep their credits; the report of the
  block accounts for the rest as remainder (`Rewards.CalculateBlockRewards`).
- Two balances with one on-chain address: the later claim replaces the earlier one. Without
  negative balances the address is sent what is recorded for it exactly when every claim but the
  last is zero, and otherwise less (`Settlement.SentIsRecorded`). With the chains `a` and `b`, miners
  `x-y` and `x-z` on chain `a` and balances of 1 and 2, the address `x` is sent 2, and the payments
  record 3 (`Settlement.SharedAddressShort`).
- A block is rewarded once if it is saved as confirmed, and once more for every time its update
  failed or a panic came before it (`Manager.PayoutManager.AtMostOnce`). So a block whose update
  fails after it was rewarded is rewarded again. Failures of other calls never cause that
  (`Manager.PayoutManager.HandedIsSaved`).
- A payout succeeds exactly when no call fails, every configured chain has a payout configuration,
  and every due balance an address and a wallet (`Paying.PayoutBalances`). A missing configuration
  or address keeps all balances from being sent. A failed send does not: the chains are walked in
  the order of a map, so others may be sent first. They then have no payment record and stay due.
  The sending loop taken alone can do this without a failed call, exactly when one chain has a
  wallet and another has none (`Payer.StrandsExactly`, `Payer.OneOfTwoStrands`). As `main.go:86-105`
  wires the program, every chain of the configured order has a node manager, and only balances on
  these chains are due, so there it takes a failed call (`History.NothingUnrecorded`).
- Over a run, address by address, what the wallets sent and the claims replaced in it are the
  payment records and the claims sent without one. When no call failed and every chain of the order
  has a wallet, all that was sent is recorded; and when moreover no two balances of a payout share an
  address, each address was sent exactly what is recorded for it
  (`Manager.PayoutManager.RunIsRecorded`).
- A turn of the payout loop can panic in three places, and nowhere else: at a coinbase transaction
  without details, at the index of a node past the configured ones, and at a due balance whose
  address has too few parts (`Manager.PayoutManager.Iterate`).
- One block that cannot be classified, an orphan whose confirmation data changed for instance,
  keeps all blocks from being unlocked in that turn (`Unlock.ClassifyBlocks`).
- With one search at a time and any restores in between, the index of the active node stays in
  range. Two searches at once can push it past the end exactly when there is a second node
  (`Failover.OverrunExactly`). A lone search without a restore in it fails only after probing every
  node; with restores it can fail without probing the restored primary, exactly when there is a
  second node (`Failover.UndisturbedFailureProbedAll`, `Failover.FailsUnprobedExactly`).
- The adjusted hashrate window adds the gap after the last share instead of taking it off: before
  rounding it is the time covered exactly when there is no gap at the end, and none at the start or
  one of at least a tenth (`HashWindow.FrameAgainstCovered`, `HashWindow.FrameIsCovered`,
  `HashWindow.EndGapIsAdded`). And the pool's shares per second are divided by
  nanoseconds, which stores zero below half a million shares a second (`HashWindow.StoredAsZero`).

## Model

| member | source | states |
|---|---|---|
| CompactSize.WriteIsShortest | bitcoin/encoding.go:17-38 | whatever a reader takes for v is at least as long as the reference form, which alone has that length |
| Encoding.VarUint | bitcoin/encoding.go:17-38 | the branches return what `VarUintHex` says, the panic on 253 included |
| Encoding.VarUintMeetsReference | bitcoin/encoding.go:17-38 | on every 64-bit value but 253 the output is the reference encoding; it panics exactly on 253 |
| Encoding.VarUintRoundTrip | bitcoin/encoding.go:17-38 | a CompactSize reader recovers the value and leaves any trailing bytes |
| Encoding.VarUintPrefixFree | bitcoin/encoding.go:17-38 | no output is the beginning of another, and equal outputs come from equal values |
| Encoding.RemoveInsignificantBytes | bitcoin/encoding.go:101-117 | the loop drops every zero after the first non-zero byte and nothing else |
| Encoding.TrimValue | bitcoin/encoding.go:101-117 | trimming never raises the number, and keeps it exactly when no zero lies inside it |
| Encoding.HeightMeetsBip34 | bitcoin/coinbase.go:21-42 | they are the minimal signed form of BIP 34 exactly when no zero lies inside and the sign bit is clear |
| Encoding.ReverseHexBytes | bitcoin/encoding.go:134-144 | the loop puts the pairs of characters in opposite order, or fails on odd length |
| Encoding.ReverseHex4Bytes | bitcoin/encoding.go:146-158 | the same for groups of eight characters |
| Encoding.ReverseBlocksTwice | bitcoin/encoding.go:134-158 | both text reversals are involutions on whole groups |
| Encoding.ReversalsCommute | bitcoin/encoding.go:134-158 | on whole 4-byte words the two reversals commute and together swap the bytes inside each word |
| Merkle.FoldIsRoot | bitcoin/merkle.go:20-92 | for any leaves, folding the first through its branch gives the root of the full tree with last nodes doubled |
| Merkle.BranchLength | bitcoin/merkle.go:20-59 | the branch of n transactions has k steps with 2^(k-1) < n+1 <= 2^k |
| Merkle.TemplateMerkleBranchSteps | bitcoin/merkle.go:20-59 | the nested loops end, stay in range and return the branch as text, or the first failing join |
| Merkle.MakeHeaderMerkleRoot | bitcoin/merkle.go:77-92 | the loop folds the coinbase hash through the steps, or fails on the first that does not decode |
| Merkle.BranchHexIsBranch | bitcoin/merkle.go:20-59 | fails exactly when an id after the first does not decode; otherwise its texts decode to the branch |
| Merkle.HeaderRootIsTreeRoot | bitcoin/merkle.go:20-92 | the header's root exists exactly when everything decodes, and then is the root of the tree over coinbase and transactions |
| Merkle.OddIdsAreEmptyNodes | bitcoin/merkle.go:9-18 | every hexadecimal id stands in the tree with its bytes turned round, and every id of odd length as an empty node; the steps fail exactly when an id of even length after the first is no hexadecimal text |
| Coinbase.TransactionOutSpells | bitcoin/transaction.go:3-6 | an output text is the reference form of amount and script, and panics exactly on a script of 253 bytes |
| Coinbase.CoinbaseSpells | bitcoin/coinbase.go:21-112 | around an extranonce of the reserved size the parts are the reference form of a coinbase whose script carries the height, the extranonce and the pool's bytes and has exactly the declared length |
| Coinbase.ScriptCarriesHeight | bitcoin/coinbase.go:21-42 | the script is a length, that many height bytes, the extranonce and the pool's bytes behind their length; the height bytes stand for the height exactly when it has no inner zero byte, and are what BIP 34 asks for exactly when also their sign bit is clear |
| Headers.BlockHeader | bitcoin/header.go:10-48 | the appends produce the six fields in order, everything but the root turned round, or the first decoding error |
| Headers.RawHeaderIsHeader | bitcoin/header.go:10-48 | with fields of the right sizes these are the 80 bytes of the reference header |
| Generator.WorkSource.GenerateWork | bitcoin/generator.go:19-67 | either a fresh block holding the job, its packet and the next job id, or an error or panic with no id used |
| Generator.BitcoinBlock.MakeHeader | bitcoin/generator.go:70-100 | header and coinbase after the call in every case, failures half way included |
| Generator.BitcoinBlock.Sum | bitcoin/generator.go:121-146 | the number is the scrypt digest read little-endian, the stored hash its display order |
| Generator.BitcoinBlock.Submit | bitcoin/generator.go:148-164 | the submission is header, count, coinbase, transactions and extension block, refused without a header |
| Submission.MakeJobSucceeds | bitcoin/generator.go:19-67 | exactly which inputs give work, which an error and which a panic |
| Submission.RootTextIsTreeRoot | bitcoin/generator.go:70-100 | for generated work the root put in a header is the root of the tree over the share's coinbase and the template's transaction ids, bytes turned round |
| Submission.SubmissionRoundTrip | bitcoin/generator.go:148-164 | a reader of the reference block format recovers the six header fields, the count, the coinbase, whose script carries the height, and every transaction in order, and leaves the extension block |
| Submission.CoinbaseCarriesHeight | bitcoin/coinbase.go:21-42 | a reader of a generated coinbase finds one input, and in its script the height, the extranonce and the pool's bytes, and nothing after the transaction |
| Submission.BroadcastPreviousHash | bitcoin/generator.go:29-39 | the broadcast previous hash with the bytes of each word swapped is the byte order in the header |
| Packet.PacketMakesHeader | bitcoin/generator.go:45-64 | from the packet alone a miner makes, for any share, the bytes of the header the pool makes of it |
| Packet.PacketNames | bitcoin/generator.go:45-64 | job id and time read back as the counter and the template's time; every aux block that is not nil is announced once |
| AuxPowProof.ProveWork | pool/nodes.go:128-131 | after a share's header is made and hashed, the proof sent to the other chain is the text that the round trip below reads back |
| AuxPowProof.AuxPowRoundTrip | bitcoin/auxpow.go:33-93 | a parser recovers coinbase, parent hash, branch, masks and header, and the branch leads from the coinbase to the root inside that header |
| WorkSpace.WorkIsDisjoint | bitcoin/generator.go:70-100 | for one job, two shares with the same header are the same share or expose a collision |
| WorkSpace.GeneratedWorkIsDisjoint | bitcoin/generator.go:19-100 | the same for any job the generator made from a template whose hashes, bits, ids and scripts decode |
| WorkSpace.ClientsAreDisjoint | pool/extraNonce.go:10-27 | clients with different extranonces of one length never share a header, or a collision is exposed |
| WorkSpace.SubmitCommits | bitcoin/generator.go:70-100 | after any calls of `MakeHeader`, the header to be submitted holds the tree root of the coinbase beside it exactly when the last extranonce was hexadecimal text |
| WorkSpace.ForeignCoinbase | bitcoin/generator.go:70-100 | a good call and then one with extranonce `z` leave the good header beside a coinbase it does not commit to |
| Extranonce.Registry.UniqueExtranonce | pool/extraNonce.go:10-27 | the retry loop returns the first draw not used before; all ever returned are distinct |
| Targets.TargetTextRoundTrip | bitcoin/target.go:16-18 | the hexadecimal text of a target parses back to it |
| Targets.MeetsTarget | bitcoin/target.go:37-52 | a hash meets the target of a difficulty exactly when its own difficulty is as high |
| Targets.DifficultyRounding | bitcoin/target.go:20-52 | the difficulty of the computed target lies in [d, d*(t+1)/t) |
| Targets.TargetAntitone | bitcoin/target.go:37-52 | a higher difficulty never has a higher target |
| ShareCheck.ValidateAndWeighShare | pool/shares.go:22-90 | the verdict of the branches, and that only the block's hash changes |
| ShareCheck.StatusMeaning | pool/shares.go:22-90 | candidate and accepted in terms of the three targets, both directions |
| ShareCheck.AuxCandidateMeaning | pool/shares.go:51-68 | a share is a candidate for the aux chain exactly when its hash is not above the number whose bytes, lowest first, the aux target spells |
| ShareCheck.RefusedThoughGood | pool/shares.go:51-58 | exactly when a share that meets the pool target is refused |
| ShareCheck.SmallerIsNoWorse | pool/shares.go:22-90 | for fixed targets a smaller hash never loses a candidacy or its acceptance |
| ShareCheck.AcceptedByDifficulty | pool/shares.go:40-83 | without an aux block a share counts exactly when 65536 times its difficulty reaches the pool's |
| Ledger.BalanceRepository.AddAmount | persistence/balance.go:31-68 | on success one entry is logged and posted; a failure changes no balance and logs at most that entry, whose place is noted as unposted; balances stay what the other entries add up to |
| Ledger.BalanceRepository.GetPoolBalancesOverThreshold | persistence/balance.go:122-155 | exactly the due balances, each once, the miner's own threshold first |
| Shares.ShareRepository.GetSharesBefore | persistence/share.go:62-95 | an answer is a page: eligible rows, newest first, nothing newer left out |
| Shares.ShareRepository.DeleteSharesBefore | persistence/share.go:160-170 | removes the pool's strictly older rows, or fails |
| Shares.VisitsOnce | payouts/prop.go:24-57 | paging visits no row twice whatever the ties, and only rows of the table |
| Shares.VisitMisses | payouts/prop.go:24-57 | it misses exactly the rows tied with a full page's last row that did not fit |
| Shares.CompleteVisit | payouts/prop.go:24-57 | it is complete when no tie straddles a page |
| Crediting.CreditMiners | payouts/pplns.go:74-86 | each miner is credited once in any order, up to the first failure, which leaves at most one entry unposted |
| Pplns.ScoreShares | payouts/pplns.go:32-72 | paging ends, and succeeds exactly when all visited shares can be paid, with no cutoff time |
| Pplns.UpdateMinerBalances | payouts/pplns.go:17-89 | all or nothing up to the first write: an error with no entry, or entries that give each miner what its shares earned by their difficulties; pays exactly when the visited work is less than twice a block's and there is a reward |
| Pplns.MinerIsPaidItsPart | payouts/pplns.go:45-56 | each miner is paid the sum of what its shares earn, a share earning half the reward times its own difficulty over the network's |
| Pplns.PaidByDifficulty | payouts/pplns.go:45-56 | at one network difficulty, twice that times a miner's reward is the block reward times the sum of its difficulties |
| Pplns.AffordableByWork | payouts/pplns.go:45-61 | shares can be paid exactly when there are none, or there is a reward and their work is below 2 |
| Pplns.AwardsAndRemainder | payouts/pplns.go:55-57 | awards and remainder make up the block reward |
| Pplns.AwardsBelowReward | payouts/pplns.go:55-61 | what is awarded is positive and strictly below the reward |
| Pplns.PageSizeIsIrrelevant | payouts/pplns.go:32-72 | page sizes without straddling ties give the same outcome and the same map |
| Pplns.StalledForGood | payouts/pplns.go:49-61 | once stored shares fill the window no visit of rows that hold them can be paid, unless a tie straddles a page |
| PplnsWindow.OlderSharesEarnNothing | payouts/pplns.go:24-63 | corrected form: shares older than a full window earn nothing |
| PplnsWindow.ScoreWindow | payouts/pplns.go:24-63 | corrected form: takes the least newest shares that fill the window, and leaves zero exactly when it is full |
| Prop.Split | payouts/prop.go:59-69 | walking the score map in any order scales it and leaves the reward less its total |
| Prop.SplitIsExact | payouts/prop.go:59-69 | with any share the split gives away the whole reward |
| Prop.SplitKeepsRatio | payouts/prop.go:37-69 | a miner's reward is to the block reward as its shares' work is to all work, a share's work being its difficulty over the network's |
| Prop.SplitByDifficulty | payouts/prop.go:37-69 | at one network difficulty, two miners' rewards are as the sums of their difficulties |
| Prop.NewestIs | payouts/prop.go:45-47 | the cutoff time is the creation time of the newest share |
| Prop.SplitIsIndependent | payouts/prop.go:24-69 | page sizes without straddling ties give the same split |
| Prop.UpdateMinerBalances | payouts/prop.go:14-88 | succeeds only with no share and a positive reward, and never credits anyone |
| Rewards.CalculatePoolReward | payouts/rewards.go:23-53 | exactly when it succeeds and when it panics; the recipients' entries and the miners' part on success, a prefix of the entries on failure |
| Rewards.PoolIsPaidItsCut | payouts/rewards.go:23-53 | each recipient, but for those with the address the node in use sends rewards to, is credited its percentage of the reward once; the miners get what all percentages together leave |
| Rewards.RewardIsConserved | payouts/rewards.go:14-59 | reward = recipients + skipped cuts + miners + remainder |
| Rewards.CalculateMinerRewards | payouts/rewards.go:55-59 | each miner is credited its award or nobody is, by the configured scheme, and when that succeeds |
| Rewards.CalculateBlockRewards | payouts/rewards.go:14-21 | the log gains the recipients' entries of the block, then its miners', and nothing else; after a failed call some first ones of the recipients, or all of these and some of the miners'; the report says where the reward went |
| Rewards.RewardsOnlyGive | payouts/rewards.go:14-59 | however far it got, rewarding a block takes nothing off a balance |
| Rewards.EntriesNameBlock | payouts/rewards.go:14-59 | every entry written for a block is for its pool and chain and names its height |
| FoundBlocks.FoundRepository.PendingBlocksForPool | persistence/found.go:177-210 | exactly the pool's pending rows, each once |
| FoundBlocks.FoundRepository.Update | persistence/found.go:64-91 | writes the updated columns of an existing row, or fails, changes nothing, and loses the result of a confirmed block |
| Unlock.ClassifyMeans | payouts/unlock.go:31-100 | by the first transaction of the block with its hash, which must be the confirmation data turned round where there is any: "generate" confirms with its amount, "immature" keeps the status with its amount, anything else orphans with nothing; an answer missing is an error, and details missing a panic |
| Unlock.ClassifyBlocks | payouts/unlock.go:31-100 | the loop writing blocks in place turns every block into what its coinbase says, or fails as the first one without an answer |
| Unlock.UnlockBlocks | payouts/unlock.go:13-26 | succeeds exactly when no call fails and the nodes show the coinbase of every pending block; then the pool's pending blocks, all of them, each as its coinbase says; panics only at a transaction without details |
| Payer.FindBalanceAddress | payouts/payer.go:117-145 | the address a balance is owed at, with the loop's error and the index panic, each exactly when |
| Payer.AddressIsOwned | payouts/payer.go:117-145 | with one chain the address itself; with more, the one part of a pool address, or of a miner's parts joined by dashes the one that stands where its chain first stands in the order; an error exactly when the chain is not there, a panic exactly when there are too few parts |
| Payer.GroupPayments | payouts/payer.go:78-91 | the per-chain maps, a repeated address replacing the earlier amount |
| Payer.SendPayments | payouts/payer.go:93-113 | each chain is sent at most once, its own amounts; all of them on success, each with the transaction id its wallet gave |
| Payer.StrandsExactly | payouts/payer.go:93-113 | without a failed call the sending loop can send to some chains and then stop exactly when one chain has a wallet and another has none |
| Payer.BitcoinTryManyPayments | payouts/payer.go:74-114 | nothing is sent unless every address resolves; on success every balance's chain has a confirmation |
| Settlement.PayoutAgrees | payouts/payer.go:30-70 | after a payout without error and without shared addresses, each balance of the batch was sent, recorded and taken off with one amount |
| Settlement.SentIsRecorded | payouts/payer.go:85-91 | an address is sent what the payments record: always with one claim; without negative balances exactly when every claim but the last is zero; in general exactly when the replaced claims total zero |
| Settlement.SharedAddressShort | payouts/payer.go:85-91 | two miners with one address on a chain: 2 is sent, 3 is recorded |
| Settlement.PayoutBalance | payouts/payer.go:30-70 | address by address, whatever the exit: sent + replaced = recorded + unrecorded |
| Settlement.PayoutPaysOwners | payouts/payer.go:30-70 | however a payout ends, every amount sent is a balance of the batch on its way to the owner's address for that chain, and every payment names pool, chain, owner's address, amount and confirmation of its balance |
| Settlement.UnrecordedExactly | payouts/payer.go:30-70 | something sent is left unrecorded exactly when there were sends and the records do not reach the end of the batch |
| Paying.CollectBalances | payouts/payer.go:17-28 | exactly the due balances of all configured chains, each account once |
| Paying.RecordPayments | payouts/payer.go:36-70 | at any exit the reset balances are a prefix, with at most one payment more |
| Paying.RecordBatch | payouts/payer.go:36-70 | over a batch of exactly the due balances: when it gets through, nothing is due |
| Paying.PayoutBalances | payouts/payer.go:16-71 | pays due balances only, to their owners' addresses; succeeds exactly when no call fails and every due balance can be paid, and then leaves nothing due; failed without a failed call, it recorded and reset nothing and sent what a walk sends before a chain without a wallet; panics only at an address with too few parts |
| Books.PayoutTotals | payouts/payer.go:36-70 | a payout's payments exceed its resets by at most the one balance it stopped at |
| History.CollectedAreDue | payouts/payer.go:16-28 | balances collected from rows the log adds up to are due by the log, and all that are |
| History.HistoryBalances | payouts/manager.go:12-63 | over any history the log credits what the reports say, and payments are resets but for at most one balance for each disturbed payout |
| History.SendsBalance | payouts/payer.go:30-70 | over any history, address by address: all sends + replaced claims = all payments + unrecorded claims |
| History.NothingUnrecorded | payouts/payer.go:93-113 | when no call failed and every chain of the order has a wallet, a history leaves nothing sent unrecorded |
| Manager.PayoutManager.RewardOne | payouts/manager.go:33-45 | one block's rewards: the log gains the entries of a report that a visit of the shares explains, no share is deleted, and a panic means exactly an index past the configured nodes |
| Manager.ConfirmedAreGenerated | payouts/manager.go:27-46 | the blocks a turn may reward are exactly the pool's pending ones whose coinbase the nodes call mature |
| Manager.PayoutManager.RewardBlocks | payouts/manager.go:27-46 | each confirmed block is handed over once, errors left behind, and then owed its saving; no share is deleted |
| Manager.PayoutManager.SaveBlocks | payouts/manager.go:48-54 | every block is saved unless a call fails, and every handed block is saved or its update refused |
| Manager.PayoutManager.Pay | payouts/manager.go:56-61 | one payout joins the history, of balances due by the log; it finishes exactly when no call fails and every due balance can be paid, and then leaves nothing due |
| Manager.PayoutManager.Iterate | payouts/manager.go:16-62 | one turn: the history gains rewards of blocks just confirmed, each at most once, then at most one payout of balances due by the log; final rows stay; without failures every pending block advances, every block just confirmed is rewarded, a payout is made, and if all due balances can be paid nothing is left due; only the three named causes panic |
| Manager.PayoutManager.RunManager | payouts/manager.go:12-63 | over any number of turns with any failures: log, payments and transfers are those of the history entry by entry, every report is about a block of the table as some turn's answers confirm it and is explained by shares then stored, of a block only status and reward change, and only while it is pending, and no share is lost |
| Manager.PayoutManager.AtMostOnce | payouts/manager.go:27-54 | a block was handed over exactly as often as it is saved as confirmed, its update failed, or a panic came before its saving; at most once exactly when that is at most one |
| Manager.PayoutManager.HandedIsSaved | payouts/manager.go:27-54 | when no update of a confirmed block failed and nothing panicked, no block is handed over twice and the blocks handed over are the saved confirmed ones, whatever other calls failed |
| Manager.PayoutManager.RunIsRecorded | payouts/manager.go:12-63 | over any run, address by address: sends + replaced = payments + unrecorded; without failed calls and with a wallet for every chain nothing is unrecorded; without shared addresses then sends = payments |
| Manager.PayoutManager.BooksBalance | payouts/manager.go:12-63 | over any run with any failures: credits are what the reports say, payments are resets plus the unreset balances, and each balance is the sum of its log entries but the unposted; of unreset balances and unposted entries at most one for each failed call |
| Manager.PayoutManager.MoneyIsConserved | payouts/manager.go:12-63 | without failed calls, all rewards = balances + payments + what nodes and nobody kept |
| Manager.StalledRun | payouts/manager.go:27-46 | once stored shares fill the PPLNS window, settled reports of blocks that see them credit no miner, when creation times differ |
| Failover.NodeManager.FindHealthyNode | rpc/manager.go:61-75 | stops at the first healthy node after the current one within n probes; fails exactly when none is, back where it began |
| Failover.NodeManager.CheckAndRecoverRPCs | rpc/manager.go:35-55 | keeps a healthy node, otherwise moves to the first healthy one; the wait for the primary starts exactly then |
| Failover.OneSearchStaysInRange | rpc/manager.go:57-95 | under any interleaving of one search with restores the index stays in range and at most n nodes are counted |
| Failover.OverrunExactly | rpc/manager.go:61-95 | two searches can push the index out of range exactly when there is a second node |
| Failover.UndisturbedFailureProbedAll | rpc/manager.go:61-75 | a search without a restore between its begin and its failure has probed every node and is back where it began |
| Failover.RestoreHidesPrimary | rpc/manager.go:35-75 | for every number of nodes from two up, one restore makes a search fail without probing the restored primary |
| Failover.FailsUnprobedExactly | rpc/manager.go:35-75 | a search among restores can fail with a node unprobed exactly when there is a second node |
| HashWindow.GroupByMiner | persistence/share.go:226-248 | the loop builds each miner's rows in order |
| HashWindow.GroupsPartition | persistence/share.go:226-248 | no group is empty and every row is in its own miner's group only |
| HashWindow.GroupsKeepDifficulty | persistence/share.go:226-248 | the groups' difficulties add up to the rows' |
| HashWindow.GetWindowDifferences | persistence/stats.go:132-151 | the gaps reach to the earliest first share and from the latest last share |
| HashWindow.GapsFit | persistence/stats.go:132-151 | for rows inside the window the gaps are not negative and together not longer than it |
| HashWindow.AdjustHashWindow | persistence/stats.go:94-114 | the branches compute the rounded frame, at least one second |
| HashWindow.AdjustedRounds | persistence/stats.go:94-114 | the result is the frame rounded down, and a second where that is less |
| HashWindow.AdjustedIsBounded | persistence/stats.go:94-114 | for a window of a second or more the result lies between one second and twice the window |
| HashWindow.FrameAgainstCovered | persistence/stats.go:94-107 | before rounding the window exceeds the time covered by exactly a small start gap, and once a small or twice a large end gap |
| HashWindow.FrameIsCovered | persistence/stats.go:94-107 | it is the time covered exactly when there is no end gap, and no start gap or a large one |
| HashWindow.EndGapIsAdded | persistence/stats.go:94-114 | two minutes of shares in a window of ten are weighed over eighteen |
| HashWindow.MakeMinerStats | persistence/stats.go:61-92 | each miner is met once and each of its rows gives one statistic by that miner's window |
| HashWindow.StatsDescribeRows | persistence/stats.go:61-92 | every statistic names the miner and worker of a row, its rate is the row's work over the miner's window rounded down, and its shares a second are the row's to half a thousandth |
| HashWindow.RowsHaveStats | persistence/stats.go:61-92 | every row of a miner met has such a statistic |
| HashWindow.GetHashrateAndSharesPerSecond | persistence/stats.go:116-125 | the pool's rate is 2^32 hashes for each unit of difficulty over the window, rounded down; its shares a second are divided by nanoseconds |
| HashWindow.StoredAsZero | persistence/stats.go:51-52 | the stored shares per second are zero exactly below half a million a second |

## Left out

- Rounding: `float64`, `big.Float` and `decimal(28,8)` are exact reals here; a share or network
  difficulty is positive, and so is the pool difficulty, so no score or target is infinite or
  undefined.
- SHA-256 and scrypt themselves, and any claim that they have no collisions.
- JSON, HTTP, ZMQ, TCP and the database driver: queries have their set semantics, and a node's
  answers are the same for the whole of one turn of the payout loop.
- A connection lost while rows are read: the source never asks `rows.Err()`
  (`persistence/share.go:82-94`, `persistence/balance.go:143-152`, `persistence/found.go:194-207`), so it would take a
  short answer for a whole one. Here a query that fails always says so.
- The SOLO scheme, which credits one miner and would add an easy case.
- Block effort and confirmation progress, which are stored for display and steer nothing; the
  calls behind them are one more call that may fail (`Unlock.UnlockBlocks`). The other columns
  of a found block that the payouts neither read nor write.
- Ids of found blocks come from a serial column and start as pending; the code that stores them
  is not part of this model.
- `TargetFromBits`, which has no caller and computes no target.
- Refetching a template while a share is handled (`pool/responses.go`), the share buffer, chain
  selection, address patterns and configuration loading.
- Randomness: extranonce draws are inputs.
- Extranonce.Registry.UniqueExtranonce: the loop may run for ever when all draws are used up; the model stops when the given draws are spent and says so.
- Manager.PayoutManager.RunManager: the endless loop is modelled as any finite number of turns, and the waiting between them is left out.
- Manager.PayoutManager.RewardBlocks: the missing-manager panic is not modelled, because the classification in the same turn has already found every block's chain.
- Failover.NodeManager.FindHealthyNode: health is fixed during the search; under interleaving each probe may find either.
- Failover.FailsUnprobedExactly: says for which numbers of nodes restores can spoil a search, not which single placements of restores do.
- The one map of rpc managers stands behind the nodes that answer, the nodes in use and the wallets; the manager requires the three to have the same chains.
- Prop.Split: a total score of zero divides to an infinity in the source, which no miner is there to receive; the model uses zero.
- Submission.SubmissionRoundTrip: where a raw transaction ends is a parameter, because the pool copies transactions unread.
- A page loop and its inner loop are two methods in `Pplns`, `Prop` and `Merkle`, and the body of
  one loop is a method in `Payer` and `Manager`; the order of steps is the source's.
- Loops over Go maps pick their next key arbitrarily, so claims hold for every order.
- Packet.PacketMakesHeader: is for block versions below 2^32, as chains have them; `GenerateWork` prints a larger one in full, while a header keeps its low four bytes.
- AuxPowProof.AuxPowRoundTrip: needs a branch length the code can write, which any real template has; a branch of 253 steps would need 2^252 transactions.
