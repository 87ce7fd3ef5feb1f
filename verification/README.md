# A verified model of the ursa node and gateway

This project models, in Dafny 4.11, the parts of ursa that keep state across calls and proves what
their code promises, for every input and over whole runs:

- the gateway's **TLRFU cache** (time-limited, least frequently used, least recently used), built on a
  pointer-linked LRU list, and the worker that drives it with commands;
- the two walks over the **block store's link graph**, `dag_traversal` and `missing_blocks`, and the
  CAR file size computed from the first;
- the **ABCI pipeline**: an application with a current and a committed state, the engine that turns
  certificates into blocks, and queries interleaved with both;
- the index provider's **advertisement chain** and the publishing of a DAG in entry chunks;
- the **network service's** tables: waiters for blocks, and the cache summaries peers send each other.

`dafny verify dfyconfig.toml` checks everything.

## How it is organised

Every component has a value-level model (functions from a state to a state, error paths included), a
class whose methods update fields, linked nodes and maps in place as the code does, and lemmas about
the model. A method's contract equates its new state and result with the model's function, so each law
of the model is a law of the method.

| module | content |
|---|---|
| `Prelude` | options, results, bytes, sums over finite sets |
| `Lru` | the doubly linked LRU list over a hash map |
| `CacheModel`, `CacheInvariant` | the cache's operations; agreement of its three indexes, and exactly when it is kept |
| `CacheReference`, `Worker` | the simple cache it refines (a map and an access log); runs of commands, with and without coinciding deadlines |
| `Tlrfu`, `Gateway` | the heap cache over linked lists; the worker's handlers |
| `DagGraph`, `DagWalks`, `Car` | link paths and reachability; the two walks; CAR sizes |
| `Evm`, `Abci`, `AbciEngine`, `AbciQueries` | execution and what is observable of it; certificates and replay; the objects; interleavings |
| `AdChain`, `AdContent`, `Provider` | the chain and runs through clones; drafts and what they become; the provider objects and `publish_local` |
| `Network`, `NetworkLog`, `Summaries`, `UrsaService` | waiters; the tables read off the log of events; summaries between nodes; the service object |

What comes from outside is a parameter: clock readings, random ids, query ids, the block format, the
EVM, encodings, hashing and signing, and the summary filter. Assumptions about them are named
predicates (`Sound`: hashing without collisions and encodings that round trip; `NoFalseNegatives`).

Where the code and its comments disagree, the model follows the code: `init_chain` is commented as
committing before the initializers run (crates/ursa-application/src/types.rs:167-168), but the commit it
builds is never awaited, so genesis becomes visible only with the first block's commit.

## Main results

*Cache.* From an empty cache, every run of commands whose clock readings allow it keeps the three
indexes in agreement and refines a map with an access log, in which an eviction removes the shortest
prefix, in order of (one plus hits since insertion, last access), that makes room (`Worker.RunRefines`).
Exactly which readings allow it: a command keeps agreement if and only if the clock reads after the
epoch and a new deadline is not held by another surviving entry; the reasons for the stop signal are
exact as well, under any clock (`Worker.StepExactly`). Readings that all differ are enough, even when
the clock goes back (`Worker.TickingIsClean`), and then the only reason to stop is a value larger than
the cache (`Worker.OnlyOversizedStops`); two insertions at one instant can stop the worker
(`Worker.SharedDeadlineStopsWorker`). Only deadlines can go wrong that way: over every run that admits
nothing before the epoch, whatever readings coincide, buckets and byte count agree, the limit holds and
evictions take that same prefix (`Worker.EveryRunRefines`). The heap worker inherits both from its
construction on (`Gateway.Serve`).

*Block store.* `dag_traversal` succeeds exactly when every reachable block is stored and valid, and
lists each once. `missing_blocks`, which keeps no visited set, returns exactly when no cycle is reachable
or a block that does not decode is met before any cycle (`DagWalks.ReturnsExactly`), and names an absent
block as often as there are link paths to it. Where it returns, the two walks agree.

*ABCI.* The committed state is genesis followed by the replay of all transactions in certificate, batch
and transaction order, visible only block by block in every interleaving with queries. A certificate
that fails leaves the committed state alone but not the current one. The node itself only logs a failed
consensus engine and never restarts it (crates/ursa/src/main.rs:166-170), so what is left is met by
another engine that connects to the still-running application: its blocks are committed on top of it
(`Abci.NextRunCommitsLeftovers`, with an instance in `Abci.LeftoversGetCommitted`). The failure stays
invisible to every such run if and only if genesis leads to the same view from what was left as from
what was there before (`Abci.FailureInvisibleExactly`).

*Advertisements.* Over every run, walking from the head visits exactly the advertisements published
since the head was last lost, newest first, and the persisted head leads to the chain a restart resumes
(`AdChain.RunKeepsHeads`). Each carries the signature given for it, and body and chunk list are what its
clone had put together (`AdContent.RunKeepsContent`). While publishes succeed that is everything
published; a publish that fails forgets the head, and keeps the walk complete only while nothing is
published (`AdChain.FailedPublishLoses`).

*Network.* Every accepted waiter is pending under an outstanding query or was answered exactly once.
Peers, held summaries, queries, waiters and replies are exactly what the log of events says
(`NetworkLog.RepliesExactly` and the lemmas before it).
In whatever order summaries arrive, a connected peer with a held summary is asked for an id exactly when
the last delivered summary was sent at or after its put (`Summaries.AskedExactly`); with in-order
delivery an informed node stays informed (`Summaries.InformedPeerIsAsked`).

## Model

| member | source | states |
|---|---|---|
| `Lru.IndexOf` | crates/ursa-gateway/src/cache/lru.rs:91-111 | the position of a key: the first pair with that key, or past the end exactly when no pair has it |
| `Lru.WithoutMembers` | crates/ursa-gateway/src/cache/lru.rs:91-111 | removing a key takes out exactly its pair, keeps every other one and keeps keys distinct |
| `Lru.PairsLookup` | crates/ursa-gateway/src/cache/lru.rs:50-52 | the hash map knows a key exactly when a node of the chain holds it, with the same value and that very node |
| `Lru.PairsRemoved` | crates/ursa-gateway/src/cache/lru.rs:91-111 | cutting a node out of the chain and its key out of the map deletes that pair at any position and keeps the order of the rest |
| `Lru.List.Contents` | crates/ursa-gateway/src/cache/lru.rs:17-22 | a valid list is a sequence of pairs with distinct keys, never longer than the capacity |
| `Lru.List.GetTailKey` | crates/ursa-gateway/src/cache/lru.rs:38-40 | the key of the last pair |
| `Lru.List.IsEmpty` | crates/ursa-gateway/src/cache/lru.rs:42-44 | the map is empty exactly when the chain is |
| `Lru.List.Unlink` | crates/ursa-gateway/src/cache/lru.rs:93-105 | re-linking the neighbours of any node, end nodes included, leaves `next` and `prev` mutual inverses over the remaining nodes in order |
| `Lru.List.Remove` | crates/ursa-gateway/src/cache/lru.rs:91-111 | returns the key's value, or nothing when absent, and removes exactly its pair |
| `Lru.List.RemoveHead` | crates/ursa-gateway/src/cache/lru.rs:84-89 | removes and returns the first pair; an empty list is an error and stays empty |
| `Lru.List.Insert` | crates/ursa-gateway/src/cache/lru.rs:54-82 | appends; at capacity the first pair goes; a present key, or a list of capacity zero, is an error that changes nothing |
| `Lru.InsertedLast` | crates/ursa-gateway/src/cache/lru.rs:54-82 | an insertion fails exactly on a present key or a list of capacity zero; otherwise the pair comes last, behind all others or, in a full list, all but the first |
| `Lru.List.StoreSize` | crates/ursa-gateway/src/cache/lru.rs:58-62 | the map's size, which the capacity test reads, is the length of the chain |
| `CacheInvariant.PromoteAgrees` | crates/ursa-gateway/src/cache/tlrfu.rs:57-78 | moving a key to the next bucket cannot fail on agreeing indexes and gives it the greatest LRU key there |
| `CacheInvariant.GetKeepsInv` | crates/ursa-gateway/src/cache/tlrfu.rs:56-93 | on agreeing indexes a hit returns the value, adds one to the frequency and renews the deadline; the only error is a clock before the epoch; the indexes agree afterwards if and only if the clock reads after the epoch and the new deadline is not another entry's |
| `CacheInvariant.GetKeepsCore` | crates/ursa-gateway/src/cache/tlrfu.rs:56-93 | whatever deadlines coincide, a hit keeps buckets and sizes agreeing: the entry is promoted first, then what is filed under its old deadline is filed under the new one; without such a filing or before the epoch it fails and keeps its deadline |
| `CacheInvariant.EvictKeepsInv` | crates/ursa-gateway/src/cache/tlrfu.rs:99-115 | eviction ends, keeps the indexes agreeing, makes room exactly when the value can fit at all and otherwise empties the cache; survivors are unchanged |
| `CacheInvariant.EvictKeepsCore` | crates/ursa-gateway/src/cache/tlrfu.rs:99-115 | the same whatever deadlines coincide; exactly the filings under the victims' deadlines are dropped |
| `CacheInvariant.InsertKeepsInv` | crates/ursa-gateway/src/cache/tlrfu.rs:95-142 | insertion fails exactly on a present key, an oversized value (leaving the cache empty) or a clock before the epoch; otherwise the entry joins the survivors within `max_size`; the indexes agree afterwards if and only if the clock reads after the epoch and no survivor holds the deadline |
| `CacheInvariant.InsertKeepsCore` | crates/ursa-gateway/src/cache/tlrfu.rs:95-142 | whatever deadlines coincide: every outcome with the new store, size and filings; buckets and sizes agree afterwards if and only if no value was admitted before the epoch |
| `CacheInvariant.CleanUpKeepsInv` | crates/ursa-gateway/src/cache/tlrfu.rs:144-179 | whatever the clock reads, clean-up keeps the indexes agreeing and fails only on a reading before the epoch |
| `CacheInvariant.CleanUpExact` | crates/ursa-gateway/src/cache/tlrfu.rs:144-179 | with a clock that never goes back, exactly the entries due at the last reading go, their number is returned and every other entry is unchanged |
| `CacheInvariant.CleanUpAnyClock` | crates/ursa-gateway/src/cache/tlrfu.rs:144-179 | whatever the clock reads, also when it goes back: the entries with the earliest deadlines go, one per reading that finds an entry due; it fails exactly when the reading it stops at is before the epoch and an entry is left |
| `CacheInvariant.CleanUpKeepsCore` | crates/ursa-gateway/src/cache/tlrfu.rs:144-179 | whatever deadlines coincide, clean-up keeps buckets and sizes agreeing, leaves survivors unchanged, counts what went, and fails only before the epoch or on a filed key that is not stored |
| `CacheInvariant.ExpireOneCases` | crates/ursa-gateway/src/cache/tlrfu.rs:144-179 | one turn removes the key filed under the first deadline from every index, or changes nothing and fails when that key is not stored |
| `CacheReference.EvictsLeast` | crates/ursa-gateway/src/cache/tlrfu.rs:100-107 | the evicted entry precedes every other in the order (one plus hits since insertion, last access) |
| `CacheReference.EvictsShortestPrefix` | crates/ursa-gateway/src/cache/tlrfu.rs:99-115 | eviction removes exactly the shortest prefix of that order that makes room |
| `CacheReference.ShortestPrefixUnique` | crates/ursa-gateway/src/cache/tlrfu.rs:99-115 | that prefix is unique, so the order alone determines what is evicted |
| `Worker.StepRefines` | crates/ursa-gateway/src/worker/mod.rs:34-76 | under its clock condition each command is a step of the simple cache, keeps the indexes agreeing, and raises the stop signal for exactly the stated reasons |
| `Worker.StepExactly` | crates/ursa-gateway/src/worker/cache/worker.rs:19-37 | for every command and clock: exactly when it leaves the indexes agreeing, and exactly when it raises the stop signal (an absent key with an oversized value, or a reading before the epoch); no internal "not found" or "existed" error is among the reasons |
| `Worker.RunRefines` | crates/ursa-gateway/src/worker/mod.rs:28-84 | every run of commands from the empty cache refines a run of the simple cache, with agreeing indexes and exact stop signals all along |
| `Worker.TickingIsClean` | crates/ursa-gateway/src/cache/tlrfu.rs:83-88 | if no get or insertion reads before the epoch and no two of them read the same instant, in whatever order the readings come, every command of every run meets its clock condition |
| `Worker.OnlyOversizedStops` | crates/ursa-gateway/src/worker/cache/worker.rs:19-37 | over every such run the stop signal is raised exactly for an absent key with a value larger than the cache |
| `Worker.CoreStepExactly` | crates/ursa-gateway/src/worker/cache/worker.rs:19-37 | whatever deadlines coincide: exactly when a command leaves buckets and sizes agreeing, and exactly when a hit or an insertion raises the stop signal |
| `Worker.EveryRunRefines` | crates/ursa-gateway/src/worker/mod.rs:28-84 | every run that admits nothing before the epoch keeps buckets and sizes agreeing within the limit and refines the simple cache up to deadlines: values, accesses and evictions are right |
| `Worker.SharedDeadlineStopsWorker` | crates/ursa-gateway/src/cache/tlrfu.rs:140-140 | otherwise not: two insertions at one instant and a hit on each key make the worker raise its stop signal |
| `Tlrfu.Tlrfu.Get` | crates/ursa-gateway/src/cache/tlrfu.rs:56-93 | the heap cache does what the model's `Get` says, error paths included |
| `Tlrfu.Tlrfu.DirtyGet` | crates/ursa-gateway/src/cache/tlrfu.rs:52-54 | the stored value, without an access |
| `Tlrfu.Tlrfu.MakeRoom` | crates/ursa-gateway/src/cache/tlrfu.rs:99-115 | the eviction loop terminates in the model's `Evict` |
| `Tlrfu.Tlrfu.Insert` | crates/ursa-gateway/src/cache/tlrfu.rs:95-142 | the heap cache does what the model's `Insert` says, error paths included |
| `Tlrfu.Tlrfu.ProcessTtlCleanUp` | crates/ursa-gateway/src/cache/tlrfu.rs:144-179 | the clean-up loop terminates in the model's `CleanUp`, with its count |
| `Tlrfu.Tlrfu.Purge` | crates/ursa-gateway/src/cache/tlrfu.rs:181-186 | an empty cache with the same limits |
| `Gateway.CacheWorker.Handle` | crates/ursa-gateway/src/worker/mod.rs:34-76 | handling a command is one step of the worker, and the stop signal is sent exactly when that step raises it |
| `Gateway.CacheWorker.Drive` | crates/ursa-gateway/src/worker/mod.rs:28-84 | handling commands one after another is a run of the model, with as many stop signals as the model raises |
| `Gateway.Serve` | crates/ursa-gateway/src/worker/mod.rs:19-84 | from its construction on the heap worker keeps its indexes agreeing and refines the simple cache over every run whose gets and insertions read different instants, and keeps buckets and sizes agreeing and refines it up to deadlines over every run whose insertions read after the epoch |
| `DagGraph.RankFalls` | crates/ursa-store/src/store.rs:171-185 | in a finite graph without a reachable cycle, the number of blocks below an id falls along every link |
| `DagGraph.PathsExact` | crates/ursa-store/src/store.rs:171-185 | the set of link paths from one id to another holds exactly the paths that lead there, each once |
| `DagWalks.DagTraversal` | crates/ursa-store/src/store.rs:37-67 | for any hash-set order, on cyclic stores too, it ends; it succeeds if and only if every reachable id is stored with a valid block, and then lists exactly the reachable ids, each once with its bytes, root first; an error names a reachable offender |
| `DagWalks.TurnConserves` | crates/ursa-store/src/store.rs:175-182 | a turn of the stack walk moves paths from the stack to the result without loss, and the walk gets lighter |
| `DagWalks.MissingBlocks` | crates/ursa-store/src/store.rs:171-185 | wherever the code returns at all: it fails if and only if a reachable present block does not decode, naming one; otherwise no cycle is reachable and each absent id occurs as often as there are link paths to it from the root |
| `DagWalks.ReturnsExactly` | crates/ursa-store/src/store.rs:171-185 | on every store the walk ends if and only if no cycle is reachable from the root, or some link path ends in a block that does not decode and no cycle is reachable from the links popped before it |
| `DagWalks.EndsExactlyWhenAcyclic` | crates/ursa-store/src/store.rs:171-185 | if every reachable block decodes, the walk ends if and only if no cycle is reachable |
| `DagWalks.WalksAgree` | crates/ursa-store/src/store.rs:171-185 | wherever `missing_blocks` returns, the traversal succeeds if and only if nothing is missing and the reachable present blocks match their ids |
| `Car.VarintRoundTrip` | crates/ursa-store/src/store.rs:81-81 | an LEB128 length can be read back, with what follows it untouched |
| `Car.VarintLength` | crates/ursa-store/src/store.rs:81-81 | an LEB128 length takes exactly as many bytes as the number has digits of seven bits |
| `Car.VarintShortest` | crates/ursa-store/src/store.rs:81-81 | no byte string that reads as the same number is shorter |
| `Car.BodySize` | crates/ursa-store/src/store.rs:79-83 | the length of the framed blocks is a sum over their ids |
| `Car.CarSize` | crates/ursa-store/src/store.rs:70-86 | the header body and, per reachable block, its id, its bytes and the number of seven-bit digits of their length: the CARv1 stream less the header's own length prefix |
| `Car.OrderIrrelevant` | crates/ursa-store/src/store.rs:70-86 | the size does not depend on the traversal order |
| `Evm.ExecuteObserved` | crates/ursa-application/src/types.rs:58-93 | result, kind of failure and effect depend only on the observable accounts; a read-only or failed execution has no observable effect |
| `Abci.DeliverReplays` | crates/ursa-application/src/types.rs:236-265 | an undecodable transaction, and only that, is answered so and is a no-op; a decodable one is answered with the result and has the effect of its replay; a panic has none |
| `Abci.InitChainObserved` | crates/ursa-application/src/types.rs:116-228 | genesis is the contracts and their initializers, applied to the current state only, up to the first that fails |
| `Abci.HandleCertExactly` | crates/ursa-consensus/src/engine.rs:97-110 | a certificate is handled if and only if all its batches are present and well formed and its transactions replay; then the replay is committed; otherwise the committed state is untouched; the two heights stay equal exactly on success |
| `Abci.CertsCommitReplay` | crates/ursa-consensus/src/engine.rs:162-202 | a run of certificates is handled if and only if all batches are present and well formed and all transactions replay; then the state is the replay of all of them in certificate, batch and transaction order, at equal heights |
| `Abci.RunCommitsReplay` | crates/ursa-consensus/src/engine.rs:77-93 | an engine run comes through if and only if genesis, batches and transactions do; then the committed state is the initial one before the first block and genesis followed by every transaction from then on, at equal heights |
| `Abci.FailureKeepsPrefix` | crates/ursa-consensus/src/engine.rs:77-93 | certificates that fail leave committed what those before the failing one committed, with the engine's height one ahead |
| `Abci.RunFailureKeepsPrefix` | crates/ursa-consensus/src/engine.rs:77-93 | an engine run that fails does so at genesis, with nothing committed, or at a certificate, with what the run of those before it commits |
| `Abci.NextRunCommitsLeftovers` | crates/ursa-consensus/src/engine.rs:193-199 | another engine run on the application comes through if and only if genesis and its transactions replay from the view a failed certificate left behind, and that replay is what it commits |
| `Abci.LeftViewReplays` | crates/ursa-consensus/src/engine.rs:162-202 | what a failed certificate leaves behind is the replay of the transactions it delivered before the failure |
| `Abci.FailureInvisibleExactly` | crates/ursa-consensus/src/engine.rs:97-110 | every later run, whatever its certificates, shows what it would have shown without the failed certificate, if and only if genesis leads to the same view from what was left behind |
| `Abci.BadFirstBatchLeavesNothing` | crates/ursa-consensus/src/engine.rs:162-199 | a certificate whose first batch is missing or malformed fails, and no later run can tell |
| `Abci.LeftoversGetCommitted` | crates/ursa-consensus/src/engine.rs:193-199 | it happens: a certificate that delivers one batch and misses the next fails, and a later run of one empty certificate commits the account the first batch opened |
| `AbciEngine.App.InitChain` | crates/ursa-application/src/types.rs:116-228 | installs and initializes the contracts in the current state; the commit built there does not happen |
| `AbciEngine.App.DeliverTx` | crates/ursa-application/src/types.rs:236-265 | the model's delivery, on the current state only |
| `AbciEngine.App.Query` | crates/ursa-application/src/types.rs:353-388 | the model's answer, on the committed state only |
| `AbciEngine.App.Commit` | crates/ursa-application/src/types.rs:279-290 | the committed state becomes the current one |
| `AbciEngine.Engine.ReconstructAndDeliverTxs` | crates/ursa-consensus/src/engine.rs:162-202 | batches are delivered in order up to the first missing, malformed or failing one |
| `AbciEngine.Engine.HandleCert` | crates/ursa-consensus/src/engine.rs:97-110 | one certificate of the model |
| `AbciEngine.Engine.Run` | crates/ursa-consensus/src/engine.rs:77-93 | one engine run of the model, up to its first failure |
| `AbciQueries.AnswerObserved` | crates/ursa-application/src/types.rs:340-388 | an answer depends only on what is observable, and answering changes nothing observable |
| `AbciQueries.AnswersSeeWholeBlocks` | crates/ursa-application/src/types.rs:279-289 | in every interleaving with one engine run, with the commit split at its two locks, a request is answered from the initial state or from the replay of a whole number of blocks |
| `AbciQueries.AnswersNeverGoBack` | crates/ursa-application/src/types.rs:340-388 | later requests never see fewer blocks |
| `AbciQueries.AskingIsInvisible` | crates/ursa-application/src/types.rs:353-388 | a request changes neither the chain nor anything observable of the committed state |
| `AbciQueries.HandleCertIsRun` | crates/ursa-consensus/src/engine.rs:97-110 | a certificate that is handled is the uninterrupted run of one block of that step machine |
| `AbciQueries.FailingCertIsRun` | crates/ursa-consensus/src/engine.rs:97-110 | a certificate that fails is a run of it too: the block begins, what was delivered is delivered, and a bad batch or failing transaction halts the engine |
| `AbciQueries.EngineRunIsRun` | crates/ursa-consensus/src/engine.rs:77-93 | so is a whole engine run, failing or not, from any state of the application |
| `AdChain.AddChunkPushes` | crates/ursa-index-provider/src/provider.rs:122-138 | a chunk is pushed on its advertisement's chunk list |
| `AdChain.PendingAds` | crates/ursa-index-provider/src/provider.rs:113-158 | creating makes an id known, adding changes its entries only, publishing makes it unknown whether or not it succeeds; other ids are left alone, and each failure has exactly one reason |
| `AdChain.PublishLinks` | crates/ursa-index-provider/src/provider.rs:140-158 | a successful publish puts the advertisement, with its entries and the signature given for it, in front of the chain and persists the new head |
| `AdChain.PublishExactly` | crates/ursa-index-provider/src/provider.rs:140-158 | a publish succeeds if and only if the id is known and signing succeeds, and the chain survives if and only if it succeeds or there was none |
| `AdChain.FailedPublishCutsChain` | crates/ursa-index-provider/src/provider.rs:143-157 | after any failed publish, of an unknown id or for want of a signature, the next advertisement has no predecessor, and the walk visits it alone |
| `AdChain.HeadsDistinct` | crates/ursa-index-provider/src/provider.rs:145-154 | hashing without collisions makes all heads of a chain pairwise distinct |
| `AdChain.WalksUnique` | crates/ursa-index-provider/src/provider.rs:145-145 | a head determines the walk from it |
| `AdChain.RunKeepsHeads` | crates/ursa-index-provider/src/provider.rs:70-82 | over every run through clones, failed publishes, restarts and other content, walking from the head visits exactly the advertisements published since the head was last lost, newest first, and stops; the persisted head leads to the chain a restart resumes; every advertisement visited carries the signature given for it |
| `AdChain.RunKeepsChain` | crates/ursa-index-provider/src/provider.rs:70-82 | when every publish of a run succeeds, both heads lead to exactly the published advertisements newest first, so a restart changes nothing |
| `AdChain.FailedPublishLoses` | crates/ursa-index-provider/src/provider.rs:140-158 | after a run of successful publishes, one more publish leaves the walk complete if and only if it succeeds or nothing was published |
| `AdContent.DraftsExactly` | crates/ursa-index-provider/src/provider.rs:70-138 | after every run each clone holds exactly the unpublished advertisements its events give it, with their bodies and with chunk lists of what was added, in order |
| `AdContent.RunKeepsContent` | crates/ursa-index-provider/src/provider.rs:113-158 | after every run each published advertisement has the body and, in the block store, the chunk list its clone had put together, whatever happened since |
| `Provider.Provider.constructor` | crates/ursa-index-provider/src/provider.rs:42-54 | a new provider resumes at the persisted head |
| `Provider.Provider.Clone` | crates/ursa-index-provider/src/provider.rs:74-81 | a clone shares head and store and copies the pending advertisements |
| `Provider.Provider.AddChunk` | crates/ursa-index-provider/src/provider.rs:122-138 | the model's chunk addition, on the shared store |
| `Provider.Provider.Publish` | crates/ursa-index-provider/src/provider.rs:140-158 | the model's publish, signature included, on the shared head and store, the lost head included |
| `Provider.PublishLocal` | crates/ursa-index-provider/src/engine.rs:222-251 | fails as incomplete if and only if a reachable block is missing or invalid, leaving the chain alone, and otherwise only for want of a signature; the advertisement is signed, and its chunks, all full but the newest, read oldest first are the traversal's multihashes; the chain grows by it and other drafts are left alone |
| `Provider.ChunksDetermined` | crates/ursa-index-provider/src/engine.rs:236-236 | the entries determine the chunks: their number is the entries' over MAX_ENTRIES, rounded up, and each holds its own run of consecutive entries |
| `Provider.AdvertisedSet` | crates/ursa-index-provider/src/engine.rs:231-235 | the advertised set is that of the multihashes of the ids reachable from the root |
| `Network.RunKeepsWaiters` | crates/ursa-network/src/service.rs:447-481 | in every run, waiters are pending once each under ids with outstanding queries, nobody accepted is forgotten, and nobody else is answered anything but "no peers" |
| `Network.EveryWaiterSettled` | crates/ursa-network/src/service.rs:735-779 | every accepted waiter is pending and unanswered under an id with an outstanding query, or was answered exactly once with the result of a completed query for its own id |
| `Network.NobodyWaits` | crates/ursa-network/src/service.rs:456-471 | when no query is outstanding, nobody is waiting and every accepted waiter was answered once |
| `NetworkLog.PeersExactly` | crates/ursa-network/src/service.rs:709-727 | a peer is known if and only if it connected and its last connection did not close since, or it is a bootstrap peer of which that never happened |
| `NetworkLog.PeersAreConnected` | crates/ursa-network/src/service.rs:709-727 | with connection counts as the swarm reports them, the peers are those with an open connection and the bootstrap peers that never left |
| `NetworkLog.SummariesExactly` | crates/ursa-network/src/service.rs:603-604 | the summary held of a peer is the last one delivered, unless the peer left since |
| `NetworkLog.AskedFromLog` | crates/ursa-network/src/service.rs:756-765 | for any filter, exactly the known peers are asked of which no summary is held or the filter reports the id for the one held |
| `NetworkLog.CachedExactly` | crates/ursa-network/src/service.rs:790-790 | the node's own summary holds exactly what was put |
| `NetworkLog.QueriesExactly` | crates/ursa-network/src/service.rs:766-771 | a query is outstanding if and only if it was issued, by a request that met a peer, and did not complete since |
| `NetworkLog.WaitersExactly` | crates/ursa-network/src/service.rs:750-754 | those waiting for an id are those accepted since a query for it last completed, in the order of asking |
| `NetworkLog.RepliesExactly` | crates/ursa-network/src/service.rs:740-747 | a waiter is told "no peers" if and only if its request met no peer, and found or not found if and only if a query for the id it was waiting for completed so |
| `Summaries.AskedExactly` | crates/ursa-network/src/service.rs:756-765 | in every run, with losses and in any order of delivery: with an exact filter, a connected peer of which a summary is held is asked for an id if and only if the last delivered summary was sent at or after the peer's put |
| `Summaries.AskedByFilter` | crates/ursa-network/src/service.rs:756-765 | the same for any filter, false reports included: asked if and only if the filter reports the id for what the peer had put when the last delivered summary was sent |
| `Summaries.InformedPeerIsAsked` | crates/ursa-network/src/service.rs:756-765 | with in-order delivery, once a summary sent at or after a peer's put has been delivered, no later delivery, loss, disconnect or reconnect makes the node filter that peer out for that id while it is connected |
| `Summaries.OvertakenSummaryForgets` | crates/ursa-network/src/service.rs:603-604 | in-order delivery is needed: when a newer summary overtakes one sent before the put, the first to arrive informs the node and the second makes it forget |
| `UrsaService.UrsaService.GetBitswap` | crates/ursa-network/src/service.rs:735-779 | the model's acceptance of a waiter, and exactly the unfiltered peers asked |
| `UrsaService.UrsaService.BitswapComplete` | crates/ursa-network/src/service.rs:455-478 | the model's completion: all waiters for the id are answered in order, an unknown query changes nothing |
| `UrsaService.UrsaService.Put` | crates/ursa-network/src/service.rs:780-797 | the id joins the summary, which goes to every peer |
| `UrsaService.UrsaService.ConnectionClosed` | crates/ursa-network/src/service.rs:716-727 | only the last closed connection forgets the peer, together with its summary |
| `UrsaService.UrsaService.Handle` | crates/ursa-network/src/service.rs:924-945 | one turn of the service loop is one event of the model, and the peers asked are those of the model |
| `UrsaService.Serve` | crates/ursa-network/src/service.rs:924-945 | from its construction with the bootstrap peers on, over every run: peers, replies and the peers asked at each event are exactly what the log of events says; with fresh ids, when no query is outstanding, nobody is waiting and every accepted waiter was answered once |

## Left out

- Asynchrony of the LRU list and the cache: nodes carry locks in the code; methods here are atomic, as they are under the cache's write lock.
- Tlrfu.Tlrfu.Insert: does not model u64 and usize wrap-around, because with agreeing indexes `used_size` never exceeds `max_size`, so the sums stay below `max_size` plus the value's length; frequencies and LRU keys are unbounded here.
- DagWalks.MissingBlocks: is not specified where the code does not return, which is exactly where `DagWalks.ReturnsExactly` says.
- Store failures (RocksDB errors), `bulk_put` and typed `get_obj`: plain I/O around the modelled maps.
- Worker.EveryRunRefines: says nothing of a cache into which a value was admitted before the epoch, because its bucket then names a key that is not stored (`CacheInvariant.AdmitKeepsCore`).
- Car.CarSize: does not model u64 truncation of the total, because lengths are unbounded here.
- The EVM, ABI encoding and genesis files: a function of the observable accounts, and given contracts and initializers.
- Block heights are unbounded; opening the worker store and the ABCI transport are not modelled, and a panic of the application is an error of the call that met it.
- Signatures and `SignedHead`: signing is a partial function of an advertisement without its signature; nothing is claimed about what a signature proves.
- Announcements to indexers, listener addresses and the HTTP server of the index provider.
- libp2p itself: its events are the inputs of the service; `pending_responses`, gossip, mDNS, identify, relay and graphsync handling are not modelled.
- Summaries.InformedPeerIsAsked: assumes in-order delivery from each peer, because it fails without (`Summaries.OvertakenSummaryForgets`; `Summaries.AskedExactly` holds in any order).
- Restarts of a node in the exchange of summaries: a restarted node announces an empty summary.
- The internals of the cuckoo filter: a filter that may report too much but never too little.
- Coalesced origin fetches of the RPC service, metrics, telemetry, tracker, proxy, CLI, configuration and HTTP routes.
