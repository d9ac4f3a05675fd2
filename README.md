# LuckPerms resolution core in Dafny

A model of four pieces of LuckPerms' sequential logic, with proofs about them:

- **Verbose capture** (`Verbose`, verbose.dfy). The verbose listener counts every
  permission or meta check handed to it, lets an external filter decide which ones
  match, stores matches in a buffer of at most 10,000 events, optionally builds a
  notification for each match, and on upload reports the matched and total counts,
  a truncation flag and the buffered events in order, then empties the buffer while
  keeping both counters. The listener is a class (`VerboseListener`) whose fields are
  the two counters and the buffer; its methods are proved equal to pure functions on a
  `Capture` value (`Accept`, `Export`, `Drained`), and the listener's properties
  over whole runs of events are lemmas about those functions.
- **Node comparator** (`NodeComparator`, node_comparator.dfy). The comparator that ranks
  permission nodes: equal nodes tie, otherwise the context-set comparator decides, and
  a context tie goes to the node comparator. The two sub-comparators are parameters;
  the lemmas show that the composition keeps the `java.util.Comparator` contract when
  they do, and that `reverse()` is the negation of `normal()` when its sub-comparators
  negate the normal ones.
- **Group weight** (`Weight`, weight.dfy). `supply` scans a group's weight nodes and
  keeps the first one of maximum weight; with no weight node it falls back to the
  configured weight of the group's lower-cased name; with neither it returns the null
  result. `Supply` is a method with the source's loop, proved equal to the function
  `WeightOf`; `WeightCache` is the memoising cell (fill on first `Get`, empty on
  `Invalidate`).
- **MariaDB strings** (`MariaDb`, mariadb.dfy). The statement processor that turns every
  apostrophe into a backtick, the JDBC URL built for the pool, and the default port.

`Wrappers` (wrappers.dfy) holds the `Option` type that stands for Java's nullable
references.

Inputs that the source reads from its environment are parameters here: the verbose
filter (an arbitrary `VerboseEvent -> bool`), the sub-comparators of the node
comparator, the group's own weight nodes and name, and the configured group weights.

Two behaviours of the code worth noting: the upload empties the buffer before the
payload is compressed and sent, so a failed upload still loses the drained events; and
`supply` relies on the node query it is given for expiry and context handling rather
than filtering nodes itself.

## Model

| member | source | states |
|---|---|---|
| Verbose.ShouldFilterStackTraceExactly | common/src/main/java/me/lucko/luckperms/common/verbose/VerboseListener.java:229-236 | the trace is filtered exactly for permission checks whose origin is PLATFORM_API_HAS_PERMISSION_SET or PLATFORM_API_HAS_PERMISSION; meta checks are never filtered |
| Verbose.SendNotification | common/src/main/java/me/lucko/luckperms/common/verbose/VerboseListener.java:153-172 | a permission or meta check yields a message carrying its target, key and result, with the trace filtered as shouldFilterStackTrace says; any other event kind yields the "Unknown event type" failure, never a silent skip |
| Verbose.Accept | common/src/main/java/me/lucko/luckperms/common/verbose/VerboseListener.java:130-145 | the total rises by one on every event; a rejected event changes nothing else; an accepted one raises matched by one and is appended only if fewer than 10,000 are stored; the invariant (buffer at most 10,000, buffer at most matched, matched at most total) is kept |
| Verbose.AcceptAllValid | common/src/main/java/me/lucko/luckperms/common/verbose/VerboseListener.java:112-145 | over any run of events the invariant is kept and the total grows by the number of events |
| Verbose.AcceptAllFromEmpty | common/src/main/java/me/lucko/luckperms/common/verbose/VerboseListener.java:130-145 | from a fresh listener, total is the number of events, matched the number of matches, and the buffer the first 10,000 matches in arrival order |
| Verbose.TruncatedIffOverflow | common/src/main/java/me/lucko/luckperms/common/verbose/VerboseListener.java:249 | from a fresh listener the truncation flag holds exactly when more than 10,000 events matched |
| Verbose.OverflowExample | common/src/main/java/me/lucko/luckperms/common/verbose/VerboseListener.java:140-145 | 10,001 matching events give total 10,001, matched 10,001, 10,000 stored and a truncated upload |
| Verbose.RenderAll | common/src/main/java/me/lucko/luckperms/common/verbose/VerboseListener.java:266-269 | the data array has one record per buffered event, in buffer order, each rendered with the printer shouldFilterStackTrace selects |
| Verbose.Export | common/src/main/java/me/lucko/luckperms/common/verbose/VerboseListener.java:249-269 | the upload reports matched and total unchanged, truncated exactly when matched exceeds the buffer length, and the buffered events in order |
| Verbose.Drained | common/src/main/java/me/lucko/luckperms/common/verbose/VerboseListener.java:270 | after the upload the buffer is empty, the counters are unchanged and the invariant still holds |
| Verbose.ExportTwice | common/src/main/java/me/lucko/luckperms/common/verbose/VerboseListener.java:249-270 | a second upload with no event in between has no data and the same counts |
| Verbose.AcceptAfterDrain | common/src/main/java/me/lucko/luckperms/common/verbose/VerboseListener.java:143-145 | after a drain the next matched event is stored again |
| Verbose.VerboseListener.constructor | common/src/main/java/me/lucko/luckperms/common/verbose/VerboseListener.java:104-123 | a new listener has both counters at 0 and an empty buffer |
| Verbose.VerboseListener.AcceptEvent | common/src/main/java/me/lucko/luckperms/common/verbose/VerboseListener.java:130-151 | the fields change as Accept says, the invariant is kept, and a notification is produced exactly when the event matched and notify is set, after the state change |
| Verbose.VerboseListener.UploadPasteData | common/src/main/java/me/lucko/luckperms/common/verbose/VerboseListener.java:244-270 | the loop over the buffer yields Export of the state before the call, the flag taken before the drain; afterwards the buffer is empty and both counters unchanged |
| NodeComparator.EqualNodesTie | common/src/main/java/me/lucko/luckperms/common/node/comparator/NodeWithContextComparator.java:59-61 | equal nodes compare as 0 whatever the sub-comparators would answer |
| NodeComparator.ContextsDecideFirst | common/src/main/java/me/lucko/luckperms/common/node/comparator/NodeWithContextComparator.java:63-68 | for unequal nodes a nonzero context-set result is returned unchanged, and on a context tie the node comparator's result is returned |
| NodeComparator.CompareComesFromParts | common/src/main/java/me/lucko/luckperms/common/node/comparator/NodeWithContextComparator.java:58-69 | every answer is 0 or the answer of one of the two sub-comparators |
| NodeComparator.CompareAntisymmetric | common/src/main/java/me/lucko/luckperms/common/node/comparator/NodeWithContextComparator.java:58-69 | if both sub-comparators are antisymmetric, so is the composition |
| NodeComparator.CompareTransitive | common/src/main/java/me/lucko/luckperms/common/node/comparator/NodeWithContextComparator.java:58-69 | if the context-set comparator keeps the comparator contract and the node comparator is antisymmetric and transitive, the composition is transitive |
| NodeComparator.CompareZeroConsistent | common/src/main/java/me/lucko/luckperms/common/node/comparator/NodeWithContextComparator.java:58-69 | if both sub-comparators keep the contract, nodes the composition ties compare alike against every node |
| NodeComparator.ReverseNegatesNormal | common/src/main/java/me/lucko/luckperms/common/node/comparator/NodeWithContextComparator.java:38-47 | when the reverse sub-comparators negate the normal ones, reverse().compare is the negation of normal().compare on every pair |
| Weight.ToLowerAscii | common/src/main/java/me/lucko/luckperms/common/model/WeightCache.java:62 | the key keeps the name's length, lower-cases each position and holds no upper-case ASCII letter |
| Weight.HeaviestNodeIsFirstMaximum | common/src/main/java/me/lucko/luckperms/common/model/WeightCache.java:53-58 | the scan keeps a node exactly when there is one, and it is the first node of maximum weight, because replacement needs a strictly greater weight |
| Weight.WeightOfNodes | common/src/main/java/me/lucko/luckperms/common/model/WeightCache.java:53-58 | with weight nodes the result is node-derived, at least as heavy as every node, and is the first heaviest node |
| Weight.WeightOfIgnoresConfigWhenNodesExist | common/src/main/java/me/lucko/luckperms/common/model/WeightCache.java:60 | with weight nodes the configuration has no influence on the result |
| Weight.WeightOfFallback | common/src/main/java/me/lucko/luckperms/common/model/WeightCache.java:60-68 | without weight nodes the result is the configured weight of the lower-cased name, or the null result when there is none |
| Weight.WeightOfNullOnlyWithoutSources | common/src/main/java/me/lucko/luckperms/common/model/WeightCache.java:50-68 | the result is the null result exactly when there is neither a weight node nor a configured weight |
| Weight.HeaviestOfTwoExample | common/src/main/java/me/lucko/luckperms/common/model/WeightCache.java:53-58 | nodes of weight 5 and 10 give the weight-10 node whatever its context |
| Weight.ConfigFallbackExample | common/src/main/java/me/lucko/luckperms/common/model/WeightCache.java:60-68 | group "Test" without nodes gets the weight configured for "test", and the null result when only another name is configured |
| Weight.Supply | common/src/main/java/me/lucko/luckperms/common/model/WeightCache.java:50-69 | the loop and fallback compute WeightOf of the group and configuration |
| Weight.WeightCache.constructor | common/src/main/java/me/lucko/luckperms/common/model/WeightCache.java:45-47 | a new cache holds no value |
| Weight.WeightCache.Get | common/src/main/java/me/lucko/luckperms/common/model/WeightCache.java:42-50 | a filled cell answers its stored value unchanged; an empty one computes WeightOf from the group's current state and stores it |
| Weight.WeightCache.Invalidate | common/src/main/java/me/lucko/luckperms/common/model/WeightCache.java:42 | the cell is emptied, so the next Get recomputes |
| MariaDb.StatementProcessor | common/src/main/java/me/lucko/luckperms/common/storage/implementation/sql/connection/hikari/MariaDbConnectionFactory.java:70 | the processed statement has the length of the input |
| MariaDb.StatementProcessorAt | common/src/main/java/me/lucko/luckperms/common/storage/implementation/sql/connection/hikari/MariaDbConnectionFactory.java:69-71 | each apostrophe becomes a backtick and every other character stays in place |
| MariaDb.StatementProcessorRemovesApostrophes | common/src/main/java/me/lucko/luckperms/common/storage/implementation/sql/connection/hikari/MariaDbConnectionFactory.java:70 | the output holds no apostrophe |
| MariaDb.StatementProcessorPreimage | common/src/main/java/me/lucko/luckperms/common/storage/implementation/sql/connection/hikari/MariaDbConnectionFactory.java:70 | an output backtick stands where the input had an apostrophe or a backtick; every other output character is the input's |
| MariaDb.StatementProcessorIdempotent | common/src/main/java/me/lucko/luckperms/common/storage/implementation/sql/connection/hikari/MariaDbConnectionFactory.java:70 | processing twice equals processing once |
| MariaDb.JdbcUrl | common/src/main/java/me/lucko/luckperms/common/storage/implementation/sql/connection/hikari/MariaDbConnectionFactory.java:53 | the URL starts with jdbc:mariadb:// and is as long as its parts plus the two separators |
| MariaDb.JdbcUrlRoundTrip | common/src/main/java/me/lucko/luckperms/common/storage/implementation/sql/connection/hikari/MariaDbConnectionFactory.java:53 | when the address holds no ':' and the port no '/', address, port and database name are read back from the URL unchanged |
| MariaDb.DefaultPortIsMariaDbPort | common/src/main/java/me/lucko/luckperms/common/storage/implementation/sql/connection/hikari/MariaDbConnectionFactory.java:45-48 | the default port is the four-digit numeral 3306 |

`ParseJdbcUrl` and `SplitAtFirst` are not in the source: they are the inverse used to
state that the URL's layout is unambiguous.

## Left out

- Notification rendering: the Adventure components, hover text, console check, thread and
  context lines and stack-trace printers (truncation to 15 and 40 lines) are not modelled;
  `Notification.Sent` records the message arguments and which printer the trace would use.
- Dates, durations, the uploader and filter strings of the metadata, JSON serialisation,
  gzip compression and the Bytebin upload with its errors: I/O and foreign libraries.
  `Snapshot` holds only the counts, the truncation flag and the event records.
- `VerboseFilter.evaluate` is an arbitrary function parameter.
- Verbose.VerboseListener.AcceptEvent: the counters are unbounded; Java's `AtomicInteger`
  would wrap after 2^31 - 1 increments. Concurrent calls, and the race on the size check
  that can let the buffer exceed 10,000, are not modelled.
- `getNotifiedSender` and `getMatchedCount` are plain getters and are not modelled.
- `CheckOrigin` is modelled with its two platform `hasPermission` constants; the other
  constants are carried by name, as the enumeration is not part of this model.
- `ContextSetComparator` and `NodeComparator` are not part of this model; their instances
  are parameters constrained by the comparator contract.
- NodeComparator.CompareTransitive: requires the full comparator contract (including that
  context sets comparing 0 compare alike against all others), not only transitivity and 0 on
  equal inputs, because without it a context tie between different sets breaks transitivity.
- Weight.ToLowerAscii: lower-cases ASCII letters only; `toLowerCase(Locale.ROOT)` also maps
  non-ASCII letters.
- The node query `getOwnNodes(NodeType.WEIGHT, DEFAULT_NON_CONTEXTUAL)` is not modelled: its
  result is the group's `weightNodes`. The `Cache` base class is not part of this model; its
  thread safety is left out and the group is passed to `Get` rather than held.
- `IntegerResult.intResult()` of the null result is not modelled, as `supply` never reads it.
- Java's `null` results cannot arise in Dafny, so "supply never returns null" holds by typing.
- `configureDatabase`'s driver, user and password setters and `postInitialize`'s driver
  deregistration: calls into HikariCP and JDBC.
