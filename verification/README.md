# Verified models of Torpedo's core logic

Torpedo drives and checks Portworx clusters: it parses the output of `pxctl` and `lsblk`, keeps a
registry of nodes, validates where replicas were placed, injects data into databases, waits for
backups, reports test cases to a dashboard, and moves disks between virtual machines and datastores
on vSphere. This project models the parts of that code with the most state, branching and arithmetic
in Dafny and proves properties of them that hold for every input, every run and every answer of the
outside world. `dafny verify dfyconfig.toml` checks the whole project.

| file | component |
|---|---|
| `PxctlParser.dfy`, `PxctlReports.dfy` | the line parser behind the `pxctl` address checks, and what it reads from whole reports |
| `KvdbUrls.dfy` | kvdb endpoint URLs and the two parsers that read addresses back from them |
| `BlockDrives.dfy` | block drives from `lsblk` output |
| `VolumePlacement.dfy` | validators of volume placement strategies |
| `NodeRegistry.dfy` | the node registry and its views |
| `StatusWait.dfy`, `PagedLookup.dfy` | waiting for a backup, and looking up objects page by page |
| `Dashboard.dfy` | the stack of open test cases of the dashboard |
| `SqlWorkload.dfy`, `DataInjector.dfy` | the generated SQL workload and the continuous data injector |
| `StorageVmotion.dfy`, `DiskMove.dfy`, `VmCache.dfy`, `DiskNames.dfy` | the vSphere driver |
| `Text.dfy`, `Wrappers.dfy` | Go's string functions and common datatypes |

The network, the clock, random strings and the answers of vCenter, the backup server and the
databases are parameters: a list of replies, a trace of events, or a function from the number of a
call to its outcome. Go's panics are values (`Panic`, `Crash`, `Crashed`). Ranging over a Go map is
a choice in any order. Nothing was executed; all results are proofs about the models.

## What does not hold

Some properties that the code suggests are false. In these cases the model follows the code, a lemma
names an input, and the exact condition is proved.

- Ending a test set ends every open test case exactly once only if at most two are open, or all but
  the first have the same id (`Dashboard.DrainExactlyOnce`): the loop ranges over an array that its
  own body shifts.
- A status report read with node count 0 yields the column title as an address
  (`PxctlReports.NodeTableYields`), a negative count loses every row (`PxctlReports.NodeTableRows`),
  and a detached volume makes the parser panic (`PxctlReports.InspectLinePanics`).
- A kvdb member line with exactly two columns passes the length test and then crashes
  (`KvdbUrls.MemberCrashes`).
- Made URLs can be split again only for hosts without brackets (`KvdbUrls.SplitJoined`).
- Empty `lsblk` output is read as one drive without a path (`BlockDrives.DrivesRoundTrip`), and values
  with an equals sign are cut or panic (`BlockDrives.FieldComesBack`).
- The paged lookups do not end while a server sends empty pages (`PagedLookup.FixedStoreUnfinished`),
  and miss the items that no page shows because earlier ones were deleted
  (`PagedLookup.MissesIffNeverShown`).
- Disk sizes whose sum exceeds 64 bits pass the space test (`StorageVmotion.RoomIffFits`).
- The presence check passes for an unknown application type (`SqlWorkload.UnknownTypePassesVacuously`).
- A path whose datastore name is empty, or occurs in front of the brackets, is rewritten in the wrong
  place (`DiskNames.RewriteBracketed`).
- A machine added to the VM cache is forgotten by the next reconnection
  (`VmCache.AddedMachineForgotten`). The comment on `PowerOnVMByName` asks for the VM to be in the
  cache beforehand, but the method rebuilds the cache before it looks.

Where comments and code differ, the code is modelled: `GetStorageDriverNodes` is documented to return
worker nodes but returns every node with the driver, masters included; the comment on
`WaitForBackupPartialCompletion` says it waits for success, but full success makes it fail.

## Model

| member | source | states |
|---|---|---|
| `PxctlParser.Parser.Parse` | pkg/ipv6util/ipv6util.go:76-85 | After a whole report the addresses are those of the functional account `Parsed` of the shared scanner, and the parser panics exactly when that account does |
| `PxctlParser.Parser.ParseLine` | pkg/ipv6util/ipv6util.go:94-112 | One line: every option is tried in turn, each going on where the one before left the shared scanner, with the column or the announced rows taken |
| `PxctlParser.Parser.ReadCounted` | pkg/ipv6util/ipv6util.go:101-106 | Announced rows: exactly as many as announced are consumed, fewer only when the report ends |
| `PxctlParser.Parser.Scan` | pkg/ipv6util/ipv6util.go:77-82 | The scanner hands out each line once, in order, and then reports the end |
| `PxctlParser.ScanPrintedLines` | pkg/ipv6util/ipv6util.go:77-82 | Scanning undoes printing: any list of printable lines comes back line by line |
| `PxctlParser.ScanDosLines` | pkg/ipv6util/ipv6util.go:77-82 | Also for lines that end with a carriage return and a line feed |
| `PxctlParser.TrimmedIs` | pkg/ipv6util/ipv6util.go:81 | Indentation by spaces and tabs is taken off a line, and nothing else |
| `PxctlReports.BlocksCover` | pkg/ipv6util/ipv6util.go:94-112 | Every text can be cut into blocks, a line with the rows it announces, such that the blocks put together are the text again and each has the announced number of rows unless the text ends |
| `PxctlReports.LineEffectIs` | pkg/ipv6util/ipv6util.go:94-112 | If no prefix of an option begins another, a line does what the one matching option says, or nothing |
| `PxctlReports.ReadRowsIs` | pkg/ipv6util/ipv6util.go:101-106 | Reading rows moves the scanner past exactly those rows and yields their columns in order, or panics exactly if a row has too few columns |
| `PxctlReports.ParseDocument` | pkg/ipv6util/ipv6util.go:76-112 | The parser of a report of blocks returns the addresses of all blocks in order, and panics if and only if some block has a matching option and a line or a row with no more columns than the index of that option; rows are never taken for headers |
| `PxctlReports.ParseAnyText` | pkg/ipv6util/ipv6util.go:76-112 | The same for every text whatsoever, by way of its blocks: addresses and panic condition |
| `PxctlReports.EachLineReadOnce` | pkg/ipv6util/ipv6util.go:76-112 | On every text, each address is a column of a line of its own and the lines are strictly increasing: no line is read twice |
| `PxctlReports.PrintedReport` | pkg/ipv6util/ipv6util.go:76-112 | Round trip: from any printed report, with any spacing, noise lines and tables, the parser reads back exactly the printed addresses in order |
| `PxctlReports.TablesExclusive` | pkg/ipv6util/ipv6util.go:144-217 | The option tables of the four report parsers satisfy the condition of the results above, for every node count |
| `PxctlReports.AddressColumns` | pkg/ipv6util/ipv6util.go:144-211 | Which column of which lines or rows each of the four reports yields, for every node count: the second of a status line, the third of the rows of a cluster list, the fourth of a cluster inspection, the fifth of a state line, the third of a node line |
| `PxctlReports.NodeTableYields` | pkg/ipv6util/ipv6util.go:144-156 | For every header, rows and node count: the node table yields the first columns of its rows, except that with node count 0 it yields the column title IP instead |
| `PxctlReports.NodeTableRows` | pkg/ipv6util/ipv6util.go:144-156 | Of the lines behind the header the table takes as many as the node count says, all if there are fewer, and none if the count is negative |
| `PxctlReports.InspectLinePanics` | pkg/ipv6util/ipv6util.go:205-211 | A line of a volume inspection panics if and only if it begins with State and has fewer than five columns, or begins with Node and has fewer than three |
| `PxctlReports.DetachedPanics` | pkg/ipv6util/ipv6util.go:205-211 | The line State : Detached is such a line |
| `PxctlReports.TrimParentheses` | pkg/ipv6util/ipv6util.go:212-216 | The in-place loop that strips parentheses from every address |
| `PxctlReports.TrimParenthesized` | pkg/ipv6util/ipv6util.go:212-216 | Stripping gives back the address, whether or not it stood in parentheses |
| `KvdbUrls.SplitJoined` | pkg/netutil/netutil.go:23-25 | The host and port of a made URL are recovered by splitting, for every port, if and only if the host holds no bracket |
| `KvdbUrls.MakeURLIs` | pkg/netutil/netutil.go:23-25 | A URL holds the host as it is, or in brackets if it has a colon, and digits that stand for the port |
| `KvdbUrls.ParseEndpoints` | pkg/ipv6util/ipv6util.go:235-248 | The addresses of the matching lines in order, up to the first that cannot be split, which is the error |
| `KvdbUrls.EndpointsRoundTrip` | pkg/ipv6util/ipv6util.go:235-248 | Round trip: all addresses of a printed endpoint report come back in order and without error, IPv4 or IPv6, http or https |
| `KvdbUrls.CollectStops` | pkg/ipv6util/ipv6util.go:241-246 | A line that cannot be read ends the parsing with exactly the addresses in front of it |
| `KvdbUrls.ParseMembers` | pkg/ipv6util/ipv6util.go:252-269 | The addresses of the member lines in order, with the crash on lines that are cut short |
| `KvdbUrls.ReadMember` | pkg/ipv6util/ipv6util.go:255-265 | A printed member row gives back its client address |
| `KvdbUrls.MembersRoundTrip` | pkg/ipv6util/ipv6util.go:252-269 | Round trip: all addresses of a printed member list come back in order, other lines being passed over |
| `KvdbUrls.MemberCrashes` | pkg/ipv6util/ipv6util.go:256-260 | A row that mentions http is skipped if it has one column, and crashes if and only if it has exactly two columns or its third holds no URL |
| `BlockDrives.ParseDrives` | drivers/node/ssh/ssh.go:948-1003 | The loop over the output equals the reading `ReadDrives`, including the out-of-range panic of a malformed column |
| `BlockDrives.ParseColumn` | drivers/node/ssh/ssh.go:954-1000 | The six tests run one after the other on a column amount to the one field that the column names |
| `BlockDrives.ParseLabels` | drivers/node/ssh/ssh.go:961-981 | The label loop, as a fold over the comma-separated entries |
| `BlockDrives.FieldComesBack` | drivers/node/ssh/ssh.go:955-957 | The value of a printed column comes back if and only if it holds no equals sign, and parsing panics if and only if it ends with one |
| `BlockDrives.ReadLabels` | drivers/node/ssh/ssh.go:963-980 | Printed labels come back as a map: pairs, bare labels as true, pool labels under pxpool, the last entry for a key winning |
| `BlockDrives.LastLabelWins` | drivers/node/ssh/ssh.go:966-979 | What is found under the key of a label that no later one shares: the value of a pair, true for a bare label, the id behind any:pwx under pxpool |
| `BlockDrives.OtherLabelsStay` | drivers/node/ssh/ssh.go:966-979 | No other key is touched |
| `BlockDrives.ReadLabelColumn` | drivers/node/ssh/ssh.go:958-982 | The same for the whole column, with or without labels |
| `BlockDrives.DrivesRoundTrip` | drivers/node/ssh/ssh.go:950-1003 | Round trip: output printed for a list of drives, with white space around it, is parsed into exactly those drives with all fields and labels, by path, if and only if the list is not empty |
| `BlockDrives.DriveComesBack` | drivers/node/ssh/ssh.go:951-1000 | Field by field, a printed line gives back the path, size, mount point, file system, type and labels of its drive |
| `BlockDrives.LastLineWins` | drivers/node/ssh/ssh.go:1001 | Each path holds the drive of the last line that has this path |
| `BlockDrives.EmptyOutput` | drivers/node/ssh/ssh.go:950-1001 | Empty output is parsed as one drive without a path |
| `VolumePlacement.GetNodePlacement` | pkg/vpsutil/vpsutil.go:90-96 | All nodes of all replica sets, in order, repetitions kept |
| `VolumePlacement.ValidateVolumeAntiAffinityByNode` | pkg/vpsutil/vpsutil.go:104-124 | No error if and only if under every label value in use the nodes are distinct and as many as expected; the error names a value that breaks the rule, and a repeated node is reported if and only if there is one |
| `VolumePlacement.CheckCounts` | pkg/vpsutil/vpsutil.go:118-122 | Ranging over the map in any order, an error if and only if some group has the wrong size, and then for such a group |
| `VolumePlacement.ValidateVolumeAffinityByNode` | pkg/vpsutil/vpsutil.go:127-146 | No error if and only if all replicas under a label value are on one node; the reported group lists each of its nodes once |
| `VolumePlacement.ValidateReplicaAffinityByNode` | pkg/vpsutil/vpsutil.go:149-160 | No error if and only if every replica of every volume is on the given node |
| `VolumePlacement.PlacedMembers` | pkg/vpsutil/vpsutil.go:98-116 | A node is grouped under a label value if and only if it is in a replica set of a volume whose label, the empty string if it has none, is that value |
| `VolumePlacement.PlacedCount` | pkg/vpsutil/vpsutil.go:98-116 | It is grouped there as often as it occurs in the replica sets of those volumes |
| `VolumePlacement.PlacedAdds` | pkg/vpsutil/vpsutil.go:98-116 | The volumes are gone through one by one, in order |
| `VolumePlacement.PlacedOne` | pkg/vpsutil/vpsutil.go:98-116 | A volume adds all its nodes to the value of its label and none to any other |
| `VolumePlacement.DistinctMeans` | pkg/vpsutil/vpsutil.go:104-116 | The nodes under a value are distinct if and only if none holds two replicas of volumes with that value |
| `VolumePlacement.ReplicaAffinityImpliesAffinity` | pkg/vpsutil/vpsutil.go:127-160 | Replicas confined to one node satisfy volume affinity on every label |
| `VolumePlacement.AffineAndAntiAffine` | pkg/vpsutil/vpsutil.go:104-146 | If both rules accept a placement with at least one replica, the expected number is 1 |
| `VolumePlacement.VerdictsIgnoreOrder` | pkg/vpsutil/vpsutil.go:104-146 | Both verdicts are the same for every order of the volumes |
| `NodeRegistry.Registry.AddNode` | drivers/node/node_registry.go:20-29 | Refused if the node has an id; otherwise stored under the generated id, which it takes |
| `NodeRegistry.Registry.UpdateNode` | drivers/node/node_registry.go:32-40 | Refused if the id is unknown; otherwise the entry is replaced |
| `NodeRegistry.Registry.DeleteNode` | drivers/node/node_registry.go:43-51 | Refused without an id; otherwise the entry is gone |
| `NodeRegistry.Registry.CleanupRegistry` | drivers/node/node_registry.go:219-221 | Leaves no node |
| `NodeRegistry.RunKeyed` | drivers/node/node_registry.go:20-51 | After every sequence of operations, each node is stored under its own id |
| `NodeRegistry.RunNeverEmptyKey` | drivers/node/node_registry.go:20-51 | While generated ids are non-empty, no run stores a node without id, so an update without id is always refused |
| `NodeRegistry.RunSeparates` | drivers/node/node_registry.go:20-51 | Entries do not interfere: what any run leaves under an id is left by the operations on that id alone |
| `NodeRegistry.AddThenDelete` | drivers/node/node_registry.go:20-51 | Deleting the node just added restores the registry if and only if its id was new and non-empty (or, with a failed generator, the empty id already held that node) |
| `NodeRegistry.Registry.Collect` | drivers/node/node_registry.go:54-60 | Ranging over the map in any order lists every node with the property exactly once |
| `NodeRegistry.Registry.GetNodes` | drivers/node/node_registry.go:54-60 | Lists all nodes, each once |
| `NodeRegistry.Registry.GetMasterNodes` | drivers/node/node_registry.go:74-82 | Lists the masters, each once |
| `NodeRegistry.Registry.IsMasterNode` | drivers/node/node_registry.go:85-92 | True if and only if the registry holds a master under the node's id |
| `NodeRegistry.Registry.GetStorageDriverNodes` | drivers/node/node_registry.go:96-104 | Lists the workers and masters on which the driver is installed, each once |
| `NodeRegistry.Registry.GetStorageNodes` | drivers/node/node_registry.go:112-121 | Lists the driver nodes that have pools, each once |
| `NodeRegistry.Registry.GetStorageLessNodes` | drivers/node/node_registry.go:124-133 | Lists the driver nodes without pools, each once |
| `NodeRegistry.Registry.GetPXDisabledNodes` | drivers/node/node_registry.go:236-247 | Lists the nodes that are neither driver nodes nor masters, each once |
| `NodeRegistry.ViewsPartition` | drivers/node/node_registry.go:54-247 | After every run, as multisets: storage and storageless nodes make up the driver nodes; driver nodes, disabled nodes and masters without driver make up all nodes |
| `StatusWait.PollOnce` | drivers/backup/portworx/portworx.go:954-978 | One poll: retried if and only if the status decides nothing for this wait, an error unless the status is the awaited one, the captured error set for good on a hopeless status |
| `StatusWait.DecisiveMeans` | drivers/backup/portworx/portworx.go:963-972 | Which statuses end each of the two waits: success, failed, aborted and invalid for the one, these and partial success for the other |
| `StatusWait.WaitForBackup` | drivers/backup/portworx/portworx.go:936-986 | The wait succeeds if and only if the first decisive status is the awaited one; it times out if and only if no poll was decisive; otherwise it reports the first decisive status |
| `StatusWait.NeverBoth` | drivers/backup/portworx/portworx.go:936-1041 | For a backup that settles, the completion wait and the partial-completion wait never both succeed, however their polls interleave |
| `StatusWait.OtherSuccess` | drivers/backup/portworx/portworx.go:990-1041 | The waits are not symmetric: after a partial success the completion wait cannot end before its deadline, while after a full success the next answered poll of the partial wait fails |
| `PagedLookup.Enumerate` | drivers/backup/portworx/portworx.go:2041-2063 | The page loop against any replies: the first match of the items received, not-found only when as many items were received as announced, an error at the first refused request; each request asks for the page right behind what was received |
| `PagedLookup.GetUID` | drivers/backup/portworx/portworx.go:2041-2063 | The uid of the item found by name, for backups, restores and schedules |
| `PagedLookup.GetBackupName` | drivers/backup/portworx/portworx.go:2067-2091 | The name of the item found by uid |
| `PagedLookup.SeenIsPrefix` | drivers/backup/portworx/portworx.go:2046-2062 | Against a store that only grows at its end, the items received are always a prefix of the store |
| `PagedLookup.PagedIsScan` | drivers/backup/portworx/portworx.go:2041-2063 | Paging is a plain scan: what is found is the first match in the store at the last request and ever after, and not-found means that store has no match |
| `PagedLookup.FixedStoreUnfinished` | drivers/backup/portworx/portworx.go:2046-2062 | On a store that does not change, the loop goes on asking if and only if no request was refused, no match was sent and part of the store is still to come |
| `PagedLookup.FixedStoreDecides` | drivers/backup/portworx/portworx.go:2046-2062 | So if no page is empty before the end, the lookup is decided within as many requests as there are items |
| `PagedLookup.EmptyPagesNeverEnd` | drivers/backup/portworx/portworx.go:2046-2062 | For every non-empty store and every number of empty pages, the loop has received nothing and asks again |
| `PagedLookup.SeenIffShown` | drivers/backup/portworx/portworx.go:2046-2062 | However the store changes between requests, an item is received if and only if at some request one of its positions lies in the window of the page sent |
| `PagedLookup.MissesIffNeverShown` | drivers/backup/portworx/portworx.go:2046-2062 | However the store changes, a decided lookup answers not-found if and only if no window showed a match |
| `PagedLookup.MissedItemSlips` | drivers/backup/portworx/portworx.go:2046-2062 | A match that is in the store at every request is missed only if between two requests it moves from beyond the received items to a position among them |
| `PagedLookup.DeletionHidesAnItem` | drivers/backup/portworx/portworx.go:2046-2062 | Such a history: the first item is deleted between two pages, and an item present throughout is reported as not found |
| `PagedLookup.NameInvertsUid` | drivers/backup/portworx/portworx.go:2041-2091 | The name of the uid of a name is that name again, even if the store grows during and between the two lookups |
| `Dashboard.Board.TestCaseBegin` | pkg/aetosutil/dashboardutil.go:274-348 | The created id, or the one before if creation failed, becomes current and is pushed behind the open ones, as a step of the runs below; nothing happens while disabled or without a test set |
| `Dashboard.Board.RemoveTestCase` | pkg/aetosutil/dashboardutil.go:237-251 | In place, the first occurrence of the id is removed from the slice, the backing array shifting under it |
| `Dashboard.Board.TestCaseEnd` | pkg/aetosutil/dashboardutil.go:204-235 | Sends one end call for the current id and removes it from the stack; nothing happens while disabled or without an id |
| `Dashboard.Board.TestSetEnd` | pkg/aetosutil/dashboardutil.go:177-201 | Sends the end calls given by `Drain`, the range over an array that each round shifts, and clears the stack |
| `Dashboard.RemoveIds` | pkg/aetosutil/dashboardutil.go:237-251 | On the ids in use the shift is removal of the first occurrence from a list |
| `Dashboard.EndUndoesBegin` | pkg/aetosutil/dashboardutil.go:204-348 | Ending a test case restores the stack before it began if and only if only its id stands behind its first occurrence; so always for a new id |
| `Dashboard.DrainTrace` | pkg/aetosutil/dashboardutil.go:183-188 | For every stack in which equal ids are adjacent and zeros come first: the zeros are passed over, and of the other n ids, call i goes to id number min(2i, n - 1) |
| `Dashboard.DrainReaches` | pkg/aetosutil/dashboardutil.go:183-188 | Of these, id number k is ended if and only if k is even or the last, or the id next to it is the same |
| `Dashboard.DrainExactlyOnce` | pkg/aetosutil/dashboardutil.go:183-188 | Every open test case is ended exactly once if and only if at most two are open, or all but the first have the same id |
| `Dashboard.DistinctExactlyOnce` | pkg/aetosutil/dashboardutil.go:183-188 | With distinct ids, if and only if at most two are open |
| `Dashboard.RunOrderly` | pkg/aetosutil/dashboardutil.go:177-348 | After every sequence of beginnings, with or without an answer from the server, and endings, equal ids are adjacent, zeros come first and the current id is last, as long as the server hands out ids that are not on the stack |
| `Dashboard.RunTrace` | pkg/aetosutil/dashboardutil.go:177-348 | So the calls of the next test set end are those above after every such run |
| `Dashboard.RunBegins` | pkg/aetosutil/dashboardutil.go:274-348 | In every run a beginning pushes the created id, or the current one again, behind all others and makes it current |
| `Dashboard.RunEnds` | pkg/aetosutil/dashboardutil.go:204-251 | In every run an ending takes off the last id if it is the current one, and nothing otherwise: last in, first out |
| `Dashboard.AllBegun` | pkg/aetosutil/dashboardutil.go:274-348 | Test cases begun one after another are all on the stack, in order |
| `SqlWorkload.PrintInjective` | drivers/utilities/utilities.go:66-104 | The text of a command determines the command, for both database types |
| `SqlWorkload.GeneratedPlain` | drivers/utilities/utilities.go:47-104 | The commands made from random lower-case letters satisfy the condition of that result |
| `SqlWorkload.TextsDetermine` | drivers/utilities/utilities.go:66-104 | So the texts of two lists of such commands agree only if the lists do |
| `SqlWorkload.InsertText` | drivers/utilities/utilities.go:84 | The text of an insert |
| `SqlWorkload.SelectText` | drivers/utilities/utilities.go:85-90 | The text of a select, with the key column quoted for MySQL only |
| `SqlWorkload.UpdateText` | drivers/utilities/utilities.go:85-91 | The text of an update |
| `SqlWorkload.DeleteText` | drivers/utilities/utilities.go:85-92 | The text of a delete |
| `SqlWorkload.ExecuteCommand` | drivers/applications/mysql/mysql.go:65-83 | Commands take effect in order up to the first that fails, which is the error; without a connection none does |
| `SqlWorkload.TableMustExist` | drivers/utilities/utilities.go:66-76 | Creating a table that exists leaves it alone, and a command on a missing table fails |
| `SqlWorkload.CheckDataPresent` | drivers/applications/mysql/mysql.go:111-142 | No error if and only if there is a connection and every select finds a row; all failing selects are reported in order |
| `SqlWorkload.SelectFails` | drivers/applications/mysql/mysql.go:126-134 | A select fails if and only if its table is missing or holds no row with its key |
| `SqlWorkload.FailingAdds` | drivers/applications/mysql/mysql.go:126-134 | The failing queries come in their order |
| `SqlWorkload.GenerateRandomSQLCommands` | drivers/utilities/utilities.go:58-109 | The four lists of the workload for any count, negative counts included, as given by `Generated` |
| `SqlWorkload.GeneratedAt` | drivers/utilities/utilities.go:66-104 | Command by command: all lists name one table and the keys 0, 1, 2 and so on, inserts and updates carry their values, and the insert list begins with the creation of the table |
| `SqlWorkload.RowsAt` | drivers/utilities/utilities.go:80-92 | The rows that the workload leads to, before and after their update |
| `SqlWorkload.WorkloadAgrees` | drivers/utilities/utilities.go:58-109 | On a fresh table: the inserts give n rows with distinct keys that every select finds, the updates keep keys and replace all values, the deletes empty the table, with or without updates, and then every select fails; other tables are untouched |
| `SqlWorkload.UpdateChangesValue` | drivers/utilities/utilities.go:80-92 | Every update changes its value, for equally long random parts |
| `SqlWorkload.UnknownTypePassesVacuously` | drivers/utilities/utilities.go:62-105 | The presence check passes although inserts failed if and only if the application type is unknown and there was something to insert |
| `DataInjector.StartData` | drivers/applications/mysql/mysql.go:163-204 | The injector over any interleaving of commands, ticks and outside changes runs until the first stop command; the recorded selects are those of all attempted inserts, in order, failed ones included |
| `DataInjector.CheckRecorded` | drivers/applications/mysql/mysql.go:111-142 | The closing check reports exactly the recorded keys that are absent, in order |
| `DataInjector.AbsentAdds` | drivers/applications/mysql/mysql.go:111-142 | The absent keys come in their order |
| `DataInjector.NilIff` | drivers/applications/mysql/mysql.go:163-217 | A stopped run returns nil if and only if the table was created, every attempted insert succeeded, the check could connect and every attempted row was there at the stop |
| `DataInjector.OtherwiseIff` | drivers/applications/mysql/mysql.go:181-187 | Otherwise it returns the errors if anything failed, then the failing connection, then exactly the absent keys |
| `DataInjector.NothingLost` | drivers/applications/mysql/mysql.go:163-217 | If nothing failed and nobody removed a row, the run returns nil |
| `DataInjector.QuietStretch` | drivers/applications/mysql/mysql.go:177-200 | Between commands: nothing is inserted or recorded while paused, every tick is recorded otherwise; any command but stop and pause resumes |
| `DataInjector.AfterCommand` | drivers/applications/mysql/mysql.go:177-200 | Behind the command Pause no tick is recorded until the next command; behind any other command every tick is |
| `DataInjector.AtTheBeginning` | drivers/applications/mysql/mysql.go:164-200 | Before the first command every tick is recorded |
| `StorageVmotion.HasRoomExactly` | drivers/node/vsphere/vsphere.go:964-973 | The space test in truncating 64-bit arithmetic equals a division-free inequality in whole KB: no step overflows |
| `StorageVmotion.HasRoomBound` | drivers/node/vsphere/vsphere.go:964-973 | A datastore that passes has the bytes free and is at most 90 percent full afterwards, up to 1023 bytes |
| `StorageVmotion.HasRoomConverse` | drivers/node/vsphere/vsphere.go:964-973 | A datastore is turned away only within 1944 bytes of that limit |
| `StorageVmotion.SumDisks` | drivers/node/vsphere/vsphere.go:940-945 | The running total of disk sizes, with 64-bit wrap-around |
| `StorageVmotion.WrappedIsTotal` | drivers/node/vsphere/vsphere.go:940-945 | The total is the true sum at every step, if that fits in 64 bits |
| `StorageVmotion.TotalAdds` | drivers/node/vsphere/vsphere.go:940-945 | The true sum is that of the capacities of the disks |
| `StorageVmotion.RoomIffFits` | drivers/node/vsphere/vsphere.go:940-973 | A datastore accepted for the running total really has room for the disks if and only if the true sum fits in 64 bits |
| `StorageVmotion.OverflowIsAccepted` | drivers/node/vsphere/vsphere.go:940-973 | Four disks of 2^62 KB are accepted on a datastore of 1 GB |
| `StorageVmotion.FilterTargetDatastores` | drivers/node/vsphere/vsphere.go:933-986 | Exactly the datastores that can be read, are not the source, are not in its cluster and have room, in order; an error if the source's cluster cannot be read or none is left |
| `StorageVmotion.KeptMembers` | drivers/node/vsphere/vsphere.go:947-980 | Membership in the filtered list, both directions |
| `StorageVmotion.KeepsIff` | drivers/node/vsphere/vsphere.go:947-980 | A datastore passes if and only if it is not the source, can be read, has the room in whole KB with at most 90 percent used, and is not in the source's cluster |
| `StorageVmotion.KeptAdds` | drivers/node/vsphere/vsphere.go:947-980 | Those that pass are kept in their order |
| `StorageVmotion.ChooseTarget` | drivers/node/vsphere/vsphere.go:813-834 | The only candidate unread, or the first with the most free space among those that can be read; an error if and only if none of several can |
| `StorageVmotion.ChosenMeans` | drivers/node/vsphere/vsphere.go:813-834 | A target chosen among several can be read, none is known to have more free space, and none in front of it as much |
| `StorageVmotion.SortByCapacity` | drivers/node/vsphere/vsphere.go:1018-1020 | A permutation by descending capacity |
| `StorageVmotion.FindLargestDisks` | drivers/node/vsphere/vsphere.go:989-1035 | The locators of exactly the disks backed by the given datastores, largest first |
| `StorageVmotion.BackedCount` | drivers/node/vsphere/vsphere.go:1001-1016 | The disks considered are exactly those whose flat backing is on one of the datastores |
| `StorageVmotion.InitiateStorageVmotion` | drivers/node/vsphere/vsphere.go:1038-1053 | In place, every locator sent gets the target as its datastore and keeps its disk; those beyond are unchanged |
| `StorageVmotion.RetargetAll` | drivers/node/vsphere/vsphere.go:836-860 | The datastore first put into the locators makes no difference to the request |
| `StorageVmotion.AllLocatorsMembers` | drivers/node/vsphere/vsphere.go:843-852 | When all disks move, the request names exactly the keys of the disks of the VM, each with the target |
| `StorageVmotion.AllLocatorsInOrder` | drivers/node/vsphere/vsphere.go:843-852 | The locators come in the order of the disks |
| `StorageVmotion.GetCompatibleDatastores` | drivers/node/vsphere/vsphere.go:207-228 | The datastores whose name begins with the prefix, in order; an error for an empty prefix or no match |
| `StorageVmotion.CompatibleAdds` | drivers/node/vsphere/vsphere.go:207-228 | Exactly the datastores whose name has the prefix, in their order |
| `StorageVmotion.StorageVmotion` | drivers/node/vsphere/vsphere.go:769-865 | A request moves a largest disk on the compatible datastores, or all disks, to a target that passes the filter and is the first of the emptiest; it is refused only without prefix, without such a disk, or if no target passes or can be read |
| `StorageVmotion.TargetIsEmptiest` | drivers/node/vsphere/vsphere.go:813-834 | No datastore that passes the filter is known to have more free space than the target |
| `StorageVmotion.NoOvercommit` | drivers/node/vsphere/vsphere.go:769-973 | In both modes the target is not the source, not in its cluster, has room for what is moved and is at most 90 percent full afterwards, up to 1023 bytes |
| `DiskMove.VCenter.DetachAll` | drivers/node/vsphere/vsphere.go:677-705 | Detaches the non-root disks in order up to the first error; the world is that of the calls that took effect |
| `DiskMove.VCenter.AttachAll` | drivers/node/vsphere/vsphere.go:707-726 | Attaches the collected disks in order up to the first error |
| `DiskMove.VCenter.MoveDisks` | drivers/node/vsphere/vsphere.go:654-729 | For every way in which vCenter answers, with calls that take effect though reported as failed, the result and the world after the last call that took effect |
| `DiskMove.VCenter.RemoveNonRootDisks` | drivers/node/vsphere/vsphere.go:732-764 | Destroys the non-root disks in order up to the first error, and nothing else |
| `DiskMove.RemovalTakes` | drivers/node/vsphere/vsphere.go:732-764 | Removal takes, once done, every listed disk whose unit number is not 0 and no other device, and touches no other VM |
| `DiskMove.MovableWithin` | drivers/node/vsphere/vsphere.go:677-705 | What moves is among the devices of the source and is no root disk |
| `DiskMove.MovableCount` | drivers/node/vsphere/vsphere.go:677-705 | What moves, on the data: every disk whose unit number is not 0 among the devices in front of the first disk without a unit number, and nothing else |
| `DiskMove.MovableInOrder` | drivers/node/vsphere/vsphere.go:677-705 | The disks move in the order in which they are listed |
| `DiskMove.ThreePlaces` | drivers/node/vsphere/vsphere.go:654-729 | At every step the moved disks are divided, in order, into attached to the target, detached, and still on the source |
| `DiskMove.EveryStep` | drivers/node/vsphere/vsphere.go:654-729 | At every step each of the three parts is exactly where it should be, and nothing else changes on any VM; source and target may be the same VM |
| `DiskMove.RootsStay` | drivers/node/vsphere/vsphere.go:654-729 | At no step does a root disk, or a device that is no disk, leave or enter any VM |
| `DiskMove.SuccessMovesAll` | drivers/node/vsphere/vsphere.go:654-729 | After success every non-root disk is on the target and none is loose; if source and target are the same VM, it is as before |
| `DiskMove.DoneMovesDataDisks` | drivers/node/vsphere/vsphere.go:654-729 | After a move that is done, the target has gained and the source lost every listed disk whose unit number is not 0, and no other device |
| `DiskMove.ResultMeans` | drivers/node/vsphere/vsphere.go:654-729 | A move is done if and only if every disk has a unit number and all detachments and attachments are applied; it crashes if and only if a disk has none and all detachments in front of it are applied |
| `DiskMove.FailureStrands` | drivers/node/vsphere/vsphere.go:654-729 | After a failure at call c exactly the disks detached and not attached are stranded: those up to the failing detachment, or those from the failing attachment on |
| `DiskMove.CrashStrands` | drivers/node/vsphere/vsphere.go:677-705 | After a crash at a disk without unit number all disks in front of it are stranded |
| `DiskMove.MoveConserves` | drivers/node/vsphere/vsphere.go:654-729 | No step creates or destroys a device |
| `VmCache.Driver.Connect` | drivers/node/vsphere/vsphere.go:243-298 | On success the cache maps exactly the registered node names that are host names to the first VM with that host name; on an error it is what was filled up to there |
| `VmCache.Driver.FindNode` | drivers/node/vsphere/vsphere.go:454-465 | After a reconnection, the VM found is the one that inventory and registry determine, whatever was cached |
| `VmCache.Driver.Perform` | drivers/node/vsphere/vsphere.go:477-498 | Powering on sends nothing to a VM that is on or cannot be read, and succeeds in the first case; otherwise, and for all other actions, exactly that action is requested, and its outcome is the result |
| `VmCache.Driver.UseNode` | drivers/node/vsphere/vsphere.go:454-639 | Reboot, power on, power off, destroy and shutdown request at most their own action, on a VM with the host name of the node that inventory and registry determine; and when they succeed, by kind and answers |
| `VmCache.Driver.DetachDisk` | drivers/node/vsphere/vsphere.go:324-374 | Empties the cache once logged in, and requests the removal of the last disk that matches the path from the first VM with the uuid; an error if there is none |
| `VmCache.SelectDevice` | drivers/node/vsphere/vsphere.go:354-368 | The device loop, which does not stop at a match, selects the last one |
| `VmCache.MatchesBase` | drivers/node/vsphere/vsphere.go:377-381 | Two paths with extensions match if and only if they agree up to the extension |
| `VmCache.StemPlain` | drivers/node/vsphere/vsphere.go:377-381 | A path whose last element has no dot is compared as it is |
| `VmCache.RemovesAt` | drivers/node/vsphere/vsphere.go:337-372 | On the data: the last matching disk of the first VM with the uuid |
| `VmCache.RemovesNothing` | drivers/node/vsphere/vsphere.go:337-373 | When nothing is removed |
| `VmCache.Driver.AddMachine` | drivers/node/vsphere/vsphere.go:417-451 | Enters the machine under its host name; an error if it has none |
| `VmCache.Driver.PowerOnVMByName` | drivers/node/vsphere/vsphere.go:526-554 | Powers on the indexed VM or, failing that, the machine of this VM name if its host name is the same; and what is cached afterwards |
| `VmCache.RightMachine` | drivers/node/vsphere/vsphere.go:454-639 | Whatever is acted on has the host name that was asked for |
| `VmCache.SelectedAt` | drivers/node/vsphere/vsphere.go:454-465 | The VM of a node is the first with its host name, if and only if the node is registered and all VMs can be read |
| `VmCache.SelectedByName` | drivers/node/vsphere/vsphere.go:526-547 | A name without a VM of a node is taken for a VM name, and that machine is used if its host name is the same |
| `VmCache.IndexUnique` | drivers/node/vsphere/vsphere.go:269-296 | Inventory and registry determine the cache |
| `VmCache.HistoryForgotten` | drivers/node/vsphere/vsphere.go:243-298 | Once logged in, two drivers with any histories have the same cache |
| `VmCache.AddedMachineForgotten` | drivers/node/vsphere/vsphere.go:417-451 | A machine added by hand is still cached after the next login if and only if a node is registered under its host name and it is the first readable VM with that host name |
| `VmCache.UnregisteredIsLost` | drivers/node/vsphere/vsphere.go:417-451 | An inventory that shows the machine, and a registry without its node: it is lost |
| `DiskNames.GetUUIDFromVMDKPath` | drivers/node/vsphere/vsphere.go:867-911 | The formatted uuid of the first flat disk with the path; not found if there is none |
| `DiskNames.FormatIs` | drivers/node/vsphere/vsphere.go:890-905 | Formatting depends only on what is left without spaces, hyphens and case, and succeeds if and only if that is 32 characters |
| `DiskNames.FormatShape` | drivers/node/vsphere/vsphere.go:890-905 | The result has the 8-4-4-4-12 form of section 3 of RFC 4122: 36 characters in lower case, with hyphens at four places and nowhere else |
| `DiskNames.FormatPlain` | drivers/node/vsphere/vsphere.go:890-905 | 32 characters without spaces, hyphens and capitals are kept as they are, with hyphens between |
| `DiskNames.CanonOne` | drivers/node/vsphere/vsphere.go:892-905 | Spaces and hyphens are dropped, letter i of the capital alphabet becomes letter i of the small one, and all else is kept |
| `DiskNames.FormatIdempotent` | drivers/node/vsphere/vsphere.go:890-905 | A formatted uuid is formatted to itself |
| `DiskNames.FormatIdentifies` | drivers/node/vsphere/vsphere.go:890-905 | Two uuids are formatted alike if and only if they differ at most in spaces, hyphens and case |
| `DiskNames.RewritePanics` | drivers/node/vsphere/vsphere.go:392-396 | Rewriting a path panics if and only if it has no closing bracket or the first one precedes the first opening bracket |
| `DiskNames.RewriteUnopened` | drivers/node/vsphere/vsphere.go:392-398 | Without an opening bracket, all in front of the closing bracket is replaced by the datastore |
| `DiskNames.RewriteExactly` | drivers/node/vsphere/vsphere.go:392-398 | On every path that does not panic and for every datastore, the exact condition for the part between the first brackets to be what is replaced |
| `DiskNames.RewriteBracketed` | drivers/node/vsphere/vsphere.go:392-398 | On any path front[name]rest, the name in brackets is replaced by the datastore if and only if it does not occur in front, as the empty name always does, or is the datastore already |

## Left out

- The HTTP, gRPC, Kubernetes and SSH plumbing and everything it calls: only its answers appear, as parameters.
- Wall-clock behaviour: timeouts, sleeps and the goroutine of the retry helper appear as the list of polls that fit before the deadline.
- Data races: the package-level registry, VM cache and stack of test cases are used by one caller at a time here.
- Error texts and logging: an error is a value that says which check failed.
- The scanner's limit of 64 KB for a line, and `scanner.Err`, which the parser does not look at either.
- Characters beyond ASCII: lengths are counted in characters, not bytes, and case folding is that of ASCII; white space is the Unicode set.
- The volume list and resource-down alert parsers and the dispatch on the command name: they would add regular expressions and table lookups only.
- The validation of parsed addresses (`IsAddressIPv6`), which is done by a library.
- Length limits and types of SQL columns, and escaping: commands are run on tables of key and value; names and values with spaces or quotes are not generated (`GeneratedPlain`).
- The kubevirt injector, and `GenerateSQLCommandPair` beyond its key: the keys of inserted rows are parameters of the events.
- Nil values from vCenter: a locator without datastore, a disk without backing object.
- The order of equally large disks, which the source's sort leaves open as well.
- The loop of `GetDiskPaths` over drive configurations: the rewriting of one path is modelled.
- The registry's lookups by name, address, zone, region and metadata: linear searches that would add easy members.
- The rest of the dashboard (verification records, statistics, comments), which only forwards.
- The remaining drivers, schedulers and test suites of the repository.
- DrainTrace: is about the stacks that runs lead to (`RunOrderly`); a server that hands out an id that is still open is not covered.
- StartData: the final check uses the table as it stands at the stop command, with no changes between its queries.
- UseNode: the state of the VM after a request is vCenter's; the model ends with the request sent and its outcome.
- ReadCounted: the source's index of a column and count are given by the option tables, so a negative index is not modelled.
