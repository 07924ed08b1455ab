# poudriere's jail and ports-tree core, modelled in Dafny

This project models the C core of poudriere, the FreeBSD package builder.
The core lives in `src/utils.c` and `src/ports.c`. It builds package-build
jails on ZFS and keeps its own metadata in ZFS user properties, which it
reads back by parsing the tabular output of `zfs list -H`.

The model covers these pieces:

- **Process runner.** `exec_buf` collects a command's output line by
  line with `fgets` and `sbuf_cat`, which drops the rest of a line after a
  NUL, and reports empty output the same way as a failed `popen` (module
  `Runner`).
- **Property store: `zfs_list`.** It builds the listing command, prints the
  column titles, tokenizes the captured buffer in place (a run of
  whitespace is one separator) and prints the fields of every row of the
  requested type (modules `Tokens` and `Zfs`).
- **Property store: `zfs_query`.** It looks up the first row with a given
  type and name and decodes its fields into the caller's records. Strings
  go through `strlcpy`; integers go through `strtonum`, and the text `-`
  means 0 (modules `Query` and `Numbers`).
- **`split_chr`.** It cuts a C string in place at every separator and
  counts the separators (module `Split`).
- **`mkdirs`.** It calls `mkdir` on every prefix of a path that ends just
  before a `/`, then on the whole path. It tolerates EEXIST and EISDIR and
  stops at any other error (module `Mkdirs`).
- **Jail lifecycle.** These are `jail_runs`, `jail_kill`, the parameter
  table `jail_run` creates a jail with, and `jail_stop` (module `Jails`).
  `jail_stop` kills each direct child and then the jail itself, unmounts
  every mount below the jail's mount point, and rolls the dataset back to
  `@clean`.
- **`mount_nullfs`.** It sets up the nullfs overlays of the ports tree, the
  package directory and, when configured, the distfiles cache (module
  `Nullfs`). It stops at the first fatal failure.
- **`ports_list` and `exec_ports`** (module `Ports`). `ports_list` cuts the
  captured output at every single whitespace character and prints one
  line per `ports` row of three cells after a fixed header. `exec_ports`
  is the option state machine: it picks the action, counts how often the
  usage text is printed, dispatches, and always returns `EX_OK`.

The operating system is a `Host.Machine` object. Its fields are:

- the set of existing directories;
- the running jails;
- the mount table, oldest first;
- fixed oracles: the paths `mkdir` refuses, the mount points `nmount`
  refuses, and the exit status of every program run.

Each system call the code makes appends an `Event` to the machine's
`trace`. The operations that change the machine are methods that state
the whole new state and the new trace. What a command prints to standard
output is the captured text, passed in as a function
`run: string -> Option<string>` (None when `popen` fails). What the code
prints is returned as a sequence of lines.

The tokenizers are imperative: a `char` array, a cursor and NUL writes,
as in the source. Each is proved against a pure function of the input
text: `Words`/`Rows` for `zfs_list` and `zfs_query`, `Cells`/`Listed` for
`ports_list`, `SplitBuffer`/`Count` for `split_chr`. The properties the
source promises are then proved about those functions.

In these places the code does not do what a reader might expect, and
the model follows the code:

- `jail_stop` does not stop the child jails recursively. It calls only
  `jail_kill` on each direct child (src/utils.c:566-567).
- The unmount order is not a lexicographic sort. `mntcmp` is handed
  `char **` elements but compares them as `char *`, so the order is
  unspecified. It is modelled as an arbitrary permutation of the
  selected mount points.
- `mount_nullfs` does not create missing parent directories. It calls
  `mkdir` once per directory and treats only EEXIST as harmless. EISDIR
  is fatal there, unlike in `mkdirs`.
- `zfs_list` does not decode fields. It prints each field token verbatim
  with its column's format; only `zfs_query` decodes.

## Model

| member | source | states |
|---|---|---|
| Runner.LineEnd | src/ports.c:31 | one `fgets` reads at most `BUFSIZ - 1` characters, none of them a newline except possibly the last, and stops early only after a newline or at the end of the stream |
| Runner.Collected | src/ports.c:31-32 | what `sbuf_cat` collects from the `fgets` pieces holds no NUL and is no longer than the output |
| Runner.CollectedWhole | src/ports.c:31-32 | an output without NUL is collected whole, whatever its line lengths |
| Runner.ExecBuf | src/ports.c:21-44 | a failed `popen` gives nothing; a result is NUL-free, non-empty and no longer than the output; a NUL-free output is returned exactly when it is non-empty, and then unchanged |
| Runner.NulCutsLine | src/ports.c:31-32 | a NUL drops the rest of its line, newline included: `\0\n` gives nothing, and `ab\0c\nd\n` gives `abd\n` |
| Runner.NoDataIsAmbiguous | src/ports.c:27-39 | a failed `popen` and an empty output give the same result |
| Strings.StrChr | src/utils.c:61 | `strchr` from a position finds the first occurrence of the character before the terminator, or reports that none exists before it |
| Split.SplitChr | src/utils.c:54-69 | afterwards every separator before the terminator is a NUL and every other character, the terminator and what follows it included, is unchanged; the result is the number of separators in the C string |
| Split.PiecesShape | src/utils.c:54-69 | the text splits into one more piece than it has separators, and no piece holds the separator |
| Split.JoinPieces | src/utils.c:54-69 | joining the pieces with a character gives the text with each separator replaced by it; with NUL this is the buffer `split_chr` leaves |
| Split.JoinPiecesBack | src/utils.c:54-69 | joining the pieces with the separator gives back the text |
| Split.PiecesJoin | src/utils.c:54-69 | splitting a join of separator-free pieces gives back the pieces |
| Tokens.SpansAreTokens | src/utils.c:197-207 | each token the scanner finds is a maximal non-empty run of non-whitespace, and tokens come in strictly increasing order |
| Tokens.SpansCover | src/utils.c:197-207 | a character lies inside some token exactly when it is not whitespace |
| Tokens.SkipSpaces | src/utils.c:198-201 | the cursor moves to the end of the whitespace run, and every whitespace character it passes becomes a NUL |
| Tokens.ScanToken | src/utils.c:204-205 | the cursor moves to the end of the token, and the buffer is unchanged; at the terminator it stops |
| Tokens.UnboundedScan | src/utils.c:222-223 | the scan as written finds the first whitespace character from the cursor on, or runs off the buffer when there is none, since the terminating NUL is not whitespace |
| Tokens.TakeToken | src/utils.c:197-207 | one step of the tokenizer skips the separator run and NUL-terminates the next token; the result is the next token span, or no token at the end of the text |
| Tokens.TakeTokenHere | src/utils.c:296-302 | a token starting at the cursor is NUL-terminated, and the remaining tokens follow it; at the terminator it stops |
| Tokens.RowsPartition | src/utils.c:209-210 | grouping tokens into rows of a fixed size loses nothing: the rows, flattened, followed by the incomplete rest give back the tokens |
| Zfs.ListSuffix | src/utils.c:183-184 | the reference definition of the text the loop appends: `,poudriere:<name>` per property, in order |
| Zfs.ListCommand | src/utils.c:182-185 | the reference definition of the `zfs_list` command: the fixed prefix followed by `ListSuffix` |
| Zfs.QuerySuffix | src/utils.c:248-249 | the reference definition of the text the loop appends: `,<name>` per property, in order |
| Zfs.QueryCommand | src/utils.c:247-250 | the reference definition of the `zfs_query` command: the fixed prefix followed by `QuerySuffix` |
| Zfs.Titles | src/utils.c:186-187 | one title line per property, in request order, each with its own format |
| Zfs.ListCommandColumns | src/utils.c:182-185 | the `zfs_list` command is `/sbin/zfs list -r -H -o` followed by its columns joined with commas |
| Zfs.QueryCommandColumns | src/utils.c:247-250 | the `zfs_query` command is `/sbin/zfs list -r -H -o` followed by its columns joined with commas |
| Zfs.SplitJoin | src/utils.c:182-185 | splitting the comma-joined column list at its commas gives back the columns, when no column contains a comma |
| Zfs.ListRowsAppend | src/utils.c:197-226 | rows are printed independently: the output for two tables read one after the other is the first's followed by the second's |
| Zfs.ListRowsFilter | src/utils.c:212-215 | when no row has the requested type, nothing is printed after the titles |
| Zfs.ListScan | src/utils.c:189-226 | the in-place scan of a well-formed buffer prints, in input order, the verbatim fields of exactly the rows whose type token matches |
| Zfs.ListReadsPastEnd | src/utils.c:216-225 | on the well-formed output `fs1<TAB>a<LF>` with one property, the whitespace after the only row is skipped up to the terminator, and the type scan as written runs off the buffer from there |
| Zfs.ZfsList | src/utils.c:170-231 | builds the column command, prints the titles, then prints the matching rows of the command's output, or nothing more when there is no output |
| Numbers.StrToNum | src/utils.c:289 | `strtonum(s, 0, INT_MAX, NULL)`: the result always lies in `0..INT_MAX` |
| Numbers.ValueDecimal | src/utils.c:289 | the digits of a number denote that number |
| Numbers.StrToNumDecimal | src/utils.c:289 | `strtonum` of the decimal text of a value in `0..INT_MAX` gives that value |
| Numbers.StrToNumSigned | src/utils.c:289 | a leading `+` is accepted; a negative value is out of range and gives 0 |
| Numbers.StrToNumTooLarge | src/utils.c:289 | a value above `INT_MAX` gives 0 |
| Numbers.StrToNumRejects | src/utils.c:289 | text with trailing characters after the digits gives 0 |
| Numbers.StrToNumDash | src/utils.c:289 | the text `-` alone is not a number and gives 0 |
| Query.Strlcpy | src/utils.c:283 | with size 0 the buffer is left as is; otherwise the result is the longest prefix of the source shorter than the size |
| Query.Decode | src/utils.c:281-291 | a STRING field receives the `strlcpy` of the token and keeps its integer; an INTEGER field receives a value in `0..INT_MAX` and keeps its string; name, kind and size never change |
| Query.DecodeInteger | src/utils.c:285-289 | an INTEGER field decodes `-` as 0, the decimal text of a value in range as that value, and a value above `INT_MAX` as 0 |
| Query.QueryRows | src/utils.c:266-295 | the reference definition of the lookup: the fields after type and name of the first row matching both, or nothing |
| Query.QueryRowsFirst | src/utils.c:266-295 | the lookup finds nothing exactly when no row matches both type and name; otherwise it returns the fields of the first matching row |
| Query.QueryRowsStops | src/utils.c:293-294 | scanning stops at the first match: rows after a match never change the result |
| Query.QueryRowsLength | src/utils.c:276-277 | a match yields exactly one value per requested field |
| Query.QueryScan | src/utils.c:252-303 | the in-place scan of a well-formed buffer returns the fields of the first row whose type and name match, or nothing |
| Query.ZfsQuery | src/utils.c:234-310 | returns 1 exactly when some row matches type and name, and then the records hold the decoded fields of the first such row; otherwise returns 0 with the records untouched |
| Host.MkdirError | src/utils.c:357-358 | `mkdir` succeeds exactly on a path other than `/` that neither exists nor is refused, and an existing directory gives EEXIST |
| Host.RemoveLast | src/utils.c:587 | unmounting takes one entry for that mount point out of the table and keeps every other entry |
| Host.Machine.MakeDir | src/utils.c:357 | the error is the oracle's; on success the directory exists afterwards; one `mkdir` event is recorded |
| Host.Machine.RemoveJail | src/utils.c:410 | the jail no longer runs; one `jail_remove` event is recorded |
| Host.Machine.CreateJail | src/utils.c:383-395 | the named jail runs afterwards; one `jail_setv` event with the parameter table is recorded |
| Host.Machine.UnmountPath | src/utils.c:587 | the most recent mount on the path is removed; one `unmount` event is recorded |
| Host.Machine.MountNullfs | src/utils.c:501 | the mount fails exactly for a refused mount point; otherwise the mount point is appended to the table; one `nmount` event is recorded |
| Host.Machine.Run | src/utils.c:598 | returns the program's exit status; one `exec` event is recorded |
| Mkdirs.MkdirCalls | src/utils.c:349-368 | the reference definition of the `mkdir` calls of one `mkdirs`; `MkdirCallsShape` states their shape |
| Mkdirs.MkdirAll | src/utils.c:353-370 | the reference definition of calling `mkdir` on each planned path in turn until an error other than EEXIST or EISDIR; `MkdirAllShape` states what it does |
| Mkdirs.MkdirCallsShape | src/utils.c:349-368 | the `mkdir` calls are prefixes of the path in strictly increasing length, each but the last ending just before a `/`, the last being the whole path, and every `/` after the first character yields one |
| Mkdirs.MkdirAllShape | src/utils.c:353-370 | the calls made are a prefix of the planned ones, all of them on success, or ending with the one that failed with an error other than EEXIST or EISDIR; directories only grow, and only by planned paths; after a success every planned path exists |
| Mkdirs.MkdirAllPresent | src/utils.c:353-370 | when every planned path already exists, every call is made, the result is success and nothing changes |
| Mkdirs.MkdirsIdempotent | src/utils.c:342-371 | a second `mkdirs` of a path that succeeded succeeds again and adds no directory |
| Mkdirs.MkdirsCreates | src/utils.c:342-371 | after a success the path and every prefix ending before a `/` exist |
| Mkdirs.Cut | src/utils.c:354-355 | finds the next `/` and NUL-terminates the buffer there; the prefix before it is what `mkdir` sees, or the whole path when there is none |
| Mkdirs.Walk | src/utils.c:353-370 | the loop performs the planned calls in order, stops at the first intolerable error, and restores every cut `/` |
| Mkdirs.Mkdirs | src/utils.c:342-371 | returns 1 exactly when every call succeeds or fails with EEXIST or EISDIR; the directories and trace are those of calling `mkdir` on each prefix in turn up to the first other error |
| Jails.JailRuns | src/utils.c:312-321 | 1 when the jail is running, else 0 |
| Jails.JailKill | src/utils.c:401-414 | a running jail is removed with one `jail_remove` event; a jail that is not running leaves everything unchanged |
| Jails.KillAll | src/utils.c:566-568 | after killing a list of jails, exactly the running jails not on the list still run |
| Jails.KillEventsRemove | src/utils.c:566-568 | killing a list removes each running jail on it exactly once, and nothing else |
| Jails.KillEach | src/utils.c:566-568 | `jail_kill` on each name in list order: the jails and trace are those of killing the list |
| Jails.JailParams | src/utils.c:383-395 | the reference definition of the `jail_setv` parameter table; `JailParamsDistinct` and `JailParamsMeaning` state its properties |
| Jails.JailParamsDistinct | src/utils.c:383-395 | no parameter is given twice |
| Jails.JailParamsMeaning | src/utils.c:383-395 | the jail is named and hosted under its own name and rooted at its mount point; with networking `ip4` and `ip6` are `inherit`, without it the addresses are the loopback ones, each exactly in its case |
| Jails.JailRun | src/utils.c:373-399 | a running jail of that name is removed first; `Starting <name>` is printed; afterwards the jail runs, created with the parameter table |
| Jails.StrNEqualPrefix | src/utils.c:577 | `strncmp` over the length of the mount point is 0 exactly when the mount point is a prefix |
| Jails.Selected | src/utils.c:576-582 | the reference definition of the mount points `jail_stop` collects, in table order; `SelectedSpec` states which they are |
| Jails.SelectedSpec | src/utils.c:576-582 | exactly the mount points that start with the jail's mount point and are longer are selected, as often as they are mounted; the mount point itself never is |
| Jails.SelectedTextual | src/utils.c:576-582 | the prefix test is textual: under `/j1`, `/j10` is selected along with `/j1/dev` |
| Jails.Collect | src/utils.c:573-582 | collects the selected mount points in table order |
| Jails.Arrange | src/utils.c:584 | the sorted list is a permutation of the selected mount points |
| Jails.UnmountEach | src/utils.c:586-587 | each listed mount point is unmounted once: the table loses exactly those entries; one event per unmount |
| Jails.RollbackArgv | src/utils.c:591-596 | the argument vector of the rollback: `zfs rollback -R <fs>@clean` |
| Jails.JailStop | src/utils.c:551-600 | not running: nothing changes. Otherwise: each direct child and then the jail are killed; with no mount table it stops there; else every selected mount point is unmounted once, the dataset is rolled back to `@clean`, and a nonzero status is fatal |
| Jails.StopLeaves | src/utils.c:576-587 | after a stop the mount table keeps exactly the entries that are not strictly below the mount point |
| Nullfs.Plan | src/utils.c:482-542 | the reference definition of the steps of `mount_nullfs`; `PlanSteps` and `PlanMounts` state what they are |
| Nullfs.Carry | src/utils.c:486-541 | the reference definition of carrying out steps until the first fatal failure; `CarryEvents` and `CarryMounts` state what it does |
| Nullfs.PlanSteps | src/utils.c:482-542 | the overlay plan: ports directories and mount, package directories and mount, and the distfiles directory and mount only when a cache is configured |
| Nullfs.PlanMounts | src/utils.c:482-542 | the plan mounts `usr/ports`, `usr/ports/packages` and, with a cache, `usr/ports/distfiles` under the jail, in that order |
| Nullfs.CarryEvents | src/utils.c:486-541 | the calls made are a prefix of the plan, all of it unless a fatal failure occurred, and then the last call made is the one that failed |
| Nullfs.CarryMounts | src/utils.c:486-541 | on success every planned mount is appended to the table; after a failure, exactly the mounts before the failing step are; directories only grow |
| Nullfs.MountNullfsMounts | src/utils.c:482-542 | a successful run leaves the table with the two or three overlays appended in order |
| Nullfs.MountPorts | src/utils.c:482-502 | the ports section: two `mkdir` calls and one mount, stopping at the first fatal failure |
| Nullfs.MountPackages | src/utils.c:504-524 | the packages section: three `mkdir` calls and one mount, stopping at the first fatal failure |
| Nullfs.MountDistfiles | src/utils.c:526-542 | the distfiles section: nothing without a cache, else one `mkdir` call and one mount, stopping at a fatal failure |
| Nullfs.MountNullfs | src/utils.c:469-543 | the directories, mounts, trace and fatality are those of carrying out the plan up to its first failing step |
| Ports.Cells | src/ports.c:78-96 | the reference definition of the cells of the output: the text before each whitespace character, up to the previous one; `CellsSpec` states their properties |
| Ports.Listed | src/ports.c:82-93 | the reference definition of the printed lines: rows of three cells, kept when the first is `ports`; `ListedRows` states this over `Rows` |
| Ports.CellsSpec | src/ports.c:78-96 | there is one cell per whitespace character, and no cell contains whitespace |
| Ports.ListedRows | src/ports.c:82-93 | the cells are taken three at a time, and a row prints its second and third cells exactly when its first is `ports` |
| Ports.PortsListHeader | src/ports.c:71-72 | the header always comes first, and there is nothing else when the command gave no output |
| Ports.PortsListRow | src/ports.c:78-96 | a complete row prints `(name, method)` exactly when its type cell is `ports`, followed by the output for the rest |
| Ports.PortsListUnterminated | src/ports.c:88-96 | a final row with no whitespace after its method is not printed |
| Ports.PortsListDoubleSpace | src/ports.c:79-87 | two whitespace characters in a row end an empty cell, which shifts the row |
| Ports.ScanPorts | src/ports.c:73-96 | the in-place scan prints the listed rows of the cells of the buffer |
| Ports.PortsList | src/ports.c:64-99 | runs the fixed `zfs list` command and prints the header and then the `ports` rows of its output |
| Ports.Parse | src/ports.c:109-145 | the reference definition of the option loop: the action and the usage count after each option; `ParseCounts` states what they are |
| Ports.ParseCounts | src/ports.c:109-145 | the last of `-c`, `-u`, `-d` and `-l` wins, none given means NONE; usage is printed once per unknown option and once per action flag after the first |
| Ports.ExecPorts | src/ports.c:101-165 | always returns `EX_OK`; usage is printed as parsing demands, plus once when no action was given; the listing runs exactly for `-l` |

## Findings

| source | as written | input that shows it | evidently intended | confidence | as-written member | corrected member |
|---|---|---|---|---|---|---|
| src/utils.c:216-225 | after the final row `walk` reaches the terminating NUL at `end`, and `while (!isspace(*walk)) walk++;` walks past it, since NUL is not whitespace; `*walk = '\0'` then writes beyond the data (the same in `zfs_query` at src/utils.c:296-302 when no row matches) | `fs1<TAB>a<LF>` with one property | the scan stops at `end` | high, not executed | Zfs.ListReadsPastEnd | Tokens.ScanToken |

## Left out

- Process plumbing: `popen`/`fgets`/`pclose`, `fork`/`execv`/`waitpid`, and `exec`, `jexec` and `injail_buf`. A command's output is an input function, and a program's exit status is a field of the machine.
- Kernel and libjail calls (`jail_getid`, `jail_setv`, `jail_remove`, `nmount`, `unmount`, `getmntinfo`, `mkdir`) are oracles on `Host.Machine`. `jail_setv`, `jail_remove` and `unmount` always succeed. The warnings printed when `jail_setv` or `jail_remove` fails are therefore not modelled; a failed `unmount` is ignored by the source without a message.
- Everything printed on standard error: diagnostics, warnings, the messages of `err`, and the text of `usage_ports`. `usage_ports` is counted, not printed.
- The `printf` padding of `ports_list` (`%-20s %-10s`). Its lines are modelled as pairs of strings.
- `jail_start`, including its unmodelled tmpfs branch that passes a NULL filesystem name, and `jail_setup`, which only appends files to files. Neither is part of this model.
- `getopt`: `exec_ports` is modelled over the option characters `getopt` returns, with option arguments already consumed.
- Jails.Arrange: the order of the unmount list is not modelled. `qsort` with `mntcmp` is only known to permute the list.
- Jails.JailStop: a `getmntinfo` failure and an empty mount table are the same case, and both end the stop before the unmounts.
- Zfs.ZfsList: requires well-formed output: no leading whitespace, a trailing separator and whole rows of `n + 1` tokens. It also requires at least one property: with `n = 0` the source stores the first field into `malloc(0)`, which is undefined behaviour.
- Query.ZfsQuery: requires the same well-formed output, with whole rows of `nfields + 2` tokens and a single separator character between rows.
- Tokens.ScanToken: stops at the buffer's terminator. The source's `while (!isspace(*walk))` has no bound, and after the final row of every well-formed output it starts on the terminator and reads past the buffer (see Findings). The model thus does not capture what the source reads and writes beyond the buffer.
- Tokens.TakeTokenHere: stops at the terminator in the same way, where `zfs_query` walks on past the buffer after the final row when no row matches (src/utils.c:296-302).
- Jails.StopLeaves: holds only because `unmount` is modelled as always succeeding. The source ignores its result (src/utils.c:587). The unmount order is unspecified, so a mount point can be unmounted before a mount below it, and the kernel can refuse that; the model does not capture such a failure.
- Mkdirs.Mkdirs: requires the path to fit in `MAXPATHLEN` (1024) characters. Truncation by `strlcpy` is not modelled.
- Nullfs.MountNullfs: `snprintf` truncation of paths longer than `MAXPATHLEN` is not modelled. A failed distfiles mount names the packages path in its message, and that message is not modelled either.
- Paths are strings. There is no normalisation of `//` or of trailing slashes.
