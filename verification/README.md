# ComStat command line, modelled in Dafny

ComStat is a Windows console tool that collects hardware statistics (disks,
SMBIOS, GPUs, CPU, network adapters, operating system, physical memory,
registry identifiers) and answers one-line commands typed at its prompt.
The line `disk` prints every disk field. `diskgetmodelserialnumber` prints
only the model and then the serial number of each disk. `musicon`, `save`,
`help` and `exit` are control actions. Anything else is an invalid command.

This project models the shell's parser and dispatcher and proves what they
decide:

- **Text** (`text.dfy`): wide-string `find` as the least offset of an
  occurrence, the prefix test `find(...) == 0`, and `std::tolower` in the
  "C" locale.
- **Catalog** (`catalog.dfy`): the table of main commands, the eight field
  catalogs, and `ValidSubCommands`. It proves that no keyword of a table is
  a prefix of another in the same table. It also proves that the sentinel
  entry "invalid command" can never occur in a line without spaces.
- **Ordering** (`ordering.dfy`): `OrderVector`, the argsort that returns
  positions in order of their values. It is imperative, on an array. A
  functional insertion sort is the reference. A lemma shows that an
  ordering by distinct keys is unique.
- **Parser** (`parser.dfy`): `Classify`, the decision `ParseCommand` takes
  on one line, written as functions. It comes with the rejection rules and
  an if-and-only-if characterisation of an accepted field request.
- **ParserExamples** (`parser_examples.dfy`): the concrete lines
  `diskgetmodelserialnumber` and `diskgetmodelxyz`.
- **CommandLine** (`commandline.dfy`): class `Shell`, which holds
  `ParsedCommand` and `CurCmd` as fields. `ParseCommand` lowercases the line
  in place, scans the keywords from the current command index, collects the
  offsets and stores the ordered field list. It is proved to reach exactly
  the verdict of `Classify`. `RespondCommand` writes its response as a
  sequence of output events, including `FmtPrint`'s line and blank-line
  rule, and then clears the state. The layout of a field listing is proved
  record by record.
- **Statistics** (`statistics.dfy`): `RemoveWhitespaces`, an erase-remove on
  a character array; `SafeString`; `FileTimeToInt64`; the padding of an
  empty `QueryWMI` result; and the cut of the OS name at its first `'|'`.

A multi-record field listing (disks, GPUs, network adapters) puts the
fields in the outer loop and the records in the inner loop, and
`FmtPrint` writes "\n\n" after the last record of every field that has two
or more records. `FieldReportAt` and `BlankLineClosesEachField` state this
layout.

## Model

| member | source | states |
|---|---|---|
| Text.FindFrom | ComStat/Api/cmd.h:586-589 | the result is the least offset at or after the start where the pattern occurs, and None means it occurs nowhere there |
| Text.FindIsLeastOccurrence | ComStat/Api/cmd.h:603-605 | `find` returns `p` exactly when the pattern occurs at `p` and at no smaller offset |
| Text.FindZeroIffPrefix | ComStat/Api/cmd.h:571 | `find(keyword) == 0` holds exactly when the keyword is a prefix of the line |
| Text.ToLower | ComStat/Api/cmd.h:565 | ASCII capitals move down by 32 into 'a'..'z'; every other character is unchanged |
| Text.Lowercase | ComStat/Api/cmd.h:563-566 | same length, and every character is folded on its own |
| Text.LowercaseProperties | ComStat/Api/cmd.h:563-566 | folding is idempotent, leaves no capital, and keeps spaces exactly where they were |
| Catalog.ValidSubCommands | ComStat/Api/cmd.h:480-526 | a domain has a non-empty field catalog exactly when it is one of disk..registry; every catalog starts with the sentinel and has at least two fields |
| Catalog.CommandsPrefixFree | ComStat/Api/cmd.h:72-90 | no main keyword is a prefix of another, so at most one keyword starts a line |
| Catalog.SubCommandsPrefixFree | ComStat/Api/cmd.h:95-193 | within each field catalog no keyword is a prefix of another |
| Catalog.SentinelNeverOccurs | ComStat/Api/cmd.h:74 | "invalid command" holds a space, so it never occurs in a space-free line |
| Ordering.OrderVector | ComStat/Api/cmd.h:536-560 | the result is a permutation of 0..n-1 whose values in the input never decrease |
| Ordering.SortBy | ComStat/Api/cmd.h:536-560 | reference sort: the same elements as often as before, in non-decreasing key order |
| Ordering.SortByDistinct | ComStat/Api/cmd.h:557 | sorting a list without repeats gives a list without repeats |
| Ordering.StrictlySortedUnique | ComStat/Api/cmd.h:557 | two lists over the same elements, both strictly increasing in key, are equal, so the unstable sort is deterministic here |
| Parser.Pos | ComStat/Api/cmd.h:603-608 | -1 exactly when the field keyword occurs nowhere; otherwise the keyword occurs at that offset and at no earlier one, the first offset `find` reports |
| Parser.MatchedBelow | ComStat/Api/cmd.h:601-610 | the collected indices are exactly the catalog entries that occur, strictly increasing |
| Parser.DistinctFieldsDistinctOffsets | ComStat/Api/cmd.h:557 | in a prefix-free catalog two different matched fields never share an offset |
| Parser.ArgsortCoversMatches | ComStat/Api/cmd.h:628-634 | the collected indices read through the argsort include every catalog entry that occurs in the line |
| Parser.ArgsortStrict | ComStat/Api/cmd.h:620-634 | in a prefix-free catalog the collected indices read through the argsort have strictly increasing offsets |
| Parser.FieldOrderInInputOrder | ComStat/Api/cmd.h:628-634 | the reference order lists every occurring field once, in strictly increasing offset order |
| Parser.InputOrderUnique | ComStat/Api/cmd.h:628-634 | there is only one list of the occurring fields in strictly increasing offset order |
| Parser.ArgsortGivesFieldOrder | ComStat/Api/cmd.h:620-634 | reading the collected indices through any sorting permutation of their offsets gives the reference field order |
| Parser.NoFieldsRejected | ComStat/Api/cmd.h:612-618 | a field request in which no field keyword occurs is rejected |
| Parser.SelectFieldsByArgsort | ComStat/Api/cmd.h:620-634 | given the collected indices, their offsets and any argsort of them, the field branch rejects exactly when the smallest offset is not keyword length + 3, and otherwise accepts the indices read through the argsort |
| Parser.FirstFieldIsHead | ComStat/Api/cmd.h:620-626 | the earliest field starts at `p` exactly when the input-order list is non-empty and its head occurs at `p` |
| Parser.FindDomain | ComStat/Api/cmd.h:569-575 | the least command index at or after the start whose keyword prefixes the line, or None when there is none |
| Parser.Classify | ComStat/Api/cmd.h:531-641 | a line no keyword starts from the current index is rejected; a bare command is exactly its keyword; an accepted field request has `get` first right after the keyword and a non-empty field list in input order whose head starts at keyword length + 3 |
| Parser.SelectFields | ComStat/Api/cmd.h:596-634 | the field branch never yields a bare command; when it accepts, the list is non-empty, lists every occurring field in input order, and its head starts right after `get` |
| Parser.ResolvedDomainIsFirstPrefix | ComStat/Api/cmd.h:569-583 | an accepted verdict names the first keyword that prefixes the line; a line no keyword prefixes is rejected |
| Parser.PrefixDeterminesDomain | ComStat/Api/cmd.h:569-575 | whatever keyword prefixes the line is the one the scan from 0 finds |
| Parser.SentinelNeverResolved | ComStat/Api/cmd.h:569-575 | a space-free line never resolves to entry 0 |
| Parser.NoGetInCommands | ComStat/Api/cmd.h:586-594 | `get` occurs inside no main keyword, so the first `get` of a line never lies inside its keyword |
| Parser.BareCommandIffKeyword | ComStat/Api/cmd.h:586-640 | the scan from 0 yields a bare command `d` exactly when the line equals keyword `d` |
| Parser.KeywordGetRejected | ComStat/Api/cmd.h:586-640 | the exact line `<keyword>get` is rejected |
| Parser.MisplacedGetRejected | ComStat/Api/cmd.h:586-594 | a first `get` not right after the keyword is rejected when the length is not keyword+3 |
| Parser.GetOnNonDataDomainRejected | ComStat/Api/cmd.h:597-618 | a `get` form on all, realtime, musicon, musicoff, save, help or exit is rejected |
| Parser.FieldsIff | ComStat/Api/cmd.h:586-634 | accepted with field list `f` exactly when `get` follows the keyword, the line is not `<keyword>get`, the earliest field starts after `get`, and `f` is the occurring fields in input order |
| Parser.FieldsShape | ComStat/Api/cmd.h:586-634 | an accepted field request has a data domain, a non-empty list in input order whose head starts at keyword+3, and no sentinel index on a space-free line |
| ParserExamples.ModelThenSerialNumber | ComStat/Api/cmd.h:586-634 | `diskgetmodelserialnumber` parses to disk with fields [2, 1] |
| ParserExamples.TrailingTextIgnored | ComStat/Api/cmd.h:620-634 | `diskgetmodelxyz` parses to disk with field [2]: text after the fields is not checked |
| CommandLine.FmtSeparator | ComStat/Api/cmd.h:213-235 | for disk, GPU and network: "\n\n" exactly when j != 0 and j+1 is the record count, else "\n"; nothing for other domains |
| CommandLine.FieldBlockValues | ComStat/Api/cmd.h:660-727 | a field's block is one value per record for disks, GPUs and adapters, one value otherwise, nothing for the sentinel or an index outside the catalog, and entry j is that field's value for record j |
| CommandLine.FieldReportValues | ComStat/Api/cmd.h:651-971 | a field listing holds only values of the parsed domain, each of a requested field |
| CommandLine.Response | ComStat/Api/cmd.h:651-1218 | the response is empty exactly for a bare `exit`, and a field request's response starts with a line break |
| CommandLine.FieldReportLength | ComStat/Api/cmd.h:660-727 | a multi-instance listing holds exactly one value per record per requested field |
| CommandLine.FieldReportAt | ComStat/Api/cmd.h:660-727 | entry i*n+j of a field listing is record j of field i, with its separator |
| CommandLine.BlankLineClosesEachField | ComStat/Api/cmd.h:213-235 | in a listing, record j of a field ends with a blank line exactly when there are two or more records and j is the last one |
| CommandLine.SingleRecordNoBlankLine | ComStat/Api/cmd.h:213-235 | with one record, the listing is one value per field, each ending in a single line end |
| CommandLine.SingleInstanceReport | ComStat/Api/cmd.h:732-968 | a single-instance domain prints each valid field once, followed by a line end |
| CommandLine.ParsedStateConsistent | ComStat/Api/cmd.h:577-640 | from the idle state, a non-empty field list comes only with a data domain, and a rejected line leaves no fields |
| CommandLine.FieldRequestResponse | ComStat/Api/cmd.h:651-971 | an accepted field request prints a line break and the field listing, and every listed field is one the dispatcher prints |
| CommandLine.FieldsResponse | ComStat/Api/cmd.h:651-656 | with a non-empty field list the response is a line break followed by the field listing, whatever the command index |
| CommandLine.CollectFields | ComStat/Api/cmd.h:597-610 | the collected indices are the matched catalog entries in catalog order, each paired with its first offset |
| CommandLine.ArgsortFields | ComStat/Api/cmd.h:597-634 | collecting, argsorting and checking the first offset accepts exactly when the field branch accepts, with the accepted list being the collected indices read through the argsort |
| CommandLine.Shell.constructor | ComStat/Api/cmd.h:198-202 | the state starts idle: no command, no fields, nothing written |
| CommandLine.Shell.LowercaseLine | ComStat/Api/cmd.h:563-566 | the line is replaced by its lowercase form, and nothing else changes |
| CommandLine.Shell.ScanCommand | ComStat/Api/cmd.h:569-575 | the command index advances to the first prefixing keyword from its current value, or reports none |
| CommandLine.Shell.StoreFields | ComStat/Api/cmd.h:628-634 | the field list is resized and holds the collected indices read through the argsort |
| CommandLine.Shell.ParseFields | ComStat/Api/cmd.h:596-634 | the state afterwards is the verdict of the field branch for the domain |
| CommandLine.Shell.ParseCommand | ComStat/Api/cmd.h:531-641 | the line is lowercased; the command index and field list are those of `Classify` on it, started from the current index; a non-field verdict keeps the previous field list |
| CommandLine.Shell.WriteFieldBlock | ComStat/Api/cmd.h:660-727 | appends one value per record, or a single value, for one field |
| CommandLine.Shell.WriteFieldReport | ComStat/Api/cmd.h:651-971 | appends the blocks of all requested fields, fields in the outer loop |
| CommandLine.Shell.WriteFieldListing | ComStat/Api/cmd.h:651-971 | with a non-empty field list, appends the response for it: a line break, then the listing |
| CommandLine.Shell.Dispatch | ComStat/Api/cmd.h:973-1218 | with no field list: a music message by outcome, a domain report, the full report, the monitor, the save, the help page, `exit`, or the error message for anything else; `exit` writes nothing and sets the exit flag |
| CommandLine.Shell.Respond | ComStat/Api/cmd.h:651-1224 | the output grows by the response to the stored command; the process exits exactly on a bare `exit`, keeping the state; otherwise the state is reset to idle |
| CommandLine.Shell.RespondCommand | ComStat/Api/cmd.h:646-1225 | the output grows by the response to the parsed command; `exit` ends the process; otherwise the state is reset to idle |
| Statistics.WithoutSpaces | ComStat/Api/comstat.h:41 | the result holds no space and is no longer than the input |
| Statistics.WithoutSpacesAppend | ComStat/Api/comstat.h:41 | removal distributes over concatenation, so the kept characters stay in order |
| Statistics.WithoutSpacesMultiset | ComStat/Api/comstat.h:41 | the result holds every character except ' ' as often as the input did, and no ' ' |
| Statistics.WithoutSpacesCounts | ComStat/Api/comstat.h:39-42 | no space is left, every other character (tabs included) is kept, and the length shrinks by the number of spaces |
| Statistics.WithoutSpacesIdempotent | ComStat/Api/comstat.h:39-42 | removing spaces twice equals removing them once |
| Statistics.NoSpacesUnchanged | ComStat/Api/comstat.h:39-42 | a string without spaces is left as it is |
| Statistics.RemoveSpaces | ComStat/Api/comstat.h:41 | `std::remove` on the buffer: the prefix up to the new end is the input without spaces |
| Statistics.RemoveWhitespaces | ComStat/Api/comstat.h:39-42 | the string becomes the input without spaces |
| Statistics.DiskSerialNumber | ComStat/Api/comstat.h:456 | a disk serial number holds no space; a missing one reads "(null)" |
| Statistics.SafeString | ComStat/Api/comstat.h:29-32 | a null pointer gives "(null)"; any other string is copied unchanged |
| Statistics.FileTimeToInt64 | ComStat/Api/comstat.h:103-106 | the composition loses nothing: shifting right by 32 gives the high word, the low 32 bits give the low word, and the value is high*2^32+low, below 2^64 |
| Statistics.FileTimeQuotient | ComStat/Api/comstat.h:103-106 | the value divided by 2^32 is the high word and the remainder is the low word |
| Statistics.PadQueryResult | ComStat/Api/comstat.h:316-319 | the result is never empty: a non-empty result is kept and an empty one becomes one default element |
| Statistics.SystemOSName | ComStat/Api/comstat.h:582-585 | the OS name is a prefix of the queried name with no '|', cut right before the first '|', unchanged when there is none, and "(null)" when nothing was queried |

## Left out

- COM/WMI queries, disk probing through device I/O, and registry reads are Windows APIs. The queried values are parameters (`Inventory`, the inputs of `SystemOSName` and `DiskSerialNumber`).
- CPU and memory load are float arithmetic and keep hidden static state, so they are not modelled. The `realtime` monitor loop (key polling, sleeping, timestamps, log appends) is the single event `MonitorRun`.
- `PlaySound` and `ShellExecute` are left out. The success of starting and stopping the music is the parameters `playOk` and `stopOk`. Opening the help page is the event `HelpOpened`.
- `exit(0)` is the `exited` flag. `RespondCommand` requires that it is not yet set.
- Console colours and the statistics and log file streams are not modelled.
- The fixed-label `Print*`/`Save*` renderers are abstract events: `DomainReport(d)` for "print all of domain d", `FullReport` for `all`, `StatisticsSaved` for `save`. Field values are `Value(domain, field, record, terminator)` events that do not carry the values themselves.
- The prompt loop is not modelled: `std::getline`, the `RemoveWhitespaces` call on the line, the skip of an empty line (ComStat/Api/cmd.h:1249-1252 never passes "" to `RespondCommand`, while the model answers "" with `InvalidCommand`), and the `bFmt` trailing-newline heuristic. The caller places the line in `curCmd`. Properties that need the line to be space-free state that as a hypothesis.
- Text.ToLower: only the ASCII capitals are folded, as `std::tolower` does in the "C" locale. Other locales are not modelled.
- Parser.Pos: offsets are unbounded integers. The narrowing of a `size_t` offset into the `int` vector is not modelled; it cannot overflow for any line a console accepts.
- Ordering.OrderVector: `std::sort` is replaced by a selection sort with the same promise, a permutation in non-decreasing key order. Which order results among equal keys is not modelled. It does not matter here, because matched offsets are distinct.
- Statistics.SafeString: a pointer is an optional string of the characters before its terminator. Pointer identity and lifetime are not modelled.
- Statistics.SystemOSName: only a query that reaches the enumeration is modelled. When `QueryWMI` fails at a COM step it returns before the padding (ComStat/Api/comstat.h:175-268), the vector stays empty, and `OSName.at(0)` throws `std::out_of_range` in the source; the model has no such failure.
- Statistics.PadQueryResult: the value-initialised element is a parameter (null for strings, false or 0 for numbers).
- Statistics.RemoveSpaces: the contents of the buffer past the new end are not specified, as with `std::remove`.
