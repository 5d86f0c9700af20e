# mgen2d3js in Dafny

`mgen2d3js` reads an mgen network log and turns its RECV lines into a JSON list that D3JS can draw.
Each record in that list has the shape `{"name", "size", "imports"}`. Every RECV line names a
source and a destination address (`src>a.b.c.d/port`, `dst>…`). The converter validates both
addresses and renames each to `mgen.a-b-c-d`. It then records the edge: the source's record gains
the destination as an import, and the destination gets an empty record if it has none.

This project models the pure helpers and the line loop of `convert_mgen_to_json`, and proves what
they guarantee:

- `text.dfy` (module `Text`): the Python string operations the code uses. These are `str.split`
  on one character, `str.join`, and the clamped slices `s[:n]` and `s[n:]`, with their laws.
- `wrappers.dfy` (module `Wrappers`): the `Option` type.
- `ipv4.dfy` (module `IPv4`): what `ipaddress.ip_address` accepts for IPv4 text.
  That is four `.`-separated octets, each of one to three ASCII digits, with no leading zero and
  no value above 255. Parsing and printing are proved to be inverse.
- `mgen.dfy` (module `Mgen`): `rename_file`, `validate_recv_mgen_line`, `validate_node_address` and
  `convert_node_address`.
- `graph.dfy` (module `Accumulator`): the record list and its update for one accepted line
  (`AddEdge`), with its invariants. A reference description that never mentions updates
  (`Reference`) is proved equal to what the updates build.
- `converter.dfy` (module `Converter`): how one line is classified and the loop over all lines,
  first as functions (`Classify`, `Step`, `Run`). Then the loop as written: a `LineLoop` class
  whose `nodes` and `count` fields are updated in place, line by line. This includes the inner
  scan that changes a record's `size` and `imports`. Its methods are proved to follow `Run`.
- `example.dfy` (module `Example`): the six notional RECV lines of the module documentation, run
  through the whole loop.

The code and its documentation disagree on the documented example. The model follows the code.
The output shown at lines 28-33 of `mgen2d3js/mgen2d3js.py` lists `mgen.127-0-0-5` as a third
import of `mgen.127-0-0-1`, but no such address appears in the input; the code gives
`mgen.127-0-0-4`. It also lists `mgen.127-0-0-2`'s imports as `.1, .3`, but the code appends in
order of arrival, which gives `.3, .1`. `Example.DocumentedExample` states the code's result.

Two failure modes of the code are outcomes in the model.

- A non-blank line with fewer than two space-separated tokens makes `mgen_line[1]` raise an
  `IndexError` that nothing catches. This is `LineKind.Crash` and `Outcome.Crashed`: the run stops
  there.
- `convert_node_address` on text with fewer than four `.`-parts raises `IndexError`. This is the
  `None` of its `Option` result, and it is proved never to happen for an address that passed
  validation.

## Model

| member | source | states |
|---|---|---|
| Text.JoinSplitIsReplace | mgen2d3js/mgen2d3js.py:141-142 | splitting on `.` and joining with `-` replaces every `.` by `-` and changes nothing else |
| Text.SplitJoin | mgen2d3js/mgen2d3js.py:180 | splitting the space-join of space-free tokens gives back exactly those tokens |
| Text.JoinSplit | mgen2d3js/mgen2d3js.py:180 | joining the pieces of a split restores the original text |
| Text.Split | mgen2d3js/mgen2d3js.py:180 | `str.split` on one character: at least one piece, and no piece contains the separator (with `JoinSplit`/`SplitJoin` it is the inverse of `join`) |
| Text.Prefix | mgen2d3js/mgen2d3js.py:97 | the clamped slice `s[:n]`: a prefix of `s` of length `n`, or all of `s` when it is shorter |
| Text.FirstPiece | mgen2d3js/mgen2d3js.py:123 | the first piece of a split is the text before the first separator, and is all of it exactly when there is no separator |
| IPv4.ParseOctet | mgen2d3js/mgen2d3js.py:125 | an accepted octet has one to three digits and a value of at most 255 |
| IPv4.Parse | mgen2d3js/mgen2d3js.py:125 | an accepted address has exactly four octets, each at most 255 |
| IPv4.ParseFormat | mgen2d3js/mgen2d3js.py:125 | every four octets of at most 255, printed in dotted form, parse back to themselves |
| IPv4.FormatParse | mgen2d3js/mgen2d3js.py:125 | every accepted address text is the canonical printing of its octets, so no two texts denote one address |
| IPv4.AddressAlphabet | mgen2d3js/mgen2d3js.py:125 | an accepted address contains only digits and dots |
| IPv4.OutOfRangeIsNotAddress | mgen2d3js/mgen2d3js.py:125 | `999.999.999.999` is refused |
| IPv4.LeadingZeroIsNotAddress | mgen2d3js/mgen2d3js.py:125 | `127.0.0.01` is refused (octet with a leading zero) |
| Mgen.BeforeLast | mgen2d3js/mgen2d3js.py:82 | `rsplit(c, 1)[0]`: the whole text when it has no `c`; otherwise the prefix that is followed by a `c` with no further `c` after it |
| Mgen.RenameFile | mgen2d3js/mgen2d3js.py:82 | the result always ends in `.json`; without a `.` it is the input plus `.json`; otherwise it is the text before the last `.` plus `.json` |
| Mgen.RenameFileDropsDirectory | mgen2d3js/mgen2d3js.py:82 | for `./dir/name` with no `.` in `dir` or `name`, the name as written is `.json`, outside the input's directory |
| Mgen.RenameFileInPlaceKeepsDir | mgen2d3js/mgen2d3js.py:75 | the corrected name keeps the input's directory part, for every input |
| Mgen.RenameFileInPlaceKeepsName | mgen2d3js/mgen2d3js.py:75 | the corrected name of `./dir/name` is `./dir/name.json` |
| Mgen.ValidateRecvLine | mgen2d3js/mgen2d3js.py:96-111 | accepted exactly when token 5 exists and starts with `src>` and token 6 exists and starts with `dst>`; the src failure is reported exactly when token 5 is missing or untagged; only these two failures occur |
| Mgen.StripPort | mgen2d3js/mgen2d3js.py:123 | the result is the prefix before the first `/` and has no `/`; it is the whole address exactly when there is no `/` |
| Mgen.StripPortLaws | mgen2d3js/mgen2d3js.py:123 | stripping is idempotent, and `a/port` strips to `a` for any port |
| Mgen.ValidateNodeAddress | mgen2d3js/mgen2d3js.py:114-129 | a valid address has exactly four `.`-parts before the first `/` |
| Mgen.PortIsIgnored | mgen2d3js/mgen2d3js.py:123-142 | validation and conversion give the same answer for `A` and `A/p`, whatever `p` is |
| Mgen.ConvertNodeAddress | mgen2d3js/mgen2d3js.py:140-142 | it succeeds exactly when the text before the first `/` has at least four `.`-parts, and the name then starts with `mgen.` |
| Mgen.ConvertValid | mgen2d3js/mgen2d3js.py:140-142 | a validated address always converts, to `mgen.` plus the address without its port with every `.` replaced by `-` |
| Mgen.NameRoundTrip | mgen2d3js/mgen2d3js.py:140-142 | the address can be recovered from the node name of a valid address |
| Mgen.SameNameIffSameAddress | mgen2d3js/mgen2d3js.py:140-142 | two valid addresses get the same node name exactly when they agree before the first `/` |
| Accumulator.AddEdge | mgen2d3js/mgen2d3js.py:197-214 | one accepted pair adds at most two records and removes none (its full effect is stated by `AddEdgeShape` and the lemmas below) |
| Accumulator.AddEdgeShape | mgen2d3js/mgen2d3js.py:197-214 | an accepted pair keeps every existing record in place, changes only `src`'s (by `AddImport`), and appends a new `src` record, then a new `dst` record, each only if missing |
| Accumulator.AddEdgeLength | mgen2d3js/mgen2d3js.py:197-214 | the list grows by one for a new `src`, and by one for a new `dst` that differs from `src` |
| Accumulator.AddEdgeAppended | mgen2d3js/mgen2d3js.py:199-214 | an appended record is `{src, 1, [dst]}` when `src` was new and it comes first, and `{dst, 0, []}` otherwise |
| Accumulator.AddEdgeHasNames | mgen2d3js/mgen2d3js.py:197-214 | afterwards both `src` and `dst` have a record |
| Accumulator.AddEdgeSrcImports | mgen2d3js/mgen2d3js.py:197-210 | afterwards every `src` record lists `dst` |
| Accumulator.AddEdgeSelfLoop | mgen2d3js/mgen2d3js.py:197-214 | a new name sending to itself gets a single record `{n, 1, [n]}` |
| Accumulator.AddImportWellFormed | mgen2d3js/mgen2d3js.py:206-210 | the in-place update of one record keeps `size == len(imports)` and the imports distinct |
| Accumulator.AddEdgeNamesDistinct | mgen2d3js/mgen2d3js.py:197-214 | an accepted pair keeps record names pairwise distinct |
| Accumulator.AddEdgeWellFormed | mgen2d3js/mgen2d3js.py:197-214 | an accepted pair keeps all three invariants: unique names, `size == len(imports)`, no repeated import |
| Accumulator.AddEdgeIdempotent | mgen2d3js/mgen2d3js.py:197-214 | processing the same pair twice in a row is the same as once |
| Accumulator.Build | mgen2d3js/mgen2d3js.py:175-214 | the records after a sequence of accepted pairs, one `AddEdge` per pair: at most two records per pair |
| Accumulator.BuildWellFormed | mgen2d3js/mgen2d3js.py:175-214 | after any sequence of accepted pairs the three invariants hold |
| Accumulator.ReferenceStep | mgen2d3js/mgen2d3js.py:197-214 | one update takes the reference of a pair list to the reference of that list plus one pair |
| Accumulator.BuildIsReference | mgen2d3js/mgen2d3js.py:175-214 | the records built equal the deduplicated adjacency list: every endpoint once, in order of first appearance, each with its distinct destinations in order of first appearance |
| Accumulator.BuildMembers | mgen2d3js/mgen2d3js.py:175-214 | a name has a record exactly when it occurs in some pair; its `size` is its number of distinct destinations, and its imports are exactly those destinations |
| Accumulator.DedupFacts | mgen2d3js/mgen2d3js.py:201-212 | the first-occurrence list has no repeats and the same members as its input |
| Converter.Tokens | mgen2d3js/mgen2d3js.py:180 | the tokens of a line: at least one, none containing a space (a trailing newline stays on the last) |
| Converter.FieldValue | mgen2d3js/mgen2d3js.py:187-190 | `token[4:]`: what follows the four-character tag, or nothing for a shorter token |
| Converter.Classify | mgen2d3js/mgen2d3js.py:176-195 | exactly `"\n"` is blank; a non-blank line with fewer than two tokens crashes; skipped and accepted lines have `RECV` as token 1; accepted names start with `mgen.` |
| Converter.ClassifyChecks | mgen2d3js/mgen2d3js.py:181-195 | both directions, in the loop's order: token 1 not `RECV` iff ignored; a failed tag check gives `Skipped` with that reason; an invalid source address iff `Skipped(BadSrcAddress)`; a valid source and invalid destination iff `Skipped(BadDstAddress)`; accepted iff all four checks pass |
| Converter.RejectedLineKeepsRecords | mgen2d3js/mgen2d3js.py:181-191 | an ignored or skipped line leaves the records unchanged and adds one to the count |
| Converter.MissingDstTagSkipped | mgen2d3js/mgen2d3js.py:104-111 | a RECV line with `src>` in place but no `dst>` in place is skipped as `DstOutOfPlace`, records unchanged |
| Converter.InvalidSourceSkipped | mgen2d3js/mgen2d3js.py:187-188 | a RECV line whose source address is invalid is skipped as `BadSrcAddress`, records unchanged |
| Converter.InvalidDestinationSkipped | mgen2d3js/mgen2d3js.py:190-191 | a RECV line with a valid source and an invalid destination is skipped as `BadDstAddress`, records unchanged |
| Converter.Step | mgen2d3js/mgen2d3js.py:176-214 | one iteration: after a crash nothing changes; otherwise the count grows by one exactly for a line other than `"\n"` |
| Converter.Run | mgen2d3js/mgen2d3js.py:175 | the loop over all lines from no records and count zero; the count never exceeds the number of lines |
| Converter.NonBlankCount | mgen2d3js/mgen2d3js.py:176-179 | the lines other than `"\n"`: at most all of them, and all of them exactly when none is `"\n"` |
| Converter.StepFacts | mgen2d3js/mgen2d3js.py:176-214 | one line crashes exactly when classified so; only an accepted line changes the records, by `AddEdge`; the count grows by one unless the line is `"\n"` |
| Converter.RunFinishes | mgen2d3js/mgen2d3js.py:175-181 | the loop finishes exactly when no line crashes |
| Converter.RunContents | mgen2d3js/mgen2d3js.py:175-214 | a finished run holds the records built from the accepted lines alone (others leave them unchanged) and counts the non-blank lines |
| Converter.RunSummary | mgen2d3js/mgen2d3js.py:175-214 | both of the above together |
| Converter.RunWellFormed | mgen2d3js/mgen2d3js.py:175-214 | the records of a finished run satisfy the three invariants |
| Converter.RunIsReference | mgen2d3js/mgen2d3js.py:175-214 | the records of a finished run are the reference adjacency list of its accepted pairs |
| Converter.CrashIsFinal | mgen2d3js/mgen2d3js.py:181 | once a prefix has crashed, the lines after it change nothing |
| Converter.FirstCrash | mgen2d3js/mgen2d3js.py:179-181 | the first line with fewer than two tokens ends the run, with the count of non-blank lines up to and including it |
| Converter.LineLoop.constructor | mgen2d3js/mgen2d3js.py:158-159 | the loop starts with no records and a count of zero |
| Converter.LineLoop.RecordEdge | mgen2d3js/mgen2d3js.py:197-214 | the in-place update, including the scan that changes `src`'s record, leaves exactly `AddEdge` of the old records and keeps the count |
| Converter.LineLoop.ProcessLine | mgen2d3js/mgen2d3js.py:176-214 | one iteration returns the line's classification and leaves the fields as `Step` says, or reports the crash with its count |
| Converter.ConvertLines | mgen2d3js/mgen2d3js.py:175-214 | the loop over all lines computes `Run`; a finished run's records are well formed and its count is the number of non-blank lines |
| Example.ClassifyRecv | mgen2d3js/mgen2d3js.py:181-195 | a line with `RECV` as token 1, `src>a` and `dst>b` as tokens 5 and 6, both valid, is accepted with their node names |
| Example.RecvLineTokens | mgen2d3js/mgen2d3js.py:180 | a RECV line of the documented shape splits into its nine fields, the last keeping its newline |
| Example.RecvLineAccepted | mgen2d3js/mgen2d3js.py:19-24 | a RECV line of the documented shape with two valid addresses is accepted with their node names |
| Example.OutOfRangeInvalid | mgen2d3js/mgen2d3js.py:123-129 | `999.999.999.999` fails the node-address check |
| Example.OutOfRangeSourceSkipped | mgen2d3js/mgen2d3js.py:187-188 | a RECV line whose source is `999.999.999.999` is skipped as `BadSrcAddress`, records unchanged |
| Example.LocalAddress | mgen2d3js/mgen2d3js.py:19-24 | `127.0.0.d/port` is valid and converts to `mgen.127-0-0-d` for every digit 1-9 and every port |
| Example.ExampleLineAccepted | mgen2d3js/mgen2d3js.py:19-24 | each documented line between `127.0.0.s` and `127.0.0.d` is accepted as the pair of their names |
| Example.ExampleBuild | mgen2d3js/mgen2d3js.py:19-24 | the six documented pairs, for any four distinct names, build four records with the imports in order of arrival |
| Example.DocumentedExample | mgen2d3js/mgen2d3js.py:19-24 | for any timestamps without spaces, the documented log gives `.1` importing `.2, .3, .4`, then `.2` importing `.3, .1`, then `.3` and `.4` importing nothing, and a count of 6 |
| Example.DocumentedLog | mgen2d3js/mgen2d3js.py:19-24 | the same for the documented log with its own timestamps |

## Left out

- File handling is not modelled. This covers opening the input, the `os.stat` emptiness check
  (which only logs and carries on), the output opened in append mode, `json.dumps`/`g.write`, and
  the `UnicodeDecodeError`/`IOError`/`FileNotFoundError` handlers (lines 164-224). The loop takes
  the lines `readlines` would return as a parameter, and its result is the record list before
  serialisation.
- `main`, `argparse`, `logging` and every `print`/`logging.exception` diagnostic are left out
  (lines 227-238 and the handlers). They affect no returned value or record. The `count` argument
  of the two validators is used only in those messages, so it is not a parameter of the models.
- Mgen.ValidateNodeAddress: accepts IPv4 text only. `ipaddress.ip_address` also accepts IPv6 text,
  which the model refuses, so it skips such a line. The program behaves in one of two ways instead.
  When the text has fewer than three `.` (`::1`), validation passes and `convert_node_address`
  raises an uncaught `IndexError` at line 142, ending the run. When it has three `.`, as in an
  IPv4-mapped address (`::ffff:127.0.0.1`) or a scope id with three dots (`fe80::1%a.b.c.d`), the
  line is accepted and gets a name such as `mgen.::ffff:127-0-0-1`. Neither behaviour is modelled,
  because IPv6 syntax is not part of this model.
- IPv4.Parse: follows the IPv4 rules of `ipaddress` in Python 3.9.5 and later, which refuse every
  octet with a leading zero. Other versions differ: as far as is known, 3.8.0 to 3.9.4 accepted
  leading zeros, and earlier versions refused some of them.
- Converter.LineLoop.ProcessLine: the crash outcome keeps only the count. In the program the
  `IndexError` propagates out of `convert_mgen_to_json` and nothing is written.
- The JSON records are modelled as a datatype with the three keys. A Python dict's key order and
  identity (aliasing between records) are not modelled. No record is shared in the source.

## Findings

| source | as written | input that shows it | evidently intended | confidence | as-written member | corrected member |
|---|---|---|---|---|---|---|
| mgen2d3js/mgen2d3js.py:82 | the output name is everything before the last `.` of the whole path, plus `.json` | `./logs/run` (a relative path to a file without extension) gives `.json` in the working directory | replace the extension of the file's own name only, so `./logs/run` gives `./logs/run.json` (line 75: "changing extension to .json") | high, not executed | Mgen.RenameFileDropsDirectory | Mgen.RenameFileInPlaceKeepsName |
