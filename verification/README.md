# xml2cli-pa in Dafny

This project models the converter that turns a PAN-OS XML configuration
export into `set` commands (`parse_xml_to_cli` in
`PA-XML2CLI-CONVERTER/xml2cli-pa.py`). The model starts from an
already-parsed element tree and covers three steps:

- **Path segments.** `format_path_segment` gives the tag, followed by the
  value of the `name` attribute when the element has one.
- **The walk.** `process_element` makes a depth-first walk. It builds a
  space-joined path and emits one stripped command per leaf element: the
  path, then the leaf's text.
- **Post-processing.** The wrapper `"config devices entry localhost.localdomain "`
  is deleted wherever it occurs. Then every `" entry"` is deleted in one
  left-to-right pass. Finally `"set "` is put in front.

The files:

- `pystr.dfy` (module `PyStr`) holds the two Python string operations the
  converter relies on:
  - `str.strip`, over Python's full `str.isspace` set. It is characterised
    as the unique trimmed string obtained by cutting whitespace-only runs
    from both ends.
  - `str.replace`: leftmost-first, non-overlapping, a single scan.
- `xmltree.dfy` (module `XmlTree`) holds the element datatype: tag,
  attribute map, ordered children, and `Option` text. It also lists the
  root-to-leaf chains of a tree in depth-first order.
- `xml2cli.dfy` (module `Xml2Cli`) holds the converter itself: `Process`,
  `Normalize` and `Convert` as functions, the appending walk as
  `ProcessInto`, and the loop of lines 34-46 as the method `Postprocess`. It also holds the properties that connect them:
  - commands correspond to root-to-leaf chains;
  - only tags, `name` values and leaf texts matter;
  - what each deletion does.
- `scenarios.dfy` (module `Scenarios`) works through concrete trees and
  strings. These include the device export, the `None` rendering, the
  unstripped root segment, and the inputs on which the deletions are not
  idempotent or hit more than one place.

Four behaviours of the code are worth knowing:

- **Missing text.** A leaf without text renders Python's `None`, so
  `<flag name="enabled"/>` gives `set flag enabled None`. See
  `Xml2Cli.MissingTextEndsInNone` for every path, and
  `Scenarios.MissingTextRendersNone` for this element.
- **Every wrapper is deleted.** `str.replace` deletes every occurrence of
  the wrapper, wherever it sits in a command. See `Scenarios.WrapperDeletedEverywhere`.
- **The root segment is not stripped.** Only deeper paths are. See
  `Scenarios.RootSegmentNotStripped` and `Scenarios.InnerSegmentStripped`.
- **The output is not free of `" entry"`.** The single scan can join pieces
  into a new occurrence. See `Scenarios.EntryDeletionNotIdempotent`.

## Model

| member | source | states |
|---|---|---|
| PyStr.IsWs | PA-XML2CLI-CONVERTER/xml2cli-pa.py:21 | the characters `.strip()` with no argument removes: Python's `str.isspace` set, not only ASCII blanks; `StripSpec` and its neighbours state what is cut with it |
| PyStr.LStrip | PA-XML2CLI-CONVERTER/xml2cli-pa.py:21 | the leading-whitespace half of `.strip()`; its contract is `PyStr.LStripSpec` |
| PyStr.RStrip | PA-XML2CLI-CONVERTER/xml2cli-pa.py:21 | the trailing-whitespace half of `.strip()`; its contract is `PyStr.RStripSpec` |
| PyStr.Strip | PA-XML2CLI-CONVERTER/xml2cli-pa.py:21 | `.strip()` with no argument; `PyStr.StripSpec` and `PyStr.StripUnique` characterise it independently |
| PyStr.Contains | PA-XML2CLI-CONVERTER/xml2cli-pa.py:37 | Python's `in` on strings: the pattern occurs at some index; `Xml2Cli.DropWrapperSpec` shows the guard it forms is redundant |
| PyStr.Replace | PA-XML2CLI-CONVERTER/xml2cli-pa.py:38 | `str.replace` with a non-empty pattern; `PyStr.ReplaceLeftmost`, `PyStr.ReplaceNoMatch` and `PyStr.RemoveIdentityIff` pin down its scan |
| PyStr.StripKeepsSolidTail | PA-XML2CLI-CONVERTER/xml2cli-pa.py:27 | `.strip()` of a string that ends in a whitespace-free tail still ends with that whole tail |
| PyStr.LStripSpec | PA-XML2CLI-CONVERTER/xml2cli-pa.py:21 | the result is a suffix of the input, everything cut off is whitespace, and the result does not start with whitespace |
| PyStr.RStripSpec | PA-XML2CLI-CONVERTER/xml2cli-pa.py:21 | the result is a prefix of the input, everything cut off is whitespace, and the result does not end with whitespace |
| PyStr.StripSpec | PA-XML2CLI-CONVERTER/xml2cli-pa.py:21 | `.strip()` gives a string with no whitespace at either end, obtained from the input by cutting whitespace-only runs from both ends |
| PyStr.StripUnique | PA-XML2CLI-CONVERTER/xml2cli-pa.py:27 | any string obtained that way is exactly what `.strip()` returns, so the characterisation pins the function down |
| PyStr.StripIdempotent | PA-XML2CLI-CONVERTER/xml2cli-pa.py:27 | stripping twice is the same as stripping once |
| PyStr.StripTrimmed | PA-XML2CLI-CONVERTER/xml2cli-pa.py:21 | a string with no whitespace at either end is left unchanged by `.strip()` |
| PyStr.ReplaceNoMatch | PA-XML2CLI-CONVERTER/xml2cli-pa.py:41 | `str.replace` returns its input when the pattern occurs nowhere in it |
| PyStr.ReplaceLeftmost | PA-XML2CLI-CONVERTER/xml2cli-pa.py:38 | `str.replace` keeps everything before the leftmost occurrence, substitutes that occurrence, and continues the scan after it (non-overlapping) |
| PyStr.RemoveShrinks | PA-XML2CLI-CONVERTER/xml2cli-pa.py:41 | deleting a pattern never lengthens a string, and removes at least one whole pattern when it occurs |
| PyStr.RemoveIdentityIff | PA-XML2CLI-CONVERTER/xml2cli-pa.py:41 | deleting a pattern leaves a string unchanged if and only if the pattern does not occur in it |
| Xml2Cli.PathSegment | PA-XML2CLI-CONVERTER/xml2cli-pa.py:13-16 | `format_path_segment`; its contract is `Xml2Cli.SegmentOnlyReadsName` |
| Xml2Cli.ExtendPath | PA-XML2CLI-CONVERTER/xml2cli-pa.py:21 | how `new_path` is formed; its contract is `Xml2Cli.ExtendPathSpec` |
| Xml2Cli.RenderText | PA-XML2CLI-CONVERTER/xml2cli-pa.py:27 | how the f-string prints `element.text`; `Xml2Cli.MissingTextEndsInNone` states its effect on commands |
| Xml2Cli.LeafCommand | PA-XML2CLI-CONVERTER/xml2cli-pa.py:27 | the stripped command a leaf appends; `Xml2Cli.LeafCommandEndsWithText` and `Xml2Cli.ProcessTrimmed` state what it looks like |
| Xml2Cli.LeafCommandEndsWithText | PA-XML2CLI-CONVERTER/xml2cli-pa.py:27 | for any path, a leaf command ends with the rendered text whenever that text holds no whitespace |
| Xml2Cli.MissingTextEndsInNone | PA-XML2CLI-CONVERTER/xml2cli-pa.py:26-28 | for every path, a leaf without text emits one command, and it ends with `None` |
| Xml2Cli.SolidTextEndsCommand | PA-XML2CLI-CONVERTER/xml2cli-pa.py:26-28 | for every path, a leaf whose text holds no whitespace emits one command, and it ends with that text |
| Xml2Cli.SegmentOnlyReadsName | PA-XML2CLI-CONVERTER/xml2cli-pa.py:13-16 | the segment is the tag plus a space and the `name` value when `name` is present and the bare tag otherwise; two attribute maps that agree on `name` give the same segment |
| Xml2Cli.ExtendPathSpec | PA-XML2CLI-CONVERTER/xml2cli-pa.py:21 | the root call (empty path) takes the segment as is, unstripped; a deeper call joins path and segment with one space and strips the result |
| Xml2Cli.Process | PA-XML2CLI-CONVERTER/xml2cli-pa.py:19-28 | the walk emits exactly one command per leaf element of the subtree |
| Xml2Cli.ProcessAll | PA-XML2CLI-CONVERTER/xml2cli-pa.py:23-25 | the loop over the children emits one command per leaf below them |
| Xml2Cli.ProcessByChains | PA-XML2CLI-CONVERTER/xml2cli-pa.py:19-28 | the i-th command is the stripped path along the i-th root-to-leaf chain (depth-first, left to right) followed by that leaf's text |
| Xml2Cli.ProcessAllByChains | PA-XML2CLI-CONVERTER/xml2cli-pa.py:23-25 | the commands of the children come child by child, in document order, each child's commands in its own chain order |
| Xml2Cli.ProcessTrimmed | PA-XML2CLI-CONVERTER/xml2cli-pa.py:27 | every raw command has no whitespace at either end |
| Xml2Cli.ProcessReadsOnlyView | PA-XML2CLI-CONVERTER/xml2cli-pa.py:19-28 | two trees with the same tags, `name` values, shape and leaf texts give the same commands, whatever their other attributes and inner texts |
| Xml2Cli.ProcessAllReadsOnlyView | PA-XML2CLI-CONVERTER/xml2cli-pa.py:23-25 | the same for a list of children walked in order |
| Xml2Cli.InnerTextIgnored | PA-XML2CLI-CONVERTER/xml2cli-pa.py:23-27 | the text of an element that has children never changes any command |
| Xml2Cli.ProcessInto | PA-XML2CLI-CONVERTER/xml2cli-pa.py:19-28 | `process_element` appending to the shared list; its contract is `Xml2Cli.ProcessIntoAppends` |
| Xml2Cli.ProcessAllInto | PA-XML2CLI-CONVERTER/xml2cli-pa.py:24-25 | the loop over the children appending to the shared list; its contract is `Xml2Cli.ProcessAllIntoAppends` |
| Xml2Cli.ProcessIntoAppends | PA-XML2CLI-CONVERTER/xml2cli-pa.py:19-28 | the walk that appends to the shared list keeps what the list held and adds exactly the commands of `Process`, in order |
| Xml2Cli.ProcessAllIntoAppends | PA-XML2CLI-CONVERTER/xml2cli-pa.py:23-25 | the same for the loop over the children: each child's commands are appended after the previous child's |
| Xml2Cli.DropWrapper | PA-XML2CLI-CONVERTER/xml2cli-pa.py:37-38 | the guarded wrapper deletion; its contract is `Xml2Cli.DropWrapperSpec` |
| Xml2Cli.DropEntry | PA-XML2CLI-CONVERTER/xml2cli-pa.py:41 | the " entry" deletion; its contract is `Xml2Cli.DropEntrySpec` |
| Xml2Cli.DropWrapperSpec | PA-XML2CLI-CONVERTER/xml2cli-pa.py:35-38 | the `in` guard changes nothing (the step equals a plain deletion of every occurrence); the step is the identity exactly when the wrapper is absent, and otherwise shortens the command by at least the wrapper's length |
| Xml2Cli.DropEntrySpec | PA-XML2CLI-CONVERTER/xml2cli-pa.py:41 | the " entry" deletion never lengthens a command, is the identity exactly when " entry" is absent, and otherwise removes at least six characters |
| Xml2Cli.Normalize | PA-XML2CLI-CONVERTER/xml2cli-pa.py:46 | every final command begins with "set " |
| Xml2Cli.Convert | PA-XML2CLI-CONVERTER/xml2cli-pa.py:31-46 | the conversion gives one final command per leaf element, each beginning with "set " |
| Xml2Cli.Postprocess | PA-XML2CLI-CONVERTER/xml2cli-pa.py:34-46 | the filtering loop and the prefixing are one-to-one and order-preserving: output i is "set " followed by input i with the wrapper and then " entry" deleted |
| Xml2Cli.ParseXmlToCli | PA-XML2CLI-CONVERTER/xml2cli-pa.py:9-48 | the conversion as written (the walk appending to an empty `cli_commands`, then the filtering loop and the prefix) returns exactly `Convert` of the root |
| Xml2Cli.ConvertByChains | PA-XML2CLI-CONVERTER/xml2cli-pa.py:19-46 | the i-th final command is the normalised command of the i-th leaf in depth-first order |
| Scenarios.Step | PA-XML2CLI-CONVERTER/xml2cli-pa.py:21-25 | below a non-empty path, an element with one child passes the path joined with its segment on to that child, when the path does not start and the segment does not end with whitespace, so no stripping is needed |
| Scenarios.Emit | PA-XML2CLI-CONVERTER/xml2cli-pa.py:21-28 | below a non-empty path, a leaf with text emits path, segment and text joined by single spaces when no stripping is needed |
| Scenarios.DropWrapperPrefix | PA-XML2CLI-CONVERTER/xml2cli-pa.py:37-38 | a command that starts with the wrapper and holds no other copy loses exactly that prefix |
| Scenarios.DeviceRawCommand | PA-XML2CLI-CONVERTER/xml2cli-pa.py:19-28 | the device export's single raw command is the wrapper followed by "network interface eth1 up" |
| Scenarios.DeviceNormalize | PA-XML2CLI-CONVERTER/xml2cli-pa.py:35-46 | that raw command becomes "set network interface eth1 up" |
| Scenarios.DeviceExport | PA-XML2CLI-CONVERTER/xml2cli-pa.py:19-46 | the tree config/devices/entry[name=localhost.localdomain]/network/interface[name=eth1] with text "up" converts to exactly ["set network interface eth1 up"] |
| Scenarios.OtherAttributeIgnored | PA-XML2CLI-CONVERTER/xml2cli-pa.py:13-16 | `<rule entry="foo">bar</rule>` below the path "x" gives "x rule bar": an attribute other than `name` is ignored |
| Scenarios.FlagRawCommand | PA-XML2CLI-CONVERTER/xml2cli-pa.py:21-27 | a text-less root leaf `<flag name="enabled"/>` emits "flag enabled None" |
| Scenarios.MissingTextRendersNone | PA-XML2CLI-CONVERTER/xml2cli-pa.py:27 | that leaf converts to exactly ["set flag enabled None"] |
| Scenarios.RootSegmentNotStripped | PA-XML2CLI-CONVERTER/xml2cli-pa.py:21 | at the root, a segment with an empty `name` keeps its trailing space, giving "a  x" with two spaces |
| Scenarios.InnerSegmentStripped | PA-XML2CLI-CONVERTER/xml2cli-pa.py:21 | one level down the same segment is stripped away, giving "r a x" |
| Scenarios.EntryRawCommand | PA-XML2CLI-CONVERTER/xml2cli-pa.py:19-28 | an `entry` element without `name` contributes " entry" to the path: `<a><entry><b>1</b></entry></a>` gives "a entry b 1" |
| Scenarios.EntryElementDropped | PA-XML2CLI-CONVERTER/xml2cli-pa.py:41-46 | that command becomes "set a b 1" |
| Scenarios.EntryDeletionNotIdempotent | PA-XML2CLI-CONVERTER/xml2cli-pa.py:41 | the single scan turns " ent entryry" into " entry", which still contains " entry" |
| Scenarios.ReplaceLeading | PA-XML2CLI-CONVERTER/xml2cli-pa.py:38 | a leading occurrence is deleted and the scan resumes right after it |
| Scenarios.ReplaceAfterPrefix | PA-XML2CLI-CONVERTER/xml2cli-pa.py:38 | characters that cannot start the pattern are kept and the scan moves past them to the next occurrence |
| Scenarios.WrapperDeletedEverywhere | PA-XML2CLI-CONVERTER/xml2cli-pa.py:37-38 | two copies of the wrapper around "a " and "b" both disappear, leaving "a b" |

## Left out

- Parsing the XML file (lines 6-7, `ET.parse` and `getroot`) is not modelled. It is an external library. The model takes the parsed tree as input. Tags are opaque strings, so a namespaced `{uri}local` tag is just text. Tail text is never read by the converter.
- `main` (lines 50-74) is not modelled. It is all I/O: the prompts, the file-existence check, writing the output file, and printing errors.
- Python's recursion-depth limit and the `ParseError` and write-error handling are not modelled. They are runtime and environment concerns.
- The shared mutable list `cli_commands`, which `process_element` appends to, is threaded through `Xml2Cli.ProcessInto` as a value rather than mutated in place. `Xml2Cli.ProcessIntoAppends` proves that the result equals the old list followed by `Process`.
- PyStr.Replace: an empty pattern is excluded by its precondition. Python's behaviour for an empty pattern is not modelled, because both calls in the converter use fixed non-empty patterns.
- The wrapper deletion can also be non-idempotent, when one wrapper is nested inside another. No lemma exhibits this; the " entry" case (`Scenarios.EntryDeletionNotIdempotent`) shows the same single-scan behaviour.
