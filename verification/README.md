# Backend.AI agent: parsing, merging and bookkeeping rules in Dafny

This project models the self-contained rules inside the Backend.AI kernel agent. It leaves out
the agent's Docker, ZeroMQ and asyncio plumbing. The modules are:

- `ServicePorts` (`service_ports.dfy`): the service-port descriptor parser `parse_service_ports`.
  - It reads `name:proto:port` or `name:proto:[p1,p2,...]` entries one at a time.
  - It skips `pty` entries.
  - It rejects unknown protocols, ports at or below 1024, the reserved ports 2000-2003, and
    repeated ports.
  - The regular expression it matches with is a small greedy tokenizer (`MatchEntry`).
  - The loop is a method proved against a specification function (`Parse`).
  - Both are characterised by the entries the tokenizer reads (`Tokens`).
- `NestedDict` (`nested_dict.dfy`): `update_nested_dict`.
  - Values are a tree of mappings, lists, strings and scalars.
  - The in-place merge is a method over the destination mapping, proved equal to the
    specification function `MergeInto`.
- `NumericList` (`numeric_list.dfy`): `numeric_list`, `[int(p) for p in s.split()]`.
- `KernelNames` (`kernel_names.dfy`): the container name `kernel.{lang}.{id}`, and the two ways
  the agent reads a kernel id back from it.
  - The helper `get_kernel_id_from_container` takes the last dot-separated component.
  - The container-event monitor splits at the first two dots.
- `ResultMatching` (`match_result.dfy`): `match_result`, which checks an execution result
  against an `op`/`target`/`value` specification.
- `KernelConfig` (`kernel_config.dfy`): the limits `_create_kernel` derives from image labels.
  - These are the version, memory limit, execution timeout and number of cores.
  - It also builds the core-count environment variables and the `CpusetCpus` string.
- `Registry` (`registry.dfy`): the `container_registry` dict as a class updated in place.
  - Kernels are registered on creation, touched on each execution and deleted when cleaned.
  - `CleanOldKernels` selects the idle kernels.
- `Text` (`text.dfy`): the Python built-ins the rules rely on.
  - These are `str(int)`, `int(str)`, `str.split(sep)`, `str.split()`, `sep.join` and
    the whitespace `int()` skips around its digits.
  - Character classes are ASCII only.
- `Wrappers` (`wrappers.dfy`): `Option` and `Result`.

Python exceptions are error values:
- a `ValueError` is `Err(...)` or `None`;
- a `KeyError` that the source catches is the branch it takes.

## Model

| member | source | states |
|---|---|---|
| ServicePorts.ParseServicePorts | src/ai/backend/agent/utils.py:72-107 | The consuming loop returns exactly what the specification `Parse` returns. The loop invariant says that the result is the records already accepted followed by the result of parsing the remaining text with the ports already used. |
| ServicePorts.ClaimPorts | src/ai/backend/agent/utils.py:89-96 | The port-checking loop returns exactly `CheckPorts`. In source order, each port must be unused, above 1024 and outside 2000-2003, and is then added to the used set. |
| ServicePorts.CheckPorts | src/ai/backend/agent/utils.py:89-96 | When the checks pass, the used set keeps what it had and gains every port of the entry. Each of those ports was unused, is above 1024 and is outside 2000-2003. A failure needs at least one port. |
| ServicePorts.CheckPortsFresh | src/ai/backend/agent/utils.py:89-96 | The port checks succeed if and only if the ports are fresh (pairwise distinct, unused, above 1024, not reserved). On success the used set grows by exactly those ports. |
| ServicePorts.MatchEntry | src/ai/backend/agent/utils.py:43 | A match yields a well-formed entry: word-character name and protocol, and ports that are digit strings. It consumes a nonempty prefix. |
| ServicePorts.MatchEntryText | src/ai/backend/agent/utils.py:43 | What a match consumed is exactly the entry as written (`name:proto:ports`), followed by a comma or by the end of the text. |
| ServicePorts.MatchRendered | src/ai/backend/agent/utils.py:43 | The tokenizer reads a written entry back whichever terminator follows it: a comma, the end of the text, or a final newline. |
| ServicePorts.Tokens | src/ai/backend/agent/utils.py:75-78 | The entries read before the first remainder that does not match are all well formed. |
| ServicePorts.TokensOfDescriptor | src/ai/backend/agent/utils.py:43-78 | Round trip: a descriptor written from well-formed entries is read back entry for entry, in order. |
| ServicePorts.TokensStopAtGarbage | src/ai/backend/agent/utils.py:103-107 | Reading stops silently at a remainder that is not an entry and keeps the entries before it. |
| ServicePorts.ToServicePort | src/ai/backend/agent/utils.py:88-102 | The record keeps the entry's name and its container ports in the order given. `host_ports` has the same length as the container ports and is all `None`. |
| ServicePorts.ParseCharacterized | src/ai/backend/agent/utils.py:72-107 | The parser succeeds if and only if every entry read has protocol tcp, http or pty and the ports of the non-pty entries are fresh. It then returns one record per non-pty entry, in input order. |
| ServicePorts.ParseFromCharacterized | src/ai/backend/agent/utils.py:75-106 | The same characterisation for the loop from any point, given the ports already used. |
| ServicePorts.ParseFrom | src/ai/backend/agent/utils.py:75-106 | Every record the loop returns from any point has one unset host port per container port. Its container ports are all above 1024 and outside 2000-2003. |
| ServicePorts.Parse | src/ai/backend/agent/utils.py:72-107 | The same guarantee for the whole descriptor, starting with no port used. |
| ServicePorts.UnknownProtocolRejected | src/ai/backend/agent/utils.py:82-87 | An entry whose protocol is not tcp, http or pty makes the parse fail. |
| ServicePorts.BadPortRejected | src/ai/backend/agent/utils.py:92-95 | A port at or below 1024, or in 2000-2003, in a non-pty entry makes the parse fail. |
| ServicePorts.RepeatedPortRejected | src/ai/backend/agent/utils.py:74-96 | A port number given twice, in one entry or in two, makes the parse fail. |
| ServicePorts.AcceptedPorts | src/ai/backend/agent/utils.py:88-102 | The container ports of the accepted records, taken together, are the ports of the non-pty entries in order. Every record's host ports are `None`, as many as its container ports. |
| ServicePorts.ParsedPortsValid | src/ai/backend/agent/utils.py:88-102 | Every record returned has all-`None` host ports matching its container ports. All container ports together are above 1024, outside 2000-2003 and pairwise distinct. |
| ServicePorts.ConsEntry | src/ai/backend/agent/utils.py:82-102 | How one more entry at the front changes the summaries. A pty entry contributes no record and no ports; a tcp or http entry contributes its record and its ports. |
| ServicePorts.PortsFreshAppend | src/ai/backend/agent/utils.py:74-96 | The ports of two groups are fresh exactly when the first group is fresh and the second is fresh after the first is used. |
| NestedDict.UpdateNestedDict | src/ai/backend/agent/utils.py:46-58 | The key-by-key loop, recursing into nested mappings, ends with exactly the merged mapping `MergeInto`. It ends with None exactly where the source raises. |
| NestedDict.MergeInto | src/ai/backend/agent/utils.py:47-49 | After the merge the keys are those of both sides. A key absent from the additions is unchanged, and a key absent from the destination gets the added value. |
| NestedDict.MergeShared | src/ai/backend/agent/utils.py:50-58 | For a key on both sides, three cases. A nested mapping is merged recursively. A list becomes its old items followed by the added ones. Any other value is replaced by the addition. |
| NestedDict.MergeValue | src/ai/backend/agent/utils.py:50-58 | A merged mapping stays a mapping holding the keys of both sides. A merged list stays a list that starts with its old items. A failure needs a mapping or a sequence in the destination. A value of any other kind is replaced by the addition. |
| NestedDict.MergeIntoSucceeds | src/ai/backend/agent/utils.py:51-55 | The merge fails if and only if some shared key pairs a mapping with a non-mapping, or a sequence with a non-sequence (the two assertions), or, under the `Sequence` test, has a string in the destination (which has no `extend`). |
| NestedDict.MergeValueSucceeds | src/ai/backend/agent/utils.py:51-55 | The same if-and-only-if for a single pair of values. |
| NestedDict.MergeNothing | src/ai/backend/agent/utils.py:47 | Merging no additions leaves the destination as it was. |
| NestedDict.MergeIntoEmpty | src/ai/backend/agent/utils.py:47-49 | Merging into an empty destination copies the additions. |
| NestedDict.StringValueRejected | src/ai/backend/agent/utils.py:54-56 | As written, a string already in the destination passes the `Sequence` test, so updating its key fails even with a string addition. |
| NestedDict.StringValueOverwritten | src/ai/backend/agent/utils.py:54-58 | Under the `MutableSequence` test a string in the destination is a scalar and is overwritten by the addition. |
| NestedDict.MapTestsAgree | src/ai/backend/agent/utils.py:46-58 | Wherever the merge as written succeeds, the corrected test gives the same mapping. |
| NumericList.NumericListRoundTrip | src/ai/backend/agent/utils.py:68-69 | A space-separated list of integer texts reads back as those integers. |
| NumericList.NumericListRejects | src/ai/backend/agent/utils.py:68-69 | One word that `int` refuses makes the whole call fail. |
| NumericList.ParseAll | src/ai/backend/agent/utils.py:69 | The list comprehension succeeds if and only if every piece parses. The values are then the pieces' values, position by position. |
| NumericList.NumericList | src/ai/backend/agent/utils.py:68-69 | The call succeeds if and only if every whitespace-separated word is a text `int` accepts. It then gives one integer per word. |
| KernelNames.MonitorReadsKernelName | sorna/agent/server.py:535-537 | For a language without a dot, splitting the name `kernel.{lang}.{id}` built at server.py line 300 at most twice on `.` gives back `id` as the third component, whatever `id` contains. |
| KernelNames.MonitorIgnoresOthers | sorna/agent/server.py:535-536 | A container name without the `kernel.` prefix is skipped. |
| KernelNames.MonitorIndexError | sorna/agent/server.py:535-537 | A name `kernel.x` with no second dot has no third component, so the index raises. |
| KernelNames.KernelIdFromKernelName | src/ai/backend/agent/utils.py:173-180 | With any number of leading slashes, the helper reads the name the agent gives a kernel back as the UUID parse of its id, when the id has no dot. |
| KernelNames.KernelIdNeedsPrefix | src/ai/backend/agent/utils.py:173-175 | A name without the `kernel.` prefix, after leading slashes are stripped, gives None. |
| KernelNames.KernelIdIsLastComponent | src/ai/backend/agent/utils.py:176-180 | With the prefix, the result is the UUID parse of the last `.`-component, which has no dot. It is None when that component is not a UUID. |
| KernelNames.SplitAtMost | sorna/agent/server.py:537 | `split('.', maxsplit=n)` gives between one and n+1 pieces. |
| KernelNames.LStrip | src/ai/backend/agent/utils.py:173 | `lstrip('/')` leaves a suffix of the name that does not start with `/`, having dropped only slashes. |
| KernelNames.KernelName | sorna/agent/server.py:300 | The name is `kernel.`, the language, a dot and the id, so its length is their lengths together. |
| KernelNames.KernelIdFromName | src/ai/backend/agent/utils.py:167-180 | An id is found only when the name, without its leading slashes, starts with `kernel.`. The id is then the UUID parse of the last `.`-component. |
| KernelNames.MonitorKernelId | sorna/agent/server.py:535-537 | The monitor ignores a container if and only if its name lacks the `kernel.` prefix. |
| ResultMatching.MissingKeyIsTypeError | sorna/agent/server.py:124-129 | The result is the TypeError if and only if one of `op`, `target`, `value` is missing. |
| ResultMatching.AnswersIffWellFormed | sorna/agent/server.py:124-132 | The matcher answers if and only if the specification has the three keys, an allowed operator, an allowed target and a string value. Each failed assertion is reported in source order. |
| ResultMatching.NoExceptionNoMatch | sorna/agent/server.py:135-140 | For target `exception` with no exceptions raised, the answer is False whatever the operator. |
| ResultMatching.MatchOutcome | sorna/agent/server.py:133-147 | The content is stdout, stderr, or the first field (name) of the last exception. `equal` holds if and only if value == content, and `contains` if and only if value occurs in content at some position. `regex` is the abstract search. |
| ResultMatching.ContainsIffOccurs | sorna/agent/server.py:141-142 | Python's `value in content` holds if and only if value occurs in content at some position. |
| ResultMatching.MatchResult | sorna/agent/server.py:123-147 | The matcher answers if and only if the specification is well formed. A True answer needs content to compare: a stream, or an exception that was raised. |
| KernelConfig.ExecTimeoutCapped | sorna/agent/server.py:233-234 | The timeout never exceeds the configured one or the label's value (default 10). It equals one of them. |
| KernelConfig.CoresClamped | sorna/agent/server.py:240-257 | A new kernel's core count is at most the available cores and at most the label's request (default 1), and equals one of them. A restarted kernel keeps its core count. |
| KernelConfig.DeriveLimits | sorna/agent/server.py:231-260 | Derived limits have a timeout no larger than the configured one. A new kernel gets at most the available cores, and a restarted kernel keeps its core count. There are no more environment entries than names in the core-count label. |
| KernelConfig.Defaults | sorna/agent/server.py:231-260 | Without labels, when at least one core is available, the limits are: version 1, `128m`, min(10, configured timeout), one core and no environment entries. |
| KernelConfig.BadLabelRejected | sorna/agent/server.py:231-256 | A version, timeout or maxcores label that `int` refuses fails with that label's error. Labels are read in source order. |
| KernelConfig.SeparatorPaddedVersionRejected | sorna/agent/server.py:231 | A version label that is a digit after an information separator (0x1C) fails with the version error, as `int` refuses it. |
| Text.PyIntRefusesSeparator | sorna/agent/server.py:231 | `int` refuses a digit padded with 0x1C, although `str.isspace` holds for that character. |
| KernelConfig.CoreCountEnvNames | sorna/agent/server.py:235-236 | An empty or missing label gives no names. |
| KernelConfig.Dedup | sorna/agent/server.py:260 | The dict's keys are exactly the names, each once, so there are no more keys than names. |
| KernelConfig.EnvAnnouncesCores | sorna/agent/server.py:260-288 | Every named variable is set to `str(num_cores)`, each exactly once, and nothing else is set. An empty label sets nothing. |
| KernelConfig.EnvEntries | sorna/agent/server.py:288 | The `Env` list has at most one item per name in the label, and it is empty if and only if the label names nothing. |
| KernelConfig.EnvValueReadsBack | sorna/agent/server.py:260-288 | Every item of the derived `Env` list is `k=v` for a name k from the core-count label, and v parses back as the number of cores. |
| KernelConfig.SortedCores | sorna/agent/server.py:292 | `sorted(core_set)` is strictly increasing and holds exactly the cores of the set. |
| KernelConfig.Cpuset | sorna/agent/server.py:292 | The `CpusetCpus` string is empty if and only if the core set is empty. |
| KernelConfig.CpusetRoundTrip | sorna/agent/server.py:292 | An empty core set gives an empty cpuset. Otherwise splitting the cpuset on commas and parsing each piece gives back the sorted cores. |
| Registry.ContainerRegistry.constructor | sorna/agent/server.py:157 | The registry starts empty. |
| Registry.ContainerRegistry.Register | sorna/agent/server.py:309-325 | The kernel's record holds the derived limits, zero queries and last-used time now. A new id is appended to the order, and an id already present keeps its place. |
| Registry.ContainerRegistry.Touch | sorna/agent/server.py:368-369 | An execution sets last-used to now and adds one query, and nothing else changes. An unknown id changes nothing. |
| Registry.ContainerRegistry.Forget | sorna/agent/server.py:572-573 | `del` removes exactly that id from the records and from the order (also at server.py lines 356-357). |
| Registry.ContainerRegistry.CleanOldKernels | sorna/agent/server.py:586-595 | The loop over a snapshot of the keys returns exactly `IdleKernels`: the registered kernels with now - last_used > idle_timeout, in registry order. |
| Registry.IdleKernels | sorna/agent/server.py:586-595 | The selection is no longer than the snapshot. Each selected id is in the snapshot and registered, and its kernel is idle. |
| Registry.IdleKernelsExactly | sorna/agent/server.py:586-595 | A kernel is selected if and only if it is in the snapshot, registered, and idle for strictly longer than the timeout. |
| Registry.IdleKernelsDistinct | sorna/agent/server.py:588-590 | No kernel is selected twice. |
| Registry.IdleRule | sorna/agent/server.py:591-592 | For a registered kernel, selection is exactly the strict comparison now - last_used > idle_timeout. |
| Registry.RemoveId | sorna/agent/server.py:357 | The remaining ids are the old ones except the deleted one. |

## Left out

- Docker, ZeroMQ, etcd, network interfaces, `/proc` and sysfs are not modelled. This covers
  the image label lookup, container creation, kernel runners, statistics and event dispatch.
  Image labels, the configured timeout, the available core count and `time.monotonic()`
  readings are parameters instead.
- Timers, asyncio tasks, `gather` and concurrency are not modelled. `CleanOldKernels` returns
  the kernels to destroy; it does not schedule their destruction.
- `_destroy_kernel`, `clean_kernel`, `heartbeat`, `update_stats`, `monitor`, `main` and
  `reset` are left out beyond the registry updates and the name split they perform.
- The `regex` operator of `match_result` is an abstract predicate, `Search`, since it depends
  on Python's `re` engine. An invalid pattern, which would raise, is not modelled.
- UUID parsing in `get_kernel_id_from_container` is the parameter `parseUuid`. The
  `DockerContainer` branch of that function, which reads the name through Docker, is left
  out.
- `readable_size_to_bytes`, `CPUAllocMap.alloc` and `free`, `prepare_nvidia` and
  `remove_exponent` are not part of this model. `memLimit` stays the label text, and the
  core set is a parameter.
- The restart path of `_create_kernel`, which waits on the previous container, is not
  modelled. Only its core count `len(core_set)` is kept, as `restartCores`.
- The agent-side record fields that describe the container (id, IP, ports, runner) are not
  kept.
- Text: character classes are ASCII only. Python's `\w`, `\d` and `isspace` accept further
  Unicode characters. `int()` also skips non-ASCII spaces such as U+00A0 around its digits,
  which `PyInt` refuses. Strings are sequences of characters with no encoding.
- `ServicePorts.MatchEntry` models the regular expression at utils.py:43 as a greedy
  tokenizer. Its `$` also matches before a final newline, and the model follows that.
- `ServicePorts.ParseServicePorts`: the check `if not name` (utils.py:79-81) cannot fire,
  because `\w+` matches at least one character. The model has no such branch.
- `NestedDict.UpdateNestedDict`: it returns the merged mapping instead of mutating `dest` in
  place. On failure the source may have already updated some keys, and the model keeps no
  partial state. Aliasing between nested dicts is not modelled.
- `NestedDict.MergeInto`: the kinds of error are not distinguished. AssertionError (shape
  mismatch) and AttributeError (`extend` on a string) are both None.
- Tuples and other immutable sequences in the destination are not modelled. The source would
  fail on `extend` for them, like on a string.
- `NumericList.NumericList` and the `KernelConfig` labels: `int()` on text is modelled for
  ASCII digits with an optional sign, surrounding whitespace and single underscores between
  digits. Other bases and Unicode digits are not modelled.
- `KernelConfig.DeriveLimits`: the configured timeout is an integer. Python would also
  accept a float.
- `Registry.IdleKernels`: times are exact reals. The rounding of Python's float subtraction
  `now - last_used` is not modelled.

## Findings

| source | as written | input that shows it | evidently intended | confidence | as-written member | corrected member |
|---|---|---|---|---|---|---|
| src/ai/backend/agent/utils.py:54-56 | `isinstance(dest[k], Sequence)` also holds for a string, so a string value in `dest` is extended with `.extend`, which raises. | `dest = {"a": "x"}`, `additions = {"a": "y"}` | Only mutable sequences (lists) are extended; a string is overwritten like any other scalar. | not executed | NestedDict.StringValueRejected | NestedDict.MapTestsAgree |
