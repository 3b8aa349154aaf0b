# dismount_iso_qemu core, modelled in Dafny

`dismount_iso_qemu` is a small command-line tool that manages QEMU/libvirt
virtual machines through `virsh`. This project models its core:

- **the guest-agent file transfer of `virsh.rs`**:
  - `ga_read_file` opens a guest file, reads it in 4096-byte base64 chunks until `eof`, then closes it;
  - `ga_write_file` opens a guest file, writes `content.chunks(4096)` as base64, then closes it;
  - `list_vms` turns `virsh list --all --name` output into VM names.
- **the OS queries of `agent.rs`**: `guest-get-osinfo` and the older `guest-get-os`.
  Each picks a friendly OS name out of the agent's `return` object.
- **the probe cache of `probe.rs`**: `ProbeManager` keeps a name per VM, stamped with the time it was stored.
  `get_os` serves a fresh entry, or else asks the agent, newer query first.
- **the helpers of `utils.rs`**:
  - path escaping and local-path resolution;
  - the `virsh dominfo` line parser;
  - the CPU-time parser;
  - the memory formatter (`format_memory_kib`) and the duration formatter (`format_seconds_dhms`).

## Modelling choices

- **Transport.** Every `virsh qemu-agent-command` invocation takes the next
  entry of a script of replies. A reply is either parsed JSON or a failure.
  An operation returns its outcome together with the calls it made, in order.
  This is how the model states what is sent, in which order, and what is
  never sent (for example, no close after a failed read).
  Every script is finite, so a read loop that never sees `eof` ends when the script runs out, with a `NoReply` failure.
- **JSON.** JSON is the `Json` datatype. `as_i64`, `as_str` and `as_bool`
  are `IntAt`, `StrAt` and `BoolAt`.
- **Base64.** Base64 is an abstract `Codec` of an encode function and a partial decode function.
  The round-trip lemmas assume only that decoding undoes encoding (`Faithful`).
- **Floating point.** `parse_cpu_time_to_seconds` parses seconds with `f64` and then casts with `as u64`.
  The model takes that step as a parameter `secs`.
  Its lemmas assume only that `secs` reads the decimal text of an integer below 2^53 exactly (`ReadsWholeSeconds`).
  `format_memory_kib` prints from MiB up with `{:.1}` on an `f64`.
  That rendering is the parameter `decimal`.
- **Integers.** `u64` arithmetic is explicit: `SatAdd`, `SatMul` and `Clamp`
  saturate at `u64::MAX`.
- **Time.** Time is a natural number of nanoseconds on a monotonic clock.
  `GetOs` takes two instants: `now`, when the cache is read, and `stored`, no earlier, when `store_cache` reads the clock again after the queries.
  The cache is a value that `GetOs` takes and returns.

## Model

| member | source | states |
|---|---|---|
| Virsh.ListVms | dismount_iso_qemu/src/virsh.rs:36-41 | There are never more names than lines, and every name is non-empty and is one of the trimmed lines. |
| Virsh.ListVmsOfText | dismount_iso_qemu/src/virsh.rs:36-41 | For any output, the names are its `\n`-separated pieces, each trimmed, with the empty ones dropped, in order. `lines`' special handling of `\r` and of a final empty line makes no difference. |
| Virsh.ListVmsOfLines | dismount_iso_qemu/src/virsh.rs:36-41 | Lines joined by `\n`, including blank, padded and `\r`-ended ones, list as the non-empty trims of those lines, in order. |
| Virsh.ListVmsOfOutput | dismount_iso_qemu/src/virsh.rs:36-41 | Output shaped like `virsh list --name`, one name per line and then a blank line, lists exactly those names, in order. |
| Virsh.ListVmsNames | dismount_iso_qemu/src/virsh.rs:36-41 | The listed names are exactly the non-empty trimmed lines of the output; each name is its own trim and holds no line break. |
| Virsh.ListVmsOfJoin | dismount_iso_qemu/src/virsh.rs:36-41 | Names printed one per line are listed back unchanged and in order. This holds for names that are non-empty, on one line, and not padded with white space. |
| Virsh.NonEmpty | dismount_iso_qemu/src/virsh.rs:39 | Every string kept is non-empty and comes from the input. Of a single string, nothing is kept exactly when it is empty. |
| Virsh.NonEmptyAppend | dismount_iso_qemu/src/virsh.rs:39 | The filter distributes over concatenation. With the single-string case, this fixes the order and multiplicity of what is kept. |
| Virsh.NonEmptyMembers | dismount_iso_qemu/src/virsh.rs:39 | The filter keeps a string exactly when it is in the input and not empty. |
| Virsh.Receive | dismount_iso_qemu/src/virsh.rs:7-21 | A call succeeds exactly when its reply is parsed JSON, and yields that JSON. A failed or missing reply is an error. |
| Virsh.Open | dismount_iso_qemu/src/virsh.rs:63-72 | One open call is made. It succeeds exactly when the reply carries an integer `return` in the i64 range, and that integer is the handle. |
| Virsh.Close | dismount_iso_qemu/src/virsh.rs:105-110 | One close call on the handle is made. It succeeds exactly when the call gets a parsed reply, whatever the reply holds. |
| Virsh.ReadLoop | dismount_iso_qemu/src/virsh.rs:74-103 | The loop makes at least one call, and every call is a 4096-byte read on the same handle. |
| Virsh.ReadFile | dismount_iso_qemu/src/virsh.rs:60-113 | The open is the first call. Without a handle the read fails after that call alone; a successful read had a handle. |
| Virsh.ReadFileOnOneHandle | dismount_iso_qemu/src/virsh.rs:60-113 | After the open, every call uses the opened handle. A close can only be the last call, and a successful read always ends with one. |
| Virsh.ReadLoopAccepts | dismount_iso_qemu/src/virsh.rs:76-103 | A run of good chunks, with `eof` true on the last one only, is consumed exactly: one read per reply, and the result is the decoded chunks concatenated in order. |
| Virsh.ReadLoopStops | dismount_iso_qemu/src/virsh.rs:81-96 | The loop fails at the first reply that is missing, failed, has no `return` or no string `buf-b64`, or does not decode. It has made exactly one read more than the good replies before it. |
| Virsh.ReadFileAfterEof | dismount_iso_qemu/src/virsh.rs:96-112 | After the stream ends, the calls are open, k reads, close. The read succeeds exactly when the close gets a reply, and then returns the data. |
| Virsh.ReadFileFailsWithoutClose | dismount_iso_qemu/src/virsh.rs:81-110 | An intermediate read failure fails the operation and no close is sent. |
| Virsh.Chunks | dismount_iso_qemu/src/virsh.rs:131-132 | The content splits into ceil(len/4096) chunks. Each chunk is non-empty and at most 4096 bytes, every chunk but the last is full, and together they are the content. |
| Virsh.WriteChunks | dismount_iso_qemu/src/virsh.rs:132-139 | The write loop stops right after the first call that gets no parsed reply. It succeeds exactly when every chunk's call got one. |
| Virsh.WriteChunksCalls | dismount_iso_qemu/src/virsh.rs:132-139 | The calls sent are the write calls of the chunks tried, in order, each carrying that chunk's encoding. |
| Virsh.WriteFile | dismount_iso_qemu/src/virsh.rs:116-149 | The open is the first call. Without a handle the write fails after that call alone; a successful write had a handle. |
| Virsh.WriteFileOnOneHandle | dismount_iso_qemu/src/virsh.rs:116-149 | After the open, every call uses the opened handle, and a close can only be the last call. A success ends with a close, and empty content sends exactly an open and a close. |
| Virsh.WriteFileAllAnswered | dismount_iso_qemu/src/virsh.rs:130-148 | When every write gets a reply, the calls are open, one write per chunk in order, then close. The result is OK exactly when the close gets a reply. |
| Virsh.WriteFileFailsWithoutClose | dismount_iso_qemu/src/virsh.rs:132-139 | A failed write of chunk k fails the operation after k + 1 writes, and no close is sent. |
| Virsh.WrittenWrites | dismount_iso_qemu/src/virsh.rs:132-138 | With a faithful codec, the write calls for some chunks deliver exactly those chunks, concatenated in order. |
| Virsh.AgentReadsRun | dismount_iso_qemu/src/virsh.rs:76-103 | An agent serving a file in 4096-byte pieces gives a run the loop accepts, and the decoded run is the file. The run ends with a short, possibly empty, piece. |
| Virsh.WriteToAgent | dismount_iso_qemu/src/virsh.rs:116-149 | Against an agent that answers every call, the write succeeds and its calls deliver exactly the content. |
| Virsh.ReadFromAgent | dismount_iso_qemu/src/virsh.rs:60-113 | Reading from an agent that holds some content returns that content. |
| Virsh.WriteThenRead | dismount_iso_qemu/src/virsh.rs:60-149 | Round trip: writing content and reading back what the write delivered gives the content. |
| Json.Get | dismount_iso_qemu/src/virsh.rs:83-85 | `get` finds a field exactly when the value is an object holding that key, and what it finds is that key's value. |
| Json.IntAt | dismount_iso_qemu/src/virsh.rs:69-72 | `as_i64` yields a value exactly for an integer field in the i64 range. |
| Json.StrAt | dismount_iso_qemu/src/virsh.rs:87-90 | `as_str` yields a value exactly for a string field, and it is that string. |
| Json.BoolAt | dismount_iso_qemu/src/virsh.rs:96 | `as_bool` yields a value exactly for a boolean field, and it is that boolean. |
| Agent.FirstStrField | dismount_iso_qemu/src/agent.rs:9-19 | The first key whose field is a string is chosen. Every earlier key is absent or not a string, and there is none exactly when no key holds a string. |
| Agent.WithVersion | dismount_iso_qemu/src/agent.rs:17-18 | An empty version leaves the name alone. Otherwise the result is the name, one space, then the version. |
| Agent.NameWithVersion | dismount_iso_qemu/src/agent.rs:16-18 | The result starts with the name. It is the name alone exactly when there is no non-empty string `version`; otherwise a space and that version follow the name. |
| Agent.OsInfoOf | dismount_iso_qemu/src/agent.rs:9-21 | The name is the first string among `pretty-name`, `pretty` and `name`, the last with its version. The whole object is rendered only when none of the three is a string. |
| Agent.LegacyOsOf | dismount_iso_qemu/src/agent.rs:30-37 | The older query gives the first string among `pretty` and `name`, the last with its version, and nothing exactly when neither is a string. |
| Agent.OsInfoExtendsLegacy | dismount_iso_qemu/src/agent.rs:6-40 | Without a string `pretty-name`, the two extractions agree wherever the older one finds a name. Where it finds none, the newer one gives `pretty-name` or the rendering. |
| Agent.TryGuestGetOsInfo | dismount_iso_qemu/src/agent.rs:6-24 | One `guest-get-osinfo` call is made, and it errors exactly on a transport failure. There is a name exactly when the reply has a `return`, and the name is its extraction. |
| Agent.TryGuestGetOs | dismount_iso_qemu/src/agent.rs:27-40 | One `guest-get-os` call is made, and it errors exactly on a transport failure. There is a name exactly when the `return` holds a string `pretty` or `name`. |
| Probe.New | dismount_iso_qemu/src/probe.rs:16-23 | The cache starts empty, and the timeout is the whole seconds of the duration given, rounded down. |
| Probe.Elapsed | dismount_iso_qemu/src/probe.rs:30 | The elapsed time is now minus the stamp, and zero when the stamp lies ahead. |
| Probe.StoreCache | dismount_iso_qemu/src/probe.rs:52-55 | The entry for the VM becomes the value stamped with the given instant. Every other entry and the settings stay as they were. |
| Probe.GetOs | dismount_iso_qemu/src/probe.rs:26-55 | The result is always OK, with at most two calls. No calls are made exactly when a fresh entry exists at the lookup's instant. A found name is stored, stamped at the later instant when `store_cache` runs; finding none leaves the manager unchanged. |
| Probe.FreshHit | dismount_iso_qemu/src/probe.rs:27-34 | An entry younger than the TTL is returned with no query and nothing stored. |
| Probe.StaleAtTtl | dismount_iso_qemu/src/probe.rs:30 | Freshness is strict: an entry exactly TTL old causes a `guest-get-osinfo` call. |
| Probe.OsInfoFirst | dismount_iso_qemu/src/probe.rs:36-40 | On a miss, a name from `guest-get-osinfo` is returned after that single call, and stored with the instant `store_cache` reads after the query. |
| Probe.LegacyFallback | dismount_iso_qemu/src/probe.rs:42-46 | On a miss where the newer query fails or finds nothing, `guest-get-os` is asked next. Its name is returned, and stored with the instant `store_cache` reads after the queries. |
| Probe.BothFail | dismount_iso_qemu/src/probe.rs:48-49 | When neither query finds a name, the result is `Ok(None)` after both calls, and the cache is untouched. |
| Probe.ReuseWithinTtl | dismount_iso_qemu/src/probe.rs:26-55 | A name fetched by a lookup and stored at instant `stored` is served without a query at any time before `stored` + TTL, whatever the agent would say. |
| Probe.OtherEntriesKept | dismount_iso_qemu/src/probe.rs:52-55 | A lookup never changes the entry of another VM. |
| Paths.NormalizeWindowsPath | dismount_iso_qemu/src/utils.rs:8-10 | The length grows by the number of backslashes, and a path without backslashes is unchanged. |
| Paths.UnescapeNormalize | dismount_iso_qemu/src/utils.rs:8-10 | Reading each doubled backslash as one gives back the original path: escaping loses nothing. |
| Paths.NormalizeUnchangedIff | dismount_iso_qemu/src/utils.rs:8-10 | A path is left unchanged exactly when it has no backslash. |
| Paths.FileName | dismount_iso_qemu/src/utils.rs:15-17 | A file name is never empty, `.`, `..` or contains `/`. |
| Paths.FileNameOfJoin | dismount_iso_qemu/src/utils.rs:15-17 | The file name of directories joined with a name is that name. |
| Paths.FileNameTrailingSlash | dismount_iso_qemu/src/utils.rs:15-17 | A trailing `/` does not change the file name. |
| Paths.ResolveLocalPath | dismount_iso_qemu/src/utils.rs:13-23 | A local path with a non-white-space character is kept verbatim. A blank one becomes the remote path's file name, or the empty path when it has none. |
| Paths.ResolveWindowsRemoteAsWritten | dismount_iso_qemu/src/utils.rs:13-23 | A blank local path with remote `C:\nps.xml` resolves to `C:\nps.xml` itself. |
| Paths.GuestFileName | dismount_iso_qemu/src/utils.rs:15-18 | A guest file name, taking both `/` and `\` as separators, contains neither. |
| Paths.ResolveLocalPathFixed | dismount_iso_qemu/src/utils.rs:13-23 | The corrected resolution: a blank local path becomes the guest file's own name, with no separator of either kind. |
| Paths.ResolveWindowsRemoteFixed | dismount_iso_qemu/src/utils.rs:13-23 | With the correction, remote `C:\nps.xml` resolves to `nps.xml`. |
| Paths.FixedAgreesOnUnixPaths | dismount_iso_qemu/src/utils.rs:13-23 | For remote paths without a backslash, the correction changes nothing. |
| Dominfo.AfterFirst | dismount_iso_qemu/src/utils.rs:64 | `splitn(2, ':').nth(1)` exists exactly when there is a colon. It is the text after the first colon. |
| Dominfo.ApplyLine | dismount_iso_qemu/src/utils.rs:62-81 | One line updates each field by exactly what that line sets, and leaves the other fields alone. |
| Dominfo.LastSet | dismount_iso_qemu/src/utils.rs:61-82 | A field's value comes from a line that sets it, and no later line sets that field. It is absent exactly when no line sets the field. |
| Dominfo.ParseLinesLastWins | dismount_iso_qemu/src/utils.rs:61-84 | From any starting record, each field ends as the last value a line sets, or keeps its start value. |
| Dominfo.ParseDominfo | dismount_iso_qemu/src/utils.rs:56-85 | Each field is the value from the last line that sets it, and absent when none does. Other lines are ignored, and a memory line whose figure does not parse is skipped. |
| Dominfo.MaxMemoryLine | dismount_iso_qemu/src/utils.rs:63-69 | `Max memory: <n> <unit>` sets the maximum to n. |
| Dominfo.UsedMemoryLine | dismount_iso_qemu/src/utils.rs:70-76 | `Used memory: <n> <unit>` sets the used memory to n. |
| CpuTime.ParseCpuTimeToSeconds | dismount_iso_qemu/src/utils.rs:93-97 | Blank text reads as nothing. |
| CpuTime.SpacedReading | dismount_iso_qemu/src/utils.rs:99-134 | In the spaced form (any space, `h` or `m`), the result is the exact token sum capped at `u64::MAX`. It is nothing when a token does not read. |
| CpuTime.TokenSeconds | dismount_iso_qemu/src/utils.rs:104-131 | An `h` or `m` token reads exactly when the text before the unit parses as a `u64`. It is worth that count × 3600 or × 60, capped at `u64::MAX`. Any other token goes to the float parse, without a trailing `s`. |
| CpuTime.SumTokens | dismount_iso_qemu/src/utils.rs:101-133 | The loop fails exactly when some token does not read, and otherwise never ends below its starting total. |
| CpuTime.SumTokensExact | dismount_iso_qemu/src/utils.rs:101-133 | Saturating at each step gives the exact total capped once at the end. |
| CpuTime.ExactSumFails | dismount_iso_qemu/src/utils.rs:102-131 | The sum is missing exactly when some token does not read. |
| CpuTime.ExactSumAppend | dismount_iso_qemu/src/utils.rs:101-133 | Two runs of tokens read together as the sum of their parts, and fail when either part fails. |
| CpuTime.HoursMinutesSeconds | dismount_iso_qemu/src/utils.rs:99-134 | `<h>h <m>m <s>s` reads as h·3600 + m·60 + s, capped at `u64::MAX`. |
| CpuTime.HmsText | dismount_iso_qemu/src/utils.rs:87-92 | `<h>h <m>m <s>s`, written with single spaces, has exactly those three words. |
| CpuTime.WholeSeconds | dismount_iso_qemu/src/utils.rs:136-141 | A whole number of seconds, with or without a trailing `s`, reads as itself. |
| CpuTime.UnspacedReading | dismount_iso_qemu/src/utils.rs:136-141 | A single-token text is read by the float parse, after dropping a trailing `s`. |
| CpuTime.BadTokenFails | dismount_iso_qemu/src/utils.rs:104-131 | One unreadable token makes the spaced form fail as a whole. |
| CpuTime.BareUnitUnreadable | dismount_iso_qemu/src/utils.rs:104-115 | A lone `h` or `m` with no figure does not read. |
| CpuTime.WordsTrimmed | dismount_iso_qemu/src/utils.rs:102-103 | Every word `split_whitespace` yields is its own trim, so the loop's per-token trim changes nothing. |
| Display.ScaleOf | dismount_iso_qemu/src/utils.rs:154-160 | The loop ends in the scaling of the bytes, with unit at most 4 (TiB). Figure × 1024^unit ≤ bytes < (figure + 1) × 1024^unit. The figure is at least 1 above B, and below 1024 below TiB. |
| Display.Shrink | dismount_iso_qemu/src/utils.rs:156-160 | The loop ends in a unit no smaller than it started in and at most TiB, with a figure no larger. The figure is below 1024 unless TiB is reached, and it changed exactly when the unit did. |
| Display.ShrinkScales | dismount_iso_qemu/src/utils.rs:157-160 | Each turn of the loop keeps the bytes within the bounds of the current figure and unit. |
| Display.ScalingUnique | dismount_iso_qemu/src/utils.rs:154-160 | Only one figure and unit fit a given number of bytes. |
| Display.FormatMemoryKib | dismount_iso_qemu/src/utils.rs:149-171 | None prints `(unknown)`. Otherwise the output is the scaling of the kibibytes × 1024 (saturating), shown in its unit. |
| Display.ZeroKib | dismount_iso_qemu/src/utils.rs:152-167 | Zero prints `0 B`. |
| Display.SmallKib | dismount_iso_qemu/src/utils.rs:152-167 | For 1 ≤ k < 1024, the output is `<k> KiB`. |
| Display.LargeKib | dismount_iso_qemu/src/utils.rs:161-165 | From 1024 KiB up, the unit is MiB or larger, and the output is the one-decimal rendering plus the unit name. |
| Display.ScalingFixes | dismount_iso_qemu/src/utils.rs:152-168 | Any scaling that fits the bytes decides the output. |
| Display.Decompose | dismount_iso_qemu/src/utils.rs:178-183 | d·86400 + h·3600 + m·60 + s = n, with h < 24, m < 60 and s < 60. |
| Display.DhmsUnique | dismount_iso_qemu/src/utils.rs:178-183 | That split is the only one with those bounds. |
| Display.FormatSecondsDhms | dismount_iso_qemu/src/utils.rs:174-177 | Zero prints `0s`. Any other duration has at least one nonzero unit. |
| Display.DhmsWords | dismount_iso_qemu/src/utils.rs:185-198 | The text is trimmed, and its words are the nonzero units in d, h, m, s order. Every white-space character in it is a single space followed by a non-space character. |
| Display.DhmsOmitsZeros | dismount_iso_qemu/src/utils.rs:185-198 | For a nonzero duration, a unit is printed exactly when its count is nonzero. |
| Display.DhmsReadBack | dismount_iso_qemu/src/utils.rs:174-199 | Below one day, `parse_cpu_time_to_seconds` reads the text back as the same number of seconds. |

## Left out

- **Starting processes.** The processes `virsh` runs for `virsh_qemu_agent`, `list_vms` and `dominfo_raw`, and their exit status and stderr, are I/O. Replies arrive already parsed or failed; `list_vms` and `parse_dominfo` take the stdout text.
- **JSON parsing and printing.** `serde_json` text parsing and printing are not modelled. The rendering of a whole `return` object in `try_guest_get_osinfo` is the parameter `render`.
- **Base64.** Base64 itself is not modelled: only the abstract `Codec` with the `Faithful` round-trip assumption.
- **Floating point.** `f64` parsing, casting and `{:.1}` formatting are the parameters `secs` and `decimal`, so fractional seconds such as `154359.4s` are only as exact as `secs`.
- **Mutex and Instant.** The `Mutex` is not modelled: calls are sequential. `Instant::now()` is the pair of instants `now` and `stored` that `GetOs` is given. How long the queries take between them is not modelled.
- **The `uri` field.** `ProbeManager.uri` is stored but never passed to `virsh`, as in the source.
- **The guest-exec fallback.** probe.rs:48 names a fallback that the source does not implement.
- **`open_in_editor`.** It launches an external process and reads the environment.
- **The command-line interface.** The CLI, the menu, the flows and `main` are callers, not core.
- **`to_string_lossy`.** Strings are character sequences, so invalid UTF-8 does not arise.
- **Virsh.ReadLoop.** The loop in `ga_read_file` (virsh.rs:76-103) has no bound on its iterations: an agent that keeps answering `eof: false`, as for a device or a growing file, keeps it reading and `content` growing forever. The model's script of replies is finite, so such a read ends instead in a `NoReply` failure once the script runs out; non-termination is not modelled.
- **CpuTime.TokenStep.** It leaves out the per-token `trim` of the loop, which `CpuTime.WordsTrimmed` shows changes nothing.
- **Display.DhmsReadBack.** It is stated only below one day. The formatter prints a `d` unit that `parse_cpu_time_to_seconds` does not know: a `1d` token goes to the floating-point fallback.
- **Paths.FileName.** It follows Unix `Path::file_name` on `/`-separated paths. Windows path prefixes and verbatim paths are not modelled.

## Findings

| source | as written | input that shows it | evidently intended | confidence | as-written member | corrected member |
|---|---|---|---|---|---|---|
| dismount_iso_qemu/src/utils.rs:13-23 | A blank local path takes `Path::new(remote).file_name()`. On a Linux host this splits only at `/`, but the remote path is a Windows guest path (the prompt in cli/flows/modify.rs suggests `C:\nps.xml`). | local `""` with remote `C:\nps.xml` resolves to a local file literally named `C:\nps.xml` | the guest file's own name, `nps.xml` | not executed; likely | Paths.ResolveWindowsRemoteAsWritten | Paths.ResolveLocalPathFixed |
