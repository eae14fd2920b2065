# podvirt, verified

A Dafny model of the parts of podvirt where something can go subtly wrong: the log collection
protocol, the QEMU argument rewriter, the runtime-support cache, the create pipeline, the stop
controller, and the parsers. `dafny verify dfyconfig.toml` checks the whole project.

## What is modelled

**Log collection** (`LogCollector`). The producer goroutine, the selecting consumer, the two
line channels, the one-slot `done` channel and the captured channel variables, as a step relation
over all interleavings. Line sequences, channel capacities (128 and 128 in the program, a
rendezvous at 0) and the result of `containers.Logs` are arbitrary. Assumption:
`containers.Logs` finishes all its sends before it returns.

**The QEMU wrapper** (`Awk`, `QemuWrapper`, `BlockGraph`, `IterationOrder`). Each awk program is a
method over the argument list, proved against a function; arguments are real text, and `gsub`,
regular-expression search and `match`/`substr` act on characters. `Awk` relates a word to its
segments between quote characters, which is how text replacement becomes replacement of field
values. `BlockGraph` then says what the rewrite means. The printing, record reading and field splitting
between the programs are part of `QemuWrapper`; on non-empty words without blanks they change nothing
(`QemuWrapper.ExecOnWords`). Assumptions: arguments hold no glob characters that match a file, node
names contain no regular-expression metacharacters, backslashes or ampersands (so patterns and
replacements are literals), and device arguments are JSON text without escaped quotes
(`Awk.JsonTextIsDelimited` shows that this gives the condition the theorems use).

**The runtime-support cache** (`RuntimeCache`, `ContainerSpec`, `CacheRuns`). The cache files are
the fields of a class that the modelled methods update step by step; every directory creation,
write, removal, container call and archive entry may fail, and a running container may write
through its read-write mounts. `CacheRuns` quantifies over all sequences of create, start,
clean-cache and guest writes. Assumptions: no crash in the middle of a call, and libvirt's
capability probes happen together with the container start.

**The create pipeline** (`Config`, `CreateFlags`, `Quantity`, `Validator`, `DiskImage`,
`Extraction`, `SizedDisks`, `Vmi`, `Ports`, `MountAgreement`, `FormatAgreement`,
`CreatePipeline`). `Config.VirtualMachine` is the object that the stages update in place; each
stage is a method tied to a function of the object's value, and the properties are proved of
those functions and of their composition. A file is identified by its absolute cleaned path, so all
spellings of a path, relative ones included, denote one file; it has first bytes, an image format, a
virtual size and guest data. Assumptions: there are no symbolic or hard links, directories named in a
path exist, the home and cache directories are absolute, and Podman sees relative paths from the
program's working directory.

**The stop controller** (`StopController`) runs against an environment that answers every query and
command arbitrarily; the clock does not run backwards and a two-second sleep takes two seconds.

**Parsers** (`Text`, `Quantity`, `CreateFlags`, `DomainInfo`). `Text` holds the operations of Go's
`strings` and `strconv` that are used, with 64-bit ranges written out.

## Where the code differs from what one would expect

- `docs/configuration.md:303` and `:305` require at least 128Mi of memory and one disk; the validator
  checks neither (`Validator.DocumentedMinimumsUnchecked`).
- Stripping `-sandbox` is not always "drop each flag with its value": a doubled flag swallows one word
  more. `QemuWrapper.StripIsDropPairs` gives the exact condition.
- The rewritten vector can depend on awk's iteration order: `FormatAgreement.OrderCanMatter` has two disks
  whose nodes are called `a` and `a-fmt`. `IterationOrder.OrderIrrelevantExactly` gives the exact condition;
  with distinct node names it is that no device refers to a collected name whose `-fmt` name is collected
  too (`IterationOrder.OrderIrrelevantForDistinctNames`).
- The stamp and the extracted binary can disagree after a failed stamp write, a partial copy that
  cannot be removed, or a capability file that cannot be removed; a failed removal of the old
  binary is harmless. `CacheRuns.SafeExactly` gives the exact condition.
- Quantities are uint64 products: 16777217Ti means one tebibyte and 16777216Ti means zero
  (`Quantity.WrapsAround`, exact condition in `Quantity.NoWrapExactly`).
- `--cpus` values that are positive multiples of 2^32 leave the VM with no cores after a merge
  (`Config.MergeCanDropCores`, exact condition in `Config.MergeKeepsDefaults`).
- A qcow2 image with a mixed-case `.qcow2` extension reaches the guest as raw, and a non-qcow2 image
  with the extension as qcow2 (`FormatAgreement.DishonestNames`, exact condition in
  `FormatAgreement.FormatsAgreeExactly`).
- Two disks that share an image give the first one a path that is never mounted
  (`MountAgreement.SharedImageLosesDisk`, exact condition in `MountAgreement.HostDisksMountedExactly`).
- A disk whose source is its own resized copy, under any spelling of the path, or lies below it, loses the
  source (`SizedDisks.AliasLosesSource`, exact condition in `SizedDisks.SourceKeptExactly`).

## Model

| member | source | states |
|---|---|---|
| LogCollector.CollectorIsCorrect | pkg/podman/oneshot.go:57-92 | after any number of steps of any schedule: no close of a nil or closed channel and no send on a closed one; the final receive from done never blocks; the returned texts are exactly the sent lines of each stream in order; stuck only when returned; no run longer than a bound in the number of lines |
| LogCollector.StepKeepsInv | pkg/podman/oneshot.go:62-91 | every step keeps the conservation of received, buffered and unsent text per stream and the link between captured variables, closes and the producer's position |
| LogCollector.StepLowersMeasure | pkg/podman/oneshot.go:62-91 | a measure over unsent lines, buffered lines and open flags falls with every step |
| LogCollector.AvailableStep | pkg/podman/oneshot.go:71-91 | a collector that has not returned can always take a step |
| LogCollector.RunsFinish | pkg/podman/oneshot.go:57-92 | every reachable state can be driven to the return of the collector |
| Awk.GSubOnSegments | pkg/podman/scripts/qemu-wrapper.sh:61-65 | replacing the text of a field everywhere in a word is replacing that value among the word's segments, nothing else |
| Awk.NodeNameOccurs | pkg/podman/scripts/qemu-wrapper.sh:36-37 | the name that match and substr cut out is a node name the word declares |
| Awk.NodeNameExists | pkg/podman/scripts/qemu-wrapper.sh:36-37 | a word that declares a name is never read as having none |
| Awk.NodeNameIsFirst | pkg/podman/scripts/qemu-wrapper.sh:36-37 | the name read is the leftmost non-empty one among the word's fields |
| Awk.ContainsField | pkg/podman/scripts/qemu-wrapper.sh:55-55 | searching a word for a field finds it exactly when it is among the segments |
| Awk.JsonTextIsDelimited | pkg/podman/scripts/qemu-wrapper.sh:31-32 | the JSON arguments that virt-launcher generates meet the condition of the rewriting theorems |
| QemuWrapper.WordsSurvivePlumbing | pkg/podman/scripts/qemu-wrapper.sh:26-27 | printing words one per line and splitting the output on white space gives the words back |
| QemuWrapper.FieldsExactly | pkg/podman/scripts/qemu-wrapper.sh:26-27 | splitting separates at space, tab and newline and at nothing else |
| QemuWrapper.StripSandbox | pkg/podman/scripts/qemu-wrapper.sh:26-27 | the skip automaton computes the strip function whose properties the next three rows state |
| QemuWrapper.StripIsClean | pkg/podman/scripts/qemu-wrapper.sh:25-27 | the result is a subsequence without -sandbox, stripping is idempotent, and a vector without the flag is unchanged |
| QemuWrapper.StripExactly | pkg/podman/scripts/qemu-wrapper.sh:25-27 | stripping keeps exactly the words that are neither the flag nor directly after one |
| QemuWrapper.StripIsDropPairs | pkg/podman/scripts/qemu-wrapper.sh:25-27 | stripping drops each flag with its value exactly when every run of flags followed by another word has odd length, so whenever no value is itself the flag |
| QemuWrapper.StripSwallowsExtraWord | pkg/podman/scripts/qemu-wrapper.sh:26-27 | a concrete doubled flag for which the two differ |
| QemuWrapper.CollectQcow2Nodes | pkg/podman/scripts/qemu-wrapper.sh:33-40 | the scan automaton computes the list of names whose content BlockGraph.QmapExactly states |
| QemuWrapper.InjectFormatNodes | pkg/podman/scripts/qemu-wrapper.sh:45-67 | the rewriting automaton computes the function that the BlockGraph theorems are about, for any iteration order |
| QemuWrapper.ExecOnWords | pkg/podman/scripts/qemu-wrapper.sh:26-69 | strip, scan and inject turn words into words, so on words the printing and splitting between the programs is invisible and the script computes the three passes on the vector |
| QemuWrapper.RunWrapper | pkg/podman/scripts/qemu-wrapper.sh:18-77 | the whole script on any arguments, with its early exec at the first guest= word, its printed and re-read vectors and its test for an empty scan, executes QEMU with the vector of ExecOnWords and BlockGraph.LaunchGetsOneNetwork |
| QemuWrapper.LaunchExactly | pkg/podman/scripts/qemu-wrapper.sh:18-77 | a launch has a word starting with guest=, and gets the two network arguments, which name the same network, last |
| BlockGraph.QmapExactly | pkg/podman/scripts/qemu-wrapper.sh:33-48 | the collected names are exactly the non-empty names read from the qcow2 file nodes |
| BlockGraph.FileNodesAreCollected | pkg/podman/scripts/qemu-wrapper.sh:33-48 | a qcow2 file node that declares one name is collected under it |
| BlockGraph.FormatNodeMeaning | pkg/podman/scripts/qemu-wrapper.sh:57-57 | the inserted argument is a qcow2 node whose file is the node, declaring only the -fmt name |
| BlockGraph.InjectSplit | pkg/podman/scripts/qemu-wrapper.sh:45-67 | the output's block devices are the input's, each followed by its format nodes, and its device arguments are the input's, each redirected |
| BlockGraph.ReferencesAreRedirected | pkg/podman/scripts/qemu-wrapper.sh:61-65 | every drive reference keeps its place; those to collected nodes get the -fmt name and no other changes |
| BlockGraph.NamesResolveAsMeant | pkg/podman/scripts/qemu-wrapper.sh:45-67 | an -fmt name resolves to exactly one inserted node; its file name resolves in the output to the same single file node as before; every other name resolves as before |
| BlockGraph.MeaningIsPreserved | pkg/podman/scripts/qemu-wrapper.sh:33-68 | reference by reference: a drive reference to a qcow2 file node resolves afterwards to the one inserted qcow2 node, whose file still resolves to that one node; every other reference to what it resolved to before |
| BlockGraph.RewriteIsInvertible | pkg/podman/scripts/qemu-wrapper.sh:45-67 | removing the inserted pairs and undoing the rename gives back the stripped vector |
| BlockGraph.LaunchGetsOneNetwork | pkg/podman/scripts/qemu-wrapper.sh:18-77 | a vector that is no launch reaches QEMU unchanged; a launch ends in the network arguments; on words the network device occurs once more than in the stripped vector and no -sandbox is left, however many guest= words there are |
| BlockGraph.LaunchPreservesMeaning | pkg/podman/scripts/qemu-wrapper.sh:18-77 | the script as a whole, on words: before the network arguments QEMU gets a vector that can be turned back into the stripped one and whose drive references mean what they meant, through the inserted nodes over the unchanged file nodes |
| IterationOrder.OrderIrrelevantExactly | pkg/podman/scripts/qemu-wrapper.sh:54-64 | all iteration orders give the same output exactly when no block device argument declares two collected names and no device argument refers to a collected name whose -fmt name is collected too |
| IterationOrder.OrderIrrelevantForDistinctNames | pkg/podman/scripts/qemu-wrapper.sh:54-64 | with distinct node names only a chained reference makes the order matter, and with fresh -fmt names nothing does |
| FormatAgreement.OrderCanMatter | pkg/podman/scripts/qemu-wrapper.sh:54-64 | a concrete vector with distinct node names for which the order matters |
| RuntimeCache.SupportFiles.WriteQemuSupport | pkg/podman/container.go:49-74 | with every failure, the files change as the cache function says |
| RuntimeCache.SupportFiles.EnsureQemuBinary | pkg/podman/container.go:103-185 | the stamp test, the removals and the archive loop change the files as the cache function of CacheRuns.SafeExactly says |
| RuntimeCache.SupportFiles.RestoreRuntimeSupport | pkg/podman/container.go:274-290 | support files, log directory and binary in this order, stopping at the first failure |
| RuntimeCache.SupportFiles.DoCleanCache | cmd/cleancache.go:43-88 | listing, confirmation and removal up to the first error, as CacheRuns.CleanDecidedBy and CacheRuns.CleanOutcome say |
| CacheRuns.SafeExactly | pkg/podman/container.go:107-184 | extraction keeps every coherent cache coherent, whatever the archive holds, exactly when partial copies are removed and the stamp ends up absent, or right with no capability file left behind |
| CacheRuns.EnsureSucceedsExactly | pkg/podman/container.go:107-184 | success exactly when the stamp is current or the first qemu-kvm entry of a readable archive is copied and stamped; a current binary is left alone |
| CacheRuns.EnsureExactly | pkg/podman/container.go:103-185 | every outcome of the extraction, file by file: what happens to the binary, the stamp and each capability file, and that nothing else changes |
| CacheRuns.WriteSupportExactly | pkg/podman/container.go:49-74 | when writing the support files succeeds, what they then hold, that a current wrapper is not written, and that nothing else changes |
| CacheRuns.StartReachesExactly | pkg/podman/container.go:256-272 | a start reaches the container start exactly when the container names an image and the three stages succeed |
| CacheRuns.EnsureGivesImage | pkg/podman/container.go:103-185 | a successful call on a coherent cache leaves the complete binary of the image, its stamp, and no capability file of another image |
| CacheRuns.RunsStayCoherent | pkg/podman/container.go:103-185 | over every run of create, start, clean-cache and guest writes whose failures are safe, stamp, binary and capability files agree |
| CacheRuns.Perform | pkg/podman/container.go:256-290 | carrying out a sequence of events on the files with the methods above is a run |
| CacheRuns.BinaryMatchesImage | pkg/podman/container.go:274-290 | after any such run from an empty cache, a successful restore for an image leaves that image's complete binary, stamped, and only its capability files |
| CacheRuns.ReliableRunsMatch | pkg/podman/container.go:274-290 | the same for every run whose extractions remove, clean up and stamp reliably, whatever else fails |
| CacheRuns.RestoreRepairs | pkg/podman/container.go:274-290 | a successful restore of any cache whatever puts every fixed mount source in place, with the embedded texts |
| CacheRuns.StartFindsItsMounts | pkg/podman/container.go:256-290 | after any run, failures included, a start that reaches the container start finds every fixed bind source and the wrapper and qemu.conf equal to their embedded texts, with or without the log mount |
| CacheRuns.CleanOutcome | cmd/cleancache.go:43-88 | clean-cache erases everything, or stops at the first failing directory with the earlier ones gone and the later ones untouched, or changes nothing; nothing to clean exactly on an empty cache |
| CacheRuns.CleanDecidedBy | cmd/cleancache.go:60-88 | which outcome: the prompt fails exactly without an answer, the command aborts exactly on an answer other than y or Y, and otherwise removes, all of it exactly when every present directory can be removed, else up to the first that cannot |
| ContainerSpec.BuildMounts | pkg/podman/container.go:372-441 | the fixed mounts with their types and options, the log mount only with a path, then one writable bind mount per image in the map's iteration order |
| ContainerSpec.HostMountsAreRelabelled | pkg/podman/container.go:372-441 | every mount but the tmpfs is a relabelled bind mount, read-only exactly for the support directory and the real binary |
| ContainerSpec.ContainerPaths | pkg/podman/container.go:372-429 | what the container finds where: exactly one mount at each path, the wrapper at libvirt's QEMU path and the extracted binary at the path that the wrapper executes, the logs exactly when asked for |
| Config.SetLocalDisk | pkg/config/parser.go:64-83 | the in-place loop computes the list whose algebra the rows below state |
| Config.SetContainerDisk | pkg/config/parser.go:85-104 | likewise for the container disk |
| Config.MergeFlags | pkg/config/parser.go:50-62 | the overrides in place, as the merge function |
| Config.ApplyDefaults | pkg/config/parser.go:106-138 | the defaults in place, as the defaulting function |
| Config.LoadFromFlags | pkg/config/parser.go:26-48 | a VM from flags alone, or none without a name; CreatePipeline.FlagsAloneExactly writes it out |
| Config.MergeIsIdempotent | pkg/config/parser.go:50-104 | merging the same flags twice is merging them once, also when the two disk flags interact |
| Config.MergeTakesEffect | pkg/config/parser.go:50-104 | after merging, the first local disk and the first container disk are the flags' ones, also when both are given, and the scalar flags win where given |
| Config.MergeIsMinimal | pkg/config/parser.go:50-104 | no flags, no change; each disk flag replaces one disk, keeping its size, or appends one |
| Config.DefaultingIsIdempotent | pkg/config/parser.go:106-138 | a defaulted VM stays as it is, and defaulting never touches a value that was set: API version, kind, labels, CPU, memory, disks, networks, boot, console and each cloud-init field |
| Config.DefaultsFillGaps | pkg/config/parser.go:106-138 | the value that each gap is filled with |
| Config.MergeKeepsDefaults | pkg/config/parser.go:50-62 | merging keeps the defaults exactly when the CPU flag is not a positive multiple of 2^32 |
| Config.MergeCanDropCores | pkg/config/parser.go:57-59 | a concrete flag that leaves no cores |
| CreateFlags.ParsePortForwards | cmd/create.go:414-437 | the loop computes the list parser of the next rows |
| CreateFlags.ListMeaning | cmd/create.go:414-437 | the list is rejected exactly when one element is malformed; otherwise the results are in order |
| CreateFlags.ForwardExactly | cmd/create.go:414-437 | a text has a meaning exactly when it is two int64 numbers around a colon with an optional slash and protocol; the protocol counts in lower case and is tcp when left out |
| CreateFlags.RejectedExactly | cmd/create.go:414-437 | rejected exactly without a colon before the last slash, or with a part that is no int64 number |
| CreateFlags.ShortFormIsTcp | cmd/create.go:417-417 | host:vm is a tcp forward |
| CreateFlags.PortListRoundTrip | cmd/create.go:414-437 | printing forwards with int64 ports and lower-case slash-free protocols, with the protocol left out for any of the tcp ones, and parsing gives the same list in order |
| CreateFlags.ParsePrintParse | cmd/create.go:414-437 | every accepted text denotes a printable forward, so printing is a normal form |
| CreateFlags.ApplyPortForwards | cmd/create.go:439-456 | the in-place update of the network list |
| CreateFlags.ForwardsAreConserved | cmd/create.go:439-456 | no forward is lost or invented, and one masquerade network ends with the new ones while all others stay |
| CreateFlags.ForwardsGoTo | cmd/create.go:439-456 | which network gets the forwards: the first masquerade one, else the first, which becomes one, else a new default one |
| CreateFlags.ApplyCloudInitFlags | cmd/create.go:249-273 | keys, password and user applied in place, given the resolved keys |
| CreateFlags.ApplyCreateDiskSize | cmd/create.go:203-212 | the size goes to the first disk, and a VM without disks is an error |
| CreateFlags.SizeGoesToFirst | cmd/create.go:203-212 | the first disk gets the size, nothing else changes, and only a size without disks is an error |
| CreateFlags.FlagStagesKeepDefaults | cmd/create.go:203-273 | ports, cloud-init and size keep a defaulted VM defaulted |
| Quantity.ParseQuantityBytes | pkg/config/quantity.go:23-46 | the first-match loop computes the parser of the rows below |
| Quantity.AtMostOneSuffix | pkg/config/quantity.go:9-21 | at most one suffix of the table matches any text |
| Quantity.TableOrderIrrelevant | pkg/config/quantity.go:9-39 | every rearrangement of the table parses every text the same way |
| Quantity.QuantityExact | pkg/config/quantity.go:23-46 | accepted exactly when, trimmed, decimal digits with a non-zero uint64 value and at most one suffix; the result is the product modulo 2^64 |
| Quantity.NoWrapExactly | pkg/config/quantity.go:38-38 | the result is the mathematical product exactly when that is below 2^64 |
| Quantity.WrapsAround | pkg/config/quantity.go:38-38 | two concrete texts that wrap: 16777217Ti parses to one tebibyte and 16777216Ti to zero |
| Quantity.UnitsExactly | pkg/config/quantity.go:9-21 | every suffix means its power of 1024 or 1000 |
| Quantity.PaddingIgnored | pkg/config/quantity.go:24-24 | white space around a quantity does not matter |
| Quantity.PrintParse | pkg/config/quantity.go:23-39 | printing a number with a suffix and parsing it gives the product back under that bound |
| Quantity.PlainPrintParse | pkg/config/quantity.go:41-45 | the same without a suffix |
| Validator.Validate | pkg/config/validator.go:13-101 | the report of ReportExactly |
| Validator.AcceptedExactly | pkg/config/validator.go:13-108 | no issue exactly when every field is acceptable, written as one predicate over the VM |
| Validator.ReportExactly | pkg/config/validator.go:13-101 | every issue is reported exactly when it is due, for the disk, network and forward it names, once, in the order of the description |
| Validator.NamePattern | pkg/config/validator.go:10-20 | the pattern of names, character by character |
| Validator.DocumentedMinimumsUnchecked | pkg/config/validator.go:28-34 | a VM with one byte of memory and no disk passes |
| DiskImage.FilenameIsQcow2Exactly | pkg/converter/vmi.go:285-296 | the name in the container ends in .qcow2 exactly when the image is taken for qcow2 without a mixed-case extension, or already ends so |
| DiskImage.FilenameExactly | pkg/converter/vmi.go:285-296 | the whole name in the container: the image's own, or its stem with .qcow2 in place of another extension |
| DiskImage.FindExtractedDisk | cmd/create.go:572-589 | the search, with its rename, on the file system object, as the function of the next row |
| DiskImage.CleanRooted | cmd/create.go:340-340 | a cleaned path and its text determine each other, from every working directory |
| DiskImage.PathLaws | cmd/create.go:340-340 | joining goes element by element: empty and "." stay, ".." goes up but not above the root, other names go down |
| DiskImage.BaseExactly | pkg/converter/vmi.go:286-286 | the last element, whatever precedes it and however many slashes follow |
| DiskImage.Qcow2Exactly | pkg/util/disk.go:13-33 | the first four bytes of a readable file decide, else the extension |
| DiskImage.FindDiskIsStable | cmd/create.go:572-589 | a found path exists, prefers disk.qcow2, is disk.img exactly for non-qcow2 content, keeps the disk's content and every other file, and searching again changes nothing; the search fails exactly when a rename is needed and fails, and then changes nothing |
| FormatAgreement.ScanSelectsByExtension | pkg/podman/scripts/qemu-wrapper.sh:33-40 | the scan selects a generated file node, whatever follows its node name, exactly when its path ends in .qcow2 |
| FormatAgreement.SelectedExactly | pkg/podman/scripts/qemu-wrapper.sh:35-35 | which words are selected: a driver field with value file and a quoted text that ends in .qcow2 |
| FormatAgreement.FileNodeName | pkg/podman/scripts/qemu-wrapper.sh:36-37 | the scan reads the generated node's own name, whatever follows it |
| FormatAgreement.DiskSelectedExactly | pkg/converter/vmi.go:194-203 | which disks of the VMI the scan selects, by content and extension |
| FormatAgreement.FormatsAgreeExactly | pkg/util/disk.go:13-33 | with a readable header, converter content test and wrapper agree exactly outside two named extension cases |
| FormatAgreement.SizedDiskIsSelected | cmd/create.go:340-346 | a resized copy is always selected by the wrapper as qcow2 |
| FormatAgreement.PreparedDiskIsSelected | cmd/create.go:340-353 | every disk that a create has sized is a readable qcow2 image and is selected |
| FormatAgreement.DiskIsReadAsItsFormat | pkg/podman/scripts/qemu-wrapper.sh:28-68 | at launch a device reaches a disk of qcow2 content through the inserted qcow2 node over its one file node, and any other disk directly, for images with a readable header and an honest name |
| FormatAgreement.OneDiskLaunch | pkg/podman/scripts/qemu-wrapper.sh:18-77 | the launch of a VM with one qcow2 disk, word for word |
| FormatAgreement.DishonestNames | pkg/converter/vmi.go:285-296 | a concrete name for each of the two cases that go wrong |
| Extraction.ExtractContainerDisks | cmd/create.go:493-525 | the loop on the VM object and the file system, stopping at the first failure |
| Extraction.ExtractedPath | cmd/create.go:527-589 | a cached disk is used without pulling; a returned path exists, lies in the image's directory and is found again by the next search; nothing outside the directory is touched, also on failure |
| Extraction.ExtractOneExactly | cmd/create.go:527-589 | one image is extracted exactly when the cache holds a usable disk, or none and the pull delivers one; the path is that disk's and holds its content |
| Extraction.DirectorySharedExactly | cmd/create.go:505-506 | two images share a cache directory exactly when they differ only in separators |
| Extraction.ExtractMeaning | cmd/create.go:493-525 | on success every container disk has a local path in its image's own cache directory and no container image, and nothing else changes |
| Extraction.ExtractionSucceedsExactly | cmd/create.go:493-525 | with a directory for each image the loop succeeds exactly when every image is extractable |
| Extraction.ExtractTouchesCacheOnly | cmd/create.go:493-525 | a file outside the cache directories of the images is never touched |
| SizedDisks.BuildSizedDiskImage | cmd/create.go:326-355 | checks, removal of the file or tree, copy and growth on the file system, with every failure |
| SizedDisks.PrepareSizedDisks | cmd/create.go:299-324 | the loop on the VM object and the file system |
| SizedDisks.BuildSizedMeaning | cmd/create.go:326-355 | only the destination's tree changes; on success it holds the data of a source outside it at the requested size, no smaller than the source |
| SizedDisks.SizedExactly | cmd/create.go:326-355 | a sized copy succeeds exactly under the listed checks and tool runs, with a source that is not at or below the destination under any spelling; the growth only when the request exceeds the source |
| SizedDisks.RejectedTouchesNothing | cmd/create.go:326-343 | a request that fails the checks touches no file, not even an earlier copy |
| SizedDisks.SizingSucceedsExactly | cmd/create.go:299-324 | with distinct names and sources outside the copies the loop succeeds exactly when every sized disk meets the condition on the files at the start |
| SizedDisks.SizedDisksAreCopies | cmd/create.go:299-355 | with distinct slash-free names and no source at or below a copy, under any spelling: sources unchanged on success and failure, each sized disk points at its own copy of the requested size, unsized disks untouched |
| SizedDisks.SourceKeptExactly | cmd/create.go:340-348 | a request that passes the checks keeps its source in every environment exactly when the source, under whatever spelling, does not lie at or below the destination |
| SizedDisks.AliasLosesSource | cmd/create.go:340-348 | an absolute spelling with a "." and a relative one of the destination: the texts differ, the source is removed and the copy fails |
| Vmi.PlainPath | pkg/converter/vmi.go:195-195 | joining plain elements is concatenation |
| Vmi.BuildDisks | pkg/converter/vmi.go:180-207 | disks, volumes and mount map, or failure exactly when some disk has no local image |
| Vmi.BuildNetworks | pkg/converter/vmi.go:224-246 | interfaces, networks and the concatenated forwards |
| Vmi.ToVMI | pkg/converter/vmi.go:28-54 | the conversion of the VM object |
| Vmi.ConvertExactly | pkg/converter/vmi.go:180-281 | the conversion fails exactly on a disk without local image; name, CPU, memory, disks with their buses and paths, the cloud-init disk, interfaces, networks and firmware part by part |
| Vmi.CredentialsReachGuest | cmd/create.go:249-273 | the one cloud-init volume holds the description's keys followed by the flags', and the password and user of the flags, else of the description, else the default; ssh uses the same user |
| MountAgreement.HostDisksMountedExactly | pkg/podman/container.go:431-438 | for all disks and every iteration order: each hostDisk path is the destination of exactly one mount, of its image, exactly when disks share a path just when they share an image and no path is a fixed destination |
| MountAgreement.NamedDisksMountedExactly | pkg/podman/container.go:431-438 | with distinct plain names and no image ending in "..", exactly when the images are distinct |
| MountAgreement.LastUseDecides | pkg/converter/vmi.go:194-196 | a shared image is mounted for its last disk |
| MountAgreement.SharedImageLosesDisk | pkg/converter/vmi.go:194-196 | two concrete disks of one image, not all mounted |
| Ports.BuildPortMappings | pkg/podman/container.go:444-458 | the loop computes one mapping per forward |
| Ports.ResolveSshPort | cmd/ssh.go:63-72 | the search loop with its zero sentinel |
| Ports.SshPicksFirst | cmd/ssh.go:63-77 | the first mapping of port 22 is used; missing exactly when there is none or the first has host port 0 |
| Ports.OverrideWins | cmd/ssh.go:63-66 | a port given on the command line is used as it is |
| Ports.MappingsExactly | pkg/podman/container.go:444-458 | each mapping: both ports truncated to 16 bits, the protocol in lower case, tcp by default |
| Ports.ProtocolsExactly | pkg/converter/vmi.go:228-246 | for validated forwards the protocol of the VMI and of Podman |
| Ports.PortsAreConserved | pkg/converter/vmi.go:228-246 | for validated networks the Podman mappings are all forwards in order, untruncated, equal to the VMI ports up to protocol case, and ssh finds the first forward to port 22 or reports none exactly when there is none |
| StopController.RunStop | cmd/stop.go:26-88 | the controller, with its polling loop, has the effects that the next rows write out one by one |
| StopController.PollingExactly | cmd/stop.go:45-88 | a graceful stop effect by effect: one query and one sleep for every check before the first at which the deadline has passed, the query fails or the answer reads "shut off"; one more query unless the deadline has passed; the final reading; then the stop, after a destroy unless that reading is "shut off" |
| StopController.RunsExactly | cmd/stop.go:45-88 | the other runs of a found VM effect by effect; polling always ends, and the deadline is the timeout in seconds whenever that fits 63 bits |
| StopController.DurationIs | cmd/stop.go:53-53 | the polling time is the one signed 64-bit value equal to timeout seconds modulo 2^64 |
| StopController.StopsOnceAtTheEnd | cmd/stop.go:45-88 | past the existence check: one container stop, last; at most one destroy, right before it, skipped exactly after a clean graceful shutdown; timeout 0 exactly when the destroy succeeded |
| StopController.EffectsExactly | cmd/stop.go:32-84 | stopped exactly when the VM is found; destroyed exactly then unless a graceful stop without force was accepted and virsh last printed "shut off" in any case and padding; shutdown sent exactly for a graceful stop without force |
| StopController.PollingIsBounded | cmd/stop.go:54-61 | at most half the timeout, rounded up, state queries before the final one, overflow included |
| DomainInfo.ParseDomainInfo | pkg/libvirt/domain.go:93-118 | the line loop computes the parser of the rows below |
| DomainInfo.UnrelatedLinesIgnored | pkg/libvirt/domain.go:96-116 | a line with no colon or an unknown key, inserted anywhere, changes nothing |
| DomainInfo.LastOccurrenceWins | pkg/libvirt/domain.go:96-116 | every field is decided by the last accepted line of its key |
| DomainInfo.DominfoRoundTrip | pkg/libvirt/domain.go:76-127 | printing any values as dominfo lines with any padding and parsing stores them; sizes beyond 64 bits saturate |
| DomainInfo.FourLineRoundTrip | pkg/libvirt/domain.go:76-127 | the four lines of a domain give back its state, CPU count and sizes |
| DomainInfo.FourLinesRead | pkg/libvirt/domain.go:93-118 | the same for the four lines written out with their keys and state words |
| DomainInfo.StateOfWord | pkg/libvirt/domain.go:76-91 | which word means which state, whatever its case and padding |
| DomainInfo.SizeExactly | pkg/libvirt/domain.go:120-127 | a size is the number its text starts with, capped at 64 bits, or zero |
| CreatePipeline.LoadCreateVM | cmd/create.go:214-234 | a config file with overrides, or flags alone |
| CreatePipeline.FlagsAloneExactly | pkg/config/parser.go:26-48 | without a file the whole VM, field by field, from the flags: exactly the disks asked for, memory or 1Gi, cores truncated to 32 bits or one, one masquerade network |
| CreatePipeline.FileWithFlagsExactly | cmd/create.go:214-231 | with a file every field: the flag where it overrides, else the file, else the default, and what each disk flag does to the disk list |
| CreatePipeline.RunCreate | cmd/create.go:68-132 | all stages in order on one VM object and one file system: the files it leaves on every outcome, and the converted result |
| CreatePipeline.LoadedIsDefaulted | cmd/create.go:214-234 | the loaded VM is defaulted exactly when no override truncates to zero cores |
| CreatePipeline.StagesKeepDefaults | cmd/create.go:79-92 | ports, cloud-init, size and extraction keep it defaulted |
| CreatePipeline.CredentialsReachSsh | cmd/create.go:249-273 | with keys or a password given, the converted VM passes the cloud-init check, is marked as having keys exactly when some were given, and names the user that ssh will use |
| CreatePipeline.DisksBecomeLocal | cmd/create.go:90-117 | extraction, validation and sizing leave every disk with a local image and no container image, names and all else unchanged |
| CreatePipeline.CreateTouchesCachesOnly | cmd/create.go:68-122 | on every outcome a file changes only in the cache directory of one of the VM's images or at a sized copy |
| CreatePipeline.PipelineProgress | cmd/create.go:68-122 | whenever the earlier stages succeed the conversion succeeds, never meeting a disk without source; disks and volumes have equal names in equal order, and the host disks come first with their container paths |
| CreatePipeline.ConfiguredExactly | cmd/create.go:79-88 | when the flags fit, and what they make of the loaded VM |
| CreatePipeline.CreateSucceedsExactly | cmd/create.go:68-122 | a create succeeds exactly when the VM loads, the flags fit, every image is extractable, the description is valid, Podman agrees and every sized disk works |
| CreatePipeline.FailedCreateLeaves | cmd/create.go:68-122 | what a failed create leaves: nothing changed before extraction, and no copy touched before validation and Podman's answers |
| CreatePipeline.CopiesPerVM | cmd/create.go:304-304 | every VM has its own directory for sized copies |
| CreatePipeline.SizedDiskKeepsName | pkg/converter/vmi.go:285-296 | a sized copy keeps its name in the container, ending in .qcow2 |
| CreatePipeline.SizingKeepsImagesDistinct | cmd/create.go:309-322 | distinct images outside the copies stay distinct when some are copied |
| CreatePipeline.CreatedDisksAreMounted | cmd/create.go:68-132 | for a description whose disks have distinct plain names and different images outside the copy directory: after a successful create every disk's host path in the VMI is the destination of exactly one mount, of the image that backs it (description, cache or sized copy), in every iteration order |

## Left out

- Podman and libvirt calls, image pulls, exec sessions and tar streaming: environment steps that may fail.
- `InspectVM`'s choice among listed containers: it rests on Podman's name filter; the record is an input.
- Equality of a cached container disk with its image across runs: the sanitised directory name is not injective and VMs write to the extracted disk, so only lookup and rename are modelled.
- JSON and YAML encoding, flag reading, tables, prompts, and the console and ssh processes: library or interface code.
- `vmUID`: a digest with fixed version and variant bits; only an easy bit-level fact.
- Error texts, debug logging and pre-flight checks: issues of the validator are named, not worded.
- Letter case is ASCII only; Go also folds other alphabets in a port's protocol and a domain state.
- Texts are sequences of characters; Go's are bytes that need not be valid UTF-8.
- `RunOneShotContainer`: its error precedence after the logs are collected is straight-line code.
- `resolveSSHKeys`: reading key files is an input of the cloud-init stage.
- Capability probes that libvirt runs long after a container start, and crashes in the middle of a call: outside the runs of `CacheRuns`.
- CacheRuns.BinaryMatchesImage: a run with an unsafe failure is excluded; `CacheRuns.SafeExactly` shows that such a failure breaks coherence for some cache and archive.
- BlockGraph.MeaningIsPreserved: node names are distinct, -fmt names are fresh, and device arguments are delimited as JSON text; duplicate names have no meaning for QEMU.
- SizedDisks.SizedDisksAreCopies: names with slashes and sources at or below a copy are excluded; `SizedDisks.SourceKeptExactly` shows what happens to the latter.
- Vmi.ToVMI: UID, JSON text and the fixed device settings of the VMI are not part of the result.
- Symbolic and hard links, and directories in the place of a disk file: a path is its cleaned text and only regular files are recorded.
- QemuWrapper.RunWrapper: matching of unquoted words against file names (globbing) and the debug log are not modelled.
