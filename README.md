# nestcli core, modelled in Dafny

`nestcli` is the command-line companion of LÖVE Potion homebrew. The heart of
it identifies which console toolchain built a binary, by looking for a
toolchain-specific marker among the file's bytes. It then runs that
toolchain's `addr2line` to turn crash addresses into source locations. Three
smaller pieces sit beside it:

- the persisted table of named device addresses;
- the bundle description (`lovebrew.toml`);
- the selection of files and archive names for `bundle.zip`.

This project models those pieces and proves what they promise.

| Dafny file | module | models |
|---|---|---|
| `legacy_addr2line.dfy` | `LegacyAddr2line` | `src/addr2line.rs`: the chunked scanner with its overlap buffer, `command`, `run` |
| `platforms_addr2line.dfy` | `PlatformsAddr2line` | `src/platforms/addr2line.rs`: the registry, `find_candidate`, `command`; the `debug addr2line` dispatch of `src/commands/debug.rs` |
| `app_config.dfy` | `AppConfig` | `src/config/app.rs`: `Config` with `add`, `remove`, `get`, `get_port`, `list`, `load` |
| `bundle_config.dfy` | `BundleConfig` | `src/config/bundle.rs`: `PlatformTarget`, `Metadata::set_icon`, `Build::has_target` |
| `bundle.dfy` | `BundleModel` | `src/models/bundle.rs`: `collect_root_includes`, the ignore filter, the archive path of each walked entry |
| `bytes.dfy`, `utf8.dfy`, `order.dfy`, `paths.dfy`, `process.dfy`, `wrappers.dfy` | shared | bytes and occurrences, UTF-8, Rust's orderings with `sort`/`dedup`, `PathBuf::join` on strings, the `Command` builder, `Option`/`Result` |

Everything the programs get from outside is an input of the model:

- a file's read results, or its bytes;
- whether a target is a regular file;
- the `DEVKITPRO` value;
- the set of paths `which` accepts;
- the result of spawning;
- whether a save succeeded;
- which paths exist;
- the directory tree under the working directory.

State that the source updates in place is a class:

- the `Command` builder;
- `Config`;
- `Metadata`;
- `Bundle`, whose `zip` field records what is handed to the zip writer.

The legacy scanner keeps its fixed 8 KiB `array` buffer and its `overlap`
sequence. The live scanner, the parsers and the path rules are functions.

Points of the code's behaviour worth knowing:

- The legacy `run` takes the first registry entry, in table order, whose
  marker occurs anywhere in the file (`LegacyAddr2line.Run`). It does not
  take the marker at the lowest offset. The live `find_candidate` does give
  the marker that starts first (`PlatformsAddr2line.LowestOffsetWins`).
- A read error is not reported as an error. In the legacy scanner it counts
  as "not found" (`LegacyAddr2line.Matches`).
- The legacy `command` stops when `DEVKITPRO` is unset. Only the live one
  falls back to a bare binary name searched on `PATH`.
- No two markers of the registry can start at the same offset, and none
  occurs inside another (`PlatformsAddr2line.RegistryMarkersDisjoint`).

## Model

| member | source | states |
|---|---|---|
| LegacyAddr2line.Matches | src/addr2line.rs:17-54 | true exactly when the marker is non-empty, the file opens, no read fails before the end, and the marker occurs contiguously in the bytes read, however the reads split them; the loop keeps the overlap equal to the last `min(len-1, read so far)` bytes |
| LegacyAddr2line.AnyWindow | src/addr2line.rs:42 | `windows(len).any(== magic)` is true exactly when the marker occurs in the window |
| LegacyAddr2line.ReadInto | src/addr2line.rs:34-41 | a read of `n` bytes fills `buffer[..n]` with exactly those bytes |
| LegacyAddr2line.OverlapSuffices | src/addr2line.rs:39-51 | when the marker is not in what was read so far, searching the last `len-1` bytes plus the new chunk finds it exactly when searching everything read plus the chunk would |
| LegacyAddr2line.NextOverlap | src/addr2line.rs:45-51 | the new overlap (the window's last `keep` bytes, or the whole window when shorter) is the last `keep` bytes of everything read so far |
| LegacyAddr2line.ScanStep | src/addr2line.rs:33-52 | one loop iteration keeps the scan invariant: nothing found yet, overlap = tail of what was read, the rest of the reads still to come |
| LegacyAddr2line.ChunkReadsDeliverAll | src/addr2line.rs:33-38 | any split of a file into non-empty reads followed by `Ok(0)` delivers exactly the file's bytes |
| LegacyAddr2line.StraddlingMarkerDetected | src/addr2line.rs:39-51 | a marker split across two reads at any point is detected |
| LegacyAddr2line.RegistryMarkersNonEmpty | src/addr2line.rs:90-109 | every registry marker is non-empty |
| LegacyAddr2line.Command | src/addr2line.rs:56-87 | without DEVKITPRO nothing is built or run; a binary path `which` rejects runs nothing; otherwise runs `DEVKITPRO/search_path/binary` with `-aipfCe`, the extra arguments joined by spaces as one argument, `-e`, the file, the addresses in order |
| LegacyAddr2line.Run | src/addr2line.rs:111-118 | no command runs exactly when no marker is detected; otherwise the first detected entry in table order runs, with `command`'s outcome |
| Process.Command.constructor | src/addr2line.rs:72 | a command for the program, with no arguments |
| Process.Command.Arg | src/addr2line.rs:73-81 | appends one argument, keeping the earlier ones |
| Process.Command.Args | src/platforms/addr2line.rs:81 | appends each element as an argument of its own, in order |
| Paths.JoinNested | src/addr2line.rs:65 | `base.join(dir.join(name))` equals `base.join(dir).join(name)` for a relative segment `dir` and relative `name` |
| Paths.JoinUnderRoot | src/platforms/addr2line.rs:68 | under a root, the binary path is `root/dir/name` |
| PlatformsAddr2line.RegistryMarkersDisjoint | src/platforms/addr2line.rs:17-39 | the three markers are non-empty, and none occurs anywhere inside another |
| PlatformsAddr2line.Patterns | src/platforms/addr2line.rs:47 | pattern `i` is `CANDIDATES[i]`'s marker |
| PlatformsAddr2line.FinishingAt | src/platforms/addr2line.rs:50-51 | the lowest pattern index that ends at a given offset, or none |
| PlatformsAddr2line.FirstFinished | src/platforms/addr2line.rs:50-51 | the first match reported by the stream search: the earliest end offset; none when no pattern occurs. Among matches ending at the same offset it picks the lowest pattern index, a choice of the model that never applies to this registry |
| PlatformsAddr2line.FirstFinishedIsLeftmost | src/platforms/addr2line.rs:50-52 | for this registry the first match to finish is an occurrence that no other marker occurrence starts before |
| PlatformsAddr2line.NoEndMeansNoOccurrence | src/platforms/addr2line.rs:50-54 | when the search reports nothing, no marker occurs at any offset |
| PlatformsAddr2line.FindCandidate | src/platforms/addr2line.rs:41-55 | an unopenable file is an error, never "no match"; `Ok(None)` exactly when no marker occurs; otherwise the entry whose marker starts first |
| PlatformsAddr2line.LowestOffsetWins | src/platforms/addr2line.rs:41-55 | of two markers in a file, the one at the lower offset decides |
| PlatformsAddr2line.Command | src/platforms/addr2line.rs:58-96 | checks in order: a missing or non-regular target, then no addresses, then a binary `which` rejects; then spawns `DEVKITPRO/search_path/binary`, or the bare binary without DEVKITPRO, with `["-aipfCe"] + args + ["-e", file] + addresses`; a spawn failure is an error; the output is relayed unchanged |
| PlatformsAddr2line.EarlyFailuresSpawnNothing | src/platforms/addr2line.rs:59-74 | when the target, the address list or the lookup fails, the outcome does not depend on spawning and is not a spawn failure |
| PlatformsAddr2line.RegistryArgv | src/platforms/addr2line.rs:78-87 | the registry's argument vectors, with `""` passed as its own argument for Switch and Wii U |
| PlatformsAddr2line.AgreesWithLegacy | src/platforms/addr2line.rs:17-39 | both registries hold the same binaries, markers and search paths, and both launchers build the same program path and argument vector under DEVKITPRO |
| PlatformsAddr2line.Addr2line | src/commands/debug.rs:49-57 | an unopenable file is an error; no candidate is success with nothing run; otherwise the candidate's `command` decides the result |
| AppConfig.Config.Default | src/config/app.rs:15-25 | no connections, default port 8000 |
| AppConfig.Config.FromParts | src/config/app.rs:91-93 | a parsed configuration holds the parsed table and port |
| AppConfig.Config.Add | src/config/app.rs:50-60 | an empty name is refused and nothing changes; otherwise the name maps to the address, every other entry is kept, the port is kept, and the outcome is "added" exactly when the name was absent |
| AppConfig.Config.Get | src/config/app.rs:74-76 | a value exactly for a stored name, and it is that name's address |
| AppConfig.Config.GetPort | src/config/app.rs:62-64 | the stored default port |
| AppConfig.Config.Remove | src/config/app.rs:66-72 | the name is absent afterwards and every other entry is kept; an absent name is a no-op that saves nothing |
| AppConfig.Config.List | src/config/app.rs:78-84 | one row per connection with its address, names strictly ascending, every connection listed |
| AppConfig.Load | src/config/app.rs:86-94 | no file gives the default configuration (empty, port 8000); an unreadable file is an error; otherwise the parsed configuration |
| Order.StrLtStrictTotalOrder | src/config/app.rs:23 | the key order of a `BTreeMap<String, _>` is a strict total order |
| Order.Sort | src/models/bundle.rs:70 | sorted, and a permutation of the input |
| Order.Insert | src/models/bundle.rs:70 | inserting into a sorted sequence keeps it sorted and adds exactly the new element |
| Order.InsertSorted | src/models/bundle.rs:70 | an element placed after every element not above it, and before one above it, keeps a sorted sequence sorted |
| Order.Dedup | src/models/bundle.rs:71 | on sorted input: strictly ascending, same elements, no longer |
| Order.StrictlySortedUnique | src/models/bundle.rs:70-72 | two strictly ascending sequences with the same elements are equal |
| Order.LexStrictTotalOrder | src/models/bundle.rs:70 | the lexicographic order over a strict total order is a strict total order |
| BundleConfig.SerialName | src/config/bundle.rs:7-13 | the serialised name is a non-empty lower-case word |
| BundleConfig.FromStr | src/config/bundle.rs:15-24 | parses exactly `ctr`, `hac` and `cafe`, each to the platform serialised as that string; anything else is the error "No such match" |
| BundleConfig.SerialRoundTrip | src/config/bundle.rs:8-24 | parsing a platform's serialised name gives that platform |
| BundleConfig.CaseSensitive | src/config/bundle.rs:18-22 | other spellings such as `CTR` are rejected |
| BundleConfig.Metadata.Default | src/config/bundle.rs:27-34 | empty strings and no icons |
| BundleConfig.Metadata.SetIcon | src/config/bundle.rs:37-39 | the platform's icon becomes the path, replacing any earlier one; other icons and fields are unchanged |
| BundleConfig.Contains | src/config/bundle.rs:51 | true exactly when some position of the list holds the target |
| BundleConfig.Build.HasTarget | src/config/bundle.rs:50-52 | true exactly when the target is listed |
| Utf8.EncodeChar | src/models/bundle.rs:82 | the encoding of a scalar value is one well-formed UTF-8 sequence, a single byte exactly for ASCII |
| Utf8.EncodeThree | src/models/bundle.rs:82 | a three-byte encoding of a non-surrogate value is well-formed |
| Utf8.EncodeFour | src/models/bundle.rs:82 | a four-byte encoding of a supplementary-plane value is well-formed |
| Utf8.EncodeValid | src/models/bundle.rs:82 | the encoding of any string is valid UTF-8 |
| Utf8.AsciiEncoding | src/models/bundle.rs:82-83 | a string whose encoding is all ASCII is an ASCII string encoded byte for byte |
| BundleModel.ComponentLtStrictTotalOrder | src/models/bundle.rs:70 | the order on path components is a strict total order |
| BundleModel.PathLtStrictTotalOrder | src/models/bundle.rs:70 | `Path`'s componentwise order is a strict total order |
| BundleModel.FirstSlash | src/models/bundle.rs:65-66 | the first separator in a path string, or its length |
| BundleModel.Parts | src/models/bundle.rs:58-66 | the components a path string contributes contain no `CurDir`, no empty name and no `.` name |
| BundleModel.ComponentsClean | src/models/bundle.rs:79 | `Path::new(s).components()` has no empty or `.` name, and holds `CurDir` only first, exactly when `s` is `.` or starts with `./` |
| BundleModel.JoinStrComponents | src/models/bundle.rs:58-66 | joining a string onto the absolute working directory: an absolute string replaces it; a relative one extends it by the string's components without a leading `CurDir` |
| BundleModel.NotUtf8Kept | src/models/bundle.rs:81-86 | a name that is not valid UTF-8 is never filtered |
| BundleModel.KeepEncoded | src/models/bundle.rs:14-22 | a UTF-8 name is filtered exactly when it is one of `IGNORE_DATA` |
| BundleModel.WalkNodeKept | src/models/bundle.rs:81-88 | every entry walked below a node extends the node's path by names that are kept |
| BundleModel.WalkNodesKept | src/models/bundle.rs:81-88 | the same for a directory's listed children |
| BundleModel.WalkKept | src/models/bundle.rs:81-88 | no walked entry has an ignored name anywhere in its path, so an ignored directory's subtree is skipped; nothing is walked when the root's own name is ignored |
| BundleModel.ArchiveRecords | src/models/bundle.rs:88-107 | every archive record comes from a non-root walked entry, and every non-root entry gets its record: at its relative path when it is a root include, under the source directory otherwise; a file is added as a file, anything else as a directory |
| BundleModel.ArchivedNamesKept | src/models/bundle.rs:81-99 | every archived path ends in a non-empty, ignore-free relative path, and is that path or that path under the source directory |
| BundleModel.SortDedup | src/models/bundle.rs:70-71 | strictly ascending, same paths |
| BundleModel.RootIncludesOrderFree | src/models/bundle.rs:64-72 | the root includes do not depend on the order the icon map is visited in |
| BundleModel.Bundle.constructor | src/models/bundle.rs:33-52 | a bundle starts with no root includes and nothing written |
| BundleModel.Bundle.AddExistingIcons | src/models/bundle.rs:64-68 | adds exactly the existing icon paths, joined under the working directory |
| BundleModel.Bundle.CollectRootIncludes | src/models/bundle.rs:54-73 | the description file always; `.bundleignore` exactly when it exists; each existing icon path; nothing that neither exists nor is the description file; sorted with no duplicates |
| BundleModel.Bundle.ArchiveEntries | src/models/bundle.rs:88-107 | appends to the archive, in walk order, the record `Archive` gives for each walked entry, leaving the root includes as they were |
| BundleModel.ConfigArchivedAtTop | src/models/bundle.rs:94-102 | when the description file is a root include and is walked as a file at the top of the tree, the archive adds it as a file at its bare name |
| BundleModel.Bundle.AddTree | src/models/bundle.rs:75-110 | selects the root includes, then appends one record per non-root walked entry in walk order; the description file met at the top of the tree lands at the top of the archive |

## Left out

- File, process and environment I/O are inputs, not behaviour. These are `File::open`, `read`, `Path::exists`, `is_file`, `which`, `Command::output`, `std::env::var` and `current_dir`.
- LegacyAddr2line.Run: each `matches` call re-opens the file (src/addr2line.rs:22), but the model gives every candidate the same reads. A file that changes between the openings, or a read error hit by only some candidates, is not modelled.
- LegacyAddr2line.Matches: a reader that has no more results is taken as the end of the file. Each read is assumed to deliver at most the 8 KiB buffer, as `read` guarantees.
- PlatformsAddr2line.FindCandidate: takes the whole file's bytes at once. It does not model the bounded-memory streaming of the Aho-Corasick search.
- PlatformsAddr2line.FindCandidate: read errors during the stream search are not modelled. `flatten` drops them in the source.
- PlatformsAddr2line.FindCandidate: the error from `AhoCorasick::new` is not modelled. It arises only for pattern sets beyond the library's size limits, not for three short markers.
- The Aho-Corasick automaton is not modelled. It is represented by the first match its standard (non-overlapping) search reports, taken as the one that ends first.
- PlatformsAddr2line.FirstFinished: for matches ending at the same offset the lowest pattern index is the model's own choice, not a documented property of the library. With this registry it never applies, because no marker occurs inside another (`RegistryMarkersDisjoint`).
- PlatformsAddr2line.Command: a failure of `stdout().write_all` is not modelled. The relayed bytes are kept in the result instead.
- The printed messages are not modelled. These are the legacy `Using addr2line binary at` line, the error texts and `String::from_utf8_lossy`. The live banner is kept as a string.
- `std::path::absolute` in `src/commands/debug.rs` is not modelled. The file path is used as given.
- A non-zero exit status of addr2line is not distinguished. It is not an error in the source either.
- `Config::path`, `ProjectDirs`, `reveal`, TOML encoding and decoding, and the writes inside `save` are not modelled. Whether saving succeeded is an input of `Add` and `Remove`.
- AppConfig.Load: a failure of `Config::path` is not modelled. Read and parse failures together are one "unreadable" case.
- AppConfig.Config.List: the column layout of the printed table is not modelled. Only the rows and their order are.
- BundleModel.Bundle.constructor: `Bundle::new`'s removal and creation of `bundle.zip` are not modelled.
- BundleModel.Bundle.AddTree: copying file contents into the archive and `finish` are not modelled.
- BundleModel.Bundle.AddTree: `WalkDir` errors are not modelled. The source drops them with `filter_map(ok)`.
- BundleModel.Bundle.AddTree: symbolic links and special files are not modelled. A node is either a file or a directory.
- BundleModel.Bundle.AddTree: the order of a directory's children is an input, as the file system lists them.
- BundleModel.Bundle.AddTree: the zip crate's conversion of a path into an entry name is not modelled. The record holds the path's components, including the `CurDir` of a `build.source` such as `./game`.
- BundleModel.Bundle.AddTree: a `build.source` that is an absolute path loses its root in the record's path.
- Paths are Unix paths. Windows prefixes and `\` separators are not modelled.
- Order.Sort is an insertion sort. For a strict total order every sort gives the same result, so this does not change what `Vec::sort` produces.
- `serde` (de)serialisation of `PlatformTarget` is represented only by its lower-case names.
- The network socket (`src/socket.rs`, `src/models/socket.rs`) is not modelled, nor is the `debug attach` loop.
- The interactive prompts and the CLI dispatch in `src/main.rs` and `src/commands/` are not modelled, except the `debug addr2line` composition.
