# aokami core in Dafny

aokami is a command-line helper for the Minecraft server's data generator.
It has three commands:

- **Download** picks a version from Mojang's version manifest and fetches
  that version's server jar into a versions directory.
- **Generate** runs one of those jars. For `latest`, it runs the newest jar
  found in the directory.
- **Transform** reshapes the generator's reports. `blocks.json` becomes a
  map from block id to the protocol id of the block's default state. The
  chosen registry directories become one map per registry, from
  `minecraft:<file stem>` to the file's JSON.

This project models the decisions those commands make. It proves what they
compute. It covers:

- selecting a manifest entry;
- the jar path and the rule that an existing jar is kept;
- reading a version from a jar's file name;
- the version order and picking the newest jar;
- building the block table;
- collecting registry files.

Rust library behaviour that the decisions depend on is defined here from
scratch:

- `u32::from_str` and its decimal rendering (`Decimal`);
- `str::split` (`Strings`);
- `Path::join` and `Path::file_stem` on Unix (`Paths`);
- the `serde_json::Value` accessors (`JsonValues`);
- `Iterator::find` (`Seqs`).

Modules follow the program:

- `Catalog`: the Download command.
- `LocalVersions`: the `Version` type and how a file stem is read.
- `LocalScan`: `find_latest_version` and Generate's jar path.
- `BlockTransform`: `transform_blocks`.
- `RegistryTransform`: `transform_registries`.

How the model stands in for I/O:

- **Directory listings** are given as parameters. For the versions
  directory, that is the entry names in enumeration order. For registries,
  it is a map from registry name to the directory's entries. A name missing
  from the map is a directory that cannot be read.
- **Existing files** are a set of paths.
- **HTTP responses** are functions from URL to an optional document.
- **Reports** arrive already parsed. `None` stands for a file that could not
  be read or parsed.
- **Panics** are error values. An index past the end of the split stem is
  `MissingComponent`. `last().unwrap()` on an empty directory is
  `EmptyDirectory`.

Behaviour of the code worth knowing:

- A stem with more than three dot-separated parts is accepted. Parts after
  the third are ignored, because only `parts[0..3]` are read.
- A block may have several default states. The first one in array order
  decides the protocol id.
- A failed block names only the error kind, not the block.
- A partly streamed jar is not guarded against. It would later count as
  already present.

Stems are read the way `u32::from_str` reads them, so leading zeros and a
leading `+` are accepted. The jar path for `latest` is then rebuilt from the
rendered version. So a directory whose newest jar is spelled with a leading
zero (`01.2.3.jar`) makes Generate look for `1.2.3.jar`.
`LocalScan.GenerateFindsDownloadedJar` shows that a directory of jars named
after rendered three-part versions never hits this. Download names a jar
after the metadata's id, which need not be such a rendering: an id such as
`1.21` gives `1.21.jar`, whose stem has two parts, so the scan fails on it.

## Model

| member | source | states |
|---|---|---|
| Seqs.Find | src/main.rs:127 | `find` returns the first element satisfying the predicate, and `None` exactly when no element does |
| Catalog.SelectVersion | src/main.rs:127-137 | the selected entry is the first manifest entry whose id is the wanted id: the manifest's latest release or snapshot for `latest` by release type, otherwise the given version; `None` exactly when no entry has that id |
| Catalog.LatestSelectsManifestPointer | src/main.rs:128-133 | with `latest`, a release type picks the manifest's latest release and any other type picks the latest snapshot; the result is the first entry with that id, and there is none only if no entry carries it |
| Catalog.ExplicitIdSelectsThatId | src/main.rs:134-135 | any other version string selects the first entry with exactly that id; there is none exactly when no entry has that id |
| Catalog.DownloadServer | src/main.rs:42-58 | the artifact path is `{versions_dir}/{id}.jar` for the metadata's id; the file is kept exactly when that path exists, otherwise the server download URL is streamed into it |
| Catalog.DownloadIsIdempotent | src/main.rs:45-49 | a second download of the same metadata, after the first has completed, streams nothing and returns the same path (the metadata is still requested again) |
| Catalog.Download | src/main.rs:127-143 | nothing is downloaded exactly when no entry has the wanted id; otherwise the selected entry's URL supplies the metadata; a failed metadata request is reported; a download lands at the metadata id's jar path, keeps the file exactly when that path already exists, and otherwise streams the server URL |
| Paths.JarPath | src/main.rs:45 | the jar path is the directory, a `/` unless the directory is empty or already ends in one, then `{id}.jar`; an id starting with `/` replaces the directory; the path always ends in `{id}.jar` |
| Paths.FileStem | src/main.rs:99 | `file_stem` of a file name is a prefix of the name, empty only for the empty name; `Paths.StemOfJarFileName` pins it down on jar names |
| Paths.StemOfJarFileName | src/main.rs:99 | the file stem of `{id}.jar` is `id` for every non-empty id without a `/`, so a jar's stem is the id it was saved under |
| Decimal.ParseShow | src/main.rs:102 | every 32-bit value's decimal rendering is parsed back by `u32::from_str` to the same value |
| Decimal.ParseLeadingZero | src/main.rs:102 | a leading zero is accepted and does not change the value, so several stems read as one version |
| Decimal.ParseU32 | src/main.rs:102 | a parsed string is non-empty, is not a lone `+`, and is all digits after an optional leading `+` |
| Decimal.ParseU32Accepts | src/main.rs:102 | conversely, a non-empty digit string with or without a leading `+` is accepted exactly when its value is below 2^32, and is read as that value |
| Decimal.ParseU32RejectsOverflow | src/main.rs:102 | the rendering of any number of 2^32 or more, such as `4294967296`, is rejected |
| Decimal.Show | src/main.rs:90 | the `{}` rendering of a number is a canonical numeral: non-empty decimal digits with no superfluous leading zero |
| Decimal.ValueOfShow | src/main.rs:90 | reading back a number's rendering gives the number |
| Decimal.ShowOfValue | src/main.rs:90 | the rendering of a canonical digit string's value is that string itself, so rendering is the inverse of reading on canonical numerals |
| Strings.Split | src/main.rs:100 | `split('.')` gives at least one piece and no piece contains the separator; `Strings.JoinSplit` and `Strings.SplitJoin` make it the inverse of joining |
| Strings.JoinSplit | src/main.rs:100 | joining the pieces of `split('.')` with `.` gives back the stem |
| Strings.SplitJoin | src/main.rs:100 | splitting pieces that are joined with a separator they do not contain gives back those pieces |
| LocalVersions.Compare | src/main.rs:82-86 | the tuple comparison is `Equal` exactly for equal versions; `LocalVersions.CompareIsTotalOrder` and `LocalVersions.CompareNumeric` give the rest of its order |
| LocalVersions.Render | src/main.rs:88-92 | the `Display` rendering is at least five characters of digits and dots; `LocalVersions.ParseRender` shows the stem reader inverts it |
| LocalVersions.CompareIsTotalOrder | src/main.rs:76-86 | the derived comparison is a total order: `Equal` exactly for equal versions, antisymmetric, total and transitive |
| LocalVersions.CompareNumeric | src/main.rs:82-86 | `a < b` exactly when `a` is lexicographically smaller by numeric major, then minor, then patch |
| LocalVersions.CompareExamples | src/main.rs:82-86 | `1.10.0 > 1.2.10 > 1.2.3`: components compare as numbers, not as text |
| LocalVersions.ParseStem | src/main.rs:100-102 | a stem is read as a version exactly when splitting it on `.` gives at least three pieces and each of the first three parses as a u32, and the version is those three values; a failure is `InvalidComponent` exactly when one of the first three pieces present is not a u32, and otherwise `MissingComponent` |
| LocalVersions.ParseRender | src/main.rs:88-102 | reading the `Display` rendering of a version gives that version back, with or without further `.`-separated text after it |
| LocalVersions.ShortStemFails | src/main.rs:100-102 | a stem with fewer than three dot-separated pieces never yields a version: it fails with `MissingComponent` exactly when every piece present parses, and with `InvalidComponent` exactly when some piece present does not, since `parts[0]` is parsed before `parts[1]` is indexed |
| LocalScan.StemVersion | src/main.rs:98-102 | one directory entry is read by parsing its file stem; its failure is a bad or missing component, never the empty-directory error; `LocalScan.StoredJarNamesVersion` and `LocalScan.ExampleNamesRead` pin it down on jar names |
| LocalScan.LatestVersion | src/main.rs:94-106 | the scan over a listing of names succeeds exactly when the listing is non-empty and every entry's stem is a version; success yields the latest version; failure is the empty directory or the first failing entry's error |
| LocalScan.CollectVersions | src/main.rs:95-104 | collecting per-entry results succeeds exactly when every entry is a version, keeps them in order, and otherwise fails with the first failing entry's error |
| LocalScan.Greatest | src/main.rs:105-106 | the last element after sorting is an element of the list that every element is at most |
| LocalScan.LatestOf | src/main.rs:94-107 | the scan succeeds exactly when the directory is non-empty and every entry is a version; success yields the latest one; failure is the empty directory or the first failing entry's error |
| LocalScan.ScanListing | src/main.rs:95-106 | the loop over what the entries name yields the latest version exactly when there is at least one entry and every entry is a version; otherwise it yields the empty-directory error or the first failing entry's error |
| LocalScan.FindLatestVersion | src/main.rs:94-107 | the loop over directory entries returns the rendering of the latest version exactly when the directory is non-empty and every stem is a version; otherwise it returns the empty-directory error or the first failing entry's error |
| LocalScan.LatestIsUnique | src/main.rs:105-106 | at most one version is the latest of a listing, so the scan's answer is determined |
| LocalScan.LatestDependsOnResultsOnly | src/main.rs:97-106 | two listings with the same per-entry results, in any order or multiplicity, agree on whether the scan succeeds and on the latest version |
| LocalScan.LatestIgnoresOrder | src/main.rs:97-106 | reordering the directory listing changes neither whether the scan succeeds nor the version it returns |
| LocalScan.GenerateJarPath | src/main.rs:146-151 | Generate runs `{versions_dir}/{version}.jar` for an explicit version; for `latest` it runs the latest scanned version's jar, and fails exactly when the scan fails, with the scan's error |
| LocalScan.StoredJarNamesVersion | src/main.rs:99-102 | the stem of a jar saved under a rendered version reads back as that version |
| LocalScan.GenerateFindsDownloadedJar | src/main.rs:147-151 | when every jar in the directory was saved under a rendered version id, Generate with `latest` runs one of those jars, the greatest |
| LocalScan.StoredNamesExample | src/main.rs:45 | versions `1.2.3`, `1.10.0` and `1.2.10` are stored as `1.2.3.jar`, `1.10.0.jar` and `1.2.10.jar` |
| LocalScan.ScanExample | src/main.rs:94-107 | entries naming `1.2.3`, `1.10.0` and `1.2.10` yield `1.10.0` |
| LocalScan.ExampleNamesRead | src/main.rs:99-102 | `1.2.3.jar`, `1.10.0.jar` and `1.2.10.jar` read as versions `1.2.3`, `1.10.0` and `1.2.10` |
| LocalScan.ScanNamesExample | src/main.rs:94-107 | the directory `1.2.3.jar`, `1.10.0.jar`, `1.2.10.jar` scans to `1.10.0` |
| BlockTransform.DefaultMeansBooleanTrue | src/transform/blocks.rs:15-18 | a state is default exactly when it is an object whose `default` field is the boolean `true` |
| JsonValues.Get | src/transform/blocks.rs:12 | `get` yields a value exactly when the value is an object with that key, and then that member |
| JsonValues.AsArray | src/transform/blocks.rs:12 | `as_array` yields items exactly for an array, and then its items |
| JsonValues.AsBool | src/transform/blocks.rs:16-17 | `as_bool` yields a value exactly for a JSON boolean, and then that boolean; the string `"true"` is no boolean |
| JsonValues.AsI64 | src/transform/blocks.rs:19 | `as_i64` yields a value exactly for an integer in the signed 64-bit range, and that integer; floats and anything else yield nothing |
| BlockTransform.OutOfRangeIdMalformed | src/transform/blocks.rs:19-20 | a block whose first default state has an integer `id` outside the signed 64-bit range is malformed |
| BlockTransform.DefaultStateId | src/transform/blocks.rs:12-21 | a block without a `states` array is skipped; otherwise the first default state decides: its integer `id` is the protocol id, and the block is malformed exactly when the first default state is missing or has no i64 `id` |
| BlockTransform.TableOf | src/transform/blocks.rs:10-26 | the table is built exactly when no block is malformed; its keys are the blocks with a protocol id, each mapped to that id |
| BlockTransform.BlockTable | src/transform/blocks.rs:10-26 | the table succeeds exactly when no block with a `states` array is malformed; it then holds exactly the blocks with a `states` array, each mapped to its default state's id |
| BlockTransform.CollectTable | src/transform/blocks.rs:10-26 | the loop that visits blocks in an unspecified order computes the same table or error as the order-free definition |
| BlockTransform.TransformBlocks | src/transform/blocks.rs:7-26 | an unreadable report fails, a report that is not a JSON object fails, otherwise the result is the block table of its fields |
| BlockTransform.SingleBlockTable | src/transform/blocks.rs:10-26 | a report of one block with a protocol id gives the table of just that block and id |
| BlockTransform.StoneExample | src/transform/blocks.rs:11-23 | a stone block whose second state is the default maps to that state's id |
| BlockTransform.NoDefaultFails | src/transform/blocks.rs:12-20 | one block with a `states` array but no default state fails the whole transform, whatever the other blocks hold |
| RegistryTransform.Namespaced | src/transform/registry.rs:27 | a namespaced key is `minecraft:` followed by the name, which can be read back from it |
| RegistryTransform.RegistryEntries | src/transform/registry.rs:14-28 | collecting one registry directory succeeds exactly when every file in it is readable JSON; otherwise it fails with `InvalidFile` |
| RegistryTransform.RegistryEntriesContents | src/transform/registry.rs:15-27 | the collected keys are exactly `minecraft:<stem>` for the directory's files, and each maps to the JSON of the last file with that stem |
| RegistryTransform.NonFileSkipped | src/transform/registry.rs:17-21 | a non-file entry anywhere in the listing changes nothing |
| RegistryTransform.LaterFileWins | src/transform/registry.rs:27 | of two files with the same stem, the later one supplies the value |
| RegistryTransform.TransformRegistries | src/transform/registry.rs:6-31 | the transform succeeds exactly when every named registry directory exists and all its files are readable JSON; `RegistryTransform.TransformRegistriesError` says which error a failure reports |
| RegistryTransform.TransformRegistriesError | src/transform/registry.rs:8-24 | a failed transform reports the first requested registry that cannot be collected, with every earlier one collected: `MissingDirectory` (the "failed to read registry directory" error) exactly when that registry's directory is missing, `InvalidFile` exactly when the directory exists but one of its files is unreadable |
| RegistryTransform.TransformRegistriesContents | src/transform/registry.rs:8-29 | the outer keys are exactly `minecraft:<registry>` for the named registries, each mapped to that directory's collected entries |
| RegistryTransform.RepeatedRegistryChangesNothing | src/transform/registry.rs:29 | naming a registry a second time changes nothing |
| RegistryTransform.ItemExample | src/transform/registry.rs:6-31 | `minecraft/item/` holding `stick.json` and `diamond.json` yields `minecraft:item` mapped to `minecraft:stick` and `minecraft:diamond` |

## Left out

- Fetching the manifest and metadata over HTTP (src/main.rs:31-40, 43) is a parameter. `Catalog.Download` takes the metadata per URL, and a failed request is one outcome.
- Streaming the jar to disk (src/main.rs:51-57) is a `Streamed` outcome. Chunks, write errors and partial files are not modelled.
- `get_work_dir` and directory creation (src/main.rs:22-29) are not modelled. The versions directory is a path string.
- `build_java_command`, running Java and its exit status (src/main.rs:61-71, 152-158) are not modelled. They are process I/O past the jar path choice.
- The CLI (src/cli.rs), the manifest types' deserialisation (src/types.rs), `get_output_path` and writing the transformed output are not modelled. They parse arguments, decode JSON or print.
- JSON text is not parsed or printed. Reports arrive as `JsonValues.Json` values, and `None` stands for text that could not be read or parsed.
- Diagnostics printed with `println!`/`eprintln!` are not modelled.
- I/O errors from `read_dir`/`next_entry` in the middle of a listing are not modelled. An unreadable registry directory is a name missing from the tree. For the versions directory, only the listing is modelled.
- Non-UTF-8 file names are not modelled, because names are Dafny strings. The versions scan (src/main.rs:99) renders such a name lossily with `display()`; the registry collection (src/transform/registry.rs:26) panics on it at `to_str().unwrap()`.
- RegistryTransform.RegistryEntries: directory entries carry their file stem rather than their full name. `Paths.FileStem` is modelled and used for the versions directory.
- LocalScan.Greatest: `versions.sort()` followed by `last()` is modelled as choosing a greatest element. Under a total order whose equality is structural, this gives the same version.
- LocalScan.FindLatestVersion: the per-entry results are computed before the loop. Reading a stem has no effects, so the loop sees the same values in the same order.
- BlockTransform.CollectTable: the order in which `HashMap` visits blocks is a nondeterministic choice. Every failure has the same error kind, so the first malformed block visited does not change the result.
- Paths.Join: only the Unix form of `Path::join` is modelled. Windows prefixes and separators are not.
- Integers in JSON are unbounded `int`s, and `AsI64` keeps only those in the i64 range. Floats are `real`s and are never an integer id. A document is expected to hold `-0` as a float, as serde_json reads it.
