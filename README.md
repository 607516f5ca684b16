# nrs registry bookkeeping in Dafny

`nrs` switches the npm registry. It keeps a profile with four parts:

- the six built-in registries, a name→URL map;
- the custom registries the user added, a second name→URL map;
- a display order of names;
- the name of the selected registry, if there is one.

The tool keeps the `registry=` line of an `.npmrc` file in step with the selected registry.

This project models the profile and the commands that change it:

- `Config::new`, `add_registry`, `edit_registry`, `remove_registry`, `set_current`;
- the reconciliation done by `load`;
- the `.npmrc` rewrite of `update_npmrc`;
- the name derivation and registry-line scan of `utils.rs`;
- the `reset`, `ls` and `prune` commands.

Modules follow the source files:

| module | source |
|---|---|
| `Errors` | `error.rs` |
| `Text` | Rust string behaviour used by the code: `trim`, `trim_start_matches`, `BufRead::lines`, `join`, decimal formatting, `String` ordering |
| `Sorting` | collecting a `HashMap` into a `Vec` and `sort` / `sort_by` |
| `Utils` | `utils.rs`, plus the `.npmrc` line filter that `config.rs` and `prune.rs` both write out |
| `Config` | `config.rs`; the profile is the class `Config.Config` |
| `Reset`, `List`, `Prune` | the three command files |

Files are values. The text of an `.npmrc` is an `Option<string>`, with `None` when the file does not exist. A command's effect on a file is a `FileChange`: `Unchanged`, `Write(text)` or `Delete`.

Reachability is the parameter `reachable: string -> bool`. In the source it is an HTTP HEAD request that succeeds with a success status.

Some code scans a `HashMap` and takes the first match:
- `load` looking for a URL;
- `add_registry` looking for an existing URL.

Iteration order is unspecified there. `Config.Config.MatchUrl` picks any matching entry with `:|`, and its contract says only what holds whichever entry is chosen. `Config.Config.AddRegistry` only tests whether some entry has the URL (`HasUrl`), because which entry the scan meets first changes nothing but the warning text.

The model follows what the code does, including these behaviours:

- **Name sets may overlap.** Nothing stops a name from being both built-in and custom: `add_registry` (src/config.rs:158-162) never checks the built-in names, so the model does not assume the sets are disjoint. A custom entry with a built-in's name is shadowed wherever a name is looked up, because the built-in is looked up first (`Config.LookupUrl`). `prune` tests such a name with the built-in URL. If it judges the name unreachable, `remove_registry` also deletes the built-in of that name. `Prune.ExecuteGlobal` therefore promises "built-ins untouched" only when the two name sets are disjoint.
- **A discovered registry can take a built-in's name.** `load` derives a name for an unknown URL by checking the host against the custom names only (src/utils.rs:19, src/config.rs:105). `registry=http://npm/` is stored as custom `npm` and selected, and every later lookup of `npm` gives the built-in URL instead of the one read (`Config.DiscoveredNameShadowed`).
- **Names can repeat in the display order.** When `load` rebuilds an empty order, and when `reset` rebuilds it, a name in both maps is listed twice. The contracts say so: the order's multiset is the sum of the two key multisets.
- **URLs read from `.npmrc` are not validated.** `load` adds an unknown URL read from `.npmrc` even when it is not `http(s)://`, because validation lives only in `add_registry` and `edit_registry`.
- **A line may change on rewrite.** `BufRead::lines` already drops the `\r` of a `\r\n` ending. A line can still end in `\r` after reading: a last line `a\r` with no newline, or a line ending `a\r\r\n`. Written back followed by `\n`, such a line gets a CRLF ending, and the next read drops its `\r`. So `Config.RewriteKeepsOtherLines` and the first half of `Prune.StrippedReadsBack` require that no line ends in `\r`. Finding the registry line again does not need this: `\r` is white space, which `trim` drops anyway (`Config.RewriteReadsTrimmed`, `Prune.StrippedHasNoRegistryLine`).
- **A URL may not survive the `.npmrc`.** `add_registry` and `edit_registry` check only the scheme (src/config.rs:139, 171). So a URL with trailing white space such as `http://x ` is accepted, and so is one holding `\n`. Once it is selected, `update_npmrc` writes it after `registry=` (src/config.rs:226), and `load` reads the trimmed line back as `http://x` (src/config.rs:79-83). No entry has that URL, so `load` adds a new custom registry for it and selects that instead (src/config.rs:104-110, `Config.PaddedUrlReadsTrimmed`). `Config.RewriteReadsTrimmed` states what is read back for any URL without `\n`. The exact read-back lemmas hold for URLs that are safe on a line (`IsLineSafe`: no `\n` and no trailing white space).
- **The suffix counter stays small.** `derive_registry_name` counts in an `i32`. The model's counter is unbounded, but `DeriveRegistryName` proves the chosen suffix is at most the number of custom registries. The counter therefore cannot overflow while there are fewer than 2^31 - 1 custom registries.

## Model

| member | source | states |
|---|---|---|
| Text.TrimStartMatches | src/utils.rs:12-13 | the result is a suffix of the input that no longer starts with the (non-empty) prefix |
| Text.TrimStartMatchesCopies | src/utils.rs:12-13 | what is stripped is whole copies of the prefix and nothing else |
| Text.TrimStartSpec | src/utils.rs:62 | `trim_start` removes only leading Unicode white space and stops at the first other character |
| Text.TrimEndSpec | src/utils.rs:62 | `trim_end` removes only trailing Unicode white space and stops at the last other character |
| Text.TrimStartSkipsWhitespace | src/utils.rs:62 | white space before a line does not change what `trim_start` leaves |
| Text.Decimal | src/utils.rs:25 | the counter is printed as a non-empty string of decimal digits whose first digit is `0` only for zero, so without leading zeros |
| Text.DecimalRoundTrip | src/utils.rs:25 | reading the printed counter back gives the counter |
| Text.DecimalInjective | src/utils.rs:25 | different counters print differently, so `host-1`, `host-2`, … are distinct names |
| Text.SplitLines | src/config.rs:218-219 | the lines `BufRead::lines` yields contain no `\n` |
| Text.SplitRender | src/config.rs:226-227 | lines joined by `\n` with a final `\n` read back as the same lines, when none holds `\n` or ends in `\r` |
| Text.SplitRenderStripsCr | src/config.rs:226-227 | lines without `\n`, written out that way, read back with one trailing `\r` dropped from each line that has one |
| Text.TrimStripCr | src/utils.rs:62 | dropping a trailing `\r` does not change the trimmed line |
| Text.JoinLines | src/config.rs:227 | the joined text starts with the first line, followed by `\n` when more lines come |
| Text.JoinLinesNewlines | src/config.rs:227 | `n` lines without `\n`, joined, hold exactly `n - 1` newlines |
| Text.Render | src/config.rs:227 | the written text is never empty and ends in `\n` |
| Text.RenderNewlines | src/config.rs:227 | the written text holds one `\n` per line |
| Text.LexLeTotal | src/config.rs:69 | the `String` order compares any two strings |
| Text.LexLeAntisymmetric | src/config.rs:69 | strings ordered both ways are equal |
| Text.LexLeTransitive | src/config.rs:69 | the `String` order is transitive |
| Sorting.Insert | src/commands/list.rs:21-37 | inserting adds exactly that element and loses none |
| Sorting.InsertSorted | src/commands/list.rs:21-37 | inserting into a sorted list keeps it sorted |
| Sorting.SortBy | src/commands/list.rs:21-37 | `sort_by` under a total preorder yields a sorted permutation of its input |
| Sorting.SortedUnique | src/config.rs:69 | under an antisymmetric order, two sorted permutations of the same list are equal, so `sort` on strings has one result |
| Sorting.LexLeIsTotalPreorder | src/config.rs:69 | the `String` order is a total preorder, so `sort` applies |
| Sorting.SortStrings | src/config.rs:69 | `Vec<String>::sort` yields a sorted permutation |
| Sorting.SortedStringsUnique | src/config.rs:62-70 | the sorted order does not depend on the `HashMap` iteration order it was collected in |
| Sorting.Collect | src/config.rs:63-68 | collecting a map's keys lists each key exactly once |
| Sorting.DistinctOfSet | src/commands/prune.rs:73-74 | the sorted custom names have no repeats |
| Utils.FirstRegistryIndex | src/utils.rs:60-69 | the index of the first line whose trimmed form starts with `registry=`; no earlier line does |
| Utils.IsRegistryLine | src/utils.rs:62 | a line sets the registry when its trimmed form starts with `registry=`; such a line is at least as long as that key |
| Utils.LineUrl | src/utils.rs:63-67 | `registry=` followed by the URL is exactly the trimmed line |
| Utils.IndentationIgnored | src/utils.rs:62-67 | white space before a line changes neither whether it is a registry line nor its URL |
| Utils.RegistryLineIgnoresCr | src/utils.rs:62-67 | a trailing `\r` changes neither whether a line is a registry line nor its URL |
| Utils.RegistryLineReadsTrimmed | src/utils.rs:62-67 | `registry=<url>` is a registry line, and its URL is `url` without trailing white space |
| Utils.ReadBackAfterKept | src/utils.rs:60-69 | after lines that are not registry lines, a registry line's URL is the one found, even with trailing `\r` dropped |
| Utils.ReadRegistryUrl | src/utils.rs:51-72 | no file gives `None`; otherwise the URL of the first registry line, `registry=` stripped from the trimmed line, or `None` when no line is one |
| Utils.NonRegistryLines | src/config.rs:219-224 | no kept line is a registry line |
| Utils.NonRegistryLinesFrom | src/config.rs:219-224 | every kept line is a line of the input |
| Utils.NonRegistryLinesAppend | src/config.rs:219-224 | filtering works line by line, so kept lines stay in their original order |
| Utils.KeepNonRegistryLines | src/config.rs:215-225 | the loop keeps exactly the non-registry lines, in order |
| Utils.UpToSlash | src/utils.rs:14-16 | the text before the first `/`, holding no `/` |
| Utils.Host | src/utils.rs:11-17 | the derived host holds no `.`, `:` or `/` and is no longer than the URL |
| Utils.Suffixed | src/utils.rs:25 | a candidate name is the host followed by `-` and at least one more character, so it never equals the host |
| Utils.SuffixNumberOfSuffixed | src/utils.rs:25 | the counter can be read back from `host-N` |
| Utils.DeriveRegistryName | src/utils.rs:10-31 | the name is not a custom key; it is the host when the host is free, otherwise `host-N` for the least `N ≥ 1` that is free, with `N` at most the number of custom registries |
| Utils.DerivedNameUnique | src/utils.rs:19-30 | at most one name meets that description, so the derivation is deterministic |
| Config.DefaultsInserted | src/config.rs:29-41 | inserting the six defaults in order gives exactly the six built-in entries |
| Config.Without | src/config.rs:191 | `retain` keeps exactly the names not removed |
| Config.WithoutAppend | src/config.rs:191 | removing names from a concatenation removes them from each part, so the remaining names keep their order |
| Config.WithoutTwice | src/config.rs:191 | removing names one batch after another equals removing them together |
| Config.WithoutNothing | src/config.rs:191 | removing no name leaves the order unchanged |
| Config.IsHttpUrl | src/config.rs:139-141 | an accepted URL begins with `http` and is at least as long as `http://` |
| Config.LookupUrl | src/config.rs:201-205 | a built-in name gives the built-in URL; only a name with no built-in entry gives the custom URL |
| Config.DiscoveredNameShadowed | src/utils.rs:19-21 | the URL `http://npm/` is named `npm` when no custom entry has that name, and the lookup of `npm` then gives the built-in URL, not the one read |
| Config.RegistryLineFor | src/config.rs:226 | for a URL with no `\n` and no trailing white space, `registry=<url>` is a registry line whose URL reads back as `url` |
| Config.RewriteKeepsOtherLines | src/config.rs:215-227 | for such a URL, and when no old line ends in `\r`, the rewritten `.npmrc` reads back as the old non-registry lines in order, then exactly one `registry=<url>` line |
| Config.RewriteReadsTrimmed | src/config.rs:215-227 | for a URL without `\n`, the rewritten file's first registry line gives the URL less its trailing white space, whatever the other lines hold |
| Config.RewriteReadsBack | src/config.rs:215-227 | for a URL with no `\n` and no trailing white space, the rewritten file's first registry line gives the URL written, which is what `load` reads next |
| Config.PaddedUrlReadsTrimmed | src/config.rs:139-141 | `http://x ` passes the URL check but is not safe on a line, and it reads back from the `.npmrc` as `http://x` |
| Config.AddSelectKeepsValid | src/config.rs:104-111 | adding, listing and selecting a discovered registry keeps the profile valid |
| Config.Config.constructor | src/config.rs:25-49 | exactly the six built-ins, in declaration order, with no custom registries and nothing selected |
| Config.Config.Has | src/config.rs:129 | a known name is in one of the maps and its URL is one of the profile's URLs |
| Config.Config.UrlOf | src/config.rs:202-205 | the built-in URL of a built-in name, otherwise the custom one; always one of the profile's URLs |
| Config.Config.HasUrl | src/config.rs:143-146 | some entry, built-in or custom, has the URL |
| Config.Config.AddRegistry | src/config.rs:138-165 | a URL that is not `http(s)://` gives `InvalidRegistryUrl`, and a URL already present gives `Ok`; both leave the profile unchanged. Otherwise the custom entry is set and the name appended to the order if absent, with nothing else changed |
| Config.Config.EditRegistry | src/config.rs:167-183 | an unknown name gives `RegistryNotFound` before the URL is checked; a bad URL gives `InvalidRegistryUrl`. Otherwise only that entry changes, the built-in one if it exists |
| Config.Config.RemoveRegistry | src/config.rs:185-197 | an unknown name is an error with no change. Otherwise the name leaves both maps and every place in the order, and the selection is cleared exactly when it was that name; validity is kept |
| Config.Config.UpdateNpmrc | src/config.rs:199-230 | nothing selected leaves the file alone; a dangling selection gives `RegistryNotFound`. Otherwise the file is rewritten with the selected URL (built-in first), after a backup copy when asked and the file exists |
| Config.Config.SetCurrent | src/config.rs:128-136 | an unknown name is an error with no change; otherwise only the selection changes and the `.npmrc` is rewritten for it |
| Config.Config.NormalizeOrder | src/config.rs:62-70 | an empty order becomes the sorted list of all names (built-in plus custom, as multisets); a non-empty one is kept |
| Config.Config.SyncCurrent | src/config.rs:72-115 | no registry line leaves the profile unchanged; otherwise the first line's URL is matched as below; validity is kept |
| Config.Config.MatchUrl | src/config.rs:84-111 | a built-in with the URL is selected first, else a custom one. An unknown empty URL changes nothing. An unknown non-empty URL is added under the derived name, appended to the order if absent, and selected |
| Config.Config.AddDiscovered | src/config.rs:104-111 | the discovered URL is stored under the derived name, listed and selected; built-ins untouched |
| Reset.Execute | src/commands/reset.rs:4-24 | without `yes` nothing is saved. With `yes` the built-ins revert to the defaults. With `all` the result is `Config::new()`; without it, custom registries and selection carry over and the order is the sorted list of all names |
| Reset.CarriedOverValid | src/commands/reset.rs:7-17 | a profile rebuilt that way from a valid one is valid |
| List.IndexOf | src/commands/list.rs:25-29 | the first position of a name in the order, or the length when absent |
| List.Position | src/commands/list.rs:25-34 | a listed name's key is its first position; an unlisted name's key is `usize::MAX` |
| List.ComparatorSorts | src/commands/list.rs:20-38 | each of the three comparators (name, URL, position) is a total preorder |
| List.Execute | src/commands/list.rs:13-53 | the rows are exactly the built-in pairs plus the custom pairs, sorted by the chosen key, each marked current exactly when its name is selected |
| List.UnlistedComeLast | src/commands/list.rs:23-37 | in the default order a name missing from the display order comes after every listed one |
| Prune.Stripped | src/commands/prune.rs:41-63 | an absent file is left alone |
| Prune.StripRegistryLines | src/commands/prune.rs:41-63 | the filtering loop gives the stripped file: delete when no line is left, otherwise the kept lines joined by `\n` plus `\n` |
| Prune.NonRegistryLinesEmpty | src/commands/prune.rs:51-57 | no line is kept exactly when every line is a registry line |
| Prune.StrippedDeletes | src/commands/prune.rs:51-57 | the file is deleted exactly when all its lines are registry lines |
| Prune.StrippedReadsBack | src/commands/prune.rs:42-62 | a written file whose lines do not end in `\r` reads back as the kept lines, in order |
| Prune.StrippedHasNoRegistryLine | src/commands/prune.rs:42-62 | a written file holds no registry line, whatever its lines end in |
| Prune.ExecuteLocal | src/commands/prune.rs:16-70 | no registry line, a reachable URL, or a dry run leaves the local file alone; otherwise its registry lines are stripped |
| Prune.IsUnreachable | src/commands/prune.rs:76-79 | only a custom name can be unreachable; it is tested with the built-in URL when a built-in has the same name, otherwise with its own |
| Prune.Probe | src/commands/prune.rs:72-96 | the unreachable list holds exactly the custom names whose URL does not answer, each once, in ascending order |
| Prune.RemoveAll | src/commands/prune.rs:107-109 | each listed name leaves both maps and the order and clears a matching selection; no removal fails; validity is kept |
| Prune.ExecuteGlobal | src/commands/prune.rs:71-139 | a dry run or no unreachable registry changes nothing. Otherwise exactly the unreachable custom registries are removed, and the global `.npmrc` is stripped when nothing stays selected. Built-ins are untouched when names do not overlap |

## Left out

- File system and environment: paths, `home_dir`, `current_dir`, `exists`, `File::open`, `fs::write`/`copy`/`remove_file`. Files are values, and a command returns its effect on a file. Which file (`local` or global) is a caller's choice and is not modelled.
- The backup copy's path `.npmrc.bak` is not modelled. `UpdateNpmrc` returns only the text to be copied.
- I/O errors (`?` on opening, reading a line, invalid UTF-8, writing) and the `Io`, `Json`, `ClapError`, `Http` and `HomeDirNotFound` error variants are not modelled. These come from the operating system or foreign libraries.
- `save` and the JSON read in `load` (serde) are not modelled. Persistence is foreign serialisation. `load` starts from whatever profile the caller holds.
- `test_registry` and the HTTP probes in `prune` and `test` are replaced by the `reachable` parameter. Their timing (`Instant`) and the printed durations are left out.
- Printed output is left out: the warning in `add_registry`, the messages of `reset`, `prune` and `ls`, the colours and column widths.
- The `show`, `doctor`, `current` and `test` commands, `main.rs` and `commands/mod.rs` are left out. They parse arguments or only print.
- The `add`, `edit`, `remove` and `use` commands are left out. They only forward to the `Config` methods above.
- Config.Config.MatchUrl: when several entries share the URL, the model does not fix which is selected. The source picks by `HashMap` iteration order, which is unspecified.
- Config.Config.AddRegistry: when the URL is already present, the model does not say which entry the scan met first. The only effect of that choice is the warning text.
- Sorting.SortBy: stability is not stated. Among rows with equal keys from the same map the order is unspecified, because it comes from `HashMap` iteration. Between the two maps it is fixed: `ls` chains the built-ins before the custom registries (src/commands/list.rs:13-18) and `sort_by` is stable, so a built-in row comes before a custom row with an equal key. The model does not state this tie-break.
- List.Execute: positions are unbounded integers, with `usize::MAX` as the value for an absent name. `List.UnlistedComeLast` holds when the display order is shorter than `usize::MAX`.
