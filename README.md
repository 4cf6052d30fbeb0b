# budoux-extension packaging, modelled in Dafny

The repository ships a browser extension. Its build ends with a packaging
script, `scripts/package.ts`, whose class `ChromeExtensionPackage` runs in
three parts:

- **run**: reads the options `--dir`, `--js`, `--zip` and `--firefox`. It
  requires the output directory, runs the copy phase when a JavaScript
  directory is given, and runs the zip phase when a zip name is given. The
  Firefox variant's zip name has its first `.zip` replaced by
  `-firefox.zip`.
- **copy**: creates the output directory, resolves the list of files to
  place, and creates the parent directory of every destination. The list is
  the three script bundles, the manifest, the options page, the icon and
  every locale file. In the Firefox variant it then writes a transformed
  manifest to the transient file `firefox-manifest.json`. It copies every
  file, and in the Firefox variant it removes the transient file again.
- **zip**: fails with `Directory not found: <dir>` when the output directory
  is missing. Otherwise it writes the archive.

The options and every path the script builds are strings. The model parses
them into segments, except for the output directory's name as given. There
`existsSync` and `mkdir` are modelled on the string itself, so that an empty
name is not a directory (`Fs.NameExists`) and cannot be created
(`Fs.MkdirNameStep` fails with ENOENT).

The model has these parts:

- The file system is a value `Fs.FsState`. It holds files (a map from path
  to content), directories (a set of paths) and a log of every mutating call
  attempted, in order.
- Each of node's file operations is a pure step function over that value:
  `MkdirStep`, `WriteStep`, `CopyStep`, `UnlinkStep` and `ArchiveStep`.
- A class `Fs.FileSystem` does the same steps in place. Each of its methods
  is proved equal to its step function.
- The three parts of the script are specification functions in `Package`:
  `CopyPhase`, `ZipPhase` and `Pipeline`. The methods `Package.Copy`,
  `Package.Zip` and `Package.Run` do them on a `FileSystem` and are proved
  against those functions.
- `Properties` proves what the pipeline guarantees:
  - the last copy to a destination wins;
  - the manifest that ends up in the output is the base one;
  - a failed copy leaves the transient file behind;
  - the phases run in order;
  - the zip name is rewritten as described.

Every call is logged with a rank: 0 mkdir, 1 write, 2 copy, 3 unlink,
4 archive. `Fs.Ordered(s, s', k)` says that the log only grew, that its new
entries never decrease in rank, and that none passes `k`. So "every mkdir
before every copy, every copy before the archive" is stated by the functions'
own contracts.

Two behaviours of the code that a reader might not expect are modelled as
written:

- The transient manifest is removed only after every copy has succeeded.
  There is no `finally`. A failed copy leaves it behind, and a failed
  `unlink` fails the phase.
- The Firefox variant writes its transformed manifest to
  `firefox-manifest.json`. Its resource mapping, however, reads
  `manifest.json` as the source. The file placed in the output is therefore
  the base manifest, as `Properties.OutputManifestIsBase` proves. The
  transformed file is written and removed without ever being copied.

## Model

| member | source | states |
|---|---|---|
| Paths.Split | scripts/package.ts:65 | Parsing a path string yields only non-empty segments without a separator |
| Paths.SplitRender | scripts/package.ts:84 | A path rendered with `/` parses back to the same segments |
| Paths.SplitJoin | scripts/package.ts:65 | Parsing two strings joined by `/` gives the segments of the first followed by those of the second, for any strings |
| Paths.JoinPath | scripts/package.ts:84 | `path.join(dir, dest)` of a directory string and a rendered relative path is the directory's segments followed by that path |
| Paths.Parent | scripts/package.ts:87 | dirname drops exactly the last segment and yields a prefix of the path |
| Strings.ReplaceFirstAt | scripts/package.ts:51 | `replace` with a string pattern rewrites only the first occurrence, leaving the text before and after it intact |
| Strings.ReplaceFirstAbsent | scripts/package.ts:51 | Without an occurrence of the pattern the string is returned unchanged |
| Strings.ReplaceFirstSpec | scripts/package.ts:51 | Both cases at once: a splice at the first index where the pattern occurs, or the string itself when it occurs nowhere |
| Manifest.ForFirefox | scripts/package.ts:96-110 | On an object it sets `background` and `browser_specific_settings` to the Firefox values and keeps every other key; on an array it yields the array unchanged; on a primitive or null it is a TypeError, as property assignment is in strict mode, which a TypeScript module build always uses |
| Manifest.ForFirefoxIdempotent | scripts/package.ts:99-110 | Applying the Firefox fields twice gives the same manifest as applying them once |
| Manifest.ForFirefoxFixpoint | scripts/package.ts:99-110 | An object is left unchanged exactly when it already has the Firefox fields |
| Fs.MkdirStep | scripts/package.ts:61 | `mkdir -p` succeeds exactly when no prefix of the path is a file; it then makes every prefix a directory, changes no file, and keeps the tree well formed |
| Fs.MkdirExisting | scripts/package.ts:60-62 | Making a directory that already exists succeeds and changes neither files nor directories |
| Fs.Read | scripts/package.ts:95 | readFile returns the content exactly when the path is a file, and fails with EISDIR on a directory |
| Fs.WriteStep | scripts/package.ts:114-117 | writeFile succeeds exactly when the parent directory exists and the path is not a directory, and then sets that one file |
| Fs.CopyStep | scripts/package.ts:123 | copyFile succeeds exactly when the source is a file, the destination's parent exists and the destination is not a directory, and then gives the destination the source's content; a directory as source fails after the destination was opened, which removes the destination; every other failure changes no file; no directory changes |
| Fs.UnlinkStep | scripts/package.ts:131 | unlink succeeds exactly when the path is a file and removes only that file |
| Fs.ArchiveStep | scripts/package.ts:140 | The archive is written to its path exactly when that path can be created as a file |
| Fs.MkdirNameStep | scripts/package.ts:61 | `mkdir -p` on a name as given: the empty name fails with ENOENT and changes no file or directory; any other name succeeds exactly when no prefix of its segments is a file, after which it exists; only directories on its way can be added |
| Fs.FileSystem.Exists | scripts/package.ts:60 | existsSync is true exactly for a file or a directory |
| Fs.FileSystem.ExistsSync | scripts/package.ts:137 | existsSync on a name as given is what `NameExists` specifies: false for the empty name, otherwise true exactly for a file or a directory there |
| Fs.FileSystem.ReadFile | scripts/package.ts:95 | Reading in place returns what `Read` specifies and changes nothing |
| Fs.FileSystem.Mkdir | scripts/package.ts:61 | The in-place mkdir leaves the state `MkdirStep` specifies |
| Fs.FileSystem.MkdirName | scripts/package.ts:61 | The in-place mkdir of a name as given leaves the state `MkdirNameStep` specifies |
| Fs.FileSystem.WriteFile | scripts/package.ts:114-117 | The in-place write leaves the state `WriteStep` specifies |
| Fs.FileSystem.CopyFile | scripts/package.ts:123 | The in-place copy leaves the state `CopyStep` specifies |
| Fs.FileSystem.Unlink | scripts/package.ts:131 | The in-place unlink leaves the state `UnlinkStep` specifies |
| Fs.FileSystem.WriteArchive | scripts/package.ts:140-150 | The in-place archive write leaves the state `ArchiveStep` specifies |
| Resolve.Bundles | scripts/package.ts:64-65 | Each of the three bundles is placed at the root under its own name and read from the JavaScript directory followed by that name |
| Resolve.BundleSources | scripts/package.ts:65 | Each bundle's source is `path.join(js_dir, name)` parsed: the segments of the JavaScript directory, then the name |
| Resolve.Resource | scripts/package.ts:71-75 | A resource is placed at one segment, its base name, never under the name `firefox-manifest.json` and never read from the transient file; any other name is read from where it is named, and a base name `firefox-manifest.json` becomes `manifest.json` |
| Resolve.Resources | scripts/package.ts:68-76 | Three resources, the first placed at `manifest.json` in both variants; none is read from the transient file and each is placed at one segment other than `firefox-manifest.json` |
| Resolve.Locales | scripts/package.ts:79-81 | Each locale file is read from, and placed at, the same relative path, keeping the tree structure |
| Resolve.UnderDist | scripts/package.ts:83-84 | Joining onto the output directory keeps every source and makes every destination the output directory followed by the old destination |
| Resolve.UnderDistJoins | scripts/package.ts:83-84 | Each joined destination is `path.join(dist_dir, dest)` parsed |
| Resolve.ResolveFiles | scripts/package.ts:64-84 | The file list has six fixed entries and one per locale file, every destination under the output directory |
| Resolve.ResolvedDestsJoin | scripts/package.ts:83-84 | Every resolved destination is a well-formed path equal to `path.join(dist_dir, dest)` of its relative destination |
| Resolve.ResourcesAre | scripts/package.ts:68-76 | In both variants the resources are manifest.json, src/options.html and docs/icon128.png, placed at manifest.json, options.html and icon128.png |
| Resolve.ResolvedLayout | scripts/package.ts:64-84 | The file list is the three bundles from the JavaScript directory, then manifest.json, options.html and icon128.png at the root of the output (the manifest read from manifest.json in both variants), then every locale file at its own relative path |
| Resolve.TransientNeverCopied | scripts/package.ts:68-76 | No mapping of the Firefox variant reads `firefox-manifest.json` |
| Resolve.ResolvedParts | scripts/package.ts:83-84 | The resolved list is the bundles, the resources and the locale files in that order, each joined onto the output directory |
| Resolve.RelativeDestNotTransient | scripts/package.ts:64-81 | With locale files below `_locales`, no relative destination is empty or the one-segment path `firefox-manifest.json` |
| Package.MkdirIfAbsent | scripts/package.ts:60-62 | An existing file or directory is left alone; otherwise the path is created, and on success it exists; only directories on the way to it can be added |
| Package.MkdirParents | scripts/package.ts:86-89 | On success the parent directory of every destination exists; no file changes, only mkdir calls are logged, and only directories on the way to some destination's parent are added |
| Package.Materialize | scripts/package.ts:60-89 | On success the output directory and every destination's parent exist, only mkdirs were logged, no file changed, and no directory off those paths was added; an empty output directory name fails at its mkdir with ENOENT |
| Package.MkdirParentsNoop | scripts/package.ts:86-89 | When every destination's parent already exists, the loop changes nothing and logs nothing |
| Package.MaterializeIdempotent | scripts/package.ts:60-89 | Creating the directories again on the state a successful pass left changes nothing |
| Package.MkdirParentsPasses | scripts/package.ts:86-89 | The parent-directory loop passes when no directory on the way to a destination's parent is a file |
| Package.MaterializePasses | scripts/package.ts:60-89 | Creating the directories passes when the output directory name is non-empty and nothing on the way to it or to a destination's parent is a file |
| Package.ParentInParentDirs | scripts/package.ts:86-89 | Every destination's parent is among the directories the loop may create |
| Package.Truthy | scripts/package.ts:43-48 | An option counts as given unless it is absent or the empty string, the only falsy values a string option can take |
| Package.StageManifest | scripts/package.ts:92-118 | On success manifest.json was a readable JSON document and the transient file now holds its Firefox form; on failure no file changed |
| Package.Prepare | scripts/package.ts:59-118 | Before the first copy, the output directory and all parents exist and no other directory was added; in the Chrome variant no file changed; in the Firefox variant only the transient file changed and holds the transformed manifest; on failure no file changed |
| Package.PreparePasses | scripts/package.ts:59-118 | Preparing passes when the directories can be created and, in the Firefox variant, manifest.json is a JSON object or array and the transient file's path holds no directory and is none the loop creates |
| Package.CopyCalls | scripts/package.ts:120-125 | One copy call per mapping, with that mapping's source and destination, in list order |
| Package.CopyAll | scripts/package.ts:120-125 | The copies create no directory; on success no file was removed and every destination is a file; the tree stays well formed |
| Package.DestsAt | scripts/package.ts:83-84 | A path is a destination of the list exactly when some mapping has it as its destination |
| Package.CopyAllFiles | scripts/package.ts:120-125 | The copies can add or remove only destinations; when every copy passes, the files are exactly those before plus every destination |
| Package.CopyAllLog | scripts/package.ts:120-125 | Every copy is attempted, a failing one cancelling none of the others: one copy call per mapping is logged, in list order |
| Package.Cleanup | scripts/package.ts:127-133 | The transient file is gone afterwards; the step fails only when that path is a directory |
| Package.CopyAndClean | scripts/package.ts:120-133 | After preparation: the copies and the clean-up create no directory, create no file other than a destination, and log only copies then the unlink; on success every destination other than the transient file is a file, and in the Firefox variant the transient file is gone |
| Package.CopyMappings | scripts/package.ts:59-134 | For any file list starting in the output directory: on success the output directory exists and every destination other than the transient file holds a file (all of them in the Chrome variant); in the Firefox variant the transient file is gone; only directories on the way to the output directory or a destination's parent are added; only a destination or the transient file can be a new file; the log is mkdirs, then the write, then copies, then the unlink |
| Package.CopyPhase | scripts/package.ts:59-134 | On success the output directory exists and every destination other than the transient file holds a file (all of them in the Chrome variant); in the Firefox variant the transient file is gone; only directories on the way to the output directory or a destination's parent are added; only a destination or the transient file can be a new file; the log is mkdirs, then the write, then copies, then the unlink |
| Package.ZipPhase | scripts/package.ts:136-151 | A missing source directory, the empty name included, fails with DirectoryNotFound and changes nothing; otherwise exactly one archive write to the zip path is logged and, on success, the archive is at that path; on failure no file changed |
| Package.ZipName | scripts/package.ts:49-54 | The Chrome name is kept; the Firefox name has its first `.zip` spliced out for `-firefox.zip`; a name without `.zip` is kept in both variants |
| Package.Pipeline | scripts/package.ts:26-57 | A missing output directory fails with MissingArg and changes nothing; with no JavaScript directory and no zip name a run does nothing; every call a run logs is ordered mkdir, write, copy, unlink, archive; the tree stays well formed |
| Package.MakeDirectories | scripts/package.ts:60-89 | The in-place directory creation leaves the state and outcome `Materialize` specifies |
| Package.EnsureDirectory | scripts/package.ts:88 | The in-place existence test and mkdir of one parent leave the state and outcome `MkdirIfAbsent` specifies |
| Package.WriteFirefoxManifest | scripts/package.ts:92-118 | The in-place manifest staging leaves the state and outcome `StageManifest` specifies |
| Package.CopyEach | scripts/package.ts:120-125 | The in-place copies leave the state and outcome `CopyAll` specifies |
| Package.RemoveTransient | scripts/package.ts:127-133 | The in-place clean-up leaves the state and outcome `Cleanup` specifies |
| Package.Copy | scripts/package.ts:59-134 | The in-place copy phase leaves the state and outcome `CopyPhase` specifies |
| Package.Zip | scripts/package.ts:136-151 | The in-place zip phase leaves the state and outcome `ZipPhase` specifies |
| Package.Run | scripts/package.ts:31-57 | The in-place run leaves the state and outcome `Pipeline` specifies |
| Properties.LastSourceAt | scripts/package.ts:120-125 | A mapping no later mapping overwrites is the one whose source a destination ends up with |
| Properties.CopyAllSucceeds | scripts/package.ts:120-125 | Every copy succeeds when every source is a file and every destination's parent exists and the destination is not a directory |
| Properties.CopyAllContents | scripts/package.ts:120-125 | After successful copies that overwrite no source, each destination holds the content of the last mapping to it, and every other file is unchanged |
| Properties.LaterDestsDiffer | scripts/package.ts:68-84 | No mapping after the manifest one targets the output manifest |
| Properties.ManifestMappingIsLast | scripts/package.ts:68-84 | The output manifest's last mapping reads manifest.json |
| Properties.Untargeted | scripts/package.ts:120-125 | A file no copy writes keeps its content, whether the copies pass or fail |
| Properties.CopiedOnce | scripts/package.ts:120-125 | After successful copies, a destination holds its source's original content when no earlier copy writes that source and no later copy writes that destination |
| Properties.CopyPhaseFrame | scripts/package.ts:59-134 | A file that no mapping copies onto and that is not the transient file keeps its content through the copy phase, whatever its outcome |
| Properties.CopyPhaseOutputFiles | scripts/package.ts:59-134 | After a successful copy phase, the files are exactly those before plus every destination, less the transient file in the Firefox variant |
| Properties.CopyMappingsPasses | scripts/package.ts:59-134 | For any file list starting in the output directory, the phase passes when the output directory name is non-empty, no directory to create is a file, every source is a file, no destination is a directory or is to be made one, and in the Firefox variant manifest.json takes the Firefox fields and the transient path is free |
| Properties.CopyPhasePasses | scripts/package.ts:59-134 | The copy phase passes under the same conditions on the resolved file list |
| Properties.FirefoxCopiesPassPhasePasses | scripts/package.ts:120-133 | In the Firefox variant, once preparing and every copy have passed, the clean-up passes and the transient file is gone |
| Properties.CopyPhaseCopiedOnce | scripts/package.ts:59-134 | After a successful copy phase, a destination holds what its source held before the phase, when the source is not the transient file, no earlier copy writes that source and no later copy or the clean-up touches that destination |
| Properties.ManifestCopiedOnce | scripts/package.ts:64-125 | With only the bundles before it and no later copy to its destination, the manifest mapping leaves the original manifest.json in the output |
| Properties.OutputManifestIsBase | scripts/package.ts:68-76 | After a successful copy phase in either variant, for any output and JavaScript directory, the output manifest is the base manifest.json, not the transformed one |
| Properties.FailedPreparationCopiesNothing | scripts/package.ts:59-125 | When creating directories or staging the manifest fails, the copy phase ends with that failure and attempts no copy and no unlink |
| Properties.CopiesLogNoUnlink | scripts/package.ts:120-125 | After a preparation that logged only mkdirs and writes, the copy step adds no unlink to the log |
| Properties.FailedCopySkipsCleanup | scripts/package.ts:79-133 | With locale files below `_locales`, when a Firefox copy fails, the phase fails, the transient file stays behind and no unlink is attempted |
| Properties.TransientNeverWritten | scripts/package.ts:64-84 | With locale files below `_locales`, no mapping of either variant writes `firefox-manifest.json` |
| Properties.MissingDirMessage | scripts/package.ts:26-39 | A run without an output directory fails with the text `Missing extension directory` |
| Properties.DirectoryNotFoundMessage | scripts/package.ts:137-139 | A zip phase on a missing directory fails with the text `Directory not found: ` followed by that directory |
| Properties.EmptyOutputDirFails | scripts/package.ts:39-61 | An empty output directory name passes the option check, but a copy phase then fails at its mkdir with ENOENT and a zip phase with DirectoryNotFound, and no file changes |
| Properties.EmptyOptionsDoNothing | scripts/package.ts:39-48 | An empty output directory name is accepted, since `??` rejects only a missing value, while an empty JavaScript directory or zip name counts as not given |
| Properties.PipelineStages | scripts/package.ts:43-56 | A run is its copy stage followed, when that passed and a zip name is given, by the zip phase; the copy stage logs no archive |
| Properties.PipelineWithoutJs | scripts/package.ts:43-45 | With no JavaScript directory a run logs nothing but the archive |
| Properties.PipelineWithoutZip | scripts/package.ts:47-48 | With no zip name a run logs no archive |
| Properties.PipelineArchiveName | scripts/package.ts:48-55 | Every archive a run writes goes to the variant's zip name |
| Properties.PipelineStopsAfterFailedCopy | scripts/package.ts:43-45 | A failed copy phase is the run's result: nothing runs after it |
| Properties.ZipNamePkg | scripts/package.ts:50-54 | The Firefox zip name of `pkg.zip` is `pkg-firefox.zip`; the Chrome zip name is `pkg.zip` |
| Properties.ZipNameFirstExtension | scripts/package.ts:50-52 | The first `.zip` of a Firefox zip name becomes `-firefox.zip`, with the text before and after it kept |
| Properties.ZipNameFirefox | scripts/package.ts:50-52 | A name whose only `.zip` is its extension gets `-firefox` inserted before it |
| Properties.ZipNameReplacesFirstOnly | scripts/package.ts:51 | Only the first `.zip` is rewritten: `a.zip.zip` becomes `a-firefox.zip.zip` |

## Left out

- The command-line parser (scripts/package.ts:32-38) is not modelled. Its result is the `Package.Options` value.
- The glob `_locales/**/*.json` (scripts/package.ts:79) is a parameter, the list of paths it returns. Properties that depend on its shape require every path to lie below `_locales`.
- The archiver library (scripts/package.ts:140-150) is opaque: compression, streaming, and the `close`/`end` events. The archive's content is a parameter. Writing it is one `ArchiveStep` that creates or replaces the file at the zip path. What the archiver does when the source is a file rather than a directory is not modelled.
- `console.log` (scripts/package.ts:122, 151) is output only and is left out.
- JSON text is modelled as a parsed document. Serialisation with two-space indentation, key order and non-integer numbers are not modelled. Content that is not JSON fails to parse with SyntaxError.
- Path strings are split on `/` into non-empty segments. `.`, `..`, absolute paths and backslashes are not normalised as node's `path` module does. An empty string is the current directory for every path the script builds with `path.join` or `path.dirname`; only the output directory's name reaches `existsSync` and `mkdir` as given, and there the empty name is modelled as node treats it.
- Concurrency: `Promise.all` starts every copy at once. The model runs them in list order. Every copy is attempted and the phase fails with the first failure in list order; `Promise.all` rejects with whichever fails first in time. When two copies write the same destination, the later one in the list wins. Interleavings in which one copy reads a file another copy is writing at the same moment are not modelled.
- The replacement text of `String.prototype.replace` is inserted literally; the `$&`, `$$`, `` $` `` and `$'` patterns are not expanded. This is exact for `-firefox.zip`, the only replacement the script uses.
- Package.CopyPhase: its success clause says that every destination other than `firefox-manifest.json` holds a file. This is weaker than "every destination" because a locale path given as that name would be removed by the cleanup. The Chrome variant's clause covers every destination.
- The file system is idealised. There are no permission errors (EACCES, EPERM), no full disk (ENOSPC), no descriptor exhaustion (EMFILE), no symbolic links and no other I/O errors. The "succeeds exactly when" statements of Fs.MkdirStep, Fs.MkdirNameStep, Fs.WriteStep, Fs.CopyStep, Fs.UnlinkStep, Fs.ArchiveStep and Properties.CopyAllSucceeds hold for this file system only.
- Fs.CopyStep: follows libuv's `uv_fs_copyfile` on Linux, which opens the destination before it finds that a directory source cannot be read, and then removes the destination. A platform that tests the source first would leave the destination unchanged. Package.CopyAll therefore promises no file is removed only when every copy passes.
- src/background.ts, the extension's runtime code, is not part of this model.
