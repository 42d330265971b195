# compy core in Dafny

compy is a C/C++ playground that runs in the browser. A worker holds a WebAssembly build of
clang and wasm-ld, an in-memory file system and a cppcheck build. The user's project lives
in an IndexedDB table of file records, and a terminal component collects keyboard input for
the running program.

This project models the deterministic part of that system and proves properties about it:

- **`Api`** (`api.dfy`) is the worker's build pipeline. It covers the module cache, the
  readiness gate, sysroot untarring, and the compiler and linker argument vectors. It also
  covers `compileLinkRun`: which files it writes, what it compiles and links, and in which
  order. Each run is recorded as an effect trace.
- **`ClangParser`** (`clangparser.dfy`) models the one-regex diagnostic parser. It is
  proved sound and complete against a declarative reading of the pattern, covering
  leftmost start, greedy extension and `matchAll` order. It also has a render/parse round
  trip.
- **`CppCheck`** (`cppcheck.dfy`) models the analyzer run: file writes, include
  directories, the argument template and the failure policy. It includes `parseResult` and
  a print/parse round trip for the output template.
- **`FileHelpers`** (`filehelpers.dfy`) sorts files into sources, headers, libraries and
  the rest.
- **`FileService`** (`fileservice.dfy`) models the file table. It covers lookups, updates,
  deletes and moves, creation, import routing and zip-name filtering and stripping.
- **`FileTree`** (`filetree.dfy`) models the explorer tree that `getFileSystemAsTree`
  builds.
- **`Terminal`** (`terminal.dfy`) models the key handler's line buffer.
- Shared helpers:
  - `Strings`: JavaScript `split`, `join`, `trim`, `replace`, `parseInt` and character
    classes.
  - `Paths`: parent directory and basename.
  - `Writes`: ordered writes into a keyed store.
  - `Common`: `Option`, `Result` and bytes.

The following are parameters of the model:
- **Toolchain programs, module compilation and the analyzer.** These are functions passed
  in: `Api.Host` and the `analyzer` argument of `CppCheck.Run`. Each `Host` call may
  reject (`None`). A rejected fetch, module compilation or program run ends the operation
  with an `Api.Error` that names it. `Api.Reliable` names a host that never rejects.
- **`Date.now()` ids.** These are arguments.
- **The current project.** This is a field of `FileService.Store`.

The table is a sequence of records. Dexie lists it by primary key, so the lemmas that need
it assume the table is ordered by id (`FileService.IdOrdered`).

## Model

| member | source | states |
|---|---|---|
| Api.AddFile | src/lib/worker/lib/api.ts:312-314 | `addFile` stores the contents at the name, records the write and keeps the cache, configuration and readiness |
| Api.AddFiles | src/lib/worker/lib/api.ts:313-331 | adding files in order leaves the last write of each name in the file system and records one event per file |
| Api.EntryWrites | src/lib/worker/lib/api.ts:139-147 | the archive's writes leave, at each path, what its last file or directory entry gives; other entry types write nothing |
| Api.Untar | src/lib/worker/lib/api.ts:134-154 | after untarring, a path named by file or directory entries holds what the last of them gives (a file with its contents, or a directory); other entry types are ignored, and any other path keeps its old node or stays absent |
| Api.New | src/lib/worker/lib/api.ts:59-98 | a new API has an empty cache; it is ready exactly when the sysroot archive could be read, and then its file system is the untarred archive |
| Api.GetModule | src/lib/worker/lib/api.ts:124-132 | a cached URL returns the cached module with no other effect. An uncached one is fetched and compiled once, remembered under its URL and recorded as one fetch. A rejected fetch fails with `FetchRejected` and stores nothing |
| Api.GetModuleMemoises | src/lib/worker/lib/api.ts:124-132 | asking twice for the same URL returns the same module, and the second request changes nothing |
| Api.Run | src/lib/worker/lib/api.ts:282-300 | `run` rejects, naming its argv, exactly when the program throws. Otherwise the program's file system is kept, one run is recorded, and the App (module and argv) is returned exactly when the program reports that it is still running |
| Api.ObjectName | src/lib/worker/lib/api.ts:159 | the object name is the source name followed by `.o` |
| Api.CompileArgv | src/lib/worker/lib/api.ts:163-178 | clang's argv is `clang -cc1 -Wall -emit-obj`, the fourteen shared arguments, then `-O2 -o <obj> -x c++ <source>` |
| Api.LinkArgvLayout | src/lib/worker/lib/api.ts:252-279 | wasm-ld's argv is `wasm-ld --no-threads --export-dynamic -z stack-size=1048576 -Llib/wasm32-wasi lib/wasm32-wasi/crt1.o`, the joined `-L` argument twice, the objects, then `-o <wasm> -lc -lc++ -lc++abi` |
| Api.LibFlags | src/lib/worker/lib/api.ts:260 | one `-L<dir>` per library directory, in order |
| Api.Compile | src/lib/worker/lib/api.ts:156-207 | compiling fails when readiness failed, when the compiler cannot be fetched, or exactly when the compiler run throws (naming `CompileArgv`). With a host that never rejects it succeeds exactly when ready. On success the compiler is cached, runs once with `CompileArgv` on the current file system, and the object name is returned |
| Api.Link | src/lib/worker/lib/api.ts:252-280 | linking fails when readiness failed, when the linker cannot be fetched, or exactly when the linker run throws (naming `LinkArgv`). With a host that never rejects it succeeds exactly when ready. On success the linker is cached and runs once with `LinkArgv` |
| Api.LibraryDirs | src/lib/worker/lib/api.ts:308-311 | the library directories are non-empty and at most one per source |
| Api.LibraryDirsConcat | src/lib/worker/lib/api.ts:308-311 | the derivation maps the sources one by one, in order, so duplicates are kept |
| Api.LibraryDirsSingle | src/lib/worker/lib/api.ts:310-311 | a top-level source contributes nothing, and a source `dir/base` contributes `dir` |
| Api.ObjectNames | src/lib/worker/lib/api.ts:317-322 | one object name per source, in source order |
| Api.CompileAll | src/lib/worker/lib/api.ts:317-322 | the source loop fails on readiness, on the compiler fetch, or with the argv of one of the sources' compilations. With a host that never rejects it succeeds exactly when ready, returning the object names in source order after one write and one compile per source |
| Api.LinkObjects | src/lib/worker/lib/api.ts:317-327 | the linker gets the compiled objects in source order, then the prebuilt objects' names in order |
| Api.CompileLinkRun | src/lib/worker/lib/api.ts:302-342 | every failure is readiness, a missing `program.wasm`, a toolchain fetch, the image compilation, or a run of one of the pipeline's argvs. With a host that never rejects, a ready run fails only when the linker leaves no image. On success the steps are the header writes, a write and compile per source, the prebuilt and other writes, one link, then loading and running the image, and an App runs `program.wasm`. A success is `AddAndCompile` followed by `LinkAndRun`, so the result is the `program.wasm` run's: an App exactly when that program reports still running |
| Api.AddAndCompile | src/lib/worker/lib/api.ts:313-331 | the stages before the link fail only on readiness, the compiler fetch or one source's compilation, and never with a host that does not reject when ready. On success the objects handed on are `LinkObjects` and the steps are the header writes, a write and compile per source, then the prebuilt and other writes |
| Api.LinkAndRun | src/lib/worker/lib/api.ts:333-341 | the stages from the link on fail only on readiness, the linker fetch, a missing image, the image compilation or a run of the linker or the image. On success the steps are one link with `LinkArgv(LinkObjects, program.wasm, LibraryDirs)`, loading the image and running it. A success is the link followed by `RunImage` on the linked state, so the App is the image run's |
| Api.RunImage | src/lib/worker/lib/api.ts:335-341 | a missing `program.wasm` fails with `NoSuchFile`, a rejected compilation with `ImageRejected`, and otherwise the image runs once with argv `["program.wasm"]`, failing exactly when it throws. On success the file system is the one the run left, and an App is returned exactly when the program reports that it is still running |
| Api.StepsConcat | src/lib/worker/lib/api.ts:313-341 | the visible steps of two consecutive traces are the steps of each, concatenated |
| Api.GrowsTrans | src/lib/worker/lib/api.ts:124-132 | keeping the configuration, readiness and cached modules is transitive across stages |
| Writes.Apply | src/lib/worker/lib/api.ts:313-331 | after ordered writes, each written name holds its last write, the other names keep their values, and the names are the old ones plus the written ones |
| Writes.LastWriteAt | src/lib/worker/lib/cppcheck.ts:88-100 | a write that no later write to the same name follows is the one that survives |
| ClangParser.RunEnd | src/lib/worker/lib/clangparser.ts:12 | the greedy end of a `\w+`, `\d+` or `.+` run: all characters passed over are in the class, the next one is not, and no run from the same start goes further |
| ClangParser.TailAt | src/lib/worker/lib/clangparser.ts:12 | reads `:(\d+):(\d+):\s(\w+):\s(.+)` from a position, with the message running to the end of the line |
| ClangParser.TailAtComplete | src/lib/worker/lib/clangparser.ts:12 | every reading of that tail is the one found, with a message at least as long |
| ClangParser.ExtSearch | src/lib/worker/lib/clangparser.ts:12 | the greedy `(.+)` extension is the longest one after which the tail can be read |
| ClangParser.ExtSearchFirst | src/lib/worker/lib/clangparser.ts:12 | no longer extension admits the tail, and none does when the search fails |
| ClangParser.MatchAt | src/lib/worker/lib/clangparser.ts:12 | the backtracking match at a start position is a reading of the whole pattern that ends at a line end |
| ClangParser.MatchAtGreedy | src/lib/worker/lib/clangparser.ts:12 | every reading at a position has the found name, an extension no longer than the found one and the same groups when equally long; no reading exists when none is found |
| ClangParser.NoNameNoMatch | src/lib/worker/lib/clangparser.ts:12 | without a word run closed by `.` at a position, nothing matches there |
| ClangParser.ScanFrom | src/lib/worker/lib/clangparser.ts:12-16 | `matchAll` from an index: the first match is the leftmost at or after it, and each next one is the leftmost at or after the previous match's end |
| ClangParser.ScanOrdered | src/lib/worker/lib/clangparser.ts:12-16 | each scanned match is the matcher's result at its start, and consecutive matches are separated by a line terminator |
| ClangParser.ScanLeftmost | src/lib/worker/lib/clangparser.ts:12-16 | nothing matches between the end of one scanned match and the start of the next, nor after the last |
| ClangParser.ToDiagnosticWellFormed | src/lib/worker/lib/clangparser.ts:17-24 | every diagnostic's file is a word run, `.` and a non-empty extension; severity is a word run; message is non-empty without line terminators; line and column are decimal values of digit runs |
| ClangParser.Parse | src/lib/worker/lib/clangparser.ts:10-27 | one well-formed diagnostic per match, in match order; none exactly when the pattern matches nowhere |
| ClangParser.ParseOf | src/lib/worker/lib/clangparser.ts:16-25 | the k-th diagnostic is built from the k-th match |
| ClangParser.ParseEmpty | src/lib/worker/lib/clangparser.ts:12-26 | the result is empty exactly when no reading of the pattern exists anywhere in the text |
| ClangParser.ParseRender | src/lib/worker/lib/clangparser.ts:10-27 | a printed `name.ext:line:column: severity: message` line with word name and severity and colon-free extension and message parses back to exactly that diagnostic |
| ClangParser.ParseExample | src/lib/worker/lib/clangparser.ts:12-24 | `main.cpp:4:10: error: expected ';'` parses to file `main.cpp`, line 4, column 10, severity `error`, message `expected ';'` |
| CppCheck.LastSlash | src/lib/worker/lib/cppcheck.ts:102 | the position of the last `/`, or none |
| CppCheck.IncludeDir | src/lib/worker/lib/cppcheck.ts:102 | a name without `/` gives `.`, a name ending in `/` is unchanged, and otherwise the final `/segment` is removed |
| CppCheck.IncludeDirOfChild | src/lib/worker/lib/cppcheck.ts:102 | a header `dir/base` has include directory `dir` |
| CppCheck.IncludeDirParent | src/lib/worker/lib/cppcheck.ts:102 | for a header in a directory, the include directory is its parent path, and adding `/` and the basename gives the name back |
| CppCheck.IncludeDirs | src/lib/worker/lib/cppcheck.ts:102 | one include directory per header, in header order |
| CppCheck.IncludeFlagsShape | src/lib/worker/lib/cppcheck.ts:103 | no headers give the empty argument, one gives `-I="dir"`, and each further header appends a space and its flag |
| CppCheck.Args | src/lib/worker/lib/cppcheck.ts:105-116 | ten arguments: `--enable=all`, `--std=c++17`, the template, `--inline-suppr`, `--quiet`, `--library=std.cfg`, `--suppress=missingIncludeSystem`, `--output-file=cppcheck-result.txt`, the include flags, then the source name |
| CppCheck.TemplateOrder | src/lib/worker/lib/cppcheck.ts:108 | the template prints file, line, column, severity, id and message, in that order, separated by `$%*` |
| CppCheck.RunWritesKeys | src/lib/worker/lib/cppcheck.ts:88-100 | after the writes the store holds the old names plus the source, headers and result file, and the result file is empty |
| CppCheck.RunWritesHeader | src/lib/worker/lib/cppcheck.ts:92-96 | a header that no later header shares a name with holds its contents |
| CppCheck.RunWritesSource | src/lib/worker/lib/cppcheck.ts:88-96 | when no header shares the source's name and the source is not named `cppcheck-result.txt`, the source keeps its contents. When a header does share the name, `RunWritesHeader` gives the last such header's contents |
| CppCheck.RunWritesOthers | src/lib/worker/lib/cppcheck.ts:88-100 | files not written by the run keep their contents |
| CppCheck.NonBlank | src/lib/worker/lib/cppcheck.ts:139-142 | the kept lines are trimmed and non-empty |
| CppCheck.NonBlankMembers | src/lib/worker/lib/cppcheck.ts:139-142 | a string is kept exactly when it is the trim of a line that is not all white space |
| CppCheck.NonBlankOfBlank | src/lib/worker/lib/cppcheck.ts:139-142 | only blank lines leave nothing |
| CppCheck.NonBlankSingle | src/lib/worker/lib/cppcheck.ts:139-142 | one line is kept, trimmed, exactly when it is not all white space |
| CppCheck.NonBlankAppend | src/lib/worker/lib/cppcheck.ts:139-142 | the filter works line by line: filtering two runs of lines is filtering each, concatenated, so order and repetitions are kept |
| CppCheck.FieldAt | src/lib/worker/lib/cppcheck.ts:145-146 | a field past the last one is undefined |
| CppCheck.ParseLine | src/lib/worker/lib/cppcheck.ts:145-154 | a line in which the separator `$%*` does not occur becomes a report with the whole line as file, NaN line and column, and undefined severity, id and message |
| CppCheck.ParseLineFields | src/lib/worker/lib/cppcheck.ts:145-154 | for fields in which `$%*` does not occur (each may hold `$`, `%` or `*`), fields 1, 4, 5 and 6 go to file, severity, id and message, fields 2 and 3 through `parseInt`, and later fields are dropped |
| CppCheck.SepBorderless | src/lib/worker/lib/cppcheck.ts:145-146 | no proper suffix of `$%*` is a prefix of it, so an occurrence of the separator in a joined line lies exactly between two fields |
| CppCheck.ParseResult | src/lib/worker/lib/cppcheck.ts:137-158 | one report per non-blank line, read from the trimmed line, in line order; a blank text gives none |
| CppCheck.ParseResultOneLine | src/lib/worker/lib/cppcheck.ts:137-158 | a text without a newline gives no report when blank, otherwise the report of the trimmed line |
| CppCheck.ParseResultConcat | src/lib/worker/lib/cppcheck.ts:137-158 | the reports of two texts joined by a newline are the reports of the first followed by those of the second |
| CppCheck.Run | src/lib/worker/lib/cppcheck.ts:118-135 | inside the `try`: a throw of `callMain`, a nonzero exit code or an unreadable result file gives `[]`; exit code 0 gives `parseResult` of the result file the analyzer left |
| CppCheck.ParseLineRoundTrip | src/lib/worker/lib/cppcheck.ts:145-154 | a line printed by the template, with no field containing `$%*` or a newline, is read back as the finding it was printed from |
| CppCheck.ParseResultRoundTrip | src/lib/worker/lib/cppcheck.ts:137-158 | the result file of a list of findings parses to exactly those findings, in order |
| CppCheck.RunReportsFindings | src/lib/worker/lib/cppcheck.ts:81-135 | an analyzer that exits with 0 after printing findings makes `run` return exactly those findings |
| Strings.Split | src/lib/worker/lib/cppcheck.ts:139-146 | `split` always yields at least one piece, and no piece contains a one-character separator |
| Strings.JoinSplit | src/service/fileService.ts:177-179 | joining the pieces of a split with the same separator restores the string |
| Strings.SplitJoin | src/lib/worker/lib/cppcheck.ts:145-146 | splitting a join restores the parts when the separator occurs in no part and no proper suffix of it is a prefix of it (true of `$%*`, `\n` and `/`) |
| Strings.SplitWithoutSeparator | src/lib/worker/lib/cppcheck.ts:145-146 | a string in which the separator does not occur splits into itself alone |
| Strings.SplitConcat | src/lib/worker/lib/cppcheck.ts:139 | splitting two texts joined by a one-character separator gives the pieces of the first followed by those of the second |
| Strings.Trim | src/lib/worker/lib/cppcheck.ts:141 | `trim` removes exactly the white space at both ends and is empty exactly for all-white-space text |
| Strings.ReplaceFirst | src/service/fileService.ts:91 | a string pattern replaces only its first occurrence, and nothing when it does not occur |
| Strings.ParseIntField | src/lib/worker/lib/cppcheck.ts:149-150 | `parseInt` of a missing field is NaN |
| Strings.ParseIntNumeral | src/lib/worker/lib/cppcheck.ts:149-150 | `parseInt` reads a decimal numeral back as its value |
| Strings.DecimalRoundTrip | src/lib/worker/lib/clangparser.ts:20-21 | the numeric value of a natural number's decimal numeral is the number |
| Paths.ParentBasename | src/service/fileService.ts:176-180 | a path with `/` is its parent, `/` and its last segment; a path without `/` has the empty parent |
| Paths.ParentOfChild | src/lib/worker/lib/api.ts:310 | a `/`-free name under a directory has that directory as its parent and itself as its basename |
| FileHelpers.WithEach | src/lib/fileHelpers.ts:9-11 | the concatenated lists hold exactly the current-project records ending with one of the extensions |
| FileHelpers.WithEachOnce | src/lib/fileHelpers.ts:7-37 | in an id-ordered table, each current-project record ending with one of the distinct extensions is in the concatenated list exactly once, and no other record is in it |
| FileHelpers.WithEachOrder | src/lib/fileHelpers.ts:7-37 | the concatenated list is grouped by extension in the listed order: `.c` records, then `.cc`, then `.cpp` (likewise for headers and libraries) |
| FileHelpers.WithEachWithin | src/lib/fileHelpers.ts:7-37 | within one extension the concatenated list keeps table order, so the list is sorted by extension position, then by id |
| FileHelpers.AsInputs | src/lib/fileHelpers.ts:12-17 | each record maps to `{name: path, contents: content}`, in order |
| FileHelpers.AllExtShape | src/lib/fileHelpers.ts:3-5 | the eight extensions are distinct, and each is a dot followed by dot-free text |
| FileHelpers.OneExtension | src/lib/fileHelpers.ts:3-5 | a path ends with at most one such extension |
| FileHelpers.AtMostOneList | src/lib/fileHelpers.ts:3-44 | no path ends with extensions of two lists, and ending with one of the eight is ending with one of the three lists |
| FileHelpers.FourGroups | src/lib/fileHelpers.ts:7-52 | a record is among the sources, headers, libraries or others exactly when it is in the current project and its extension group is that one, so each current-project file falls in exactly one group |
| FileHelpers.GetSourceFiles | src/lib/fileHelpers.ts:7-18 | one `{name, contents}` per source record; every name has a source extension, and every current-project source file is among them |
| FileHelpers.GetHeaderFiles | src/lib/fileHelpers.ts:20-31 | one `{name, contents}` per header record; every name has a header extension, and every current-project header is among them |
| FileHelpers.GetLibFiles | src/lib/fileHelpers.ts:33-37 | the records themselves; each is a current-project `.a` or `.so` file, and every such file is among them |
| FileHelpers.GetOtherFiles | src/lib/fileHelpers.ts:39-52 | one `{name, contents}` per current-project file with none of the eight extensions, and every such file is among them |
| FileService.Filter | src/service/fileService.ts:304-307 | the filter keeps exactly the elements satisfying the predicate |
| FileService.FilterIdOrdered | src/service/fileService.ts:303-320 | the filter keeps table order: what it keeps of an id-ordered table is id-ordered |
| FileService.FilterPartition | src/service/fileService.ts:303-320 | filtering by a predicate and by its negation splits a sequence into two parts whose multisets add up to it |
| FileService.CurrentFiles | src/service/fileService.ts:304-306 | exactly the records of the current project |
| FileService.FilterCount | src/service/fileService.ts:303-320 | a filter keeps each element as often as the sequence holds it when the predicate holds, and drops it otherwise |
| FileService.IdOrderedOnce | src/service/fileService.ts:303-307 | an id-ordered table holds each of its records once |
| FileService.GetFilesWith | src/service/fileService.ts:303-308 | `getFilesWith` returns exactly the current-project records whose path ends with the extension |
| FileService.GetFilesWithOrdered | src/service/fileService.ts:303-308 | `getFilesWith` lists its records in table order |
| FileService.GetFilesWithout | src/service/fileService.ts:310-320 | `getFilesWithout` returns exactly the current-project records whose path ends with none of the extensions, for one extension or a list |
| FileService.GetFilesWithoutOrdered | src/service/fileService.ts:310-320 | `getFilesWithout` lists its records in table order |
| FileService.WithWithoutPartition | src/service/fileService.ts:303-320 | for one extension, `getFilesWith` and `getFilesWithout` partition the current project: each record is in exactly one of them, once |
| FileService.FindPath | src/service/fileService.ts:187-189 | the first current-project record at a path, or none exactly when there is none |
| FileService.GetFile | src/service/fileService.ts:182-196 | `getFile` finds a current-project record at the path, and fails exactly when none exists |
| FileService.GetFileById | src/service/fileService.ts:198-209 | `getFileById` finds the record with the id in any project, and fails exactly when none exists |
| FileService.GetParentDirectory | src/service/fileService.ts:176-180 | without `/` the parent is empty; otherwise the parent, `/` and the last segment make up the path |
| FileService.ParentDirectoryExamples | src/service/fileService.ts:176-180 | `a/b/c.c` gives `a/b` and `main.c` gives `""` |
| FileService.UpdateFile | src/service/fileService.ts:211-221 | `updateFile` succeeds exactly when `getFile` finds the path; on failure the table is unchanged |
| FileService.UpdateFileById | src/service/fileService.ts:223-232 | `updateFileById` succeeds exactly when the id exists; on failure the table is unchanged |
| FileService.DeleteFile | src/service/fileService.ts:234-241 | `deleteFile` succeeds exactly when `getFile` finds the path; on failure the table is unchanged |
| FileService.DeleteFileById | src/service/fileService.ts:243-250 | `deleteFileById` succeeds exactly when the id exists; on failure the table is unchanged |
| FileService.MoveFileById | src/service/fileService.ts:252-260 | `moveFileById` succeeds exactly when the id exists; on failure the table is unchanged |
| FileService.ByIdChangesOnly | src/service/fileService.ts:223-260 | a successful update by id changes only that record's contents, and a move only its path; every other record stays in place |
| FileService.DeleteByIdRemovesOne | src/service/fileService.ts:243-250 | a successful delete by id removes exactly the record with that id and keeps all others in order |
| FileService.ByPathChangesOnly | src/service/fileService.ts:211-241 | a successful update by path changes only the found record's contents, and a delete by path removes exactly that record |
| FileService.UpdateFileThenGet | src/service/fileService.ts:211-221 | after an update, reading the path gives the found record with the new contents |
| FileService.MoveThenGetById | src/service/fileService.ts:252-260 | after a move, reading the id gives the record at its new path with the same contents |
| FileService.Insert | src/service/fileService.ts:155-167 | adding a record keeps the table in id order and adds exactly that record |
| FileService.CreateFile | src/service/fileService.ts:159-169 | creating with an id already in use fails; otherwise exactly the new current-project record is added |
| FileService.CreateThenGet | src/service/fileService.ts:159-169 | a created record is found by its id, and by its path when no earlier record had that path |
| FileService.ImportRoute | src/service/fileService.ts:100-111 | a selection is routed to the archive import exactly when it is one file whose name ends in `.zip`. Otherwise the k-th target is the k-th file's contents at its name, under `path` when that is non-empty |
| FileService.ImportLandsInFolder | src/service/fileService.ts:111 | a plain file imported under a path has that path as its parent directory and its own name as its basename |
| FileService.CreateAll | src/service/fileService.ts:105-139 | importing file by file keeps the table id-ordered and the project unchanged, and without a failure adds one record per target |
| FileService.FirstClash | src/service/fileService.ts:105-139 | a reported position lies within the import, and its id is already in use or repeats an earlier id of the import |
| FileService.FirstClashFirst | src/service/fileService.ts:105-139 | no position before the reported one clashes, and nothing is reported exactly when no id of the import clashes |
| FileService.CreateAllStops | src/service/fileService.ts:105-139 | the import stops at the first clashing id and reports it, leaving the old records plus one record per target before it; without a clash every target becomes a record |
| FileService.ZipEntries | src/service/fileService.ts:79-82 | the imported entries are exactly those not under a top-level `__MACOSX` folder and not ending in `/` |
| FileService.StripBaseAsWritten | src/service/fileService.ts:84-97 | as written: an empty list fails; otherwise there is one name per entry |
| FileService.StripBaseAsWrittenCutsOtherFolder | src/service/fileService.ts:85-92 | as written, `["a/m", "ab/a/n"]` becomes `["m", "ab/n"]`, cutting into a folder that is not the base |
| FileService.StripBase | src/service/fileService.ts:84-97 | corrected: an empty list fails; otherwise there is one name per entry |
| FileService.StripBaseRoundTrip | src/service/fileService.ts:84-97 | corrected: when all names lie in the base folder, putting `base/` back in front restores each name; otherwise no name changes |
| FileService.StripBaseAsWrittenAgrees | src/service/fileService.ts:84-97 | the guarded stripping equals the intended one when every name starts with `base/`, and both leave the names unchanged when some name does not start with the base |
| FileService.ZipImportNamesAsWritten | src/service/fileService.ts:79-97 | as written: the stored names fail exactly when no entry survives the filter; otherwise there is one per entry |
| FileService.ZipImportNames | src/service/fileService.ts:79-97 | corrected: one stored name per surviving entry; either all entries are the stored names under the base folder, or the names are the entries unchanged |
| FileTree.FindLabel | src/service/fileService.ts:273 | `find` returns the first sibling with the label, or none exactly when no sibling has it |
| FileTree.Insert | src/service/fileService.ts:267-285 | one file's walk keeps every existing sibling's label and adds at most one sibling, which is labelled with the first segment |
| FileTree.InsertData | src/service/fileService.ts:267-285 | inserting a file stores its contents at the end of its own label chain and changes the contents at no other chain |
| FileTree.InsertUnique | src/service/fileService.ts:273-281 | a walk keeps sibling labels distinct at every depth |
| FileTree.BuildData | src/service/fileService.ts:263-286 | the node at the end of a path's chain holds the contents of the last file with that path, and no contents when no file has it |
| FileTree.BuildUnique | src/service/fileService.ts:263-286 | sibling labels are distinct at every depth of the built tree |
| FileTree.SegmentsInjective | src/service/fileService.ts:268 | two paths have the same segments exactly when they are equal |
| FileTree.Collapse | src/service/fileService.ts:288-292 | removing a lone `""` root keeps sibling labels distinct |
| FileTree.GetFileSystemAsTree | src/service/fileService.ts:262-295 | the explorer tree has distinct sibling labels at every depth |
| FileTree.CollapseLookup | src/service/fileService.ts:288-292 | after a lone `""` root is replaced by its children, a chain that began with `""` is found without that label |
| FileTree.TreeProperties | src/service/fileService.ts:262-295 | the tree has distinct sibling labels; every current-project path's chain exists and ends at the contents of the last file with that path |
| Terminal.Step | src/components/terminal/Terminal.tsx:48-86 | Ctrl+C empties the buffer, aborts and emits nothing. Backspace leaves an empty buffer empty and otherwise drops exactly the last character. Enter emits the buffer followed by its own key and empties it. Any other key appends its key |
| Terminal.FeedAppend | src/components/terminal/Terminal.tsx:48-86 | feeding two key runs one after the other equals feeding their concatenation; lines and aborts add up |
| Terminal.FeedOrdinary | src/components/terminal/Terminal.tsx:74-76 | keys other than Ctrl+C, Backspace and Enter only append their keys: no line and no abort |
| Terminal.TypeLine | src/components/terminal/Terminal.tsx:74-85 | typing ordinary keys and then Enter emits the old buffer, the typed keys and Enter's key as one line, and empties the buffer |
| Terminal.TypeThenErase | src/components/terminal/Terminal.tsx:57-76 | Backspace after a one-character key restores the buffer |
| Terminal.EraseRun | src/components/terminal/Terminal.tsx:57-73 | n Backspaces drop the last n characters, or all of them if there are fewer |
| Terminal.FeedLines | src/components/terminal/Terminal.tsx:52-85 | a run ending in Enter or Ctrl+C leaves the buffer empty, and there is exactly one line per Enter |

## Left out

- The WebAssembly engine, `App`, `MemFS` and `Tar` are not part of this model. A program
  run is the `Host.execute` parameter, module compilation is `Host.compileStreaming` and
  `Host.compileBytes`, and the archive is a list of already-decoded entries.
- Log banners, ANSI colours and timing output (`hostLog`, `hostLogAsync`, the timing text
  of `run`) are left out. They are cosmetic output that depends on the clock.
- Api.New: the constructor starts the file system and the untar eagerly and `ready` is a
  promise. The model folds both into the construction and records only whether readiness
  resolved. A read failure of the archive makes every later compile and link fail.
- The analyzer bootstrap (script load, `std.cfg` fetch) is network and foreign-module
  work. Its file system holds text, because the analyzer writes with `encoding: "utf8"`.
- Text encoding is left out: `TextEncoder`/`TextDecoder` in `getFile`, `updateFile` and
  `createFile`, and the `readAsText` of imported files. Contents are bytes, passed through
  unchanged.
- `getFile` queries the `[path+project]` index and takes the first hit. In an id-ordered
  table that is the first current-project record at the path, which is what the model
  uses.
- FileService.CreateAll: the zip branch of `importFiles` ends at the `ViaZip` route and
  `ZipImportNames`. The recursive re-import of the stripped entries, and the
  `FileReader`/zip.js work that unpacks them, are I/O.
- `getFiles`, `getProjects`, `getFilePathsWith`, `getFilesPathsWithout` and
  `downloadFilesToZip` are left out. They are projections or I/O around the modelled
  filters.
- Terminal: the xterm echo (`write`, `writeln`, the erase sequence) and rendering are left
  out. The model covers only the buffer, the emitted lines and the abort.
- ClangParser.Parse: numbers in JavaScript are doubles. `+line` and `+column` are modelled
  as exact naturals, and digit runs longer than 2^53 are not rounded.
- Strings.ParseInt: the same applies to `parseInt`. Negative zero is not distinguished
  from zero.
- ClangParser.MatchAt: because `(.+)` in the extension is greedy, a message that itself
  contains `:<digits>:<digits>: <word>: ` moves the split point. The name stays the
  leftmost word run, and the extension stretches to the last such colon group on the line.
  The model follows the regular expression; `ParseRender` requires a colon-free message
  for that reason.
- Api.CompileLinkRun: a rejection returns only the error, not the state. The files
  already added and the modules already cached before it are not part of the result. The
  same holds for `Compile`, `Link`, `CompileAll`, `AddAndCompile`, `LinkAndRun` and
  `RunImage`.
- CppCheck.Run: the steps before the `try` are taken to succeed. These are waiting for
  `ready`, the two `assert`s and the `FS.writeFile` calls. In the program a failure there
  rejects the call instead of returning `[]`.
- FileHelpers.WithEach: its own contract states membership only. Multiplicity and order
  are stated, for an id-ordered table, by `WithEachOnce`, `WithEachOrder` and
  `WithEachWithin`.
- Strings: a `string` is a sequence of Unicode scalar values, while a JavaScript string
  is a sequence of UTF-16 code units. The two agree on text inside the Basic Multilingual
  Plane. A character outside it counts as two units in JavaScript and as one here.
- Terminal.Step: Backspace's `slice(0, -1)` (src/components/terminal/Terminal.tsx:73)
  removes one UTF-16 unit. For a character outside the Basic Multilingual Plane that is
  half of it. The model removes the whole character.
- CppCheck.Args: the include flags are one argument (`-I="a" -I="b"`), as the program
  passes them. The model does not say how the analyzer splits that argument.

## Findings

| source | as written | input that shows it | evidently intended | confidence | as-written member | corrected member |
|---|---|---|---|---|---|---|
| src/service/fileService.ts:86-91 | the base-folder guard is `startsWith(base)` without the `/`, and then the first occurrence of `base/` anywhere in the name is removed | entries `a/m` and `ab/a/n`: `ab/a/n` passes the guard, because it starts with `a`, and becomes `ab/n` | strip only when every name starts with `base/`, and remove that prefix only | high (not executed) | FileService.StripBaseAsWrittenCutsOtherFolder | FileService.StripBaseRoundTrip |
