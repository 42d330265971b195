/**
 The build pipeline of the worker: a memoising cache of compiled toolchain modules, the
 in-memory file system seeded from the sysroot archive, and the compile / link / run
 sequence that turns a set of C/C++ sources into a running program.

 The toolchain programs themselves (the compiler, the linker, the user's program) and the
 WebAssembly engine are not modelled: a `Host` supplies them as functions, and every call
 into them is recorded as an `Event` in the state's trace.
 */
module Api {
  import opened Common
  import opened Strings
  import Writes
  import Paths

  // ---------------------------------------------------------------------------
  // Data model
  // ---------------------------------------------------------------------------

  /** A compiled WebAssembly module: an opaque handle issued by the host engine. */
  datatype WasmModule = WasmModule(handle: nat)

  /** A program instance that asked to keep being scheduled (animation-frame programs). */
  datatype App = App(wasm: WasmModule, argv: seq<string>)

  /** A node of the in-memory file system. */
  datatype Node = FileNode(contents: Bytes) | DirectoryNode

  /** The in-memory file system shared by every toolchain invocation. */
  type MemFs = map<string, Node>

  /** One entry of the sysroot archive, as the archive reader reports it. */
  datatype TarEntry =
    | TarFile(path: string, contents: Bytes)
    | TarDirectory(path: string)
    | TarOther(path: string)

  /** `{name, contents}`: a file handed over by the user interface. */
  datatype FileInput = FileInput(name: string, contents: Bytes)

  /** The argument of `compileLinkRun`. */
  datatype CompileLinkRunOptions = CompileLinkRunOptions(
    sources: seq<FileInput>, headers: seq<FileInput>, libObjs: seq<FileInput>, rest: seq<FileInput>)

  /** What a toolchain or user program leaves behind when `app.run()` settles. */
  datatype Exit = Exit(fs: MemFs, stillRunning: bool)

  /** The engine and programs outside the model. Each of them may reject (`None`): a fetch
      or compilation that fails, or a program whose instantiation or run throws. */
  datatype Host = Host(
    compileStreaming: string -> Option<WasmModule>,             // fetch + compile a binary by URL
    compileBytes: Bytes -> Option<WasmModule>,                  // WebAssembly.compile of a buffer
    execute: (WasmModule, seq<string>, MemFs) -> Option<Exit>)  // instantiate and run with argv

  /** A host none of whose calls rejects. */
  ghost predicate Reliable(host: Host)
  {
    && (forall url :: host.compileStreaming(url).Some?)
    && (forall b :: host.compileBytes(b).Some?)
    && (forall m, argv, fs :: host.execute(m, argv, fs).Some?)
  }

  /** An observable effect of the pipeline, in the order it happens. */
  datatype Event =
    | Fetched(url: string)
    | AddedFile(path: string)
    | AddedDirectory(path: string)
    | Ran(wasm: WasmModule, argv: seq<string>)
    | CompiledProgram(path: string)

  /** The URLs of the compiler, the linker and the sysroot archive. */
  datatype Config = Config(clang: string, lld: string, sysroot: string)

  datatype Error =
    | SysrootUnavailable                // the `ready` promise rejected
    | NoSuchFile(path: string)          // `getFileContents` of a path that holds no file
    | FetchRejected(url: string)        // `compileStreaming` of a toolchain binary rejected
    | ProgramRejected(argv: seq<string>) // `new App` or `app.run()` threw or rejected
    | ImageRejected(path: string)       // `WebAssembly.compile` of the linked image rejected

  /** The worker's `API` object. `ready` records whether the readiness promise resolved. */
  datatype Api = Api(
    config: Config, cache: map<string, WasmModule>, fs: MemFs, ready: bool, trace: seq<Event>)

  // ---------------------------------------------------------------------------
  // Constants
  // ---------------------------------------------------------------------------

  /** The fourteen arguments every compiler invocation shares. */
  const ClangCommonArgs: seq<string> := [
    "-disable-free",
    "-isysroot", "/",
    "-internal-isystem", "/include/c++/v1",
    "-internal-isystem", "/include",
    "-internal-isystem", "/lib/clang/8.0.1/include",
    "-ferror-limit", "19",
    "-fmessage-length", "80",
    "-fcolor-diagnostics"
  ]

  const StackSize: nat := 1024 * 1024
  const LibDir: string := "lib/wasm32-wasi"
  const ProgramImage: string := "program.wasm"

  /** The stack-size flag the linker receives is `stack-size=1048576`. */
  lemma StackSizeNumeral()
    ensures "stack-size=" + NatToDecimal(StackSize) == "stack-size=1048576"
  {
    assert StackSize == 1048576;
    assert NatToDecimal(1) == "1";
    assert NatToDecimal(10) == NatToDecimal(1) + "0";
    assert NatToDecimal(104) == NatToDecimal(10) + "4";
    assert NatToDecimal(1048) == NatToDecimal(104) + "8";
    assert NatToDecimal(10485) == NatToDecimal(1048) + "5";
    assert NatToDecimal(104857) == NatToDecimal(10485) + "7";
    assert NatToDecimal(1048576) == NatToDecimal(104857) + "6";
  }

  // ---------------------------------------------------------------------------
  // File system
  // ---------------------------------------------------------------------------

  /** `memfs.addFile(path, contents)` */
  function AddFile(st: Api, f: FileInput): (r: Api)
    ensures r.fs == st.fs[f.name := FileNode(f.contents)]
    ensures r.trace == st.trace + [AddedFile(f.name)]
    ensures r.config == st.config && r.cache == st.cache && r.ready == st.ready
  {
    st.(fs := st.fs[f.name := FileNode(f.contents)], trace := st.trace + [AddedFile(f.name)])
  }

  function Names(files: seq<FileInput>): (names: seq<string>)
    ensures |names| == |files|
    ensures forall i :: 0 <= i < |files| ==> names[i] == files[i].name
  {
    if |files| == 0 then [] else [files[0].name] + Names(files[1..])
  }

  function AddedEvents(files: seq<FileInput>): (evs: seq<Event>)
    ensures |evs| == |files|
    ensures forall i :: 0 <= i < |files| ==> evs[i] == AddedFile(files[i].name)
  {
    if |files| == 0 then [] else AddedEvents(files[..|files| - 1]) + [AddedFile(files[|files| - 1].name)]
  }

  function AsWrites(files: seq<FileInput>): (ws: seq<(string, Node)>)
    ensures |ws| == |files|
    ensures forall i :: 0 <= i < |files| ==> ws[i] == (files[i].name, FileNode(files[i].contents))
  {
    if |files| == 0 then []
    else AsWrites(files[..|files| - 1]) + [(files[|files| - 1].name, FileNode(files[|files| - 1].contents))]
  }

  /** `addFile` for each file in order. */
  function AddFiles(st: Api, files: seq<FileInput>): (r: Api)
    ensures r.fs == Writes.Apply(st.fs, AsWrites(files))
    ensures r.trace == st.trace + AddedEvents(files)
    ensures r.config == st.config && r.cache == st.cache && r.ready == st.ready
    decreases |files|
  {
    if |files| == 0 then st
    else
      var prev := files[..|files| - 1];
      assert AsWrites(files)[..|files| - 1] == AsWrites(prev);
      assert AddedEvents(files) == AddedEvents(prev) + [AddedFile(files[|files| - 1].name)];
      AddFile(AddFiles(st, prev), files[|files| - 1])
  }

  /** The node the archive leaves at `path`: that of the last file or directory entry for
      it; other entry kinds are skipped. */
  function LastEntry(entries: seq<TarEntry>, path: string): Option<Node>
  {
    if |entries| == 0 then None
    else match entries[|entries| - 1]
      case TarFile(p, c) => if p == path then Some(FileNode(c)) else LastEntry(entries[..|entries| - 1], path)
      case TarDirectory(p) => if p == path then Some(DirectoryNode) else LastEntry(entries[..|entries| - 1], path)
      case TarOther(_) => LastEntry(entries[..|entries| - 1], path)
  }

  function EntryWrites(entries: seq<TarEntry>): (ws: seq<(string, Node)>)
    ensures forall p :: Writes.LastWrite(ws, p) == LastEntry(entries, p)
  {
    if |entries| == 0 then []
    else
      var prev := EntryWrites(entries[..|entries| - 1]);
      match entries[|entries| - 1]
      case TarFile(p, c) => prev + [(p, FileNode(c))]
      case TarDirectory(p) => prev + [(p, DirectoryNode)]
      case TarOther(_) => prev
  }

  function EntryEvents(entries: seq<TarEntry>): seq<Event>
  {
    if |entries| == 0 then []
    else
      var prev := EntryEvents(entries[..|entries| - 1]);
      match entries[|entries| - 1]
      case TarFile(p, _) => prev + [AddedFile(p)]
      case TarDirectory(p) => prev + [AddedDirectory(p)]
      case TarOther(_) => prev
  }

  /** `untar`: file entries become files, directory entries become directories, other
      entries are ignored; for a path named by several entries the last one wins. */
  function Untar(fs: MemFs, entries: seq<TarEntry>): (r: MemFs)
    ensures forall p :: LastEntry(entries, p).Some? ==> p in r && r[p] == LastEntry(entries, p).value
    ensures forall p :: LastEntry(entries, p).None? ==> (p in r <==> p in fs) && (p in fs ==> r[p] == fs[p])
  {
    var ws := EntryWrites(entries);
    var r := Writes.Apply(fs, ws);
    assert forall p :: Writes.LastWrite(ws, p) == LastEntry(entries, p);
    r
  }

  /** The constructor: the file system's readiness followed by untarring the sysroot, or a
      rejected readiness when the archive could not be read. */
  function New(config: Config, sysroot: Option<seq<TarEntry>>): (r: Api)
    ensures r.cache == map[] && r.config == config
    ensures r.ready <==> sysroot.Some?
    ensures sysroot.Some? ==> r.fs == Untar(map[], sysroot.value) && r.trace == EntryEvents(sysroot.value)
  {
    match sysroot
    case None => Api(config, map[], map[], false, [])
    case Some(entries) => Api(config, map[], Untar(map[], entries), true, EntryEvents(entries))
  }

  // ---------------------------------------------------------------------------
  // Module cache and program runs
  // ---------------------------------------------------------------------------

  datatype Got = Got(api: Api, wasm: WasmModule)

  /** The module `getModule(url)` settles with: the cached one, or else what the host's
      fetch and compilation yield (`None` when that rejects). */
  function ModuleFor(st: Api, url: string, host: Host): Option<WasmModule>
  {
    if url in st.cache then Some(st.cache[url]) else host.compileStreaming(url)
  }

  /** `getModule(url)`: the cached module if there is one; otherwise the module is fetched
      and compiled once and remembered under its URL. A rejected fetch stores nothing. */
  function GetModule(st: Api, url: string, host: Host): (r: Result<Got, Error>)
    ensures r.Ok? <==> ModuleFor(st, url, host).Some?
    ensures r.Err? ==> url !in st.cache && r.error == FetchRejected(url)
    ensures url in st.cache ==> r == Ok(Got(st, st.cache[url]))
    ensures r.Ok? ==> r.value.wasm == ModuleFor(st, url, host).value
    ensures r.Ok? && url !in st.cache ==>
      r.value.api == st.(cache := st.cache[url := r.value.wasm], trace := st.trace + [Fetched(url)])
    ensures r.Ok? ==> url in r.value.api.cache && r.value.api.cache[url] == r.value.wasm
    ensures r.Ok? ==> st.cache.Keys <= r.value.api.cache.Keys
    ensures r.Ok? ==> forall u :: u in st.cache ==> r.value.api.cache[u] == st.cache[u]
  {
    if url in st.cache then Ok(Got(st, st.cache[url]))
    else match host.compileStreaming(url)
      case None => Err(FetchRejected(url))
      case Some(m) => Ok(Got(st.(cache := st.cache[url := m], trace := st.trace + [Fetched(url)]), m))
  }

  /** Once a module was obtained, asking again for the same URL yields the same module and
      fetches nothing, whatever the host would do. */
  lemma GetModuleMemoises(st: Api, url: string, host: Host, host': Host)
    ensures var first := GetModule(st, url, host);
      first.Ok? ==> GetModule(first.value.api, url, host') == first
  {
  }

  datatype Ran = RanResult(api: Api, app: Option<App>)

  /** `run(module, ...args)`: the program runs against the file system; the result is an
      App exactly when the program reports that it is still running. A program that throws
      rejects the run. */
  function Run(st: Api, wasm: WasmModule, argv: seq<string>, host: Host): (r: Result<Ran, Error>)
    ensures r.Err? <==> host.execute(wasm, argv, st.fs).None?
    ensures r.Err? ==> r.error == ProgramRejected(argv)
    ensures r.Ok? ==> (r.value.app.Some? <==> host.execute(wasm, argv, st.fs).value.stillRunning)
    ensures r.Ok? && r.value.app.Some? ==> r.value.app.value == App(wasm, argv)
    ensures r.Ok? ==> r.value.api.fs == host.execute(wasm, argv, st.fs).value.fs
    ensures r.Ok? ==> r.value.api.trace == st.trace + [Ran(wasm, argv)]
    ensures r.Ok? ==> r.value.api.cache == st.cache && r.value.api.config == st.config && r.value.api.ready == st.ready
  {
    match host.execute(wasm, argv, st.fs)
    case None => Err(ProgramRejected(argv))
    case Some(ex) =>
      Ok(RanResult(st.(fs := ex.fs, trace := st.trace + [Ran(wasm, argv)]),
                   if ex.stillRunning then Some(App(wasm, argv)) else None))
  }

  // ---------------------------------------------------------------------------
  // compile and link
  // ---------------------------------------------------------------------------

  /** The object file a source compiles to. */
  function ObjectName(source: string): (obj: string)
    ensures EndsWith(obj, ".o") && StartsWith(obj, source) && |obj| == |source| + 2
  {
    source + ".o"
  }

  /** The compiler's argument vector for one source. */
  function CompileArgv(source: string): (argv: seq<string>)
    ensures |argv| == 24
    ensures argv[..4] == ["clang", "-cc1", "-Wall", "-emit-obj"]
    ensures argv[4..18] == ClangCommonArgs
    ensures argv[18..] == ["-O2", "-o", ObjectName(source), "-x", "c++", source]
  {
    ["clang", "-cc1", "-Wall", "-emit-obj"] + ClangCommonArgs + ["-O2", "-o", ObjectName(source), "-x", "c++", source]
  }

  function LibFlags(dirs: seq<string>): (flags: seq<string>)
    ensures |flags| == |dirs|
    ensures forall i :: 0 <= i < |dirs| ==> flags[i] == "-L" + dirs[i]
  {
    if |dirs| == 0 then [] else ["-L" + dirs[0]] + LibFlags(dirs[1..])
  }

  /** `libPaths.map((p) => "-L" + p).join(" ")`: all search directories in ONE argument. */
  function LibPathsArg(dirs: seq<string>): string
  {
    Join(LibFlags(dirs), " ")
  }

  /** The linker's argument vector. */
  function LinkArgv(objs: seq<string>, wasm: string, libPaths: seq<string>): seq<string>
  {
    var libPathsStr := LibPathsArg(libPaths);
    ["wasm-ld", "--no-threads", "--export-dynamic", "-z", "stack-size=" + NatToDecimal(StackSize),
     "-L" + LibDir, LibDir + "/crt1.o", libPathsStr, libPathsStr]
    + objs + ["-o", wasm, "-lc", "-lc++", "-lc++abi"]
  }

  /** The linker's argument vector, position by position: the fixed prefix with the
      1 MiB stack, the joined `-L` argument twice, the objects, then the output and the
      three libraries. */
  lemma LinkArgvLayout(objs: seq<string>, wasm: string, libPaths: seq<string>)
    ensures var argv := LinkArgv(objs, wasm, libPaths);
      && |argv| == 14 + |objs|
      && argv[..7] == ["wasm-ld", "--no-threads", "--export-dynamic", "-z",
                       "stack-size=1048576", "-Llib/wasm32-wasi", "lib/wasm32-wasi/crt1.o"]
      && argv[7] == argv[8] == LibPathsArg(libPaths)
      && argv[9..9 + |objs|] == objs
      && argv[9 + |objs|..] == ["-o", wasm, "-lc", "-lc++", "-lc++abi"]
  {
    var prefix := ["wasm-ld", "--no-threads", "--export-dynamic", "-z", "stack-size=" + NatToDecimal(StackSize),
                   "-L" + LibDir, LibDir + "/crt1.o"];
    LinkPrefix(prefix);
    var libPathsStr := LibPathsArg(libPaths);
    assert LinkArgv(objs, wasm, libPaths) == prefix + [libPathsStr, libPathsStr] + objs + ["-o", wasm, "-lc", "-lc++", "-lc++abi"];
  }

  lemma LinkPrefix(prefix: seq<string>)
    requires prefix == ["wasm-ld", "--no-threads", "--export-dynamic", "-z", "stack-size=" + NatToDecimal(StackSize),
                        "-L" + LibDir, LibDir + "/crt1.o"]
    ensures prefix == ["wasm-ld", "--no-threads", "--export-dynamic", "-z",
                       "stack-size=1048576", "-Llib/wasm32-wasi", "lib/wasm32-wasi/crt1.o"]
  {
    StackSizeNumeral();
    assert "-L" + LibDir == "-Llib/wasm32-wasi" && LibDir + "/crt1.o" == "lib/wasm32-wasi/crt1.o";
  }

  datatype Compiled = CompiledResult(api: Api, obj: string)

  /** `compile({source, headers})`: waits for readiness, obtains the compiler through the
      module cache and runs it once on the source; the result names the object file. It
      rejects when readiness failed, when the compiler cannot be fetched, or when the
      compiler run throws. */
  function Compile(st: Api, source: FileInput, host: Host): (r: Result<Compiled, Error>)
    ensures !st.ready ==> r == Err(SysrootUnavailable)
    ensures st.ready && ModuleFor(st, st.config.clang, host).None? ==> r == Err(FetchRejected(st.config.clang))
    ensures st.ready && ModuleFor(st, st.config.clang, host).Some? ==>
      (r.Ok? <==> host.execute(ModuleFor(st, st.config.clang, host).value, CompileArgv(source.name), st.fs).Some?)
    ensures r.Err? && r.error.ProgramRejected? ==> r.error.argv == CompileArgv(source.name)
    ensures Reliable(host) ==> (r.Ok? <==> st.ready)
    ensures r.Ok? ==> st.config.clang in r.value.api.cache
    ensures r.Ok? ==>
      var c := r.value; var clang := c.api.cache[st.config.clang];
      && c.obj == ObjectName(source.name)
      && c.api.trace == st.trace + (if st.config.clang in st.cache then [] else [Fetched(st.config.clang)])
                         + [Ran(clang, CompileArgv(source.name))]
      && clang == ModuleFor(st, st.config.clang, host).value
      && host.execute(clang, CompileArgv(source.name), st.fs).Some?
      && c.api.fs == host.execute(clang, CompileArgv(source.name), st.fs).value.fs
      && Grows(st, c.api)
  {
    if !st.ready then Err(SysrootUnavailable)
    else match GetModule(st, st.config.clang, host)
      case Err(e) => Err(e)
      case Ok(got) =>
        match Run(got.api, got.wasm, CompileArgv(source.name), host)
        case Err(e) => Err(e)
        case Ok(ran) => Ok(CompiledResult(ran.api, ObjectName(source.name)))
  }

  /** `link(objs, wasm, libPaths)`: waits for readiness, obtains the linker through the
      module cache and runs it once. It rejects as `compile` does. */
  function Link(st: Api, objs: seq<string>, wasm: string, libPaths: seq<string>, host: Host): (r: Result<Ran, Error>)
    ensures !st.ready ==> r == Err(SysrootUnavailable)
    ensures st.ready && ModuleFor(st, st.config.lld, host).None? ==> r == Err(FetchRejected(st.config.lld))
    ensures st.ready && ModuleFor(st, st.config.lld, host).Some? ==>
      (r.Ok? <==> host.execute(ModuleFor(st, st.config.lld, host).value, LinkArgv(objs, wasm, libPaths), st.fs).Some?)
    ensures r.Err? && r.error.ProgramRejected? ==> r.error.argv == LinkArgv(objs, wasm, libPaths)
    ensures Reliable(host) ==> (r.Ok? <==> st.ready)
    ensures r.Ok? ==> st.config.lld in r.value.api.cache
    ensures r.Ok? ==>
      var lld := r.value.api.cache[st.config.lld];
      && r.value.api.trace == st.trace + (if st.config.lld in st.cache then [] else [Fetched(st.config.lld)])
                               + [Ran(lld, LinkArgv(objs, wasm, libPaths))]
      && lld == ModuleFor(st, st.config.lld, host).value
      && host.execute(lld, LinkArgv(objs, wasm, libPaths), st.fs).Some?
      && r.value.api.fs == host.execute(lld, LinkArgv(objs, wasm, libPaths), st.fs).value.fs
      && Grows(st, r.value.api)
  {
    if !st.ready then Err(SysrootUnavailable)
    else match GetModule(st, st.config.lld, host)
      case Err(e) => Err(e)
      case Ok(got) => Run(got.api, got.wasm, LinkArgv(objs, wasm, libPaths), host)
  }

  // ---------------------------------------------------------------------------
  // compileLinkRun
  // ---------------------------------------------------------------------------

  /** The library search directories: the parent directory of each source, in source
      order, dropping empty parents and keeping duplicates. */
  function LibraryDirs(sources: seq<FileInput>): (dirs: seq<string>)
    ensures |dirs| <= |sources|
    ensures forall d :: d in dirs ==> d != ""
  {
    if |sources| == 0 then []
    else
      var p := Paths.Parent(sources[0].name);
      (if p != "" then [p] else []) + LibraryDirs(sources[1..])
  }

  /** `LibraryDirs` distributes over concatenation and keeps one entry per source with a
      non-empty parent: it is the order-preserving filter of the parents. */
  lemma {:induction false} LibraryDirsConcat(a: seq<FileInput>, b: seq<FileInput>)
    ensures LibraryDirs(a + b) == LibraryDirs(a) + LibraryDirs(b)
    decreases |a|
  {
    if |a| == 0 {
      assert a + b == b;
    } else {
      assert (a + b)[1..] == a[1..] + b;
      LibraryDirsConcat(a[1..], b);
    }
  }

  /** A source in a sub-directory contributes exactly that directory; a top-level source
      contributes nothing. */
  lemma LibraryDirsSingle(s: FileInput)
    ensures '/' !in s.name ==> LibraryDirs([s]) == []
    ensures forall dir, base :: s.name == dir + "/" + base && dir != "" && '/' !in base ==> LibraryDirs([s]) == [dir]
  {
    Paths.ParentBasename(s.name);
    forall dir, base | s.name == dir + "/" + base && dir != "" && '/' !in base
      ensures LibraryDirs([s]) == [dir]
    {
      Paths.ParentOfChild(dir, base);
    }
  }

  datatype Objects = Objects(api: Api, objs: seq<string>)

  function ObjectNames(sources: seq<FileInput>): (objs: seq<string>)
    ensures |objs| == |sources|
    ensures forall i :: 0 <= i < |sources| ==> objs[i] == ObjectName(sources[i].name)
  {
    if |sources| == 0 then []
    else ObjectNames(sources[..|sources| - 1]) + [ObjectName(sources[|sources| - 1].name)]
  }

  /** The visible effect of an event once module fetches are ignored. */
  datatype Step = Added(path: string) | Executed(argv: seq<string>) | Loaded(path: string)

  function StepOf(e: Event): seq<Step>
  {
    match e
    case Fetched(_) => []
    case AddedFile(p) => [Added(p)]
    case AddedDirectory(p) => [Added(p)]
    case Ran(_, argv) => [Executed(argv)]
    case CompiledProgram(p) => [Loaded(p)]
  }

  function Steps(trace: seq<Event>): seq<Step>
  {
    if |trace| == 0 then [] else Steps(trace[..|trace| - 1]) + StepOf(trace[|trace| - 1])
  }

  lemma StepsSnoc(t: seq<Event>, e: Event)
    ensures Steps(t + [e]) == Steps(t) + StepOf(e)
  {
    assert (t + [e])[..|t|] == t;
  }

  lemma {:induction false} StepsConcat(a: seq<Event>, b: seq<Event>)
    ensures Steps(a + b) == Steps(a) + Steps(b)
    decreases |b|
  {
    if |b| == 0 {
      assert a + b == a;
    } else {
      var b', e := b[..|b| - 1], b[|b| - 1];
      assert b == b' + [e];
      assert a + b == (a + b') + [e];
      StepsConcat(a, b');
      StepsSnoc(a + b', e);
      StepsSnoc(b', e);
      Assoc(Steps(a), Steps(a + b'), Steps(a + b), Steps(b'), StepOf(e));
    }
  }

  lemma {:induction false} StepsAdded(files: seq<FileInput>)
    ensures Steps(AddedEvents(files)) == AddedSteps(files)
    decreases |files|
  {
    if |files| > 0 {
      var prev := files[..|files| - 1];
      var x := files[|files| - 1];
      StepsSnoc(AddedEvents(prev), AddedFile(x.name));
      StepsAdded(prev);
    }
  }

  function AddedSteps(files: seq<FileInput>): (steps: seq<Step>)
    ensures |steps| == |files|
    ensures forall i :: 0 <= i < |files| ==> steps[i] == Added(files[i].name)
  {
    if |files| == 0 then [] else AddedSteps(files[..|files| - 1]) + [Added(files[|files| - 1].name)]
  }

  /** Per source: its file is added, then the compiler runs on it. */
  function CompileSteps(sources: seq<FileInput>): (steps: seq<Step>)
    ensures |steps| == 2 * |sources|
  {
    if |sources| == 0 then []
    else
      var s := sources[|sources| - 1];
      CompileSteps(sources[..|sources| - 1]) + [Added(s.name), Executed(CompileArgv(s.name))]
  }

  /** The argument vector of some compiler run of the loop over `sources`. */
  predicate CompilesOne(sources: seq<FileInput>, argv: seq<string>)
  {
    exists k :: 0 <= k < |sources| && argv == CompileArgv(sources[k].name)
  }

  /** The loop over the sources: add each file, then compile it. The first rejection ends
      the loop. */
  function CompileAll(st: Api, sources: seq<FileInput>, host: Host): (r: Result<Objects, Error>)
    ensures !st.ready ==> r == Err(SysrootUnavailable)
    ensures Reliable(host) ==> (r.Ok? <==> st.ready)
    ensures r.Err? ==> || r.error == SysrootUnavailable || r.error == FetchRejected(st.config.clang)
                       || (r.error.ProgramRejected? && CompilesOne(sources, r.error.argv))
    ensures r.Ok? ==> r.value.objs == ObjectNames(sources)
    ensures r.Ok? ==> Steps(r.value.api.trace) == Steps(st.trace) + CompileSteps(sources)
    ensures r.Ok? ==> Grows(st, r.value.api)
    decreases |sources|
  {
    if |sources| == 0 then
      if st.ready then Ok(Objects(st, [])) else Err(SysrootUnavailable)
    else
      var prev := sources[..|sources| - 1];
      var s := sources[|sources| - 1];
      match CompileAll(st, prev, host)
      case Err(e) =>
        assert e.ProgramRejected? && CompilesOne(prev, e.argv) ==> CompilesOne(sources, e.argv) by {
          if e.ProgramRejected? && CompilesOne(prev, e.argv) {
            var k :| 0 <= k < |prev| && e.argv == CompileArgv(prev[k].name);
            assert prev[k] == sources[k];
          }
        }
        Err(e)
      case Ok(done) =>
        var added := AddFile(done.api, s);
        match Compile(added, s, host)
        case Err(e) =>
          assert e.ProgramRejected? ==> e.argv == CompileArgv(sources[|sources| - 1].name);
          Err(e)
        case Ok(c) =>
          var fetch: seq<Event> := if st.config.clang in done.api.cache then [] else [Fetched(st.config.clang)];
          CompileAllStep(st.trace, done.api.trace, added.trace, c.api.trace, fetch, c.api.cache[st.config.clang],
                         s.name, CompileArgv(s.name), CompileSteps(prev), CompileSteps(sources));
          GrowsTrans(st, done.api, c.api);
          assert ObjectNames(sources) == ObjectNames(prev) + [ObjectName(s.name)];
          Ok(Objects(c.api, done.objs + [c.obj]))
  }

  /** The later state keeps the configuration and readiness and every cached module. */
  predicate Grows(st: Api, st': Api)
  {
    && st'.config == st.config && st'.ready
    && st.cache.Keys <= st'.cache.Keys
    && (forall u :: u in st.cache ==> st'.cache[u] == st.cache[u])
  }

  lemma CompileAllStep(t0: seq<Event>, t1: seq<Event>, t2: seq<Event>, t3: seq<Event>, fetch: seq<Event>,
                       clang: WasmModule, name: string, argv: seq<string>, before: seq<Step>, after: seq<Step>)
    requires Steps(t1) == Steps(t0) + before
    requires after == before + [Added(name), Executed(argv)]
    requires t2 == t1 + [AddedFile(name)]
    requires fetch == [] || (|fetch| == 1 && fetch[0].Fetched?)
    requires t3 == t2 + fetch + [Ran(clang, argv)]
    ensures Steps(t3) == Steps(t0) + after
  {
    StepsSnoc(t1, AddedFile(name));
    StepsAppendFetch(t2, fetch);
    StepsSnoc(t2 + fetch, Ran(clang, argv));
    Assemble2(Steps(t0), before, Steps(t1), Steps(t2), Steps(t3), Added(name), Executed(argv));
  }

  lemma GrowsTrans(a: Api, b: Api, c: Api)
    requires Grows(a, b) && Grows(b, c)
    ensures Grows(a, c)
  {
  }

  lemma Assemble2<T>(s0: seq<T>, c: seq<T>, s1: seq<T>, s2: seq<T>, s3: seq<T>, x: T, y: T)
    requires s1 == s0 + c && s2 == s1 + [x] && s3 == s2 + [y]
    ensures s3 == s0 + (c + [x, y])
  {
  }

  /** The objects handed to the linker: the compiled objects in source order, then the
      names of the prebuilt objects in their order. */
  function LinkObjects(opts: CompileLinkRunOptions): (objs: seq<string>)
    ensures |objs| == |opts.sources| + |opts.libObjs|
    ensures objs[..|opts.sources|] == ObjectNames(opts.sources)
    ensures objs[|opts.sources|..] == Names(opts.libObjs)
  {
    ObjectNames(opts.sources) + Names(opts.libObjs)
  }

  /** The visible steps before the link: the headers' writes, each source's write and
      compile, then the prebuilt objects' and the remaining files' writes. */
  function FileSteps(opts: CompileLinkRunOptions): seq<Step>
  {
    AddedSteps(opts.headers) + CompileSteps(opts.sources) + AddedSteps(opts.libObjs) + AddedSteps(opts.rest)
  }

  /** The visible steps from the link on: one link, loading the image, running it. */
  function LinkSteps(opts: CompileLinkRunOptions): seq<Step>
  {
    [Executed(LinkArgv(LinkObjects(opts), ProgramImage, LibraryDirs(opts.sources))),
     Loaded(ProgramImage),
     Executed([ProgramImage])]
  }

  /** The whole observable sequence of `compileLinkRun`, fetches aside. */
  function PipelineSteps(opts: CompileLinkRunOptions): seq<Step>
  {
    FileSteps(opts) + LinkSteps(opts)
  }

  /** The argument vector of some program `compileLinkRun` runs: the compiler on one of the
      sources, the linker, or the linked image. */
  predicate PipelineRuns(opts: CompileLinkRunOptions, argv: seq<string>)
  {
    || CompilesOne(opts.sources, argv)
    || argv == LinkArgv(LinkObjects(opts), ProgramImage, LibraryDirs(opts.sources))
    || argv == [ProgramImage]
  }

  /** `compileLinkRun`: headers are added, each source is added and compiled, the prebuilt
      objects and the remaining files are added, the linker runs once, and the linked image
      is compiled and run; the result is that run's App or none. The first rejection ends
      it. */
  function CompileLinkRun(st: Api, opts: CompileLinkRunOptions, host: Host): (r: Result<Ran, Error>)
    ensures !st.ready ==> r == Err(SysrootUnavailable)
    ensures r.Err? ==> || r.error == SysrootUnavailable || r.error == NoSuchFile(ProgramImage)
                       || r.error == FetchRejected(st.config.clang) || r.error == FetchRejected(st.config.lld)
                       || r.error == ImageRejected(ProgramImage)
                       || (r.error.ProgramRejected? && PipelineRuns(opts, r.error.argv))
    ensures Reliable(host) && st.ready && r.Err? ==> r.error == NoSuchFile(ProgramImage)
    ensures r.Ok? ==> Steps(r.value.api.trace) == Steps(st.trace) + PipelineSteps(opts)
    ensures r.Ok? && r.value.app.Some? ==> r.value.app.value.argv == [ProgramImage]
    ensures r.Ok? ==> st.cache.Keys <= r.value.api.cache.Keys
    ensures r.Ok? ==> var done := AddAndCompile(st, opts, host);
      done.Ok? && r == LinkAndRun(done.value.api, opts, host)
  {
    match AddAndCompile(st, opts, host)
    case Err(e) => Err(e)
    case Ok(done) =>
      match LinkAndRun(done.api, opts, host)
      case Err(e) => Err(e)
      case Ok(ran) =>
        Assoc(Steps(st.trace), Steps(done.api.trace), Steps(ran.api.trace), FileSteps(opts), LinkSteps(opts));
        Ok(ran)
  }

  /** The stages of `compileLinkRun` before the link. The objects handed on are the ones
      the linker receives. */
  function AddAndCompile(st: Api, opts: CompileLinkRunOptions, host: Host): (r: Result<Objects, Error>)
    ensures !st.ready ==> r == Err(SysrootUnavailable)
    ensures Reliable(host) ==> (r.Ok? <==> st.ready)
    ensures r.Err? ==> || r.error == SysrootUnavailable || r.error == FetchRejected(st.config.clang)
                       || (r.error.ProgramRejected? && CompilesOne(opts.sources, r.error.argv))
    ensures r.Ok? ==> r.value.objs == LinkObjects(opts)
    ensures r.Ok? ==> Steps(r.value.api.trace) == Steps(st.trace) + FileSteps(opts)
    ensures r.Ok? ==> Grows(st, r.value.api)
  {
    var s1 := AddFiles(st, opts.headers);
    match CompileAll(s1, opts.sources, host)
    case Err(e) => Err(e)
    case Ok(compiled) =>
      var s3 := AddFiles(compiled.api, opts.libObjs);
      var s4 := AddFiles(s3, opts.rest);
      PipelineFiles(st.trace, s1.trace, compiled.api.trace, s3.trace, s4.trace, opts);
      Ok(Objects(s4, compiled.objs + Names(opts.libObjs)))
  }

  /** The stages of `compileLinkRun` from the link on: the linker runs once on
      `LinkObjects`, then the image is loaded and run. */
  function LinkAndRun(st: Api, opts: CompileLinkRunOptions, host: Host): (r: Result<Ran, Error>)
    ensures !st.ready ==> r == Err(SysrootUnavailable)
    ensures r.Err? ==> || r.error == SysrootUnavailable || r.error == NoSuchFile(ProgramImage)
                       || r.error == FetchRejected(st.config.lld) || r.error == ImageRejected(ProgramImage)
                       || (r.error.ProgramRejected? && PipelineRuns(opts, r.error.argv))
    ensures Reliable(host) && st.ready && r.Err? ==> r.error == NoSuchFile(ProgramImage)
    ensures r.Ok? ==> Steps(r.value.api.trace) == Steps(st.trace) + LinkSteps(opts)
    ensures r.Ok? && r.value.app.Some? ==> r.value.app.value.argv == [ProgramImage]
    ensures r.Ok? ==> st.cache.Keys <= r.value.api.cache.Keys
    ensures r.Ok? ==> var linked := Link(st, LinkObjects(opts), ProgramImage, LibraryDirs(opts.sources), host);
      linked.Ok? && r == RunImage(linked.value.api, host)
  {
    var linkArgv := LinkArgv(LinkObjects(opts), ProgramImage, LibraryDirs(opts.sources));
    match Link(st, LinkObjects(opts), ProgramImage, LibraryDirs(opts.sources), host)
    case Err(e) => Err(e)
    case Ok(linked) =>
      match RunImage(linked.api, host)
      case Err(e) => Err(e)
      case Ok(ran) =>
        LinkRunTrace(st, opts, host, linked, ran);
        Ok(ran)
  }

  /** A link followed by a run of the image adds the three visible steps of `LinkSteps`
      and keeps the cached modules. */
  lemma LinkRunTrace(st: Api, opts: CompileLinkRunOptions, host: Host, linked: Ran, ran: Ran)
    requires Link(st, LinkObjects(opts), ProgramImage, LibraryDirs(opts.sources), host) == Ok(linked)
    requires RunImage(linked.api, host) == Ok(ran)
    ensures Steps(ran.api.trace) == Steps(st.trace) + LinkSteps(opts)
    ensures st.cache.Keys <= ran.api.cache.Keys
  {
    var linkArgv := LinkArgv(LinkObjects(opts), ProgramImage, LibraryDirs(opts.sources));
    var fetch: seq<Event> := if st.config.lld in st.cache then [] else [Fetched(st.config.lld)];
    PipelineLink(st.trace, linked.api.trace, linked.api.trace + [CompiledProgram(ProgramImage)], ran.api.trace,
                 fetch, linked.api.cache[st.config.lld], ImageOf(linked.api, host).value, linkArgv);
  }

  /** The module the linked image compiles to, when the linker left a file at
      `program.wasm` and the engine accepts it. */
  function ImageOf(st: Api, host: Host): Option<WasmModule>
  {
    if ProgramImage in st.fs && st.fs[ProgramImage].FileNode? then host.compileBytes(st.fs[ProgramImage].contents)
    else None
  }

  /** The last stage of `compileLinkRun`: the linked image is read, compiled and run with
      argv `["program.wasm"]`. Reading a missing image, a rejected compilation and a
      throwing program each end the stage with their error. */
  function RunImage(st: Api, host: Host): (r: Result<Ran, Error>)
    ensures (ProgramImage !in st.fs || !st.fs[ProgramImage].FileNode?) ==> r == Err(NoSuchFile(ProgramImage))
    ensures ProgramImage in st.fs && st.fs[ProgramImage].FileNode? && ImageOf(st, host).None? ==>
      r == Err(ImageRejected(ProgramImage))
    ensures ImageOf(st, host).Some? ==>
      (r.Ok? <==> host.execute(ImageOf(st, host).value, [ProgramImage], st.fs).Some?)
    ensures r.Err? && r.error.ProgramRejected? ==> r.error.argv == [ProgramImage]
    ensures r.Ok? ==> ImageOf(st, host).Some?
    ensures r.Ok? ==> r.value.api.trace == st.trace + [CompiledProgram(ProgramImage), Ran(ImageOf(st, host).value, [ProgramImage])]
    ensures r.Ok? && r.value.app.Some? ==> r.value.app.value == App(ImageOf(st, host).value, [ProgramImage])
    ensures r.Ok? ==> r.value.api.cache == st.cache && r.value.api.config == st.config && r.value.api.ready == st.ready
    ensures r.Ok? ==> var ex := host.execute(ImageOf(st, host).value, [ProgramImage], st.fs).value;
      r.value.api.fs == ex.fs && (r.value.app.Some? <==> ex.stillRunning)
  {
    if ProgramImage in st.fs && st.fs[ProgramImage].FileNode? then
      match host.compileBytes(st.fs[ProgramImage].contents)
      case None => Err(ImageRejected(ProgramImage))
      case Some(image) =>
        var loaded := st.(trace := st.trace + [CompiledProgram(ProgramImage)]);
        Run(loaded, image, [ProgramImage], host)
    else Err(NoSuchFile(ProgramImage))
  }

  /** The adding and compiling stages. */
  lemma PipelineFiles(t0: seq<Event>, t1: seq<Event>, t2: seq<Event>, t3: seq<Event>, t4: seq<Event>,
                      opts: CompileLinkRunOptions)
    requires t1 == t0 + AddedEvents(opts.headers)
    requires Steps(t2) == Steps(t1) + CompileSteps(opts.sources)
    requires t3 == t2 + AddedEvents(opts.libObjs)
    requires t4 == t3 + AddedEvents(opts.rest)
    ensures Steps(t4) == Steps(t0) + (AddedSteps(opts.headers) + CompileSteps(opts.sources)
                                      + AddedSteps(opts.libObjs) + AddedSteps(opts.rest))
  {
    StepsAppendAdded(t0, opts.headers);
    StepsAppendAdded(t2, opts.libObjs);
    StepsAppendAdded(t3, opts.rest);
    Assemble(Steps(t0), Steps(t1), Steps(t2), Steps(t3), Steps(t4),
             AddedSteps(opts.headers), CompileSteps(opts.sources), AddedSteps(opts.libObjs), AddedSteps(opts.rest));
  }

  /** The linking and running stages: the fetch of the linker is not a visible step. */
  lemma PipelineLink(t4: seq<Event>, t5: seq<Event>, t6: seq<Event>, t7: seq<Event>, fetch: seq<Event>,
                     m: WasmModule, m': WasmModule, linkArgv: seq<string>)
    requires fetch == [] || (|fetch| == 1 && fetch[0].Fetched?)
    requires t5 == t4 + fetch + [Ran(m, linkArgv)]
    requires t6 == t5 + [CompiledProgram(ProgramImage)]
    requires t7 == t6 + [Ran(m', [ProgramImage])]
    ensures Steps(t7) == Steps(t4) + [Executed(linkArgv), Loaded(ProgramImage), Executed([ProgramImage])]
  {
    StepsAppendFetch(t4, fetch);
    StepsSnoc(t4 + fetch, Ran(m, linkArgv));
    StepsSnoc(t5, CompiledProgram(ProgramImage));
    StepsSnoc(t6, Ran(m', [ProgramImage]));
    assert Steps(t5) == Steps(t4) + [Executed(linkArgv)];
  }

  lemma Assoc<T>(s0: seq<T>, s1: seq<T>, s2: seq<T>, u: seq<T>, v: seq<T>)
    requires s1 == s0 + u && s2 == s1 + v
    ensures s2 == s0 + (u + v)
  {
  }

  lemma Assemble<T>(s0: seq<T>, s1: seq<T>, s2: seq<T>, s3: seq<T>, s4: seq<T>, h: seq<T>, c: seq<T>, l: seq<T>, r: seq<T>)
    requires s1 == s0 + h && s2 == s1 + c && s3 == s2 + l && s4 == s3 + r
    ensures s4 == s0 + (h + c + l + r)
  {
  }

  lemma StepsAppendAdded(t: seq<Event>, files: seq<FileInput>)
    ensures Steps(t + AddedEvents(files)) == Steps(t) + AddedSteps(files)
  {
    StepsConcat(t, AddedEvents(files));
    StepsAdded(files);
  }

  /** Fetching a module is not a visible step. */
  lemma StepsAppendFetch(t: seq<Event>, fetch: seq<Event>)
    requires fetch == [] || (|fetch| == 1 && fetch[0].Fetched?)
    ensures Steps(t + fetch) == Steps(t)
  {
    if fetch == [] {
      assert t + fetch == t;
    } else {
      assert t + fetch == t + [fetch[0]];
      StepsSnoc(t, fetch[0]);
    }
  }


}
