/** Output paths and the commit step (`build_output_path`,
    `CopyConsts::write_code`). The `OUT_DIR` environment variable is passed
    in as an optional string and the file system as a map from path to
    content. */
module Output {
  import opened Wrappers
  import opened Registry

  /** `env::VarError`: `OUT_DIR` is not set (or not valid Unicode). */
  datatype VarError = NotPresent

  /** Why `write_code` failed. `MissingOutDir` is the `io::Error` of kind
      `Other` with message "missing OUT_PATH" that replaces the missing
      variable; `CreateFailed` is a file that could not be created or
      written. Its path is a witness the model adds so that contracts can
      name the failing file: the `io::Error` returned by `File::create` or
      `write_all` carries only the operating system's error, so the caller
      of `write_code` cannot see it. */
  datatype CommitError = MissingOutDir | CreateFailed(path: string)

  const FilePrefix: string := "/cconst-"
  const FileExt: string := ".rs"

  /** The file that holds the constant `fname` under directory `dir`. */
  function OutputPath(dir: string, fname: string): string {
    dir + FilePrefix + fname + FileExt
  }

  /** The constant name a path under `dir` belongs to, if it is the path of
      a generated file. */
  function NameOfPath(dir: string, path: string): (r: Option<string>)
    ensures r.Some? ==> |path| == |dir| + |FilePrefix| + |r.value| + |FileExt|
  {
    var start := |dir| + |FilePrefix|;
    if start + |FileExt| <= |path| && path[..start] == dir + FilePrefix
       && path[|path| - |FileExt|..] == FileExt
    then Some(path[start..|path| - |FileExt|])
    else None
  }

  /** `build_output_path`: fails exactly when `OUT_DIR` is unset; otherwise
      the path is under `OUT_DIR` and names the constant. */
  function BuildOutputPath(outDir: Option<string>, fname: string): (r: Result<string, VarError>)
    ensures r.Failure? <==> outDir.None?
    ensures r.Success? ==> NameOfPath(outDir.value, r.value) == Some(fname)
  {
    match outDir
    case None => Failure(NotPresent)
    case Some(dir) =>
      NameOfOutputPath(dir, fname);
      Success(OutputPath(dir, fname))
  }

  lemma NameOfOutputPath(dir: string, fname: string)
    ensures NameOfPath(dir, OutputPath(dir, fname)) == Some(fname)
  {
    var p := OutputPath(dir, fname);
    var start := |dir| + |FilePrefix|;
    assert p == (dir + FilePrefix) + fname + FileExt;
    assert p[..start] == dir + FilePrefix;
    assert p[start..|p| - |FileExt|] == fname;
    assert p[|p| - |FileExt|..] == FileExt;
  }

  /** The only paths `NameOfPath` accepts are the generated ones. */
  lemma OutputPathOfName(dir: string, path: string, fname: string)
    requires NameOfPath(dir, path) == Some(fname)
    ensures OutputPath(dir, fname) == path
  {
    var start := |dir| + |FilePrefix|;
    assert path == path[..start] + path[start..|path| - |FileExt|] + path[|path| - |FileExt|..];
  }

  /** Within one output directory, distinct names get distinct files. */
  lemma OutputPathInjective(dir: string, f: string, g: string)
    requires f != g
    ensures OutputPath(dir, f) != OutputPath(dir, g)
  {
    NameOfOutputPath(dir, f);
    NameOfOutputPath(dir, g);
  }

  /** The files a commit into `dir` leaves: one per entry, at that entry's
      path, holding that entry's text verbatim. */
  function Files(dir: string, entries: map<string, string>): (files: map<string, string>)
    ensures forall f {:trigger OutputPath(dir, f)} :: f in entries ==>
      OutputPath(dir, f) in files && files[OutputPath(dir, f)] == entries[f]
    ensures forall p :: p in files ==> IsFileOf(dir, p, entries.Keys)
  {
    forall f, g | f != g ensures OutputPath(dir, f) != OutputPath(dir, g) {
      OutputPathInjective(dir, f, g);
    }
    var files := map f | f in entries :: OutputPath(dir, f) := entries[f];
    forall p | p in files
      ensures IsFileOf(dir, p, entries.Keys)
    {
      var f :| f in entries && OutputPath(dir, f) == p;
      NameOfOutputPath(dir, f);
    }
    files
  }

  /** `write_code` when every file can be written: an empty registry
      succeeds with no files whatever `OUT_DIR` is; otherwise a missing
      `OUT_DIR` fails and a present one yields every entry's file. */
  function WriteCode(reg: CopyConsts, outDir: Option<string>): (r: Result<map<string, string>, CommitError>)
    ensures reg.entries == map[] ==> r == Success(map[])
    ensures reg.entries != map[] && outDir.None? ==> r == Failure(MissingOutDir)
    ensures outDir.Some? ==> r.Success? && |r.value| == |reg.entries|
    ensures r.Success? ==> forall f {:trigger BuildOutputPath(outDir, f)} :: f in reg.entries ==>
      && BuildOutputPath(outDir, f).Success?
      && BuildOutputPath(outDir, f).value in r.value
      && r.value[BuildOutputPath(outDir, f).value] == reg.entries[f]
    ensures r.Success? ==> forall p :: p in r.value ==>
      outDir.Some? && NameOfPath(outDir.value, p).Some? && NameOfPath(outDir.value, p).value in reg.entries
  {
    if reg.entries == map[] then Success(map[])
    else match outDir
      case None => Failure(MissingOutDir)
      case Some(dir) =>
        var files := Files(dir, reg.entries);
        FilesCount(dir, reg.entries);
        Success(files)
  }

  /** One file per entry. */
  lemma FilesCount(dir: string, entries: map<string, string>)
    ensures |Files(dir, entries)| == |entries|
  {
    var files := Files(dir, entries);
    var paths := set f | f in entries :: OutputPath(dir, f);
    assert files.Keys == paths;
    ImageSize(dir, entries.Keys);
  }

  lemma {:induction false} ImageSize(dir: string, names: set<string>)
    ensures |set f | f in names :: OutputPath(dir, f)| == |names|
    decreases |names|
  {
    if names != {} {
      var f :| f in names;
      var rest := names - {f};
      ImageSize(dir, rest);
      var img := set g | g in names :: OutputPath(dir, g);
      var restImg := set g | g in rest :: OutputPath(dir, g);
      assert img == restImg + {OutputPath(dir, f)};
      assert OutputPath(dir, f) !in restImg by {
        forall g | g in rest ensures OutputPath(dir, g) != OutputPath(dir, f) {
          OutputPathInjective(dir, g, f);
        }
      }
    }
  }

  /** The path `p` is the file of one of the names in `names`. */
  predicate IsFileOf(dir: string, p: string, names: set<string>) {
    NameOfPath(dir, p).Some? && NameOfPath(dir, p).value in names
  }

  /** After writing the files of the entries named in `done` over `fs`:
      those files hold their entries' text, every other path is as in `fs`,
      and no path outside `fs` and those files exists. */
  predicate Committed(fs: map<string, string>, fs2: map<string, string>, dir: string,
                      entries: map<string, string>, done: set<string>)
  {
    && done <= entries.Keys
    && (forall f {:trigger OutputPath(dir, f)} :: f in done ==>
          OutputPath(dir, f) in fs2 && fs2[OutputPath(dir, f)] == entries[f])
    && (forall p :: p in fs2 ==> p in fs || IsFileOf(dir, p, done))
    && (forall p :: p in fs && !IsFileOf(dir, p, done) ==> p in fs2 && fs2[p] == fs[p])
  }

  /** Writing the file of one more entry extends what was committed. */
  lemma CommittedStep(fs: map<string, string>, fs2: map<string, string>, dir: string,
                      entries: map<string, string>, done: set<string>, f: string)
    requires Committed(fs, fs2, dir, entries, done) && f in entries
    ensures Committed(fs, fs2[OutputPath(dir, f) := entries[f]], dir, entries, done + {f})
  {
    var fs3 := fs2[OutputPath(dir, f) := entries[f]];
    NameOfOutputPath(dir, f);
    forall g | g in done + {f}
      ensures OutputPath(dir, g) in fs3 && fs3[OutputPath(dir, g)] == entries[g]
    {
      if g != f {
        OutputPathInjective(dir, g, f);
      }
    }
    forall p | p in fs && !IsFileOf(dir, p, done + {f})
      ensures p in fs3 && fs3[p] == fs[p]
    {
      assert p != OutputPath(dir, f);
    }
  }

  /** Once every entry is written, the file system is `fs` overwritten by
      the registry's files. */
  lemma CommittedAll(fs: map<string, string>, fs2: map<string, string>, dir: string,
                     entries: map<string, string>)
    requires Committed(fs, fs2, dir, entries, entries.Keys)
    ensures fs2 == fs + Files(dir, entries)
  {
    var files := Files(dir, entries);
    CommittedWithin(fs, fs2, dir, entries);
    CommittedCovers(fs, fs2, dir, entries);
    assert fs2.Keys == (fs + files).Keys;
  }

  lemma CommittedWithin(fs: map<string, string>, fs2: map<string, string>, dir: string,
                        entries: map<string, string>)
    requires Committed(fs, fs2, dir, entries, entries.Keys)
    ensures forall p :: p in fs2 ==> p in fs + Files(dir, entries) && fs2[p] == (fs + Files(dir, entries))[p]
  {
    var files := Files(dir, entries);
    forall p | p in fs2 ensures p in fs + files && fs2[p] == (fs + files)[p] {
      if IsFileOf(dir, p, entries.Keys) {
        var g := NameOfPath(dir, p).value;
        OutputPathOfName(dir, p, g);
        assert OutputPath(dir, g) in files;
      }
    }
  }

  lemma CommittedCovers(fs: map<string, string>, fs2: map<string, string>, dir: string,
                        entries: map<string, string>)
    requires Committed(fs, fs2, dir, entries, entries.Keys)
    ensures forall p :: p in fs + Files(dir, entries) ==> p in fs2
  {
    var files := Files(dir, entries);
    forall p | p in fs + files ensures p in fs2 {
      if IsFileOf(dir, p, entries.Keys) {
        var g := NameOfPath(dir, p).value;
        OutputPathOfName(dir, p, g);
        assert OutputPath(dir, g) in fs2;
      }
    }
  }

  /** `fs2` is `fs` with some of `files` written over it, and nothing else. */
  predicate WroteSomeOf(fs: map<string, string>, fs2: map<string, string>, files: map<string, string>) {
    && fs.Keys <= fs2.Keys
    && forall p :: p in fs2 ==> (p in files && fs2[p] == files[p]) || (p in fs && fs2[p] == fs[p])
  }

  /** What has been committed is a part of the registry's files. */
  lemma CommittedPart(fs: map<string, string>, fs2: map<string, string>, dir: string,
                      entries: map<string, string>, done: set<string>)
    requires Committed(fs, fs2, dir, entries, done)
    ensures WroteSomeOf(fs, fs2, Files(dir, entries))
  {
    var files := Files(dir, entries);
    forall p | p in fs2 && !(p in fs && fs2[p] == fs[p])
      ensures p in files && fs2[p] == files[p]
    {
      assert IsFileOf(dir, p, done);
      var g := NameOfPath(dir, p).value;
      OutputPathOfName(dir, p, g);
      assert OutputPath(dir, g) in files;
      assert OutputPath(dir, g) in fs2;
    }
    forall p | p in fs ensures p in fs2 {
      if IsFileOf(dir, p, done) {
        var g := NameOfPath(dir, p).value;
        OutputPathOfName(dir, p, g);
        assert OutputPath(dir, g) in fs2;
      }
    }
  }

  /** `write_code` against a file system `fs` in which creating or writing
      the paths in `unwritable` fails. Entries are taken in an arbitrary
      order, as a hash map yields them; `OUT_DIR` is looked up per entry,
      so an empty registry never needs it.
      On success the files are exactly one per entry, whatever the order.
      A missing `OUT_DIR` fails before anything is written. A failed write
      aborts the rest, leaving some unspecified part of the files written. */
  method Commit(reg: CopyConsts, outDir: Option<string>, fs: map<string, string>, unwritable: set<string>)
    returns (res: Result<(), CommitError>, fs2: map<string, string>)
    ensures res.Success? <==>
      reg.entries == map[]
      || (outDir.Some? && forall f :: f in reg.entries ==> OutputPath(outDir.value, f) !in unwritable)
    ensures res.Success? ==> WriteCode(reg, outDir).Success? && fs2 == fs + WriteCode(reg, outDir).value
    ensures res == Failure(MissingOutDir) <==> reg.entries != map[] && outDir.None?
    ensures res == Failure(MissingOutDir) ==> fs2 == fs
    ensures res.Failure? && res.error.CreateFailed? ==>
      outDir.Some? && res.error.path in unwritable && IsFileOf(outDir.value, res.error.path, reg.entries.Keys)
    ensures outDir.Some? ==> WroteSomeOf(fs, fs2, Files(outDir.value, reg.entries))
  {
    fs2 := fs;
    var todo := reg.entries.Keys;
    ghost var done: set<string> := {};
    while todo != {}
      invariant todo !! done && todo + done == reg.entries.Keys
      invariant outDir.None? ==> done == {} && fs2 == fs
      invariant outDir.Some? ==> Committed(fs, fs2, outDir.value, reg.entries, done)
      invariant outDir.Some? ==> forall f :: f in done ==> OutputPath(outDir.value, f) !in unwritable
      decreases todo
    {
      var f :| f in todo;
      var path := BuildOutputPath(outDir, f);
      if path.Failure? {
        assert f in reg.entries;
        return Failure(MissingOutDir), fs2;
      }
      ghost var dir := outDir.value;
      assert path.value == OutputPath(dir, f);
      if path.value in unwritable {
        assert f in reg.entries && OutputPath(dir, f) in unwritable;
        NameOfOutputPath(dir, f);
        CommittedPart(fs, fs2, dir, reg.entries, done);
        return Failure(CreateFailed(path.value)), fs2;
      }
      CommittedStep(fs, fs2, dir, reg.entries, done, f);
      fs2 := fs2[path.value := reg.entries[f]];
      todo := todo - {f};
      done := done + {f};
    }
    if outDir.Some? {
      CommittedAll(fs, fs2, outDir.value, reg.entries);
      CommittedPart(fs, fs2, outDir.value, reg.entries, done);
    }
    SuccessMatchesWriteCode(reg, outDir, fs, fs2);
    res := Success(());
  }

  /** A completed commit leaves exactly what `WriteCode` describes. */
  lemma SuccessMatchesWriteCode(reg: CopyConsts, outDir: Option<string>,
                                fs: map<string, string>, fs2: map<string, string>)
    requires (outDir.None? && reg.entries == map[] && fs2 == fs)
          || (outDir.Some? && fs2 == fs + Files(outDir.value, reg.entries))
    ensures WriteCode(reg, outDir).Success? && fs2 == fs + WriteCode(reg, outDir).value
  {
    if outDir.Some? && reg.entries == map[] {
      var files := Files(outDir.value, reg.entries);
      assert forall p :: p !in files;
      assert files == map[];
    }
  }

  /** Committing the same registry again rewrites the same files with the
      same contents, so the file system does not change. */
  lemma RecommitIdempotent(reg: CopyConsts, outDir: Option<string>, fs: map<string, string>)
    requires WriteCode(reg, outDir).Success?
    ensures (fs + WriteCode(reg, outDir).value) + WriteCode(reg, outDir).value
         == fs + WriteCode(reg, outDir).value
  {
    OverwriteTwice(fs, WriteCode(reg, outDir).value);
  }

  lemma OverwriteTwice(fs: map<string, string>, files: map<string, string>)
    ensures (fs + files) + files == fs + files
  {
  }

  /** A registry of two entries commits to exactly two files, each holding
      its own entry's text. */
  lemma WriteCodeTwo(dir: string, f: string, x: string, g: string, y: string)
    requires f != g
    ensures var r := WriteCode(CopyConsts(map[f := x, g := y]), Some(dir));
            && r.Success? && |r.value| == 2
            && OutputPath(dir, f) in r.value && OutputPath(dir, g) in r.value
            && OutputPath(dir, f) != OutputPath(dir, g)
            && r.value[OutputPath(dir, f)] == x && r.value[OutputPath(dir, g)] == y
  {
    var entries := map[f := x, g := y];
    assert entries.Keys == {f, g};
    assert |entries| == 2;
    OutputPathInjective(dir, f, g);
    assert BuildOutputPath(Some(dir), f).value == OutputPath(dir, f);
    assert BuildOutputPath(Some(dir), g).value == OutputPath(dir, g);
  }

  /** Two constants registered under different names give exactly two
      files, each holding only its own accessor. */
  lemma TwoConstants(dir: string, f: string, t: string, v: seq<Hex.Byte>,
                     g: string, u: string, w: seq<Hex.Byte>)
    requires f != g
    ensures var r := WriteCode(AddConst(AddConst(New(), f, t, v), g, u, w), Some(dir));
            && r.Success? && |r.value| == 2
            && OutputPath(dir, f) in r.value && OutputPath(dir, g) in r.value
            && OutputPath(dir, f) != OutputPath(dir, g)
            && r.value[OutputPath(dir, f)] == Accessor.CreateConstantFunc(f, t, v)
            && r.value[OutputPath(dir, g)] == Accessor.CreateConstantFunc(g, u, w)
  {
    var x := Accessor.CreateConstantFunc(f, t, v);
    var y := Accessor.CreateConstantFunc(g, u, w);
    assert AddConst(AddConst(New(), f, t, v), g, u, w) == CopyConsts(map[f := x, g := y]);
    WriteCodeTwo(dir, f, x, g, y);
  }
}
