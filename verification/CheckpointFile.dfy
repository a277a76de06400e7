/** Saving a checkpoint: write a temporary file, then rename it over the old one. */
module CheckpointFile {
  import opened Wrappers

  /** What a file holds: a complete document, or a write that was cut short. */
  datatype Content<T> = Torn | Whole(value: T)

  type Files<T> = map<Path, Content<T>>

  datatype Read<T> = Absent | Unreadable | Found(value: T)

  // ----- Paths --------------------------------------------------------------------

  /** A cleaned path: its components, none of them empty or a dot. */
  datatype Path = Path(rooted: bool, parts: seq<string>)

  /** The components between the slashes. */
  function Split(s: string): (parts: seq<string>)
    ensures parts != []
  {
    if s == "" then [""]
    else
      var init, last := Split(s[..|s| - 1]), s[|s| - 1];
      if last == '/' then init + [""] else Extend(init, [last])
  }

  /** The list with `tail` appended to its last component. */
  function Extend(parts: seq<string>, tail: string): seq<string>
    requires parts != []
  {
    parts[..|parts| - 1] + [parts[|parts| - 1] + tail]
  }

  /** Empty components and dots are dropped, and a pair of dots takes its parent away. */
  function Resolve(rooted: bool, parts: seq<string>): seq<string> {
    if parts == [] then []
    else
      var init, last := Resolve(rooted, parts[..|parts| - 1]), parts[|parts| - 1];
      if last == "" || last == "." then init
      else if last != ".." then init + [last]
      else if init != [] && init[|init| - 1] != ".." then init[..|init| - 1]
      else if rooted then init
      else init + [".."]
  }

  predicate Rooted(s: string) {
    s != "" && s[0] == '/'
  }

  function Clean(s: string): Path {
    Path(Rooted(s), Resolve(Rooted(s), Split(s)))
  }

  function Join(dir: string, name: string): string {
    if dir == "" then name else dir + "/" + name
  }

  const SUFFIX := ".checkpoint.json"

  /** The cluster's name is asked for and not used. */
  function CheckpointPath(dir: string, cluster: string, pipeline: string): Path {
    Clean(Join(dir, pipeline + SUFFIX))
  }

  function TmpPath(path: Path): Path
    requires path.parts != []
  {
    Path(path.rooted, Extend(path.parts, ".tmp"))
  }

  lemma ExtendTwice(parts: seq<string>, s: string, t: string)
    requires parts != []
    ensures Extend(parts, "") == parts && Extend(Extend(parts, s), t) == Extend(parts, s + t)
  {
    var init, last := parts[..|parts| - 1], parts[|parts| - 1];
    assert last + "" == last && parts == init + [last];
    assert Extend(parts, s)[..|parts| - 1] == init;
    assert last + s + t == last + (s + t);
  }

  lemma {:induction false} SplitExtend(s: string, t: string)
    requires '/' !in t
    ensures Split(s + t) == Extend(Split(s), t)
  {
    if t == "" {
      assert s + t == s;
      ExtendTwice(Split(s), "", "");
    } else {
      var init, last := t[..|t| - 1], t[|t| - 1];
      SplitExtend(s, init);
      assert (s + t)[..|s + t| - 1] == s + init && last in t;
      ExtendTwice(Split(s), init, [last]);
      assert t == init + [last];
    }
  }

  /** One more component. */
  lemma SplitOver(s: string, t: string)
    requires '/' !in t
    ensures Split(s + "/" + t) == Split(s) + [t]
  {
    var folder := s + "/";
    assert folder[..|folder| - 1] == s;
    SplitExtend(folder, t);
    assert Split(folder) == Split(s) + [""];
    assert "" + t == t;
    assert Extend(Split(s) + [""], t) == Split(s) + [t];
  }

  /** The directory a pipeline's file is in, and the file's name. */
  function Folder(dir: string, pipeline: string): (bool, seq<string>) {
    var full := Join(dir, pipeline);
    var parts := Split(full);
    (Rooted(full), Resolve(Rooted(full), parts[..|parts| - 1]))
  }

  function Base(dir: string, pipeline: string): string {
    var parts := Split(Join(dir, pipeline));
    parts[|parts| - 1] + SUFFIX
  }

  lemma PathIs(dir: string, cluster: string, pipeline: string)
    ensures var folder := Folder(dir, pipeline);
            CheckpointPath(dir, cluster, pipeline) == Path(folder.0, folder.1 + [Base(dir, pipeline)])
  {
    var full := Join(dir, pipeline);
    assert Join(dir, pipeline + SUFFIX) == full + SUFFIX;
    assert forall i :: 0 <= i < |SUFFIX| ==> SUFFIX[i] != '/';
    SplitExtend(full, SUFFIX);
    var parts, base := Split(full), Base(dir, pipeline);
    var all := Extend(parts, SUFFIX);
    assert all[..|all| - 1] == parts[..|parts| - 1] && all[|all| - 1] == base;
    assert base[|base| - 1] == 'n';
    assert Rooted(full + SUFFIX) == Rooted(full);
  }

  /** In one directory two pipelines share a file exactly if folder and name come out the
      same, whatever the clusters. */
  lemma PathsEqualIff(dir: string, c: string, p: string, d: string, q: string)
    ensures CheckpointPath(dir, c, p) == CheckpointPath(dir, d, q)
            <==> Folder(dir, p) == Folder(dir, q) && Base(dir, p) == Base(dir, q)
  {
    PathIs(dir, c, p);
    PathIs(dir, d, q);
    var a, b := Folder(dir, p).1 + [Base(dir, p)], Folder(dir, q).1 + [Base(dir, q)];
    assert a[..|a| - 1] == Folder(dir, p).1 && b[..|b| - 1] == Folder(dir, q).1;
    assert a[|a| - 1] == Base(dir, p) && b[|b| - 1] == Base(dir, q);
  }

  /** For names without a slash: exactly if the pipelines are the same. */
  lemma PlainNamesDiffer(dir: string, c: string, p: string, d: string, q: string)
    requires '/' !in p && '/' !in q
    ensures CheckpointPath(dir, c, p) == CheckpointPath(dir, d, q) <==> p == q
  {
    PathsEqualIff(dir, c, p, d, q);
    PlainName(dir, p);
    PlainName(dir, q);
    if p != q {
      assert (p + SUFFIX)[..|p + SUFFIX| - |SUFFIX|] == p;
      assert (q + SUFFIX)[..|q + SUFFIX| - |SUFFIX|] == q;
    }
  }

  lemma PlainName(dir: string, p: string)
    requires '/' !in p
    ensures Base(dir, p) == p + SUFFIX
  {
    if dir == "" {
      SplitExtend("", p);
      assert "" + p == p;
    } else {
      SplitOver(dir, p);
    }
  }

  /** For such a name the file is the one of that name in the directory, cleaned. */
  lemma PlainPath(dir: string, c: string, p: string)
    requires '/' !in p
    ensures CheckpointPath(dir, c, p) == Path(Clean(dir).rooted, Clean(dir).parts + [p + ".checkpoint.json"])
  {
    PathIs(dir, c, p);
    PlainName(dir, p);
    if dir == "" {
      SplitExtend("", p);
      assert "" + p == p;
      assert Split(p) == [p] && Resolve(false, [""]) == [];
    } else {
      SplitOver(dir, p);
      assert (Split(dir) + [p])[..|Split(dir)|] == Split(dir);
    }
  }

  /** Two such names in any two directories are the same file exactly if they are the same name
      and the directories the same folder. */
  lemma SameFileIff(dir: string, c: string, p: string, other: string, d: string, q: string)
    requires '/' !in p && '/' !in q
    ensures CheckpointPath(dir, c, p) == CheckpointPath(other, d, q) <==> Clean(dir) == Clean(other) && p == q
  {
    PlainPath(dir, c, p);
    PlainPath(other, d, q);
    PlainNamesDiffer(dir, c, p, d, q);
    PlainPath(dir, d, q);
    var a, b := Clean(dir).parts + [p + SUFFIX], Clean(other).parts + [q + SUFFIX];
    assert a[..|a| - 1] == Clean(dir).parts && b[..|b| - 1] == Clean(other).parts;
    assert a[|a| - 1] == p + SUFFIX && b[|b| - 1] == q + SUFFIX;
  }

  /** A cleaned path has no empty component and no dot; two dots stand only at its beginning, and
      there only if it is relative. */
  lemma {:induction false} CleanedForm(rooted: bool, parts: seq<string>)
    ensures var clean := Resolve(rooted, parts);
            && "" !in clean && "." !in clean
            && (forall i :: 0 <= i < |clean| && clean[i] == ".." ==> !rooted)
            && (forall i, j :: 0 <= i < j < |clean| && clean[j] == ".." ==> clean[i] == "..")
  {
    if parts != [] {
      CleanedForm(rooted, parts[..|parts| - 1]);
    }
  }

  /** Cleaning a list of proper names changes nothing. */
  lemma {:induction false} NamesAreClean(rooted: bool, parts: seq<string>)
    requires "" !in parts && "." !in parts && ".." !in parts
    ensures Resolve(rooted, parts) == parts
  {
    if parts != [] {
      var init, last := parts[..|parts| - 1], parts[|parts| - 1];
      assert last in parts && forall x :: x in init ==> x in parts;
      NamesAreClean(rooted, init);
      assert parts == init + [last];
    }
  }

  /** With slashes they may be the same file: x/../a and a. */
  lemma NamesMayCoincide(dir: string, c: string, d: string)
    requires dir != ""
    ensures CheckpointPath(dir, c, "x/../a") == CheckpointPath(dir, d, "a")
  {
    var parts := Split(dir);
    SplitOver(dir, "a");
    SplitDetour(dir);
    ParentOfChild(Rooted(dir), parts);
    assert (parts + ["x", "..", "a"])[..|parts| + 2] == parts + ["x", ".."];
    assert (parts + ["a"])[..|parts|] == parts;
    assert Rooted(dir + "/" + "x/../a") == Rooted(dir) == Rooted(dir + "/" + "a");
    PathsEqualIff(dir, c, "x/../a", d, "a");
  }

  lemma SplitDetour(dir: string)
    ensures Split(dir + "/" + "x/../a") == Split(dir) + ["x", "..", "a"]
  {
    var child := dir + "/" + "x";
    var back := child + "/" + "..";
    SplitOver(dir, "x");
    SplitOver(child, "..");
    SplitOver(back, "a");
    Detour(dir);
  }

  lemma Detour(dir: string)
    ensures dir + "/" + "x" + "/" + ".." + "/" + "a" == dir + "/" + "x/../a"
  {
    assert "x/../a" == "x" + "/" + ".." + "/" + "a";
  }

  lemma ParentOfChild(rooted: bool, parts: seq<string>)
    ensures Resolve(rooted, parts + ["x", ".."]) == Resolve(rooted, parts)
  {
    var child := parts + ["x"];
    var back := parts + ["x", ".."];
    assert child[..|child| - 1] == parts && back[..|back| - 1] == child;
  }

  /** A temporary file is no pipeline's checkpoint. */
  lemma TmpIsNoCheckpoint(dir: string, c: string, p: string, d: string, q: string)
    ensures CheckpointPath(dir, c, p).parts != []
    ensures TmpPath(CheckpointPath(dir, c, p)) != CheckpointPath(dir, d, q)
  {
    PathIs(dir, c, p);
    PathIs(dir, d, q);
    var a, b := TmpPath(CheckpointPath(dir, c, p)).parts, CheckpointPath(dir, d, q).parts;
    var x, y := a[|a| - 1], b[|b| - 1];
    assert x[|x| - 1] == 'p' && y[|y| - 1] == 'n';
  }

  /** Reading and decoding: a missing file is no error, a torn one is. */
  function Load<T>(files: Files<T>, path: Path): Read<T> {
    if path !in files then Absent
    else if files[path].Torn? then Unreadable
    else Found(files[path].value)
  }

  // ----- Every state a crash can leave ---------------------------------------------

  /** The directory after 0, 1, 2 and 3 effects of a save: untouched, temporary file
      cut short, temporary file complete, renamed. */
  function Stage<T>(files: Files<T>, path: Path, value: T, k: nat): Files<T>
    requires k <= 3 && path.parts != []
  {
    var tmp := TmpPath(path);
    if k == 0 then files
    else if k == 1 then files[tmp := Torn]
    else if k == 2 then files[tmp := Whole(value)]
    else (files - {tmp})[path := Whole(value)]
  }

  /** The files of all pipelines in the directory but this one read as before. */
  ghost predicate OthersKept<T>(dir: string, path: Path, before: Files<T>, after: Files<T>) {
    forall d, q :: CheckpointPath(dir, d, q) != path ==>
      Load(after, CheckpointPath(dir, d, q)) == Load(before, CheckpointPath(dir, d, q))
  }

  lemma StageReads<T>(files: Files<T>, path: Path, value: T, k: nat, other: Path)
    requires k <= 3 && path.parts != [] && TmpPath(path) != path && TmpPath(path) != other
    ensures Load(Stage(files, path, value, k), path) == if k == 3 then Found(value) else Load(files, path)
    ensures other != path ==> Load(Stage(files, path, value, k), other) == Load(files, other)
  {
  }

  /** A crash at any point of a save leaves the old checkpoint or the new one readable
      under the pipeline's path, and every other pipeline's checkpoint untouched. */
  lemma SaveIsAtomic<T>(files: Files<T>, dir: string, c: string, p: string, value: T, k: nat)
    requires k <= 3
    ensures var path := CheckpointPath(dir, c, p);
            && path.parts != []
            && Load(Stage(files, path, value, k), path) == (if k == 3 then Found(value) else Load(files, path))
            && OthersKept(dir, path, files, Stage(files, path, value, k))
  {
    var path := CheckpointPath(dir, c, p);
    TmpIsNoCheckpoint(dir, c, p, c, p);
    StageReads(files, path, value, k, path);
    forall d, q | CheckpointPath(dir, d, q) != path
      ensures Load(Stage(files, path, value, k), CheckpointPath(dir, d, q)) == Load(files, CheckpointPath(dir, d, q))
    {
      TmpIsNoCheckpoint(dir, c, p, d, q);
      StageReads(files, path, value, k, CheckpointPath(dir, d, q));
    }
  }

  // ----- The persister ------------------------------------------------------------

  /** Where a save may fail; a failed write may or may not have touched the file. */
  datatype Fault = NoFault | MkdirFails | MarshalFails | WriteFails(touched: bool) | RenameFails

  class CheckpointPersister<T(==)> {
    const dir: string
    var files: Files<T>

    constructor (dir: string, files: Files<T>)
      ensures this.dir == dir && this.files == files
    {
      this.dir, this.files := dir, files;
    }

    method WriteFile(path: Path, value: T, fault: Fault) returns (ok: bool)
      modifies this`files
      ensures ok == !fault.WriteFails?
      ensures files == if ok then old(files)[path := Whole(value)]
                       else if fault.touched then old(files)[path := Torn] else old(files)
    {
      if fault.WriteFails? {
        if fault.touched {
          files := files[path := Torn];
        }
        return false;
      }
      files := files[path := Whole(value)];
      return true;
    }

    method Rename(from: Path, to: Path, fault: Fault) returns (ok: bool)
      requires from in files
      modifies this`files
      ensures ok == !fault.RenameFails?
      ensures files == if ok then (old(files) - {from})[to := old(files)[from]] else old(files)
    {
      if fault.RenameFails? {
        return false;
      }
      files := (files - {from})[to := files[from]];
      return true;
    }

    /** A save that reports success has replaced the checkpoint; one that reports an
        error has left it readable as it was. */
    method Save(cluster: string, pipeline: string, ckpt: Option<T>, fault: Fault) returns (ok: bool, ghost k: nat)
      modifies this`files
      ensures ok == (ckpt.Some? && fault.NoFault?)
      ensures Load(files, CheckpointPath(dir, cluster, pipeline))
              == if ok then Found(ckpt.value) else Load(old(files), CheckpointPath(dir, cluster, pipeline))
      ensures OthersKept(dir, CheckpointPath(dir, cluster, pipeline), old(files), files)
      ensures ckpt.None? ==> files == old(files)
      ensures CheckpointPath(dir, cluster, pipeline).parts != [] && k <= 3 && (ok <==> k == 3)
      ensures ckpt.Some? ==> files == Stage(old(files), CheckpointPath(dir, cluster, pipeline), ckpt.value, k)
    {
      ghost var before := files;
      var path := CheckpointPath(dir, cluster, pipeline);
      TmpIsNoCheckpoint(dir, cluster, pipeline, cluster, pipeline);
      k := 0;
      if ckpt.None? || fault.MkdirFails? || fault.MarshalFails? {
        return false, k;
      }
      var tmp := TmpPath(path);
      ok := WriteFile(tmp, ckpt.value, fault);
      if !ok {
        k := if fault.touched then 1 else 0;
      } else {
        ok := Rename(tmp, path, fault);
        k := if ok then 3 else 2;
      }
      assert files == Stage(before, path, ckpt.value, k);
      SaveIsAtomic(before, dir, cluster, pipeline, ckpt.value, k);
    }

    /** `fails` is any error of the read other than that the file does not exist. */
    method Read(cluster: string, pipeline: string, fails: bool) returns (r: Read<T>)
      ensures r == if fails then Unreadable else Load(files, CheckpointPath(dir, cluster, pipeline))
      ensures var path := CheckpointPath(dir, cluster, pipeline);
              && (r.Absent? <==> !fails && path !in files)
              && (r.Unreadable? <==> fails || (path in files && files[path].Torn?))
              && (r.Found? ==> path in files && files[path] == Whole(r.value))
    {
      var path := CheckpointPath(dir, cluster, pipeline);
      if fails {
        return Unreadable;
      }
      if path !in files {
        return Absent;
      }
      r := if files[path].Torn? then Unreadable else Found(files[path].value);
    }

    /** Deleting a checkpoint that is not there is no error. */
    method Delete(cluster: string, pipeline: string, fails: bool) returns (ok: bool)
      modifies this`files
      ensures ok == (CheckpointPath(dir, cluster, pipeline) !in old(files) || !fails)
      ensures files == if ok then old(files) - {CheckpointPath(dir, cluster, pipeline)} else old(files)
    {
      var path := CheckpointPath(dir, cluster, pipeline);
      if path !in files {
        assert files == files - {path};
        return true;
      }
      if fails {
        return false;
      }
      files := files - {path};
      return true;
    }
  }
}
