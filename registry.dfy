/** The model registry: one entry per name found in the `models`
    directory, each pointing at that name's checkpoint and style image.
    The directory listing itself is input; the paths are built with
    POSIX `os.path.join`. */
module Registry {

  datatype Option<T> = None | Some(value: T)

  /** A registry entry: the checkpoint to restore and the style image to
      show beside the output. */
  datatype ModelEntry = ModelEntry(ckpt: string, style: string)

  const ModelsDir: string := "models"
  const CheckpointFile: string := "fns.ckpt"
  const StyleFile: string := "img.jpg"

  /** POSIX `os.path.join(a, b)`: an absolute `b` replaces `a`; otherwise
      `b` is appended, with a `/` between unless `a` is empty or already
      ends in one. */
  function Join(a: string, b: string): (r: string)
    ensures |b| > 0 && b[0] == '/' ==> r == b
    ensures !(|b| > 0 && b[0] == '/') ==> a <= r && |r| <= |a| + 1 + |b|
  {
    if |b| > 0 && b[0] == '/' then b
    else if a == "" || a[|a| - 1] == '/' then a + b
    else a + "/" + b
  }

  /** What `os.listdir` can return: a non-empty name with no `/` in it. */
  predicate IsEntryName(d: string)
  {
    |d| > 0 && '/' !in d
  }

  /** `os.path.join(a, b, c)` folds the two-argument join from the left.
      Under a directory that does not end in `/`, two listed names are
      joined with exactly one `/` before each. */
  function Join3(a: string, b: string, c: string): (r: string)
    ensures a != "" && a[|a| - 1] != '/' && IsEntryName(b) && IsEntryName(c) ==>
              r == a + "/" + b + "/" + c
  {
    var ab := Join(a, b);
    if a != "" && a[|a| - 1] != '/' && IsEntryName(b) && IsEntryName(c) then
      assert b[0] != '/' && c[0] != '/';
      assert ab == a + "/" + b && ab[|ab| - 1] == b[|b| - 1] != '/';
      Join(ab, c)
    else
      Join(ab, c)
  }

  /** The fixed parts of the paths: a directory without a trailing `/`,
      and two file names that a listing could produce. */
  lemma FixedNames()
    ensures ModelsDir != "" && ModelsDir[|ModelsDir| - 1] != '/'
    ensures IsEntryName(CheckpointFile) && IsEntryName(StyleFile)
  {
  }

  /** The entry built for the directory name `d`: for a name that a
      directory listing can produce, exactly `models/<d>/fns.ckpt` and
      `models/<d>/img.jpg`. */
  function EntryFor(d: string): (e: ModelEntry)
    ensures IsEntryName(d) ==>
              e.ckpt == ModelsDir + "/" + d + "/" + CheckpointFile && e.style == ModelsDir + "/" + d + "/" + StyleFile
  {
    FixedNames();
    ModelEntry(Join3(ModelsDir, d, CheckpointFile), Join3(ModelsDir, d, StyleFile))
  }

  /** Recovers the directory name from a checkpoint path of the form
      `models/<d>/fns.ckpt`; the inverse of the entry's checkpoint path. */
  function NameOfCheckpoint(p: string): (r: Option<string>)
    ensures r.Some? ==> p == ModelsDir + "/" + r.value + "/" + CheckpointFile
  {
    var pre := ModelsDir + "/";
    var suf := "/" + CheckpointFile;
    if |p| >= |pre| + |suf| && p[..|pre|] == pre && p[|p| - |suf|..] == suf
    then
      var d := p[|pre|..|p| - |suf|];
      assert p == pre + d + suf;
      assert pre + d + suf == ModelsDir + "/" + d + "/" + CheckpointFile;
      Some(d)
    else None
  }

  /** The checkpoint path determines the directory name it was built from. */
  lemma NameOfCheckpointRoundTrip(d: string)
    requires IsEntryName(d)
    ensures NameOfCheckpoint(EntryFor(d).ckpt) == Some(d)
  {
    var pre, suf := ModelsDir + "/", "/" + CheckpointFile;
    var p := ModelsDir + "/" + d + "/" + CheckpointFile;
    assert p == pre + d + suf;
    assert p[..|pre|] == pre && p[|p| - |suf|..] == suf && p[|pre|..|p| - |suf|] == d;
  }

  /** Two listed names give the same entry only if they are the same name. */
  lemma EntryForInjective(d1: string, d2: string)
    requires IsEntryName(d1) && IsEntryName(d2)
    requires EntryFor(d1) == EntryFor(d2)
    ensures d1 == d2
  {
    NameOfCheckpointRoundTrip(d1);
    NameOfCheckpointRoundTrip(d2);
  }

  /** `load_all_models`: one entry per listed name, in listing order. The
      names are what `os.listdir("models")` returned (every entry of the
      directory, files as well as subdirectories); `os.listdir` never
      repeats a name, so distinct names give distinct entries. */
  method LoadAllModels(names: seq<string>) returns (ret: seq<ModelEntry>)
    ensures |ret| == |names|
    ensures forall i :: 0 <= i < |ret| ==> ret[i] == EntryFor(names[i])
    ensures forall i :: 0 <= i < |ret| && IsEntryName(names[i]) ==>
              ret[i].ckpt == ModelsDir + "/" + names[i] + "/" + CheckpointFile &&
              ret[i].style == ModelsDir + "/" + names[i] + "/" + StyleFile
    ensures forall i, j ::
              (0 <= i < |ret| && 0 <= j < |ret| &&
               IsEntryName(names[i]) && IsEntryName(names[j]) && names[i] != names[j]) ==>
              ret[i] != ret[j]
  {
    ret := [];
    for k := 0 to |names|
      invariant |ret| == k
      invariant forall i :: 0 <= i < k ==> ret[i] == EntryFor(names[i])
    {
      ret := ret + [EntryFor(names[k])];
    }
    forall i, j | 0 <= i < |ret| && 0 <= j < |ret| &&
        IsEntryName(names[i]) && IsEntryName(names[j]) && names[i] != names[j]
      ensures ret[i] != ret[j]
    {
      if ret[i] == ret[j] {
        EntryForInjective(names[i], names[j]);
      }
    }
  }
}
