/** The output directory as `write_text` sees it: text files that are only
    ever appended to, where any single append may fail. */
module Files {

  /** The contents of `path`; a file that does not exist reads as empty, as
      opening it in append mode creates it. */
  function Content(files: map<string, string>, path: string): string {
    if path in files then files[path] else ""
  }

  /** The files after `data` is appended to `path`. */
  function Appended(files: map<string, string>, path: string, data: string): (r: map<string, string>)
    ensures Content(r, path) == Content(files, path) + data
    ensures forall p :: p != path ==> Content(r, p) == Content(files, p)
    ensures r.Keys == files.Keys + {path}
  {
    files[path := Content(files, path) + data]
  }

  /** The files after the appends of `datas[k]` to `paths[k]` are attempted in
      order, `oks[k]` telling whether the `k`-th one succeeded. */
  function AppendAll(files: map<string, string>, paths: seq<string>, datas: seq<string>, oks: seq<bool>)
    : map<string, string>
    requires |datas| == |paths| && |oks| == |paths|
  {
    if paths == [] then files
    else
      var n := |paths| - 1;
      var before := AppendAll(files, paths[..n], datas[..n], oks[..n]);
      if oks[n] then Appended(before, paths[n], datas[n]) else before
  }

  /** One more attempted append, the one of `paths[i]`, extends the appends
      of the first `i` items. */
  lemma AppendAllStep(files: map<string, string>, paths: seq<string>, datas: seq<string>, oks: seq<bool>,
                      i: nat, ok: bool)
    requires i < |paths| && |datas| == |paths| && |oks| == i
    ensures AppendAll(files, paths[..i + 1], datas[..i + 1], oks + [ok])
         == if ok then Appended(AppendAll(files, paths[..i], datas[..i], oks), paths[i], datas[i])
            else AppendAll(files, paths[..i], datas[..i], oks)
  {
    assert paths[..i + 1][..i] == paths[..i];
    assert datas[..i + 1][..i] == datas[..i];
    assert (oks + [ok])[..i] == oks;
  }

  /** What `path` gains: the data of the successful appends to it, in order. */
  function Gained(paths: seq<string>, datas: seq<string>, oks: seq<bool>, path: string): string
    requires |datas| == |paths| && |oks| == |paths|
  {
    if paths == [] then ""
    else (if paths[0] == path && oks[0] then datas[0] else "") + Gained(paths[1..], datas[1..], oks[1..], path)
  }

  lemma {:induction false} GainedSnoc(paths: seq<string>, datas: seq<string>, oks: seq<bool>, path: string)
    requires |datas| == |paths| && |oks| == |paths| && paths != []
    ensures var n := |paths| - 1;
      Gained(paths, datas, oks, path)
      == Gained(paths[..n], datas[..n], oks[..n], path) + (if paths[n] == path && oks[n] then datas[n] else "")
  {
    var n := |paths| - 1;
    if n > 0 {
      GainedSnoc(paths[1..], datas[1..], oks[1..], path);
      assert paths[1..][..n - 1] == paths[..n][1..];
      assert datas[1..][..n - 1] == datas[..n][1..];
      assert oks[1..][..n - 1] == oks[..n][1..];
    }
  }

  /** Each file ends up as its old contents followed by exactly the records
      successfully appended to it, in the order they were attempted. */
  lemma {:induction false} AppendAllContent(files: map<string, string>, paths: seq<string>, datas: seq<string>,
                                            oks: seq<bool>, path: string)
    requires |datas| == |paths| && |oks| == |paths|
    ensures Content(AppendAll(files, paths, datas, oks), path) == Content(files, path) + Gained(paths, datas, oks, path)
  {
    if paths != [] {
      var n := |paths| - 1;
      AppendAllContent(files, paths[..n], datas[..n], oks[..n], path);
      GainedSnoc(paths, datas, oks, path);
    }
  }

  /** A failed append only costs its own file its record: every other file
      gains the same as if it had succeeded. */
  lemma {:induction false} FailureIsolated(paths: seq<string>, datas: seq<string>, oks: seq<bool>, j: nat, path: string)
    requires |datas| == |paths| && |oks| == |paths| && j < |paths| && path != paths[j]
    ensures Gained(paths, datas, oks[j := false], path) == Gained(paths, datas, oks[j := true], path)
  {
    if j > 0 {
      assert oks[j := false][1..] == oks[1..][j - 1 := false];
      assert oks[j := true][1..] == oks[1..][j - 1 := true];
      FailureIsolated(paths[1..], datas[1..], oks[1..], j - 1, path);
    }
  }

  /** The files of the output directory. Their contents are ghost: the model
      records what is written, not how. */
  class FileStore {
    ghost var files: map<string, string>

    constructor (ghost initial: map<string, string>)
      ensures files == initial
    {
      files := initial;
    }

    /** `open(path, "a")` and the writes: either all of `data` is added at the
        end of the file, or the attempt fails (the path is invalid, the
        directory is not writable, ...) and nothing changes. */
    method Append(path: string, data: string) returns (ok: bool)
      modifies this
      ensures files == if ok then Appended(old(files), path, data) else old(files)
    {
      ok := *;
      if ok {
        files := Appended(files, path, data);
      }
    }
  }
}
