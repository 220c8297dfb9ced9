/** The output directory as a map from paths to written files, and the log
    of every save made to it. A final save writes its target in place; an
    intermediate save writes the temporary path and then moves it over the
    target, so the target always holds the latest save made for it. */
module Storage {
  import opened Media
  import opened Rules

  type Files = map<FilePath, WebpFile>

  /** The effect of one save on the directory. */
  function Apply(files: Files, c: Commit): Files
  {
    if c.isFinal then files[c.target := c.file]
    else (files - {TempPath(c.target)})[c.target := c.file]
  }

  /** One save: its target holds the saved file, an intermediate save
      leaves no temporary file, and every other path is left alone. */
  lemma ApplyEffect(files: Files, c: Commit)
    ensures c.target in Apply(files, c) && Apply(files, c)[c.target] == c.file
    ensures !c.isFinal ==> TempPath(c.target) !in Apply(files, c)
    ensures forall p :: p != c.target && (c.isFinal || p != TempPath(c.target)) ==>
              (p in Apply(files, c) <==> p in files) && (p in files ==> Apply(files, c)[p] == files[p])
  {
    TempPathIsSibling(c.target);
  }

  /** The directory after the saves of `log`, made in order, starting from `files`. */
  function Replay(files: Files, log: seq<Commit>): Files
  {
    if log == [] then files
    else Apply(Replay(files, log[..|log| - 1]), log[|log| - 1])
  }

  lemma ReplaySnoc(files: Files, log: seq<Commit>, c: Commit)
    ensures Replay(files, log + [c]) == Apply(Replay(files, log), c)
  {
    assert (log + [c])[..|log|] == log;
  }

  /** After any non-empty run of saves, the target of the last one holds
      exactly what was saved last, and an intermediate save leaves no
      temporary file behind. */
  lemma LatestSaveInSlot(files: Files, log: seq<Commit>)
    requires |log| > 0
    ensures log[|log| - 1].target in Replay(files, log)
    ensures Replay(files, log)[log[|log| - 1].target] == log[|log| - 1].file
    ensures !log[|log| - 1].isFinal ==> TempPath(log[|log| - 1].target) !in Replay(files, log)
  {
    TempPathIsSibling(log[|log| - 1].target);
  }

  /** Saves to other paths leave what a path holds alone, except that an
      intermediate save removes its temporary path. */
  lemma {:induction false} UntouchedPath(files: Files, log: seq<Commit>, p: FilePath)
    requires forall c :: c in log ==> c.target != p && (c.isFinal || TempPath(c.target) != p)
    ensures p in Replay(files, log) <==> p in files
    ensures p in files ==> Replay(files, log)[p] == files[p]
  {
    if log != [] {
      UntouchedPath(files, log[..|log| - 1], p);
      assert log[|log| - 1] in log;
    }
  }

  /** Writing the temporary path and then moving it over the target leaves
      the directory as if the target had been written directly and the
      temporary path removed. */
  lemma WriteThenMove(files: Files, temp: FilePath, target: FilePath, file: WebpFile)
    ensures (files[temp := file] - {temp})[target := files[temp := file][temp]] ==
              (files - {temp})[target := file]
  {
    assert files[temp := file] - {temp} == files - {temp};
  }

  /** The output directory. `log` records every save in order, and `Valid`
      says the directory is the outcome of those saves. */
  class OutputStore {
    var files: Files
    ghost var log: seq<Commit>
    ghost const initial: Files

    ghost predicate Valid()
      reads this
    {
      files == Replay(initial, log)
    }

    constructor (existing: Files)
      ensures Valid() && files == existing && log == [] && initial == existing
    {
      files := existing;
      log := [];
      initial := existing;
    }

    /** An encoder save to `path`, overwriting what was there. */
    method Save(path: FilePath, file: WebpFile)
      modifies this`files
      ensures files == old(files)[path := file]
    {
      files := files[path := file];
    }

    /** `shutil.move(src, dst)`, replacing `dst`. */
    method Move(src: FilePath, dst: FilePath)
      requires src in files
      modifies this`files
      ensures files == (old(files) - {src})[dst := old(files)[src]]
    {
      files := (files - {src})[dst := files[src]];
    }
  }
}
