/**
  Saving and loading the state file (state.rs): write a temporary file, sync it, rename it over
  the state file, sync the directory. Any step can fail, and the power can go at any point.
 */
module StateFile {
  import opened Base
  import Daemon
  import Publish

  /** A file's bytes: a complete document, or a torn write. */
  datatype Content = Whole(table: Publish.Table) | Torn

  /** What the page cache holds, and whether the disk has it too. */
  datatype File = File(content: Content, synced: bool)

  /**
    `main` and `tmp` as any reader sees them. `undo` lists the earlier `main` entries a power
    loss may bring back, because the renames that replaced them were not synced.
   */
  datatype Dir = Dir(main: Option<File>, tmp: Option<File>, undo: seq<Option<File>>)

  /** How far a save got: `partial` tells whether the temporary file was torn. */
  datatype Reached = AtWrite(partial: bool) | AtSync | AtRename | AtDirSync | Finished

  function Written(d: Dir, t: Publish.Table, torn: bool): Dir
  {
    d.(tmp := Some(File(if torn then Torn else Whole(t), false)))
  }

  function Synced(d: Dir): Dir
  {
    if d.tmp.None? then d else d.(tmp := Some(d.tmp.value.(synced := true)))
  }

  function Renamed(d: Dir): Dir
  {
    if d.tmp.None? then d else Dir(d.tmp, None, d.undo + [d.main])
  }

  function DirSynced(d: Dir): Dir
  {
    d.(undo := [])
  }

  /** The directory when a save of `t` stops at `r`, by an error or by a crash. */
  function SaveUpTo(d: Dir, t: Publish.Table, r: Reached): Dir
  {
    match r
    case AtWrite(torn) => Written(d, t, torn)
    case AtSync => Written(d, t, false)
    case AtRename => Synced(Written(d, t, false))
    case AtDirSync => Renamed(Synced(Written(d, t, false)))
    case Finished => DirSynced(Renamed(Synced(Written(d, t, false))))
  }

  /** A missing file starts empty; a torn one is refused. */
  function Load(main: Option<File>): Option<Publish.Table>
  {
    if main.None? then Some(map[])
    else if main.value.content.Whole? then Some(main.value.content.table)
    else None
  }

  /** A power loss keeps the current entry or an unsynced predecessor; an unsynced file may come back as anything. */
  ghost predicate MayLeave(d: Dir, main: Option<File>)
  {
    exists before ::
      && (before == d.main || before in d.undo)
      && (main == before || (before.Some? && main.Some? && !before.value.synced))
  }

  predicate Solid(main: Option<File>)
  {
    main.Some? ==> main.value.synced && main.value.content.Whole?
  }

  /** Every entry that can ever be read back is a synced, complete document. */
  predicate Safe(d: Dir)
  {
    Solid(d.main) && forall i :: 0 <= i < |d.undo| ==> Solid(d.undo[i])
  }

  function LoadSolid(main: Option<File>): Publish.Table
    requires Solid(main)
  {
    Load(main).value
  }

  /** The daemon's view of the disk: what is read now, and what a power loss may leave. */
  ghost function View(d: Dir): Daemon.Disk
    requires Safe(d)
  {
    Daemon.Disk(LoadSolid(d.main), {LoadSolid(d.main)} + set i | 0 <= i < |d.undo| :: LoadSolid(d.undo[i]))
  }

  /** How the daemon's save outcome follows from where the save stopped. */
  function OutcomeOf(r: Reached): Daemon.Save
  {
    match r
    case Finished => Daemon.Saved
    case AtDirSync => Daemon.NotSynced
    case _ => Daemon.NotRenamed
  }

  /** Wherever a save stops, the directory stays safe and looks to the daemon as its save outcome says. */
  lemma SaveRefinesWrite(d: Dir, t: Publish.Table, r: Reached)
    requires Safe(d)
    ensures Safe(SaveUpTo(d, t, r))
    ensures View(SaveUpTo(d, t, r)) == Daemon.Write(View(d), t, OutcomeOf(r))
  {
    var d' := SaveUpTo(d, t, r);
    if r.AtDirSync? {
      assert d'.undo == d.undo + [d.main];
      UndoAppend(d, d'.main);
    } else if r.Finished? {
      assert View(d').durable == {t};
    }
  }

  lemma UndoAppend(d: Dir, main: Option<File>)
    requires Safe(d) && Solid(main)
    ensures Safe(Dir(main, None, d.undo + [d.main]))
    ensures View(Dir(main, None, d.undo + [d.main])).durable == View(d).durable + {LoadSolid(main)}
  {
    var d' := Dir(main, None, d.undo + [d.main]);
    assert forall i :: 0 <= i < |d.undo| ==> d'.undo[i] == d.undo[i];
    assert d'.undo[|d.undo|] == d.main;
    forall x | x in View(d).durable ensures x in View(d').durable {
      if x == LoadSolid(d.main) {
        assert LoadSolid(d'.undo[|d.undo|]) == x;
      } else {
        var i :| 0 <= i < |d.undo| && LoadSolid(d.undo[i]) == x;
        assert LoadSolid(d'.undo[i]) == x;
      }
    }
  }

  /**
    At every point of a save, a power loss followed by a load gives a whole table: the new one
    or one that could have been loaded before. Once the save has finished it gives the new one.
   */
  lemma CrashSeesOldOrNew(d: Dir, t: Publish.Table, r: Reached, main: Option<File>)
    requires Safe(d) && MayLeave(SaveUpTo(d, t, r), main)
    ensures Load(main).Some?
    ensures Load(main).value == t || Load(main).value in View(d).durable
    ensures r.Finished? ==> Load(main).value == t
  {
    SaveRefinesWrite(d, t, r);
    var d' := SaveUpTo(d, t, r);
    var before :| (before == d'.main || before in d'.undo)
               && (main == before || (before.Some? && main.Some? && !before.value.synced));
    if before in d'.undo {
      var i :| 0 <= i < |d'.undo| && d'.undo[i] == before;
      assert LoadSolid(d'.undo[i]) in View(d').durable;
    }
    assert main == before;
  }

  /** The directory object: the save sequence step by step, stopping at the first failure. */
  class StateDir {
    var dir: Dir

    constructor ()
      ensures dir == Dir(None, None, [])
    {
      dir := Dir(None, None, []);
    }

    /** `fails` says which step the file system refuses, if any. */
    method Save(t: Publish.Table, fails: Reached) returns (ok: bool)
      requires Safe(dir)
      modifies this
      ensures Safe(dir) && ok == fails.Finished?
      ensures dir == SaveUpTo(old(dir), t, fails)
      ensures View(dir) == Daemon.Write(old(View(dir)), t, OutcomeOf(fails))
    {
      SaveRefinesWrite(dir, t, fails);
      if fails.AtWrite? {
        dir := Written(dir, t, fails.partial);
        return false;
      }
      dir := Written(dir, t, false);
      if fails.AtSync? {
        return false;
      }
      dir := Synced(dir);
      if fails.AtRename? {
        return false;
      }
      dir := Renamed(dir);
      if fails.AtDirSync? {
        return false;
      }
      dir := DirSynced(dir);
      return true;
    }
  }
}
