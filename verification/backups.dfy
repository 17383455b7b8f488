/** Backup directories and the working tree, as maps from path to content:
    what the `patch` tool saves when run with `--backup`, how
    `RollbackPatch` restores it (quilt/patch.py), and the copy/placeholder
    policy of `Backup.backup_file` (quilt/backup.py). A backup with empty
    content stands for a file that did not exist: `patch` saves an empty
    file for a file it creates. */
module Backups {

  import opened Wrappers

  type Tree = map<string, string>

  /** The file at `p` differs between `a` and `b`: created, removed or rewritten. */
  predicate Changed(a: Tree, b: Tree, p: string) {
    (p in a) != (p in b) || (p in a && p in b && a[p] != b[p])
  }

  /** The backups `patch --backup` leaves for a run that turned `before`
      into `after`: each file it changed, with its content before, empty
      for a file it created. */
  function Touched(before: Tree, after: Tree): (b: Tree)
    ensures forall p :: p in b <==> Changed(before, after, p)
    ensures forall p | p in b :: b[p] == (if p in before then before[p] else "")
  {
    map p | p in before.Keys + after.Keys && Changed(before, after, p) ::
      if p in before then before[p] else ""
  }

  /** `RollbackPatch.rollback(keep)` over the listed files of the backup
      directory: without `keep` the working file is removed first; a
      non-empty backup is then copied over it. */
  function Rollback(tree: Tree, backup: Tree, keep: bool): (r: Tree)
    ensures forall p | p in backup && backup[p] != "" :: p in r && r[p] == backup[p]
    ensures forall p | p in backup && backup[p] == "" && !keep :: p !in r
    ensures forall p | p in backup && backup[p] == "" && keep ::
              (p in r <==> p in tree) && (p in tree ==> r[p] == tree[p])
    ensures forall p | p !in backup :: (p in r <==> p in tree) && (p in tree ==> r[p] == tree[p])
  {
    map p | p in tree.Keys + backup.Keys
              && (p in backup ==> backup[p] != "" || (keep && p in tree)) ::
      if p in backup && backup[p] != "" then backup[p] else tree[p]
  }

  /** The tree with the files that were empty where `patch` changed them
      gone: a rollback cannot tell an empty file from a missing one. */
  function WithoutEmptyTouched(before: Tree, after: Tree): (r: Tree)
    ensures forall p :: p in r <==> p in before && !(before[p] == "" && Changed(before, after, p))
    ensures forall p | p in r :: r[p] == before[p]
  {
    map p | p in before && !(before[p] == "" && Changed(before, after, p)) :: before[p]
  }

  /** Rolling back a `patch` run from its backups restores the tree it
      started from, except that files which were empty and which it
      touched are gone. */
  lemma RollbackRestores(before: Tree, after: Tree)
    ensures Rollback(after, Touched(before, after), false) == WithoutEmptyTouched(before, after)
  {
    var r := Rollback(after, Touched(before, after), false);
    var w := WithoutEmptyTouched(before, after);
    forall p ensures (p in r <==> p in w) && (p in r ==> r[p] == w[p]) {
      if Changed(before, after, p) {
        assert p in Touched(before, after);
      }
    }
  }

  /** With no empty file among those it touched, rolling back restores the
      tree exactly. */
  lemma RollbackRestoresExactly(before: Tree, after: Tree)
    requires forall p | p in before && Changed(before, after, p) :: before[p] != ""
    ensures Rollback(after, Touched(before, after), false) == before
  {
    RollbackRestores(before, after);
  }

  /** A run that changed nothing leaves nothing to back up, and the other
      way round. */
  lemma NothingTouched(before: Tree, after: Tree)
    ensures Touched(before, after) == map[] <==> after == before
  {
    if Touched(before, after) == map[] {
      forall p ensures (p in before <==> p in after) && (p in before ==> before[p] == after[p]) {
        assert !Changed(before, after, p) by {
          assert p !in Touched(before, after);
        }
      }
    }
  }

  /** With `keep` no working file is removed; without it, exactly those
      whose backup is empty are. */
  lemma KeepSparesEmptyBackups(tree: Tree, backup: Tree)
    ensures forall p | p in tree :: p in Rollback(tree, backup, true)
    ensures forall p | p in tree :: p !in Rollback(tree, backup, false) <==> p in backup && backup[p] == ""
    ensures forall p | p in backup && backup[p] == "" && p in tree ::
              p in Rollback(tree, backup, true) && p !in Rollback(tree, backup, false)
  {
  }

  /** `Backup.backup_file(filename, dest_dir, copy_empty)`: the backup
      directory after the call, `None` while it does not exist. An existing
      file is copied unless it is empty and `copy_empty` is off; a missing
      file gets an empty placeholder. */
  function BackupFile(tree: Tree, file: string, dest: Option<Tree>, copyEmpty: bool): (r: Option<Tree>)
    ensures file in tree && tree[file] == "" && !copyEmpty ==> r == dest
    ensures !(file in tree && tree[file] == "" && !copyEmpty) ==>
              r.Some? && file in r.value
              && r.value[file] == (if file in tree then tree[file] else "")
              && forall q | q != file :: (q in r.value <==> dest.Some? && q in dest.value)
                                         && (q in r.value ==> r.value[q] == dest.value[q])
  {
    if file in tree then
      if !copyEmpty && tree[file] == "" then dest
      else Some(dest.GetOr(map[])[file := tree[file]])
    else Some(dest.GetOr(map[])[file := ""])
  }

  /** Backing a file up twice, with the tree unchanged, is backing it up once. */
  lemma BackupFileIdempotent(tree: Tree, file: string, dest: Option<Tree>, copyEmpty: bool)
    ensures var once := BackupFile(tree, file, dest, copyEmpty);
            BackupFile(tree, file, once, copyEmpty) == once
  {
    var once := BackupFile(tree, file, dest, copyEmpty);
    if once.Some? && once != dest {
      var c := once.value[file];
      assert once.value[file := c] == once.value;
    }
  }

  /** Restoring from a backup directory that holds a file's placeholder
      removes the file; from one holding its copy, restores the copy. */
  lemma BackupThenRollback(tree: Tree, file: string, later: Tree)
    requires file !in tree || tree[file] != ""
    ensures var b := BackupFile(tree, file, None, true).value;
            var r := Rollback(later, b, false);
            (file in r <==> file in tree) && (file in tree ==> r[file] == tree[file])
  {
  }
}
