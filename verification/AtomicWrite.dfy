/** The crash-safe settings write of `app/src/atomic-write.ts` and its fallback reader. */
module AtomicWrite {
  import opened ByteStrings

  /** The settings file, its backup, and the temporary siblings (told apart by pid and clock). */
  datatype Name = Target | Bak | Tmp(stamp: nat)

  type Files = map<Name, Bytes>

  /** What the file system does to `copyFileSync`: complete it, fail (or be killed) after `n` bytes have
      reached the truncated backup, or fail before touching the backup. */
  datatype CopyFate = Copies | CopiesOnly(n: nat) | CopyRefused

  /** How one save goes. `written` is how many bytes the single `writeSync` takes, `killedAfter` how many
      of the five steps open, write, fsync, copy, rename run before the process dies (5: it survives). */
  datatype Fate = Fate(
    opens: bool, written: nat, writeFails: bool, syncs: bool, unlinks: bool, copy: CopyFate, renames: bool,
    killedAfter: nat)

  datatype Call = Call(content: Bytes, keepBackup: bool, stamp: nat, fate: Fate)

  datatype Outcome = Saved | Threw | Killed

  function Prefix(s: Bytes, n: nat): Bytes { if n < |s| then s[..n] else s }

  function Unlinked(files: Files, name: Name, works: bool): Files {
    if works then files - {name} else files
  }

  function CopiedToBak(files: Files, copy: CopyFate): Files
    requires Target in files
  {
    match copy
    case Copies => files[Bak := files[Target]]
    case CopiesOnly(n) => files[Bak := Prefix(files[Target], n)]
    case CopyRefused => files
  }

  /** The effect of one call, step by step. */
  function Save(files: Files, c: Call): (Files, Outcome) {
    var tmp, f := Tmp(c.stamp), c.fate;
    if f.killedAfter == 0 then (files, Killed)
    else if !f.opens then (Unlinked(files, tmp, f.unlinks), Threw)
    else
      var f1 := files[tmp := []];
      if f.killedAfter == 1 then (f1, Killed)
      else
        var f2 := f1[tmp := Prefix(c.content, f.written)];
        if f.killedAfter == 2 then (f2, Killed)
        else if f.writeFails then (Unlinked(f2, tmp, f.unlinks), Threw)
        else if f.killedAfter == 3 then (f2, Killed)
        else if !f.syncs then (Unlinked(f2, tmp, f.unlinks), Threw)
        else
          var f3 := if c.keepBackup && Target in f2 then CopiedToBak(f2, f.copy) else f2;
          if f.killedAfter == 4 then (f3, Killed)
          else if !f.renames then (Unlinked(f3, tmp, f.unlinks), Threw)
          else ((f3 - {tmp})[Target := f3[tmp]], Saved)
  }

  /** The rename of the call happened. */
  predicate Renames(files: Files, c: Call) {
    Save(files, c).1 == Saved
  }

  /** The bytes the call put into its temporary file. */
  function Stored(c: Call): Bytes { Prefix(c.content, c.fate.written) }

  // ---------------------------------------------------------------- the reader

  /** First candidate that exists, is readable and is not empty. */
  function Read(files: Files, unreadable: set<Name>): Option<Bytes> {
    if Usable(files, unreadable, Target) then Some(files[Target])
    else if Usable(files, unreadable, Bak) then Some(files[Bak])
    else None
  }

  predicate Usable(files: Files, unreadable: set<Name>, name: Name) {
    name in files && name !in unreadable && files[name] != []
  }

  // ---------------------------------------------------------------- the procedures

  class Disk {
    var files: Files

    constructor (files: Files)
      ensures this.files == files
    {
      this.files := files;
    }

    method Unlink(name: Name, works: bool)
      modifies this
      ensures files == Unlinked(old(files), name, works)
    {
      if works {
        files := files - {name};
      }
    }

    method AtomicWriteFileSync(c: Call) returns (outcome: Outcome)
      modifies this
      ensures (files, outcome) == Save(old(files), c)
    {
      var tmp, fate := Tmp(c.stamp), c.fate;
      if fate.killedAfter == 0 { return Killed; }
      var err := !fate.opens;
      if !err {
        files := files[tmp := []];
        if fate.killedAfter == 1 { return Killed; }
        files := files[tmp := Prefix(c.content, fate.written)];
        if fate.killedAfter == 2 { return Killed; }
        err := fate.writeFails;
        if !err {
          if fate.killedAfter == 3 { return Killed; }
          err := !fate.syncs;
        }
      }
      if err {
        Unlink(tmp, fate.unlinks);
        return Threw;
      }
      if c.keepBackup && Target in files {
        match fate.copy
        case Copies => files := files[Bak := files[Target]];
        case CopiesOnly(n) => files := files[Bak := Prefix(files[Target], n)];
        case CopyRefused =>
      }
      if fate.killedAfter == 4 { return Killed; }
      if !fate.renames {
        Unlink(tmp, fate.unlinks);
        return Threw;
      }
      files := (files - {tmp})[Target := files[tmp]];
      outcome := Saved;
    }

    method ReadWithBackupFallback(unreadable: set<Name>) returns (r: Option<Bytes>)
      ensures r == Read(files, unreadable)
    {
      var candidates := [Target, Bak];
      for n := 0 to |candidates|
        invariant forall k :: 0 <= k < n ==> !Usable(files, unreadable, candidates[k])
      {
        var candidate := candidates[n];
        if candidate !in files { continue; }
        if candidate in unreadable { continue; }
        if |files[candidate]| == 0 { continue; }
        assert n == 1 ==> !Usable(files, unreadable, candidates[0]);
        assert Usable(files, unreadable, candidate);
        return Some(files[candidate]);
      }
      assert !Usable(files, unreadable, candidates[0]) && !Usable(files, unreadable, candidates[1]);
      r := None;
    }
  }

  // ---------------------------------------------------------------- any sequence of saves

  function SaveAll(files: Files, calls: seq<Call>): Files
    decreases |calls|
  {
    if calls == [] then files else Save(SaveAll(files, calls[..|calls| - 1]), calls[|calls| - 1]).0
  }

  /** Call `i` is the last whose rename happened. */
  ghost predicate LastRenamed(calls: seq<Call>, i: nat) {
    && i < |calls| && Renames(SaveAll(map[], calls[..i]), calls[i])
    && forall k :: i < k < |calls| ==> !Renames(SaveAll(map[], calls[..k]), calls[k])
  }

  ghost predicate NoneRenamed(calls: seq<Call>) {
    forall k :: 0 <= k < |calls| ==> !Renames(SaveAll(map[], calls[..k]), calls[k])
  }

  /** A call that does not rename leaves the target alone, and makes no backup of a missing target. */
  lemma SaveWithoutRename(files: Files, c: Call)
    requires !Renames(files, c)
    ensures var r := Save(files, c).0;
            && (Target in r <==> Target in files) && (Target in files ==> r[Target] == files[Target])
            && (Target !in files ==> (Bak in r <==> Bak in files))
  {
  }

  lemma SaveWithRename(files: Files, c: Call)
    requires Renames(files, c)
    ensures var r := Save(files, c).0; Target in r && r[Target] == Stored(c)
  {
  }

  /** The target holds what the last renaming save stored; before the first rename there is neither a
      target nor a backup. */
  ghost predicate Reflects(files: Files, calls: seq<Call>) {
    || (NoneRenamed(calls) && Target !in files && Bak !in files)
    || exists i: nat :: LastRenamed(calls, i) && Target in files && files[Target] == Stored(calls[i])
  }

  lemma RenamingExtends(calls: seq<Call>, n: nat)
    requires |calls| == n + 1 && Renames(SaveAll(map[], calls[..n]), calls[n])
    ensures LastRenamed(calls, n)
  {
  }

  lemma QuietExtends(calls: seq<Call>, n: nat)
    requires |calls| == n + 1 && !Renames(SaveAll(map[], calls[..n]), calls[n])
    ensures NoneRenamed(calls[..n]) ==> NoneRenamed(calls)
    ensures forall i: nat :: LastRenamed(calls[..n], i) ==> LastRenamed(calls, i)
  {
    hide SaveAll, Renames;
    assert forall k :: 0 <= k <= n ==> calls[..n][..k] == calls[..k];
  }

  lemma {:induction false} FilesReflectCalls(calls: seq<Call>)
    ensures Reflects(SaveAll(map[], calls), calls)
    decreases |calls|
  {
    hide Save, Renames, LastRenamed, NoneRenamed;
    if calls == [] {
      assert NoneRenamed(calls) by { NoCallsNoRenames(); }
    } else {
      var n := |calls| - 1;
      var before, c := calls[..n], calls[n];
      FilesReflectCalls(before);
      var files := SaveAll(map[], before);
      if Renames(files, c) {
        SaveWithRename(files, c);
        RenamingExtends(calls, n);
      } else {
        SaveWithoutRename(files, c);
        QuietExtends(calls, n);
        assert forall i: nat :: LastRenamed(before, i) ==> i < n by { LastIsInside(before); }
      }
    }
  }

  lemma NoCallsNoRenames()
    ensures NoneRenamed([])
  {
  }

  lemma LastIsInside(calls: seq<Call>)
    ensures forall i: nat :: LastRenamed(calls, i) ==> i < |calls|
  {
  }

  lemma TargetIsLastRenamed(calls: seq<Call>)
    ensures var files := SaveAll(map[], calls);
            && (NoneRenamed(calls) ==> Target !in files && Bak !in files)
            && (forall i: nat :: LastRenamed(calls, i) ==> Target in files && files[Target] == Stored(calls[i]))
  {
    hide SaveAll, Renames;
    FilesReflectCalls(calls);
  }

  /** Over any sequence of saves, each failing or killed after any step: if nothing was ever renamed the
      reader finds nothing; otherwise it returns what the last renamed save stored, or, if that save
      stored no byte, whatever the backup holds. */
  lemma ReaderSeesLastRenamed(calls: seq<Call>)
    ensures NoneRenamed(calls) ==> Read(SaveAll(map[], calls), {}) == None
    ensures forall i: nat :: LastRenamed(calls, i) ==>
              Read(SaveAll(map[], calls), {}) ==
                if Stored(calls[i]) != [] then Some(Stored(calls[i])) else BackupContent(SaveAll(map[], calls))
  {
    hide SaveAll;
    TargetIsLastRenamed(calls);
  }

  function BackupContent(files: Files): Option<Bytes> {
    if Bak in files && files[Bak] != [] then Some(files[Bak]) else None
  }

  /** `writeSync` may take fewer bytes than it was given and the code does not look at its result. The
      reader returns the saved content exactly if the write was complete, or took nothing at all while
      the backup happens to hold the same content. */
  lemma ContentSurvivesIffWriteComplete(calls: seq<Call>, i: nat)
    requires LastRenamed(calls, i) && calls[i].content != []
    ensures var files, c := SaveAll(map[], calls), calls[i];
            Read(files, {}) == Some(c.content) <==>
              c.fate.written >= |c.content| || (c.fate.written == 0 && Bak in files && files[Bak] == c.content)
  {
    hide SaveAll;
    ReaderSeesLastRenamed(calls);
    assert calls[i].fate.written == 0 <==> Stored(calls[i]) == [];
  }

  /** The backup never holds anything but a prefix of what some renamed save stored. */
  ghost predicate FromSave(calls: seq<Call>, s: Bytes) {
    exists j: nat :: j < |calls| && Renames(SaveAll(map[], calls[..j]), calls[j]) && s <= Stored(calls[j])
  }

  lemma FromSaveExtends(calls: seq<Call>, n: nat, s: Bytes)
    requires |calls| == n + 1 && FromSave(calls[..n], s)
    ensures FromSave(calls, s)
  {
    hide SaveAll, Renames;
    var j: nat :| j < n && Renames(SaveAll(map[], calls[..n][..j]), calls[..n][j]) && s <= Stored(calls[..n][j]);
    assert calls[..n][..j] == calls[..j] && calls[..n][j] == calls[j];
  }

  lemma TargetIsFromSave(calls: seq<Call>)
    requires Target in SaveAll(map[], calls)
    ensures FromSave(calls, SaveAll(map[], calls)[Target])
  {
    hide SaveAll, Renames;
    FilesReflectCalls(calls);
  }

  lemma SaveBackup(files: Files, c: Call)
    requires Bak in Save(files, c).0
    ensures var bak := Save(files, c).0[Bak];
            (Bak in files && bak == files[Bak]) || (Target in files && bak <= files[Target])
  {
  }

  lemma {:induction false} BackupIsFromSave(calls: seq<Call>)
    requires Bak in SaveAll(map[], calls)
    ensures FromSave(calls, SaveAll(map[], calls)[Bak])
    decreases |calls|
  {
    hide Save, Renames, FromSave;
    if calls != [] {
      var n := |calls| - 1;
      var before, bak := SaveAll(map[], calls[..n]), SaveAll(map[], calls)[Bak];
      SaveBackup(before, calls[n]);
      if Bak in before && bak == before[Bak] {
        BackupIsFromSave(calls[..n]);
      } else {
        TargetIsFromSave(calls[..n]);
        PrefixFromSave(calls[..n], before[Target], bak);
      }
      FromSaveExtends(calls, n, bak);
    }
  }

  lemma PrefixFromSave(calls: seq<Call>, s: Bytes, t: Bytes)
    requires FromSave(calls, s) && t <= s
    ensures FromSave(calls, t)
  {
    hide SaveAll, Renames;
  }

  /** So whatever the reader returns is a prefix of what some renamed save stored. */
  lemma ReaderReturnsSaved(calls: seq<Call>, unreadable: set<Name>)
    ensures var r := Read(SaveAll(map[], calls), unreadable); r.Some? ==> FromSave(calls, r.value)
  {
    hide SaveAll, FromSave;
    var files := SaveAll(map[], calls);
    if Target in files { TargetIsFromSave(calls); }
    if Bak in files { BackupIsFromSave(calls); }
  }

  /** A concrete save that reports success and is read back truncated. */
  lemma ShortWriteIsRenamed()
    ensures var c := Call([1, 2], false, 0, Fate(true, 1, false, true, true, Copies, true, 5));
            && Renames(map[], c)
            && Read(Save(map[], c).0, {}) == Some([1]) != Some(c.content)
  {
    assert Prefix([1, 2], 1) == [1];
  }

  // ---------------------------------------------------------------- the backup

  /** The target is lost, or cut to nothing. */
  function Lose(files: Files): Files { files - {Target} }

  function Truncate(files: Files): Files { files[Target := []] }

  /** After a save with a completed backup copy, the version before it is what the reader finds once
      the target is lost, truncated to nothing or unreadable. */
  lemma BackupYieldsPrevious(files: Files, c: Call)
    requires Renames(files, c) && c.keepBackup && c.fate.copy == Copies
    requires Target in files && files[Target] != []
    ensures var r := Save(files, c).0;
            && Read(Lose(r), {}) == Some(files[Target])
            && Read(Truncate(r), {}) == Some(files[Target])
            && Read(r, {Target}) == Some(files[Target])
  {
    var r := Save(files, c).0;
    assert Bak in r && r[Bak] == files[Target];
  }

  /** The backup step is best effort: exactly when the copy does not complete, or would copy the same
      bytes anyway, can the fallback differ from the previous version. */
  lemma BackupIff(files: Files, c: Call)
    requires Renames(files, c) && Target in files && files[Target] != []
    ensures Read(Lose(Save(files, c).0), {}) == Some(files[Target]) <==>
              || (c.keepBackup && (c.fate.copy == Copies || (c.fate.copy.CopiesOnly? && c.fate.copy.n >= |files[Target]|)))
              || ((!c.keepBackup || c.fate.copy == CopyRefused) && Bak in files && files[Bak] == files[Target])
  {
    var r := Lose(Save(files, c).0);
    assert c.keepBackup && c.fate.copy.CopiesOnly? ==> Bak in r && r[Bak] == Prefix(files[Target], c.fate.copy.n);
    assert Target !in r;
  }

  /** A concrete save whose copy fails at once: it reports success, and once the target is lost the
      previous version is gone. */
  lemma FailedCopyLosesPrevious()
    ensures var files: Files := map[Target := [7]];
            var c := Call([8], true, 0, Fate(true, 1, false, true, true, CopiesOnly(0), true, 5));
            && Renames(files, c)
            && Read(Save(files, c).0, {}) == Some([8])
            && Read(Lose(Save(files, c).0), {}) == None
  {
    var files: Files := map[Target := [7]];
    var c := Call([8], true, 0, Fate(true, 1, false, true, true, CopiesOnly(0), true, 5));
    assert Prefix([8], 1) == [8] && Prefix([7], 0) == [];
    assert Save(files, c).0 == map[Target := [8], Bak := []];
  }

  /** After any crash-ridden history, a save that renames with a completed copy keeps the content of the
      last renamed save before it reachable. */
  lemma PreviousVersionRecoverable(calls: seq<Call>, c: Call, i: nat)
    requires LastRenamed(calls, i) && Stored(calls[i]) != []
    requires var files := SaveAll(map[], calls); Renames(files, c) && c.keepBackup && c.fate.copy == Copies
    ensures var r := Save(SaveAll(map[], calls), c).0;
            && Read(Lose(r), {}) == Some(Stored(calls[i])) && Read(Truncate(r), {}) == Some(Stored(calls[i]))
  {
    hide SaveAll, Save, Read;
    TargetIsLastRenamed(calls);
    BackupYieldsPrevious(SaveAll(map[], calls), c);
  }

  // ---------------------------------------------------------------- how a save ends

  /** A save is renamed exactly if no step fails and the process lives through all five; it throws
      exactly if it lives to see a step fail; the copy never decides. */
  lemma OutcomeIff(files: Files, c: Call)
    ensures var f, out := c.fate, Save(files, c).1;
            && (out == Saved <==> f.opens && !f.writeFails && f.syncs && f.renames && f.killedAfter >= 5)
            && (out == Threw <==>
                  || (!f.opens && f.killedAfter >= 1)
                  || (f.opens && f.writeFails && f.killedAfter >= 3)
                  || (f.opens && !f.writeFails && !f.syncs && f.killedAfter >= 4)
                  || (f.opens && !f.writeFails && f.syncs && !f.renames && f.killedAfter >= 5))
  {
  }

  /** A save that throws leaves the target as it was, and its temporary file only if removing it fails; a
      successful one leaves none. No other temporary file is touched. */
  lemma TemporaryFiles(files: Files, c: Call)
    ensures var (r, out) := Save(files, c); var tmp := Tmp(c.stamp);
            && (out == Threw && c.fate.unlinks ==> tmp !in r)
            && (out == Saved ==> tmp !in r && Target in r && r[Target] == Prefix(c.content, c.fate.written))
            && (forall n: nat :: n != c.stamp ==> (Tmp(n) in r <==> Tmp(n) in files) && (Tmp(n) in files ==> r[Tmp(n)] == files[Tmp(n)]))
  {
  }
}
