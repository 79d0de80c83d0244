/** The patch and restore commands on one program file and its backup. */
module PatchedFile {
  import opened Basics
  import opened MaskedSearch
  import opened ReleasePatch

  /** A hash without collisions. */
  datatype Digest = Sha256(content: seq<Byte>)

  /** What a release manifest says about the program file. */
  datatype Manifest = Manifest(size: nat, original: Digest, patched: Digest, patches: seq<Patch>)

  /** What manifest_from_dict and load_manifests accept. */
  predicate Accepted(ms: seq<Manifest>) {
    && (forall m <- ms :: AllWellFormed(m.patches) && PairwiseDisjoint(m.patches) && m.original != m.patched)
    && (forall m, n :: m in ms && n in ms && m != n ==>
          m.original != n.original && m.original != n.patched && m.patched != n.patched)
    && (forall i, j :: 0 <= i < j < |ms| ==> ms[i] != ms[j])
  }

  datatype State = Original(manifest: Manifest) | Patched(manifest: Manifest) | Unknown

  method Classify(data: seq<Byte>, ms: seq<Manifest>) returns (s: State)
    requires Accepted(ms)
    ensures s.Original? ==> s.manifest in ms && data == s.manifest.original.content
    ensures s.Patched? ==> s.manifest in ms && data == s.manifest.patched.content
    ensures forall m <- ms :: data == m.original.content ==> s == Original(m)
    ensures forall m <- ms :: data == m.patched.content ==> s == Patched(m)
  {
    for i := 0 to |ms|
      invariant forall j :: 0 <= j < i ==> data != ms[j].original.content && data != ms[j].patched.content
    {
      if Sha256(data) == ms[i].original {
        return Original(ms[i]);
      }
      if Sha256(data) == ms[i].patched {
        return Patched(ms[i]);
      }
    }
    return Unknown;
  }

  function Expected(p: Patch, patched: bool): seq<Byte> {
    if patched then p.replacement else p.original
  }

  predicate OnlyAt(data: seq<Byte>, needle: seq<Byte>, offset: nat) {
    Occurs(data, needle, offset) && forall p :: 0 <= p <= |data| && p != offset ==> !Occurs(data, needle, p)
  }

  /** The file has the right size and every signature in exactly one place. */
  predicate Signed(data: seq<Byte>, m: Manifest, patched: bool) {
    |data| == m.size && forall p <- m.patches :: OnlyAt(data, Expected(p, patched), p.offset)
  }

  method VerifySignatures(data: seq<Byte>, m: Manifest, patched: bool) returns (ok: bool)
    ensures ok <==> Signed(data, m, patched)
  {
    if |data| != m.size {
      return false;
    }
    for i := 0 to |m.patches|
      invariant forall j :: 0 <= j < i ==> OnlyAt(data, Expected(m.patches[j], patched), m.patches[j].offset)
    {
      var expected := Expected(m.patches[i], patched);
      var first := Find(data, expected, 0);
      var second := if first.Some? then Find(data, expected, first.value + 1) else None;
      if first != Some(m.patches[i].offset) || second.Some? {
        assert !OnlyAt(data, expected, m.patches[i].offset);
        assert m.patches[i] in m.patches;
        return false;
      }
    }
    return true;
  }

  lemma SignedIsApplicable(data: seq<Byte>, m: Manifest)
    requires AllWellFormed(m.patches) && Signed(data, m, false)
    ensures Applicable(m.patches, |data|) && forall p <- m.patches :: Holds(data, p)
  {
    forall p | p in m.patches ensures Holds(data, p) && p.offset + |p.original| <= |data| {
      assert OnlyAt(data, Expected(p, false), p.offset);
    }
  }

  /** The manifest fits the file: making the patched one will succeed. */
  predicate Fits(data: seq<Byte>, m: Manifest) {
    && data == m.original.content && AllWellFormed(m.patches) && Signed(data, m, false)
    && Applicable(m.patches, |data|)
    && Signed(Rendered(data, m.patches, |m.patches|), m, true)
    && Rendered(data, m.patches, |m.patches|) == m.patched.content
  }

  /** render_patched and the digest check of make_patched. */
  method MakePatched(original: seq<Byte>, m: Manifest) returns (result: Option<seq<Byte>>)
    requires AllWellFormed(m.patches)
    ensures result.Some? <==> Fits(original, m)
    ensures result.Some? ==> result == Some(m.patched.content)
  {
    if Sha256(original) != m.original {
      return None;
    }
    var signed := VerifySignatures(original, m, false);
    if !signed {
      return None;
    }
    SignedIsApplicable(original, m);
    var output := new Byte[|original|](i requires 0 <= i < |original| => original[i]);
    assert output[..] == original;
    ApplyPatches(output, m.patches);
    var rendered := output[..];
    signed := VerifySignatures(rendered, m, true);
    if !signed || Sha256(rendered) != m.patched {
      return None;
    }
    return Some(rendered);
  }

  /** In a patched file the patches can be taken back, which gives the original. */
  lemma PatchedFileCanBeReverted(original: seq<Byte>, m: Manifest)
    requires Fits(original, m) && PairwiseDisjoint(m.patches)
    ensures Applicable(SwapAll(m.patches), |original|)
    ensures Rendered(m.patched.content, SwapAll(m.patches), |m.patches|) == original
  {
    SignedIsApplicable(original, m);
    SwapUndoes(original, m.patches);
  }

  /** How a command ends; an interrupted one leaves a partial backup. */
  datatype Result = Done | Refused | Interrupted

  /** What becomes of copying the file to its backup: the copy may be cut short,
      and then leave anything. */
  datatype Copying = Finishes | CutShort(left: Option<seq<Byte>>)

  datatype Command = PatchTarget(copying: Copying) | RestoreTarget

  class ProgramFile {
    const manifests: seq<Manifest>
    var target: Option<seq<Byte>>
    var backup: Option<seq<Byte>>

    ghost predicate Valid()
      reads this
    {
      Accepted(manifests)
    }

    /** The file is the original or the patched one of release m. */
    ghost predicate Belongs(m: Manifest)
      reads this
    {
      m in manifests && (target == Some(m.original.content) || target == Some(m.patched.content))
    }

    /** And it is the original, unless the backup is. */
    ghost predicate Kept(m: Manifest)
      reads this
    {
      Belongs(m) && (target == Some(m.original.content) || backup == Some(m.original.content))
    }

    constructor (manifests: seq<Manifest>, target: Option<seq<Byte>>)
      requires Accepted(manifests)
      ensures Valid() && this.manifests == manifests && this.target == target && backup.None?
    {
      this.manifests, this.target, this.backup := manifests, target, None;
    }

    /** patch_file's check of an existing backup, or a new copy that is checked
        the same way. */
    method SecureBackup(data: seq<Byte>, m: Manifest, copying: Copying) returns (result: Result)
      requires Valid() && m in manifests && data == m.original.content && Signed(data, m, false)
      modifies this`backup
      ensures result.Done? ==> backup == Some(data)
      ensures old(backup).Some? ==>
                backup == old(backup) && !result.Interrupted? && (result.Done? <==> backup.value == data)
      ensures old(backup).None? ==>
                && backup == Copied(data, copying)
                && result == if copying.Finishes? then Done else Interrupted
    {
      if backup.Some? {
        var state := Classify(backup.value, manifests);
        if state != Original(m) {
          return Refused;
        }
        var signed := VerifySignatures(backup.value, m, false);
        return if signed then Done else Refused;
      }
      if copying.CutShort? {
        backup := copying.left;
        return Interrupted;
      }
      backup := Some(data);
      var state := Classify(backup.value, manifests);
      return if state == Original(m) then Done else Refused;
    }

    /** patch_file. */
    method PatchFile(copying: Copying) returns (result: Result)
      requires Valid()
      modifies this`target, this`backup
      ensures result.Done? ==>
                exists m :: m in manifests && target == Some(m.patched.content) && Signed(m.patched.content, m, true)
      ensures !result.Done? ==> target == old(target)
      ensures forall m :: old(Belongs(m)) ==> Belongs(m)
      ensures forall m :: old(Kept(m)) ==>
                && Kept(m) && backup == BackupNext(m, old(backup), PatchTarget(copying))
                && (result.Done? <==>
                    if old(target) == Some(m.original.content)
                    then Fits(m.original.content, m) && backup == Some(m.original.content) && !result.Interrupted?
                    else Signed(m.patched.content, m, true))
    {
      if target.None? {
        return Refused;
      }
      var data := target.value;
      var state := Classify(data, manifests);
      if state.Unknown? {
        return Refused;
      }
      var m := state.manifest;
      var signed := VerifySignatures(data, m, state.Patched?);
      if state.Patched? {
        return if signed then Done else Refused;
      }
      if !signed {
        return Refused;
      }
      result := SecureBackup(data, m, copying);
      if !result.Done? { return; }
      var patched := MakePatched(data, m);
      if patched.None? {
        return Refused;
      }
      target := patched;
    }

    /** restore_file. */
    method RestoreFile() returns (result: Result)
      requires Valid()
      modifies this`target
      ensures result.Done? ==> target.Some? && target == backup
      ensures !result.Done? ==> target == old(target)
      ensures forall m :: old(Belongs(m)) ==> Belongs(m)
      ensures forall m :: old(Kept(m)) ==>
                && Kept(m)
                && (result.Done? <==> backup == Some(m.original.content) && Signed(m.original.content, m, false))
    {
      if backup.None? {
        return Refused;
      }
      var data := backup.value;
      var state := Classify(data, manifests);
      if !state.Original? {
        return Refused;
      }
      var signed := VerifySignatures(data, state.manifest, false);
      if !signed {
        return Refused;
      }
      if target.Some? {
        var current := Classify(target.value, manifests);
        if current.Unknown? || current.manifest != state.manifest {
          return Refused;
        }
      }
      target := Some(data);
      return Done;
    }

    /** Any run of both commands from an approved original without a backup,
        wherever copies are cut short: the file is original or patched, the
        original is never lost, and the backup is what the first copy that left
        anything has left. */
    method AnyRun(m: Manifest, commands: seq<Command>)
      requires Valid() && m in manifests && target == Some(m.original.content) && backup.None?
      modifies this`target, this`backup
      ensures Kept(m) && backup == BackupAfter(m, commands, |commands|)
    {
      for i := 0 to |commands|
        invariant Kept(m) && backup == BackupAfter(m, commands, i)
      {
        var result;
        match commands[i]
        case PatchTarget(copying) => result := PatchFile(copying);
        case RestoreTarget => result := RestoreFile();
      }
    }
  }

  function Copied(data: seq<Byte>, copying: Copying): Option<seq<Byte>> {
    match copying case Finishes => Some(data) case CutShort(left) => left
  }

  /** The backup after one command on a file of release m. */
  function BackupNext(m: Manifest, backup: Option<seq<Byte>>, command: Command): Option<seq<Byte>> {
    if command.PatchTarget? && backup.None? && Signed(m.original.content, m, false)
    then Copied(m.original.content, command.copying) else backup
  }

  function BackupAfter(m: Manifest, commands: seq<Command>, n: nat): Option<seq<Byte>>
    requires n <= |commands|
  {
    if n == 0 then None else BackupNext(m, BackupAfter(m, commands, n - 1), commands[n - 1])
  }

  /** The copy of this command is the first that leaves a backup. */
  predicate FirstCopy(m: Manifest, commands: seq<Command>, i: nat)
    requires i < |commands|
  {
    && commands[i].PatchTarget? && Copied(m.original.content, commands[i].copying).Some?
    && forall j :: 0 <= j < i && commands[j].PatchTarget? ==> Copied(m.original.content, commands[j].copying).None?
  }

  /** The backup is the original exactly when the first copy that left anything
      was whole; for a release that does not fit its file none is made. */
  lemma {:induction false} BackupIsOriginalIff(m: Manifest, commands: seq<Command>, n: nat)
    requires n <= |commands| && Signed(m.original.content, m, false)
    ensures BackupAfter(m, commands, n).None? <==>
              forall i :: 0 <= i < n && commands[i].PatchTarget? ==>
                Copied(m.original.content, commands[i].copying).None?
    ensures BackupAfter(m, commands, n) == Some(m.original.content) <==>
              exists i :: 0 <= i < n && FirstCopy(m, commands, i)
                          && Copied(m.original.content, commands[i].copying) == Some(m.original.content)
  {
    if n > 0 {
      BackupIsOriginalIff(m, commands, n - 1);
      if BackupAfter(m, commands, n - 1).None? && BackupAfter(m, commands, n).Some? {
        assert FirstCopy(m, commands, n - 1);
      }
    }
  }
}
