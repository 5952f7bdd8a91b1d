/** The knowledge base on disk: snapshots are stored before the revision that refers to them is
  * appended, keys are kept in their own file, and a crash while a revision is appended, while it is
  * applied or while the log is replayed is followed by another replay (kb.rs, store/object.rs).
  */
module Durability {
  import opened Wrappers
  import opened RevisionLog
  import opened ConversationHistory
  import opened Replay

  type Revision = seq<Command>

  datatype Disk = Disk(objects: map<Hash, seq<Byte>>, log: seq<Byte>, keys: map<KeyId, Key>)

  datatype System = System(disk: Disk, memory: Memory)

  /** Encryption under a key with a nonce, the content hash, and what replaying needs. */
  datatype Tools = Tools(world: World, codec: Codec<Revision>, encrypt: (Key, seq<Byte>, seq<Byte>) -> seq<Byte>,
      hash: seq<Byte> -> Hash)

  datatype Upload = Upload(bytes: seq<Byte>, encryptWith: Option<KeyId>, nonce: seq<Byte>)

  /** What is stored for an upload; nothing if its key is not there. */
  function Sealed(t: Tools, keys: map<KeyId, Key>, up: Upload): Option<seq<Byte>> {
    if up.encryptWith.None? then Some(up.bytes)
    else if up.encryptWith.value in keys then Some(up.nonce + t.encrypt(keys[up.encryptWith.value], up.nonce, up.bytes))
    else None
  }

  /** An object that is already there is not written again. */
  function PutObject(t: Tools, objects: map<Hash, seq<Byte>>, bytes: seq<Byte>): map<Hash, seq<Byte>> {
    if t.hash(bytes) in objects then objects else objects[t.hash(bytes) := bytes]
  }

  datatype Step =
    | Put(upload: Upload)
    | Commit(rev: Revision, random: KeyId -> Key)
    | CrashInAppend(rev: Revision, written: nat, next: Opening)
    | CrashInApply(rev: Revision, applied: nat, random: KeyId -> Key, next: Opening)
    | Restart(next: Opening)

  /** Opening, perhaps only after attempts that died when they had replayed some commands. */
  datatype Opening = Opening(attempts: seq<Cut>, random: KeyId -> Key)

  datatype Cut = Cut(applied: nat, random: KeyId -> Key)

  function Flatten(revs: seq<Revision>): seq<Command> {
    if revs == [] then [] else Flatten(revs[..|revs| - 1]) + revs[|revs| - 1]
  }

  /** Recover the log, read it, and replay every revision with the keys of the key file. */
  function Open(t: Tools, disk: Disk, random: KeyId -> Key): Option<System> {
    var log := Recover(t.codec, disk.log);
    match Read(t.codec, log)
    case Corrupt(_) => None
    case Ok(revs) =>
      var memory := Run(t.world, disk.objects, random, Fresh(disk.keys), Flatten(revs));
      Some(System(Disk(disk.objects, log, memory.keys), memory))
  }

  /** What an attempt to open leaves: the log is recovered, and the key file follows the commands that were replayed. */
  function Interrupted(t: Tools, disk: Disk, cut: Cut): Disk {
    var log := Recover(t.codec, disk.log);
    match Read(t.codec, log)
    case Corrupt(_) => disk.(log := log)
    case Ok(revs) =>
      var cmds := Flatten(revs);
      Disk(disk.objects, log,
        Run(t.world, disk.objects, cut.random, Fresh(disk.keys), cmds[..Least(cut.applied, |cmds|)]).keys)
  }

  function Reopen(t: Tools, disk: Disk, opening: Opening): Option<System>
    decreases |opening.attempts|
  {
    if opening.attempts == [] then Open(t, disk, opening.random)
    else Reopen(t, Interrupted(t, disk, opening.attempts[0]), opening.(attempts := opening.attempts[1..]))
  }

  /** The disk when the step has ended or the process has died. */
  function DiskAfter(t: Tools, s: System, step: Step): Disk {
    match step
    case Put(up) =>
      var stored := Sealed(t, s.memory.keys, up);
      if stored.None? then s.disk else s.disk.(objects := PutObject(t, s.disk.objects, stored.value))
    case Commit(rev, random) =>
      s.disk.(log := s.disk.log + Record(t.codec, rev),
        keys := Run(t.world, s.disk.objects, random, s.memory, rev).keys)
    case CrashInAppend(rev, written, _) =>
      s.disk.(log := s.disk.log + Record(t.codec, rev)[..Least(written, |Record(t.codec, rev)|)])
    case CrashInApply(rev, applied, random, _) =>
      s.disk.(log := s.disk.log + Record(t.codec, rev),
              keys := Run(t.world, s.disk.objects, random, s.memory, rev[..Least(applied, |rev|)]).keys)
    case Restart(_) => s.disk
  }

  function Next(t: Tools, s: System, step: Step): Option<System> {
    var disk := DiskAfter(t, s, step);
    match step
    case Put(_) => Some(System(disk, s.memory))
    case Commit(rev, random) => Some(System(disk, Run(t.world, s.disk.objects, random, s.memory, rev)))
    case CrashInAppend(_, _, next) => Reopen(t, disk, next)
    case CrashInApply(_, _, _, next) => Reopen(t, disk, next)
    case Restart(next) => Reopen(t, disk, next)
  }

  /** A revision refers to snapshots that were put before, encrypted with keys that are there. */
  ghost predicate Prepared(s: System, rev: Revision) {
    forall i | 0 <= i < |rev| && rev[i].RegisterAcquisition? && rev[i].snapshot.Some? ::
      && rev[i].snapshot.value.hash in s.disk.objects
      && (rev[i].snapshot.value.encryptedWith.Some? ==> rev[i].snapshot.value.encryptedWith.value in s.memory.keys)
  }

  ghost predicate Allowed(s: System, step: Step) {
    (step.Commit? || step.CrashInAppend? || step.CrashInApply?) ==> Prepared(s, step.rev)
  }

  // ------------------------------------------------------------ the invariant

  /** Every snapshot that the commands refer to is stored, under a key created before. */
  ghost predicate Referenced(objects: map<Hash, seq<Byte>>, cmds: seq<Command>) {
    forall i | 0 <= i < |cmds| && cmds[i].RegisterAcquisition? && cmds[i].snapshot.Some? ::
      && cmds[i].snapshot.value.hash in objects
      && (KeyOf(cmds[i].snapshot).Some? ==> KeyOf(cmds[i].snapshot).value in CreatedBy(cmds[..i]))
  }

  /** The keys that are there are the own keys of what was created and not shredded. */
  ghost predicate Kept(keys: map<KeyId, Key>, cmds: seq<Command>, own: map<KeyId, Key>) {
    && (forall k :: k in keys <==> k in CreatedBy(cmds) && k !in ShreddedBy(cmds))
    && (forall k | k in keys :: k in own && own[k] == keys[k])
  }

  /** The log holds `revs`, and the memory is what they mean. */
  ghost predicate Consistent(t: Tools, s: System, revs: seq<Revision>, own: map<KeyId, Key>) {
    var cmds := Flatten(revs);
    && s.disk.log == Encoded(t.codec, revs)
    && Referenced(s.disk.objects, cmds)
    && Kept(s.disk.keys, cmds, own) && s.memory.keys == s.disk.keys
    && s.memory.shredded == ShreddedBy(cmds) && s.memory.acquisitions == Acquired(cmds)
    && s.memory.history == Meant(t.world, s.disk.objects, ShreddedBy(cmds), own, cmds)
  }

  lemma {:induction false} AcquiredFrom(cmds: seq<Command>, id: AcquisitionId) returns (i: nat)
    requires id in Acquired(cmds)
    ensures i < |cmds| && cmds[i].RegisterAcquisition? && cmds[i].snapshot == Acquired(cmds)[id]
  {
    var n := |cmds| - 1;
    if cmds[n].RegisterAcquisition? && cmds[n].id == id {
      i := n;
    } else {
      i := AcquiredFrom(cmds[..n], id);
    }
  }

  lemma CreatedPrefix(cmds: seq<Command>, i: nat, j: nat)
    requires i <= j <= |cmds|
    ensures CreatedBy(cmds[..i]) <= CreatedBy(cmds[..j])
  {
    ShreddedAppend(cmds[..i], cmds[i..j]);
    assert cmds[..j] == cmds[..i] + cmds[i..j];
  }

  lemma ReferencedStored(objects: map<Hash, seq<Byte>>, cmds: seq<Command>)
    requires Referenced(objects, cmds)
    ensures Stored(objects, cmds)
  {
    hide CreatedBy, Acquired;
    forall i | 0 <= i < |cmds| && RecordedSnapshot(cmds, i).Some?
      ensures RecordedSnapshot(cmds, i).value.hash in objects
      ensures KeyOf(RecordedSnapshot(cmds, i)).Some? ==> KeyOf(RecordedSnapshot(cmds, i)).value in CreatedBy(cmds[..i])
    {
      var j := AcquiredFrom(cmds[..i], cmds[i].event.acquisition);
      assert cmds[..i][j] == cmds[j];
      CreatedPrefix(cmds, j, i);
    }
  }

  /** A run in two parts. */
  lemma {:induction false} RunAppend(w: World, objects: map<Hash, seq<Byte>>, random: KeyId -> Key, m: Memory,
      a: seq<Command>, b: seq<Command>)
    ensures Run(w, objects, random, m, a + b) == Run(w, objects, random, Run(w, objects, random, m, a), b)
  {
    if b == [] {
      assert a + b == a;
    } else {
      assert (a + b)[..|a + b| - 1] == a + b[..|b| - 1];
      RunAppend(w, objects, random, m, a, b[..|b| - 1]);
    }
  }

  /** A consistent memory is what any replay of its log from its key file gives. */
  lemma ReplayGives(t: Tools, s: System, revs: seq<Revision>, own: map<KeyId, Key>, random: KeyId -> Key)
    requires Consistent(t, s, revs, own)
    ensures Run(t.world, s.disk.objects, random, Fresh(s.disk.keys), Flatten(revs)) == s.memory
  {
    hide Run, Meant, Referenced, Acquired, CreatedBy, ShreddedBy;
    var cmds := Flatten(revs);
    ReferencedStored(s.disk.objects, cmds);
    RunMeans(t.world, s.disk.objects, random, s.disk.keys, own, cmds);
    RunKeys(t.world, s.disk.objects, random, s.disk.keys, cmds);
    var m := Run(t.world, s.disk.objects, random, Fresh(s.disk.keys), cmds);
    assert m.keys == s.memory.keys;
  }

  /** The own keys after more commands: new ones are as found in the key file, or else random. */
  ghost function OwnAfter(own: map<KeyId, Key>, cmds: seq<Command>, rev: Revision, keys: map<KeyId, Key>,
      random: KeyId -> Key): map<KeyId, Key> {
    own + map k | k in CreatedBy(rev) - CreatedBy(cmds) :: if k in keys then keys[k] else random(k)
  }

  /** The key file may have followed a revision only in part. */
  ghost predicate Lagging(keys: map<KeyId, Key>, cmds: seq<Command>, rev: Revision, own: map<KeyId, Key>) {
    && (forall k | k in keys :: k in CreatedBy(cmds + rev))
    && (forall k | k in CreatedBy(cmds) && k !in ShreddedBy(cmds + rev) :: k in keys && k in own && own[k] == keys[k])
  }

  lemma LaggingKeyed(keys: map<KeyId, Key>, cmds: seq<Command>, rev: Revision, own: map<KeyId, Key>,
      random: KeyId -> Key)
    requires Lagging(keys, cmds, rev, own)
    ensures Keyed(keys, random, cmds + rev, OwnAfter(own, cmds, rev, keys, random))
  {
    ShreddedAppend(cmds, rev);
  }

  lemma PreparedReferenced(t: Tools, s: System, revs: seq<Revision>, own: map<KeyId, Key>, rev: Revision)
    requires Consistent(t, s, revs, own) && Prepared(s, rev)
    ensures Referenced(s.disk.objects, Flatten(revs) + rev)
  {
    hide CreatedBy, Meant, Acquired, ShreddedBy;
    var cmds := Flatten(revs);
    var all := cmds + rev;
    forall i | 0 <= i < |all| && all[i].RegisterAcquisition? && all[i].snapshot.Some?
      ensures all[i].snapshot.value.hash in s.disk.objects
      ensures KeyOf(all[i].snapshot).Some? ==> KeyOf(all[i].snapshot).value in CreatedBy(all[..i])
    {
      if i < |cmds| {
        assert all[i] == cmds[i] && all[..i] == cmds[..i];
      } else {
        assert all[i] == rev[i - |cmds|] && all[..|cmds|] == cmds;
        CreatedPrefix(all, |cmds|, i);
      }
    }
  }

  /** Replaying one more revision than the memory has seen, from a key file that may lag behind. */
  lemma ReplayMore(t: Tools, s: System, revs: seq<Revision>, own: map<KeyId, Key>, rev: Revision, keys: map<KeyId, Key>,
      random: KeyId -> Key)
      returns (own': map<KeyId, Key>)
    requires Consistent(t, s, revs, own) && Prepared(s, rev) && Lagging(keys, Flatten(revs), rev, own)
    ensures var m := Run(t.world, s.disk.objects, random, Fresh(keys), Flatten(revs) + rev);
            Consistent(t, System(Disk(s.disk.objects, Encoded(t.codec, revs + [rev]), m.keys), m), revs + [rev], own')
    ensures own' == OwnAfter(own, Flatten(revs), rev, keys, random)
  {
    hide Run, Meant, Referenced, Acquired, CreatedBy, ShreddedBy, Keyed, Prepared;
    var cmds := Flatten(revs);
    var all := cmds + rev;
    assert (revs + [rev])[..|revs|] == revs;
    assert Flatten(revs + [rev]) == all;
    own' := OwnAfter(own, cmds, rev, keys, random);
    PreparedReferenced(t, s, revs, own, rev);
    ReferencedStored(s.disk.objects, all);
    LaggingKeyed(keys, cmds, rev, own, random);
    RunMeans(t.world, s.disk.objects, random, keys, own', all);
    RunKeys(t.world, s.disk.objects, random, keys, all);
    KeyedKept(keys, cmds, rev, own, random, Run(t.world, s.disk.objects, random, Fresh(keys), all).keys);
  }

  lemma KeyedKept(keys: map<KeyId, Key>, cmds: seq<Command>, rev: Revision, own: map<KeyId, Key>, random: KeyId -> Key,
      after: map<KeyId, Key>)
    requires Lagging(keys, cmds, rev, own)
    requires forall k :: k in after <==> (k in keys || k in CreatedBy(cmds + rev)) && k !in ShreddedBy(cmds + rev)
    requires forall k | k in after :: after[k] == if k in keys then keys[k] else random(k)
    ensures Kept(after, cmds + rev, OwnAfter(own, cmds, rev, keys, random))
  {
    ShreddedAppend(cmds, rev);
  }

  // ------------------------------------------------------------ snapshots

  /** Objects are stored under their own hash. */
  ghost predicate Addressed(t: Tools, objects: map<Hash, seq<Byte>>) {
    forall h | h in objects :: t.hash(objects[h]) == h
  }

  /** The hash tells contents apart, and decryption under the same key gives back what was encrypted. */
  ghost predicate Lawful(t: Tools) {
    && (forall a, b | t.hash(a) == t.hash(b) :: a == b)
    && (forall k, nonce, plain :: t.encrypt(k, nonce, plain) != [] &&
          t.world.decrypt(k, nonce, t.encrypt(k, nonce, plain)) == Some(plain))
  }

  /** A snapshot that was put reads back, as long as its key is there; once the key is gone it is withheld. */
  lemma PutReads(t: Tools, objects: map<Hash, seq<Byte>>, keys: map<KeyId, Key>, later: map<KeyId, Key>, up: Upload)
    requires Lawful(t) && Addressed(t, objects) && |up.nonce| == NONCE_BYTES && Sealed(t, keys, up).Some?
    requires up.encryptWith.Some? && up.encryptWith.value in later ==>
      later[up.encryptWith.value] == keys[up.encryptWith.value]
    ensures var stored := Sealed(t, keys, up).value;
            var objects' := PutObject(t, objects, stored);
            && Addressed(t, objects') && (forall h | h in objects :: h in objects' && objects'[h] == objects[h])
            && ReadSnapshot(t.world, objects', later, ObjectRef(t.hash(stored), up.encryptWith))
               == if up.encryptWith.None? || up.encryptWith.value in later then Decoded(t.world, up.bytes)
                 else Withheld(Unindexed.Shredded)
  {
    var stored := Sealed(t, keys, up).value;
    if up.encryptWith.Some? {
      assert stored[..NONCE_BYTES] == up.nonce;
      assert stored[NONCE_BYTES..] == t.encrypt(keys[up.encryptWith.value], up.nonce, up.bytes);
    }
  }

  /** More objects do not change what the commands mean. */
  lemma {:induction false} MeantFrame(w: World, objects: map<Hash, seq<Byte>>, more: map<Hash, seq<Byte>>,
      shredded: set<KeyId>, own: map<KeyId, Key>, cmds: seq<Command>)
    requires Stored(objects, cmds) && forall h | h in objects :: h in more && more[h] == objects[h]
    ensures Meant(w, more, shredded, own, cmds) == Meant(w, objects, shredded, own, cmds)
  {
    if cmds != [] {
      hide Insert;
      var n := |cmds| - 1;
      StoredPrefix(objects, cmds, n);
      MeantFrame(w, objects, more, shredded, own, cmds[..n]);
      assert cmds[n].RecordEvent? ==>
        RecordedSnapshot(cmds, n) == SnapshotOf(Acquired(cmds[..n]), cmds[n].event.acquisition);
    }
  }

  lemma StoredPrefix(objects: map<Hash, seq<Byte>>, cmds: seq<Command>, n: nat)
    requires Stored(objects, cmds) && n <= |cmds|
    ensures Stored(objects, cmds[..n])
  {
    hide Acquired, CreatedBy;
    forall i | 0 <= i < n ensures RecordedSnapshot(cmds[..n], i) == RecordedSnapshot(cmds, i) &&
      cmds[..n][..i] == cmds[..i] {
      assert cmds[..n][..i] == cmds[..i];
    }
  }

  // ------------------------------------------------------------ steps

  lemma PutKeeps(t: Tools, s: System, revs: seq<Revision>, own: map<KeyId, Key>, up: Upload)
    requires Consistent(t, s, revs, own)
    ensures Next(t, s, Put(up)).Some? && Consistent(t, Next(t, s, Put(up)).value, revs, own)
  {
    hide Meant, Stored, CreatedBy, ShreddedBy, Acquired;
    var more := DiskAfter(t, s, Put(up)).objects;
    ReferencedStored(s.disk.objects, Flatten(revs));
    MeantFrame(t.world, s.disk.objects, more, ShreddedBy(Flatten(revs)), own, Flatten(revs));
  }

  /** The key file after some commands of a revision. */
  lemma PartlyApplied(t: Tools, s: System, revs: seq<Revision>, own: map<KeyId, Key>, rev: Revision, applied: nat,
      random: KeyId -> Key)
    requires Consistent(t, s, revs, own) && applied <= |rev|
    ensures Lagging(Run(t.world, s.disk.objects, random, s.memory, rev[..applied]).keys, Flatten(revs), rev, own)
  {
    hide Run, Meant, Referenced, Acquired;
    var cmds, part, rest := Flatten(revs), rev[..applied], rev[applied..];
    ReplayGives(t, s, revs, own, random);
    RunAppend(t.world, s.disk.objects, random, Fresh(s.disk.keys), cmds, part);
    RunKeys(t.world, s.disk.objects, random, s.disk.keys, cmds + part);
    ShreddedAppend(cmds, part);
    ShreddedAppend(cmds + part, rest);
    assert cmds + part + rest == cmds + rev by { assert part + rest == rev; }
  }

  lemma CommitKeeps(t: Tools, s: System, revs: seq<Revision>, own: map<KeyId, Key>, rev: Revision, random: KeyId -> Key)
      returns (own': map<KeyId, Key>)
    requires Consistent(t, s, revs, own) && Prepared(s, rev)
    ensures Next(t, s, Commit(rev, random)).Some?
    ensures Consistent(t, Next(t, s, Commit(rev, random)).value, revs + [rev], own')
  {
    hide Run, Meant, Referenced, Acquired, Prepared, Kept, Lagging, Flatten;
    var cmds := Flatten(revs);
    ReplayGives(t, s, revs, own, random);
    RunAppend(t.world, s.disk.objects, random, Fresh(s.disk.keys), cmds, rev);
    PartlyApplied(t, s, revs, own, rev, 0, random);
    assert rev[..0] == [] &&
      Run(t.world, s.disk.objects, random, s.memory, []) == s.memory by {
        RunNothing(t.world, s.disk.objects, random, s.memory);
      }
    own' := ReplayMore(t, s, revs, own, rev, s.disk.keys, random);
    assert (revs + [rev])[..|revs|] == revs;
  }

  lemma RunNothing(w: World, objects: map<Hash, seq<Byte>>, random: KeyId -> Key, m: Memory)
    ensures Run(w, objects, random, m, []) == m
  {}

  /** The key file after replaying some of the commands once more: it still lags behind at most. */
  lemma InterruptedLags(t: Tools, objects: map<Hash, seq<Byte>>, keys: map<KeyId, Key>, cmds: seq<Command>,
      rev: Revision,
      own: map<KeyId, Key>, n: nat, random: KeyId -> Key)
    requires Lagging(keys, cmds, rev, own) && n <= |cmds + rev|
    ensures Lagging(Run(t.world, objects, random, Fresh(keys), (cmds + rev)[..n]).keys, cmds, rev, own)
  {
    hide Run;
    var all := cmds + rev;
    RunKeys(t.world, objects, random, keys, all[..n]);
    ShreddedAppend(all[..n], all[n..]);
    assert all == all[..n] + all[n..];
  }

  lemma KeptLags(keys: map<KeyId, Key>, cmds: seq<Command>, own: map<KeyId, Key>)
    requires Kept(keys, cmds, own)
    ensures Lagging(keys, cmds, [], own)
  {
    assert cmds + [] == cmds;
  }

  /** Opening a log that has lost nothing gives the memory back, even from a key file in which a key of the past was
    * made once more.
    */
  lemma OpenSame(t: Tools, s: System, revs: seq<Revision>, own: map<KeyId, Key>, log: seq<Byte>, keys: map<KeyId, Key>,
      random: KeyId -> Key)
    requires Sound(t.codec) && Consistent(t, s, revs, own) && Recover(t.codec, log) == Encoded(t.codec, revs)
    requires Lagging(keys, Flatten(revs), [], own)
    ensures Open(t, Disk(s.disk.objects, log, keys), random) == Some(s)
  {
    hide Run, Meant, Referenced, Acquired, Flatten, Recover, Read, Encoded, Sound, CreatedBy, ShreddedBy, Keyed;
    var cmds := Flatten(revs);
    assert cmds + [] == cmds;
    ReadEncoded(t.codec, revs);
    ReferencedStored(s.disk.objects, cmds);
    NoMoreKeyed(keys, cmds, own, random);
    RunMeans(t.world, s.disk.objects, random, keys, own, cmds);
    RunKeys(t.world, s.disk.objects, random, keys, cmds);
    assert Run(t.world, s.disk.objects, random, Fresh(keys), cmds).keys == s.memory.keys;
  }

  lemma NoMoreKeyed(keys: map<KeyId, Key>, cmds: seq<Command>, own: map<KeyId, Key>, random: KeyId -> Key)
    requires Lagging(keys, cmds, [], own)
    ensures Keyed(keys, random, cmds, own)
  {
    assert cmds + [] == cmds;
  }

  /** So it does after any number of attempts that were cut short. */
  lemma {:induction false} ReopenSame(t: Tools, s: System, revs: seq<Revision>, own: map<KeyId, Key>, log: seq<Byte>,
      keys: map<KeyId, Key>,
      opening: Opening)
    requires Sound(t.codec) && Consistent(t, s, revs, own) && Recover(t.codec, log) == Encoded(t.codec, revs)
    requires Lagging(keys, Flatten(revs), [], own)
    ensures Reopen(t, Disk(s.disk.objects, log, keys), opening) == Some(s)
    decreases |opening.attempts|
  {
    hide Run, Consistent, Lagging, Flatten, Recover, Read, Encoded, Sound, Open;
    if opening.attempts == [] {
      OpenSame(t, s, revs, own, log, keys, opening.random);
    } else {
      var cmds, cut := Flatten(revs), opening.attempts[0];
      assert cmds + [] == cmds;
      ReadEncoded(t.codec, revs);
      RecoverTwice(t.codec, log);
      InterruptedLags(t, s.disk.objects, keys, cmds, [], own, Least(cut.applied, |cmds|), cut.random);
      ReopenSame(t, s, revs, own, Recover(t.codec, log), Interrupted(t, Disk(s.disk.objects, log, keys), cut).keys,
                 opening.(attempts := opening.attempts[1..]));
    }
  }

  /** Opening a log with one more revision replays it too. */
  lemma OpenMore(t: Tools, s: System, revs: seq<Revision>, own: map<KeyId, Key>, rev: Revision, log: seq<Byte>,
      keys: map<KeyId, Key>, random: KeyId -> Key)
      returns (own': map<KeyId, Key>)
    requires Sound(t.codec) && Consistent(t, s, revs, own) && Prepared(s, rev) && Lagging(keys, Flatten(revs), rev, own)
    requires Recover(t.codec, log) == Encoded(t.codec, revs + [rev])
    ensures Open(t, Disk(s.disk.objects, log, keys), random).Some?
    ensures Consistent(t, Open(t, Disk(s.disk.objects, log, keys), random).value, revs + [rev], own')
  {
    hide Run, Meant, Referenced, Acquired, Kept, Recover, Read, Encoded, Sound, Prepared, Lagging;
    ReadEncoded(t.codec, revs + [rev]);
    assert (revs + [rev])[..|revs|] == revs;
    own' := ReplayMore(t, s, revs, own, rev, keys, random);
  }

  lemma {:induction false} ReopenMore(t: Tools, s: System, revs: seq<Revision>, own: map<KeyId, Key>, rev: Revision,
      log: seq<Byte>,
      keys: map<KeyId, Key>, opening: Opening)
      returns (own': map<KeyId, Key>)
    requires Sound(t.codec) && Consistent(t, s, revs, own) && Prepared(s, rev) && Lagging(keys, Flatten(revs), rev, own)
    requires Recover(t.codec, log) == Encoded(t.codec, revs + [rev])
    ensures Reopen(t, Disk(s.disk.objects, log, keys), opening).Some?
    ensures Consistent(t, Reopen(t, Disk(s.disk.objects, log, keys), opening).value, revs + [rev], own')
    decreases |opening.attempts|
  {
    hide Run, Consistent, Prepared, Lagging, Recover, Read, Encoded, Sound, Open, Flatten;
    if opening.attempts == [] {
      own' := OpenMore(t, s, revs, own, rev, log, keys, opening.random);
    } else {
      var cmds, cut := Flatten(revs) + rev, opening.attempts[0];
      FlattenMore(revs, rev);
      ReadEncoded(t.codec, revs + [rev]);
      RecoverTwice(t.codec, log);
      InterruptedLags(t, s.disk.objects, keys, Flatten(revs), rev, own, Least(cut.applied, |cmds|), cut.random);
      own' := ReopenMore(t, s, revs, own, rev, Recover(t.codec, log),
        Interrupted(t, Disk(s.disk.objects, log, keys), cut).keys,
                         opening.(attempts := opening.attempts[1..]));
    }
  }

  lemma FlattenMore(revs: seq<Revision>, rev: Revision)
    ensures Flatten(revs + [rev]) == Flatten(revs) + rev
  {
    assert (revs + [rev])[..|revs|] == revs;
  }

  ghost predicate Survived(t: Tools, step: Step) {
    step.Commit? || step.CrashInApply? || (step.CrashInAppend? && step.written >= |t.codec.encode(step.rev)|)
  }

  /** Every step leaves a consistent system whose log has grown by the revision of the step, or not
    * at all: the latter only when the crash came before its text was complete.
    */
  lemma StepKeeps(t: Tools, s: System, revs: seq<Revision>, own: map<KeyId, Key>,
      step: Step) returns (own': map<KeyId, Key>)
    requires Sound(t.codec) && Consistent(t, s, revs, own) && Allowed(s, step)
    ensures Next(t, s, step).Some?
    ensures Consistent(t, Next(t, s, step).value, if Survived(t, step) then revs + [step.rev] else revs, own')
  {
    hide Run, Meant, Consistent, Prepared, Lagging, Recover, Read, Sound, Reopen, Encoded, Flatten;
    LogOf(t, s, revs, own);
    own' := own;
    match step
    case Put(up) =>
      PutKeeps(t, s, revs, own, up);
    case Commit(rev, random) =>
      own' := CommitKeeps(t, s, revs, own, rev, random);
    case CrashInAppend(rev, written, next) =>
      CrashRecovers(t.codec, revs, rev, Least(written, |Record(t.codec, rev)|));
      if Survived(t, step) {
        PartlyApplied(t, s, revs, own, rev, 0, next.random);
        assert rev[..0] == [];
        RunNothing(t.world, s.disk.objects, next.random, s.memory);
        own' := ReopenMore(t, s, revs, own, rev, DiskAfter(t, s, step).log, s.disk.keys, next);
      } else {
        ReopenSame(t, s, revs, own, DiskAfter(t, s, step).log, s.disk.keys, next);
      }
    case CrashInApply(rev, applied, random, next) =>
      EncodedMore(t, revs, rev);
      RecoverWhole(t.codec, revs + [rev]);
      PartlyApplied(t, s, revs, own, rev, Least(applied, |rev|), random);
      own' := ReopenMore(t, s, revs, own, rev, DiskAfter(t, s, step).log, DiskAfter(t, s, step).keys, next);
    case Restart(next) =>
      RecoverWhole(t.codec, revs);
      ReopenSame(t, s, revs, own, s.disk.log, s.disk.keys, next);
  }

  lemma LogOf(t: Tools, s: System, revs: seq<Revision>, own: map<KeyId, Key>)
    requires Consistent(t, s, revs, own)
    ensures s.disk.log == Encoded(t.codec, revs) && s.memory.keys == s.disk.keys &&
      Lagging(s.disk.keys, Flatten(revs), [], own)
  {
    hide CreatedBy, ShreddedBy, Meant, Acquired, Referenced;
    KeptLags(s.disk.keys, Flatten(revs), own);
  }

  lemma EncodedMore(t: Tools, revs: seq<Revision>, rev: Revision)
    ensures Encoded(t.codec, revs + [rev]) == Encoded(t.codec, revs) + Record(t.codec, rev)
  {
    assert (revs + [rev])[..|revs|] == revs;
  }

  // ------------------------------------------------------------ runs

  const NEW_DISK: Disk := Disk(map[], [], map[])

  const NEW_SYSTEM: System := System(NEW_DISK, Fresh(map[]))

  function After(t: Tools, run: seq<Step>): Option<System> {
    if run == [] then Some(NEW_SYSTEM)
    else
      var before := After(t, run[..|run| - 1]);
      if before.None? then None else Next(t, before.value, run[|run| - 1])
  }

  ghost predicate AllowedRun(t: Tools, run: seq<Step>) {
    forall i | 0 <= i < |run| :: After(t, run[..i]).Some? ==> Allowed(After(t, run[..i]).value, run[i])
  }

  /** The revisions whose commit returned, in order. */
  function Committed(run: seq<Step>): seq<Revision> {
    if run == [] then []
    else
      var before, last := Committed(run[..|run| - 1]), run[|run| - 1];
      if last.Commit? then before + [last.rev] else before
  }

  /** After any run of puts, commits, crashes and restarts the system opens; its log holds every
    * committed revision in order; every snapshot they refer to is stored; and its history is the one
    * that the log means, in which shredded texts are gone and all others are there.
    */
  lemma {:induction false} RunKeeps(t: Tools, run: seq<Step>) returns (revs: seq<Revision>, own: map<KeyId, Key>)
    requires Sound(t.codec) && AllowedRun(t, run)
    ensures After(t, run).Some? && Consistent(t, After(t, run).value, revs, own)
    ensures Subsequence(Committed(run), revs)
  {
    hide Consistent, Next, Sound, Allowed;
    if run == [] {
      revs, own := [], map[];
      StartsConsistent(t);
    } else {
      var n := |run| - 1;
      assert forall i | 0 <= i < n :: run[..n][..i] == run[..i];
      var before, own0 := RunKeeps(t, run[..n]);
      var s, step := After(t, run[..n]).value, run[n];
      own := StepKeeps(t, s, before, own0, step);
      revs := if Survived(t, step) then before + [step.rev] else before;
      if Survived(t, step) {
        assert revs[..|before|] == before && revs[|before|] == step.rev;
        var c := Committed(run[..n]);
        assert (c + [step.rev])[..|c|] == c;
      }
    }
  }

  lemma StartsConsistent(t: Tools)
    ensures Consistent(t, NEW_SYSTEM, [], map[])
  {}

  /** A restart at any time, whatever attempts failed on the way, gives back the same memory: the history, its index
    * and the keys.
    */
  lemma RestartSame(t: Tools, run: seq<Step>, next: Opening)
    requires Sound(t.codec) && AllowedRun(t, run)
    ensures After(t, run).Some? && Next(t, After(t, run).value, Restart(next)) == After(t, run)
  {
    hide Sound, Recover, Consistent, Reopen, Lagging;
    var revs, own := RunKeeps(t, run);
    var s := After(t, run).value;
    LogOf(t, s, revs, own);
    RecoverWhole(t.codec, revs);
    ReopenSame(t, s, revs, own, s.disk.log, s.disk.keys, next);
  }
}
