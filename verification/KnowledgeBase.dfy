/** The running knowledge base: the log, the keys and the conversation history that its commands
  * update in place (kb.rs, crypto.rs).
  */
module KnowledgeBases {
  import opened Wrappers
  import opened RevisionLog
  import Text
  import opened TextSearch
  import opened ConversationHistory
  import opened Replay
  import opened Durability

  class KeyVault {
    var keys: map<KeyId, Key>
    var shredded: set<KeyId>
    /** The key file. */
    var file: map<KeyId, Key>

    constructor (file: map<KeyId, Key>)
      ensures keys == file && shredded == {} && this.file == file
    {
      keys, shredded, this.file := file, {}, file;
    }

    method EnsureKey(id: KeyId, random: KeyId -> Key)
      requires file == keys
      modifies this
      ensures file == keys && shredded == old(shredded)
      ensures keys == if id in old(keys) || id in old(shredded) then old(keys) else old(keys)[id := random(id)]
    {
      if id in keys || id in shredded { return; }
      keys := keys[id := random(id)];
      file := keys;
    }

    method Shred(id: KeyId)
      modifies this
      ensures keys == old(keys) - {id} && shredded == old(shredded) + {id} && file == keys
    {
      keys := keys - {id};
      shredded := shredded + {id};
      file := keys;
    }

    method DecryptBytes(w: World, id: KeyId, nonce: seq<Byte>, text: seq<Byte>) returns (plain: Option<seq<Byte>>)
      ensures plain == if id in keys then w.decrypt(keys[id], nonce, text) else None
    {
      if id !in keys { return None; }
      return w.decrypt(keys[id], nonce, text);
    }
  }

  class KnowledgeBase {
    const tools: Tools
    const vault: KeyVault
    const history: HistoryStore
    const log: JsonlLog<Revision>
    var objects: map<Hash, seq<Byte>>
    var acquisitions: map<AcquisitionId, Option<ObjectRef>>

    ghost predicate Valid()
      reads this, vault, history, history.text, log
    {
      && history.text.Valid() && history.u == tools.world.unicode && log.codec == tools.codec &&
        vault.file == vault.keys
    }

    ghost function State(): Memory
      reads this, vault, history, history.text
    {
      Memory(vault.keys, vault.shredded, acquisitions, history.State())
    }

    /** An empty memory with the keys of the key file, and the recovered log. */
    constructor Start(tools: Tools, disk: Disk)
      ensures Valid() && fresh(vault) && fresh(history) && fresh(history.text) && fresh(log)
      ensures State() == Fresh(disk.keys) && objects == disk.objects && log.file == Recover(tools.codec, disk.log)
      ensures this.tools == tools
    {
      this.tools := tools;
      vault := new KeyVault(disk.keys);
      history := new HistoryStore(tools.world.unicode);
      log := new JsonlLog(tools.codec, disk.log);
      objects, acquisitions := disk.objects, map[];
    }

    method PutSnapshot(up: Upload) returns (r: Option<ObjectRef>)
      modifies this`objects
      ensures r.None? <==> Sealed(tools, vault.keys, up).None?
      ensures r.None? ==> objects == old(objects)
      ensures r.Some? ==>
        var stored := Sealed(tools, vault.keys, up).value;
        objects == PutObject(tools, old(objects), stored) && r == Some(ObjectRef(tools.hash(stored), up.encryptWith))
    {
      var stored := up.bytes;
      if up.encryptWith.Some? {
        if up.encryptWith.value !in vault.keys { return None; }
        stored := up.nonce + tools.encrypt(vault.keys[up.encryptWith.value], up.nonce, up.bytes);
      }
      var h := tools.hash(stored);
      if h !in objects {
        objects := objects[h := stored];
      }
      return Some(ObjectRef(h, up.encryptWith));
    }

    method ReadObject(r: ObjectRef) returns (c: Content)
      ensures c == ReadSnapshot(tools.world, objects, vault.keys, r)
    {
      if r.hash !in objects { return Withheld(Missing); }
      var plain := objects[r.hash];
      if r.encryptedWith.Some? {
        if |plain| <= NONCE_BYTES { return Withheld(Unindexed.Shredded); }
        var opened_ := vault.DecryptBytes(tools.world, r.encryptedWith.value, plain[..NONCE_BYTES],
          plain[NONCE_BYTES..]);
        if opened_.None? { return Withheld(Unindexed.Shredded); }
        plain := opened_.value;
      }
      var text := tools.world.utf8(plain);
      return if text.Some? then Readable(text.value) else Withheld(NotUtf8);
    }

    /** After any run of commands a text search leaves out no recorded event whose text, in the end, matches. */
    method TextCandidates(query: string, exact: bool, terms: seq<string>, ghost random: KeyId -> Key,
        ghost keys: map<KeyId, Key>, ghost own: map<KeyId, Key>, ghost cmds: seq<Command>)
        returns (r: Option<set<Doc>>)
      requires Valid() && Text.Lawful(tools.world.unicode) && Stored(objects, cmds) && Keyed(keys, random, cmds, own)
      requires State() == Run(tools.world, objects, random, Fresh(keys), cmds)
      ensures r.Some? ==>
                forall d: Doc, t: string |
                  RecordedText(tools.world, objects, own, cmds, d, t) &&
                  Matches(tools.world.unicode, t, query, exact, terms) :: d in r.value
    {
      hide Run, HistoryAfter, HasRaw, Matches, Stored, Keyed, Text.Lawful, TextIndex.Valid;
      ghost var shredded := ShreddedBy(cmds);
      ghost var run := Insertions(tools.world, objects, shredded, own, cmds);
      RunMeans(tools.world, objects, random, keys, own, cmds);
      InsertionsMeant(tools.world, objects, shredded, own, cmds);
      r := history.TextCandidates(query, exact, terms, run);
      forall d: Doc, t: string | RecordedText(tools.world, objects, own, cmds, d, t) ensures HasRaw(run, d, t) {
        var i: nat :| RecordedAt(tools.world, objects, shredded, own, cmds, i, d, t);
        RecordedRaw(tools.world, objects, shredded, own, cmds, i, d, t);
      }
    }

    method ApplyCommand(cmd: Command, random: KeyId -> Key)
      requires Valid()
      modifies this`acquisitions, vault, history, history.text
      ensures Valid() && State() == Replay.Step(tools.world, objects, random, old(State()), cmd)
    {
      hide Insert, ConversationHistory.Shred, ReadSnapshot, TextIndex.Valid, HistoryStore.State;
      match cmd
      case CreateKey(k) =>
        vault.EnsureKey(k, random);
      case ShredKey(k) =>
        vault.Shred(k);
        history.ShredKey(k);
      case RegisterAcquisition(id, snapshot) =>
        acquisitions := acquisitions[id := snapshot];
      case RecordEvent(ev) =>
        var snapshot := SnapshotOf(acquisitions, ev.acquisition);
        var content := Withheld(Missing);
        if snapshot.Some? {
          content := ReadObject(snapshot.value);
        }
        var _ := history.InsertEvent(ev, content, KeyOf(snapshot));
    }

    method ApplyRevision(rev: Revision, random: KeyId -> Key)
      requires Valid()
      modifies this`acquisitions, vault, history, history.text
      ensures Valid() && State() == Run(tools.world, objects, random, old(State()), rev)
    {
      hide HistoryStore.State, Replay.Step, TextIndex.Valid;
      ghost var start := State();
      for i := 0 to |rev|
        invariant Valid() && State() == Run(tools.world, objects, random, start, rev[..i])
      {
        assert rev[..i + 1][..i] == rev[..i];
        ApplyCommand(rev[i], random);
      }
      assert rev[..|rev|] == rev;
    }

    /** The revision is appended to the log before it is applied. */
    method CommitPrepared(rev: Revision, random: KeyId -> Key)
      requires Valid()
      modifies this`acquisitions, vault, history, history.text, log
      ensures Valid() && State() == Run(tools.world, objects, random, old(State()), rev)
      ensures log.file == old(log.file) + Record(tools.codec, rev)
    {
      log.Append(rev);
      ApplyRevision(rev, random);
    }

    /** Replays every revision of the log on top of an empty memory. */
    method ReplayLog(random: KeyId -> Key) returns (ok: bool)
      requires Valid() && State() == Fresh(vault.keys)
      modifies this`acquisitions, vault, history, history.text
      ensures Valid() && ok == Read(tools.codec, log.file).Ok?
      ensures ok ==>
        State() == Run(tools.world, objects, random, old(State()), Flatten(Read(tools.codec, log.file).value))
      ensures !ok ==> State() == old(State())
    {
      hide HistoryStore.State, Read, TextIndex.Valid, Run;
      var revs := log.ReadAll();
      if revs.Corrupt? { return false; }
      ghost var start := State();
      assert State() == Run(tools.world, objects, random, start, []) by {
        RunNothing(tools.world, objects, random, start);
      }
      for i := 0 to |revs.value|
        invariant Valid() && log.file == old(log.file) &&
          State() == Run(tools.world, objects, random, start, Flatten(revs.value[..i]))
      {
        assert revs.value[..i + 1][..i] == revs.value[..i];
        RunAppend(tools.world, objects, random, start, Flatten(revs.value[..i]), revs.value[i]);
        ApplyRevision(revs.value[i], random);
      }
      assert revs.value[..|revs.value|] == revs.value;
      return true;
    }
  }

  /** Opening a disk gives the system that the declarative reading of `Open` describes. */
  method OpenKnowledgeBase(tools: Tools, disk: Disk, random: KeyId -> Key) returns (kb: KnowledgeBase, ok: bool)
    ensures kb.Valid() && fresh(kb)
    ensures ok <==> Open(tools, disk, random).Some?
    ensures ok ==> Open(tools, disk, random) == Some(System(Disk(kb.objects, kb.log.file, kb.vault.file), kb.State()))
  {
    hide Read, Recover, Run, Flatten, HistoryStore.State, TextIndex.Valid;
    kb := new KnowledgeBase.Start(tools, disk);
    ok := kb.ReplayLog(random);
  }
}
