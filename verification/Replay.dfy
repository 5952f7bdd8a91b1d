/** Replaying the commands of the revision log: the history it rebuilds depends only on the commands
  * and on the stored snapshots, whatever happened to the keys (kb.rs, crypto.rs).
  */
module Replay {
  import opened Wrappers
  import opened RevisionLog
  import opened Text
  import opened ConversationHistory

  type Key = nat
  type Hash = nat
  type AcquisitionId = nat

  const NONCE_BYTES: nat := 12

  datatype ObjectRef = ObjectRef(hash: Hash, encryptedWith: Option<KeyId>)

  datatype Command =
    | CreateKey(key: KeyId)
    | ShredKey(key: KeyId)
    | RegisterAcquisition(id: AcquisitionId, snapshot: Option<ObjectRef>)
    | RecordEvent(event: Event)

  /** Decryption under a key with a nonce, and decoding of UTF-8. */
  datatype World = World(unicode: Unicode, decrypt: (Key, seq<Byte>, seq<Byte>) -> Option<seq<Byte>>,
      utf8: seq<Byte> -> Option<string>)

  datatype Memory = Memory(keys: map<KeyId, Key>, shredded: set<KeyId>,
                           acquisitions: map<AcquisitionId, Option<ObjectRef>>, history: History)

  /** A session starts with the keys of the key file and nothing else. */
  function Fresh(keys: map<KeyId, Key>): Memory {
    Memory(keys, {}, map[], NO_HISTORY)
  }

  function ReadSnapshot(w: World, objects: map<Hash, seq<Byte>>, keys: map<KeyId, Key>, r: ObjectRef): Content {
    if r.hash !in objects then Withheld(Missing)
    else
      var bytes := objects[r.hash];
      if r.encryptedWith.None? then Decoded(w, bytes)
      else if |bytes| <= NONCE_BYTES || r.encryptedWith.value !in keys then Withheld(Unindexed.Shredded)
      else
        match w.decrypt(keys[r.encryptedWith.value], bytes[..NONCE_BYTES], bytes[NONCE_BYTES..])
        case None => Withheld(Unindexed.Shredded)
        case Some(plain) => Decoded(w, plain)
  }

  function Decoded(w: World, plain: seq<Byte>): Content {
    match w.utf8(plain)
    case None => Withheld(NotUtf8)
    case Some(text) => Readable(text)
  }

  function SnapshotOf(acquisitions: map<AcquisitionId, Option<ObjectRef>>, id: AcquisitionId): Option<ObjectRef> {
    if id in acquisitions then acquisitions[id] else None
  }

  function KeyOf(snapshot: Option<ObjectRef>): Option<KeyId> {
    if snapshot.Some? then snapshot.value.encryptedWith else None
  }

  /** `ensure_key` keeps a key that is there and never makes a shredded one again; a new key is random. */
  function EnsureKey(m: Memory, random: KeyId -> Key, key: KeyId): Memory {
    if key in m.keys || key in m.shredded then m else m.(keys := m.keys[key := random(key)])
  }

  function Step(w: World, objects: map<Hash, seq<Byte>>, random: KeyId -> Key, m: Memory, cmd: Command): Memory {
    match cmd
    case CreateKey(k) => EnsureKey(m, random, k)
    case ShredKey(k) => m.(keys := m.keys - {k}, shredded := m.shredded + {k}, history := Shred(m.history, k))
    case RegisterAcquisition(id, snapshot) => m.(acquisitions := m.acquisitions[id := snapshot])
    case RecordEvent(ev) =>
      var snapshot := SnapshotOf(m.acquisitions, ev.acquisition);
      var content := if snapshot.None? then Withheld(Missing) else ReadSnapshot(w, objects, m.keys, snapshot.value);
      m.(history := Insert(w.unicode, m.history, ev, content, KeyOf(snapshot)))
  }

  function Run(w: World, objects: map<Hash, seq<Byte>>, random: KeyId -> Key, m: Memory, cmds: seq<Command>): Memory {
    if cmds == [] then m else Step(w, objects, random, Run(w, objects, random, m, cmds[..|cmds| - 1]), cmds[|cmds| - 1])
  }

  // ------------------------------------------------------------ what the commands mean

  function ShreddedBy(cmds: seq<Command>): set<KeyId> {
    set i | 0 <= i < |cmds| && cmds[i].ShredKey? :: cmds[i].key
  }

  function CreatedBy(cmds: seq<Command>): set<KeyId> {
    set i | 0 <= i < |cmds| && cmds[i].CreateKey? :: cmds[i].key
  }

  function Acquired(cmds: seq<Command>): map<AcquisitionId, Option<ObjectRef>> {
    if cmds == [] then map[]
    else
      var before, last := Acquired(cmds[..|cmds| - 1]), cmds[|cmds| - 1];
      if last.RegisterAcquisition? then before[last.id := last.snapshot] else before
  }

  /** The text of an event in the end: none if its key was ever shredded, and otherwise what its own key decrypts. */
  function Final(w: World, objects: map<Hash, seq<Byte>>, shredded: set<KeyId>, own: map<KeyId, Key>,
      snapshot: Option<ObjectRef>): Content {
    if snapshot.None? then Withheld(Missing)
    else if snapshot.value.encryptedWith.Some? && snapshot.value.encryptedWith.value in shredded then
      Withheld(Unindexed.Shredded)
    else ReadSnapshot(w, objects, own, snapshot.value)
  }

  /** The history that the recorded events make, each with its final text. */
  function Meant(w: World, objects: map<Hash, seq<Byte>>, shredded: set<KeyId>, own: map<KeyId, Key>,
      cmds: seq<Command>): History {
    if cmds == [] then NO_HISTORY
    else
      var before, last := cmds[..|cmds| - 1], cmds[|cmds| - 1];
      var h := Meant(w, objects, shredded, own, before);
      if last.RecordEvent? then
        var snapshot := SnapshotOf(Acquired(before), last.event.acquisition);
        Insert(w.unicode, h, last.event, Final(w, objects, shredded, own, snapshot), KeyOf(snapshot))
      else h
  }

  // ------------------------------------------------------------ assumptions

  /** The snapshot of the event recorded at position `i`. */
  function RecordedSnapshot(cmds: seq<Command>, i: nat): Option<ObjectRef>
    requires i < |cmds|
  {
    if cmds[i].RecordEvent? then SnapshotOf(Acquired(cmds[..i]), cmds[i].event.acquisition) else None
  }

  /** Every recorded snapshot is stored, and its key was created before. */
  ghost predicate Stored(objects: map<Hash, seq<Byte>>, cmds: seq<Command>) {
    forall i | 0 <= i < |cmds| && RecordedSnapshot(cmds, i).Some? ::
      && RecordedSnapshot(cmds, i).value.hash in objects
      && (KeyOf(RecordedSnapshot(cmds, i)).Some? ==> KeyOf(RecordedSnapshot(cmds, i)).value in CreatedBy(cmds[..i]))
  }

  /** The session ends up with the own key of everything that was created and not shredded. */
  ghost predicate Keyed(keys: map<KeyId, Key>, random: KeyId -> Key, cmds: seq<Command>, own: map<KeyId, Key>) {
    forall k | k in CreatedBy(cmds) && k !in ShreddedBy(cmds) ::
      k in own && own[k] == if k in keys then keys[k] else random(k)
  }

  // ------------------------------------------------------------ replay gives what the commands mean

  lemma ShreddedSnoc(cmds: seq<Command>, cmd: Command)
    ensures ShreddedBy(cmds + [cmd]) == ShreddedBy(cmds) + (if cmd.ShredKey? then {cmd.key} else {})
    ensures CreatedBy(cmds + [cmd]) == CreatedBy(cmds) + (if cmd.CreateKey? then {cmd.key} else {})
  {
    var all := cmds + [cmd];
    forall k | k in ShreddedBy(cmds) ensures k in ShreddedBy(all) {
      var i :| 0 <= i < |cmds| && cmds[i].ShredKey? && cmds[i].key == k;
      assert all[i].key == k;
    }
    forall k | k in CreatedBy(cmds) ensures k in CreatedBy(all) {
      var i :| 0 <= i < |cmds| && cmds[i].CreateKey? && cmds[i].key == k;
      assert all[i].key == k;
    }
    if cmd.ShredKey? || cmd.CreateKey? { assert all[|cmds|] == cmd; }
  }

  /** The keys during a run. */
  lemma {:induction false} RunKeys(w: World, objects: map<Hash, seq<Byte>>, random: KeyId -> Key, keys: map<KeyId, Key>,
      cmds: seq<Command>)
    ensures var m := Run(w, objects, random, Fresh(keys), cmds);
            && m.shredded == ShreddedBy(cmds) && m.acquisitions == Acquired(cmds)
            && (forall k :: k in m.keys <==> (k in keys || k in CreatedBy(cmds)) && k !in ShreddedBy(cmds))
            && (forall k | k in m.keys :: m.keys[k] == if k in keys then keys[k] else random(k))
  {
    if cmds != [] {
      var before, last := cmds[..|cmds| - 1], cmds[|cmds| - 1];
      assert cmds == before + [last];
      RunKeys(w, objects, random, keys, before);
      ShreddedSnoc(before, last);
    }
  }

  /** `a` and `b` differ at most in the texts of events whose key is in `doomed`; every event under a
    * doomed key has no text in `b`.
    */
  ghost predicate Alike(a: History, b: History, doomed: set<KeyId>) {
    && SameFiles(a, b)
    && forall d: Doc :: if Doomed(b, d, doomed) then Settled(b, d) else Agree(a, b, d)
  }

  ghost predicate SameFiles(a: History, b: History) {
    a.(tokens := b.tokens, unindexed := b.unindexed) == b
  }

  ghost predicate Agree(a: History, b: History, d: Doc) {
    && (d in a.tokens <==> d in b.tokens) && (d in b.tokens ==> a.tokens[d] == b.tokens[d])
    && (d in a.unindexed <==> d in b.unindexed) && (d in b.unindexed ==> a.unindexed[d] == b.unindexed[d])
  }

  ghost predicate Settled(h: History, d: Doc) {
    d !in h.tokens && d in h.unindexed && h.unindexed[d] == Unindexed.Shredded
  }

  ghost predicate Doomed(h: History, d: Doc, doomed: set<KeyId>) {
    exists k :: k in doomed && d in KeyedBy(h, k)
  }

  /** Documents are numbered in the order of the events. */
  ghost predicate Numbered(h: History) {
    && (forall k, d | d in KeyedBy(h, k) :: d < |h.events|)
    && (forall d | d in h.tokens :: d < |h.events|) && (forall d | d in h.unindexed :: d < |h.events|)
  }

  lemma InsertNumbered(u: Unicode, h: History, ev: Event, c: Content, key: Option<KeyId>)
    requires Numbered(h)
    ensures Numbered(Insert(u, h, ev, c, key))
    ensures forall k: KeyId, d: Doc {:trigger d in KeyedBy(Insert(u, h, ev, c, key), k)} ::
              d in KeyedBy(Insert(u, h, ev, c, key), k) <==> d in KeyedBy(h, k) || (key == Some(k) && d == |h.events|)
  {
    hide Owned, Placed, CallOf, CorrectionOf, Grams;
    var h' := Insert(u, h, ev, c, key);
    forall k: KeyId ensures KeyedBy(h', k) == if key == Some(k) then KeyedBy(h, k) + [|h.events|] else KeyedBy(h, k) {}
  }

  lemma {:induction false} MeantNumbered(w: World, objects: map<Hash, seq<Byte>>, shredded: set<KeyId>,
      own: map<KeyId, Key>, cmds: seq<Command>)
    ensures Numbered(Meant(w, objects, shredded, own, cmds))
  {
    if cmds != [] {
      hide Insert, Numbered, Final;
      var before, last := cmds[..|cmds| - 1], cmds[|cmds| - 1];
      MeantNumbered(w, objects, shredded, own, before);
      if last.RecordEvent? {
        var snapshot := SnapshotOf(Acquired(before), last.event.acquisition);
        InsertNumbered(w.unicode, Meant(w, objects, shredded, own, before), last.event,
          Final(w, objects, shredded, own, snapshot), KeyOf(snapshot));
      }
    } else {
      assert Numbered(NO_HISTORY);
    }
  }

  lemma AlikeInsert(u: Unicode, a: History, b: History, doomed: set<KeyId>, ev: Event, ca: Content, cb: Content,
      key: Option<KeyId>)
    requires Alike(a, b, doomed) && Numbered(b)
    requires if key.Some? && key.value in doomed then cb == Withheld(Unindexed.Shredded) else ca == cb
    ensures Alike(Insert(u, a, ev, ca, key), Insert(u, b, ev, cb, key), doomed)
  {
    hide Insert, Doomed, Numbered, Agree, Settled, SameFiles;
    var a', b', doc := Insert(u, a, ev, ca, key), Insert(u, b, ev, cb, key), |b.events|;
    InsertFiles(u, a, b, ev, ca, cb, key);
    forall d: Doc ensures if Doomed(b', d, doomed) then Settled(b', d) else Agree(a', b', d) {
      InsertDoomed(u, b, ev, cb, key, doomed, d);
      InsertTexts(u, a, b, ev, ca, cb, key, d);
      if d == doc { NotDoomedYet(b, doomed); }
    }
  }

  lemma NotDoomedYet(h: History, doomed: set<KeyId>)
    requires Numbered(h)
    ensures !Doomed(h, |h.events|, doomed) && |h.events| !in h.tokens && |h.events| !in h.unindexed
  {}

  lemma InsertFiles(u: Unicode, a: History, b: History, ev: Event, ca: Content, cb: Content, key: Option<KeyId>)
    requires SameFiles(a, b)
    ensures SameFiles(Insert(u, a, ev, ca, key), Insert(u, b, ev, cb, key))
  {
    hide Owned, Placed, CallOf, CorrectionOf, Grams, Push;
  }

  lemma InsertTexts(u: Unicode, a: History, b: History, ev: Event, ca: Content, cb: Content, key: Option<KeyId>, d: Doc)
    requires SameFiles(a, b) && Numbered(b)
    ensures var a', b', doc := Insert(u, a, ev, ca, key), Insert(u, b, ev, cb, key), |b.events|;
            && (d != doc && Agree(a, b, d) ==> Agree(a', b', d)) && (d != doc && Settled(b, d) ==> Settled(b', d))
            && (Agree(a, b, doc) && ca == cb ==> Agree(a', b', doc)) &&
              (cb == Withheld(Unindexed.Shredded) ==> Settled(b', doc))
  {
    hide Owned, Placed, CallOf, CorrectionOf, Grams, Push;
  }

  lemma InsertDoomed(u: Unicode, h: History, ev: Event, c: Content, key: Option<KeyId>, doomed: set<KeyId>, d: Doc)
    requires Numbered(h)
    ensures Doomed(Insert(u, h, ev, c, key), d, doomed) <==>
      Doomed(h, d, doomed) || (d == |h.events| && key.Some? && key.value in doomed)
  {
    hide Insert, KeyedBy, Numbered;
    InsertNumbered(u, h, ev, c, key);
    var h' := Insert(u, h, ev, c, key);
    forall k: KeyId ensures d in KeyedBy(h', k) <==> d in KeyedBy(h, k) || (key == Some(k) && d == |h.events|) {}
  }

  /** Shredding the key settles its events. */
  lemma AlikeShred(a: History, b: History, doomed: set<KeyId>, key: KeyId)
    requires Alike(a, b, {key} + doomed)
    ensures Alike(Shred(a, key), b, doomed)
  {
    hide Doomed;
    var all := {key} + doomed;
    forall d: Doc ensures if Doomed(b, d, doomed) then Settled(b, d) else Agree(Shred(a, key), b, d) {
      DoomedMore(b, d, doomed, key);
      assert KeyedBy(a, key) == KeyedBy(b, key);
      assert if Doomed(b, d, all) then Settled(b, d) else Agree(a, b, d);
    }
  }

  lemma DoomedMore(h: History, d: Doc, doomed: set<KeyId>, key: KeyId)
    ensures Doomed(h, d, {key} + doomed) <==> Doomed(h, d, doomed) || d in KeyedBy(h, key)
  {
    assert Doomed(h, d, doomed) ==> exists k :: k in {key} + doomed && d in KeyedBy(h, k);
  }

  lemma AlikeNothing(a: History, b: History)
    requires Alike(a, b, {})
    ensures a == b
  {
    forall d: Doc
      ensures (d in a.tokens <==> d in b.tokens) && (d in b.tokens ==> a.tokens[d] == b.tokens[d])
      ensures (d in a.unindexed <==> d in b.unindexed) && (d in b.unindexed ==> a.unindexed[d] == b.unindexed[d])
    {
      assert !Doomed(b, d, {});
      assert Agree(a, b, d);
    }
    assert a.tokens == b.tokens && a.unindexed == b.unindexed;
  }

  lemma ShreddedSplit(cmds: seq<Command>, i: nat)
    requires i < |cmds|
    ensures ShreddedBy(cmds[i..]) == (if cmds[i].ShredKey? then {cmds[i].key} else {}) + ShreddedBy(cmds[i + 1..])
    ensures ShreddedBy(cmds) == ShreddedBy(cmds[..i]) + ShreddedBy(cmds[i..])
  {
    ShreddedAppend([cmds[i]], cmds[i + 1..]);
    assert cmds[i..] == [cmds[i]] + cmds[i + 1..];
    ShreddedSnoc([], cmds[i]);
    assert [] + [cmds[i]] == [cmds[i]];
    ShreddedAppend(cmds[..i], cmds[i..]);
    assert cmds == cmds[..i] + cmds[i..];
  }

  lemma {:induction false} ShreddedAppend(a: seq<Command>, b: seq<Command>)
    ensures ShreddedBy(a + b) == ShreddedBy(a) + ShreddedBy(b)
    ensures CreatedBy(a + b) == CreatedBy(a) + CreatedBy(b)
  {
    if b == [] {
      assert a + b == a;
    } else {
      hide ShreddedBy, CreatedBy;
      var init, last := b[..|b| - 1], b[|b| - 1];
      ShreddedAppend(a, init);
      ShreddedSnoc(a + init, last);
      ShreddedSnoc(init, last);
      assert a + b == a + init + [last] && b == init + [last];
    }
  }

  /** What an event's text is when it is recorded: final, unless its key is going to be shredded. */
  lemma RecordedContent(w: World, objects: map<Hash, seq<Byte>>, random: KeyId -> Key, keys: map<KeyId, Key>,
      own: map<KeyId, Key>, cmds: seq<Command>, i: nat)
    requires i < |cmds| && cmds[i].RecordEvent? && Stored(objects, cmds) && Keyed(keys, random, cmds, own)
    ensures var m, snapshot := Run(w, objects, random, Fresh(keys), cmds[..i]), RecordedSnapshot(cmds, i);
            && SnapshotOf(m.acquisitions, cmds[i].event.acquisition) == snapshot
            && var now := if snapshot.None? then Withheld(Missing)
              else ReadSnapshot(w, objects, m.keys, snapshot.value);
            var final := Final(w, objects, ShreddedBy(cmds), own, snapshot);
            if KeyOf(snapshot).Some? && KeyOf(snapshot).value in ShreddedBy(cmds[i..]) then
              final == Withheld(Unindexed.Shredded) else now == final
  {
    hide Run, Acquired;
    RunKeys(w, objects, random, keys, cmds[..i]);
    ShreddedSplit(cmds, i);
    ShreddedAppend(cmds[..i], cmds[i..]);
    assert cmds == cmds[..i] + cmds[i..];
  }

  lemma {:induction false} RunAlike(w: World, objects: map<Hash, seq<Byte>>, random: KeyId -> Key,
      keys: map<KeyId, Key>,
      own: map<KeyId, Key>, cmds: seq<Command>, i: nat)
    requires i <= |cmds| && Stored(objects, cmds) && Keyed(keys, random, cmds, own)
    ensures Alike(Run(w, objects, random, Fresh(keys), cmds[..i]).history,
      Meant(w, objects, ShreddedBy(cmds), own, cmds[..i]), ShreddedBy(cmds[i..]))
  {
    if i == 0 {
      assert forall d: Doc :: !Doomed(NO_HISTORY, d, ShreddedBy(cmds[0..]));
    } else {
      hide Alike, Stored, Keyed, Insert, Shred, ShreddedBy, ReadSnapshot, Final;
      var n := i - 1;
      RunAlike(w, objects, random, keys, own, cmds, n);
      ShreddedSplit(cmds, n);
      assert cmds[..i][..n] == cmds[..n] && cmds[..i][n] == cmds[n];
      var m, h := Run(w, objects, random, Fresh(keys), cmds[..n]), Meant(w, objects, ShreddedBy(cmds), own, cmds[..n]);
      RunAlikeStep(w, objects, random, keys, own, cmds, n, m, h);
    }
  }

  lemma RunAlikeStep(w: World, objects: map<Hash, seq<Byte>>, random: KeyId -> Key, keys: map<KeyId, Key>,
      own: map<KeyId, Key>,
                     cmds: seq<Command>, n: nat, m: Memory, h: History)
    requires n < |cmds| && Stored(objects, cmds) && Keyed(keys, random, cmds, own)
    requires m == Run(w, objects, random, Fresh(keys), cmds[..n]) &&
      h == Meant(w, objects, ShreddedBy(cmds), own, cmds[..n])
    requires Alike(m.history, h, ShreddedBy(cmds[n..]))
    ensures Alike(Step(w, objects, random, m, cmds[n]).history,
                  if cmds[n].RecordEvent? then
                    var snapshot := RecordedSnapshot(cmds, n);
                    Insert(w.unicode, h, cmds[n].event, Final(w, objects, ShreddedBy(cmds), own, snapshot),
                      KeyOf(snapshot))
                  else h, ShreddedBy(cmds[n + 1..]))
  {
    hide Alike, Stored, Keyed, Insert, Shred, ShreddedBy, ReadSnapshot, Final, Run, Meant;
    ShreddedSplit(cmds, n);
    assert !cmds[n].ShredKey? ==> ShreddedBy(cmds[n..]) == ShreddedBy(cmds[n + 1..]);
    match cmds[n]
    case ShredKey(k) =>
      AlikeShred(m.history, h, ShreddedBy(cmds[n + 1..]), k);
    case RecordEvent(ev) =>
      var snapshot := RecordedSnapshot(cmds, n);
      RecordedContent(w, objects, random, keys, own, cmds, n);
      MeantNumbered(w, objects, ShreddedBy(cmds), own, cmds[..n]);
      var now := if snapshot.None? then Withheld(Missing) else ReadSnapshot(w, objects, m.keys, snapshot.value);
      AlikeInsert(w.unicode, m.history, h, ShreddedBy(cmds[n + 1..]), ev, now,
                  Final(w, objects, ShreddedBy(cmds), own, snapshot), KeyOf(snapshot));
    case _ =>
  }

  /** Whatever keys a session starts with and makes up, running the commands gives the history they mean. */
  lemma RunMeans(w: World, objects: map<Hash, seq<Byte>>, random: KeyId -> Key, keys: map<KeyId, Key>,
      own: map<KeyId, Key>, cmds: seq<Command>)
    requires Stored(objects, cmds) && Keyed(keys, random, cmds, own)
    ensures Run(w, objects, random, Fresh(keys), cmds).history == Meant(w, objects, ShreddedBy(cmds), own, cmds)
  {
    hide Alike, Stored, Keyed, Run, Meant;
    RunAlike(w, objects, random, keys, own, cmds, |cmds|);
    assert cmds[..|cmds|] == cmds && ShreddedBy(cmds[|cmds|..]) == {};
    AlikeNothing(Run(w, objects, random, Fresh(keys), cmds).history, Meant(w, objects, ShreddedBy(cmds), own, cmds));
  }

  /** An event whose key was ever shredded has no text in the history that the commands mean. */
  lemma {:induction false} ShreddedSettled(w: World, objects: map<Hash, seq<Byte>>, shredded: set<KeyId>,
      own: map<KeyId, Key>, cmds: seq<Command>)
    ensures forall k: KeyId, d: Doc | k in shredded && d in KeyedBy(Meant(w, objects, shredded, own, cmds), k) ::
              Settled(Meant(w, objects, shredded, own, cmds), d)
  {
    if cmds != [] {
      hide Insert, KeyedBy, Settled;
      var before, last := cmds[..|cmds| - 1], cmds[|cmds| - 1];
      ShreddedSettled(w, objects, shredded, own, before);
      MeantNumbered(w, objects, shredded, own, before);
      if last.RecordEvent? {
        var h, snapshot := Meant(w, objects, shredded, own, before),
          SnapshotOf(Acquired(before), last.event.acquisition);
        var c, key := Final(w, objects, shredded, own, snapshot), KeyOf(snapshot);
        InsertNumbered(w.unicode, h, last.event, c, key);
        forall k: KeyId, d: Doc | k in shredded && d in KeyedBy(Insert(w.unicode, h, last.event, c, key), k)
          ensures Settled(Insert(w.unicode, h, last.event, c, key), d)
        {
          KeyedBelow(h, k);
          InsertTexts(w.unicode, h, h, last.event, c, c, key, d) by { assert SameFiles(h, h); }
        }
      }
    }
  }

  lemma KeyedBelow(h: History, k: KeyId)
    requires Numbered(h)
    ensures forall d | d in KeyedBy(h, k) :: d < |h.events|
  {}

  // ------------------------------------------------------------ searching what was recorded

  /** The number of events recorded by the commands, which is the number of the next one. */
  function EventsIn(cmds: seq<Command>): nat {
    if cmds == [] then 0 else EventsIn(cmds[..|cmds| - 1]) + if cmds[|cmds| - 1].RecordEvent? then 1 else 0
  }

  /** The command at `i` records the event with this number, and this is its final text. */
  ghost predicate RecordedText(w: World, objects: map<Hash, seq<Byte>>, own: map<KeyId, Key>, cmds: seq<Command>,
      d: Doc, t: string) {
    exists i: nat :: RecordedAt(w, objects, ShreddedBy(cmds), own, cmds, i, d, t)
  }

  ghost predicate RecordedAt(w: World, objects: map<Hash, seq<Byte>>, shredded: set<KeyId>, own: map<KeyId, Key>,
      cmds: seq<Command>, i: nat, d: Doc, t: string) {
    && i < |cmds| && cmds[i].RecordEvent? && d == EventsIn(cmds[..i])
    && Final(w, objects, shredded, own, RecordedSnapshot(cmds, i)) == Readable(t)
  }

  /** The insertions that the commands mean: of every recorded event with its final text. */
  function Insertions(w: World, objects: map<Hash, seq<Byte>>, shredded: set<KeyId>, own: map<KeyId, Key>,
      cmds: seq<Command>): seq<Change> {
    if cmds == [] then []
    else
      var before, last := cmds[..|cmds| - 1], cmds[|cmds| - 1];
      var rest := Insertions(w, objects, shredded, own, before);
      if last.RecordEvent? then
        var snapshot := SnapshotOf(Acquired(before), last.event.acquisition);
        rest + [Insertion(last.event, Final(w, objects, shredded, own, snapshot), KeyOf(snapshot))]
      else rest
  }

  lemma {:induction false} InsertionsMeant(w: World, objects: map<Hash, seq<Byte>>, shredded: set<KeyId>,
      own: map<KeyId, Key>, cmds: seq<Command>)
    ensures HistoryAfter(w.unicode, Insertions(w, objects, shredded, own, cmds)) ==
      Meant(w, objects, shredded, own, cmds)
    ensures var run := Insertions(w, objects, shredded, own, cmds);
            |run| == |Inserted(run)| == EventsIn(cmds) && forall j | 0 <= j < |run| :: run[j].Insertion?
  {
    if cmds != [] {
      hide Insert, Final, Acquired, SnapshotOf, KeyOf;
      var before, last := cmds[..|cmds| - 1], cmds[|cmds| - 1];
      InsertionsMeant(w, objects, shredded, own, before);
      var rest := Insertions(w, objects, shredded, own, before);
      if last.RecordEvent? {
        var run := Insertions(w, objects, shredded, own, cmds);
        assert run[..|run| - 1] == rest;
      }
    }
  }

  /** The insertion of an event stays where it is. */
  lemma {:induction false} InsertionAt(w: World, objects: map<Hash, seq<Byte>>, shredded: set<KeyId>,
      own: map<KeyId, Key>, cmds: seq<Command>, i: nat)
    requires i < |cmds| && cmds[i].RecordEvent?
    ensures var run, d := Insertions(w, objects, shredded, own, cmds), EventsIn(cmds[..i]);
            && d < |run| && run[..d] == Insertions(w, objects, shredded, own, cmds[..i])
            && run[d] == Insertion(cmds[i].event, Final(w, objects, shredded, own, RecordedSnapshot(cmds, i)),
                                   KeyOf(RecordedSnapshot(cmds, i)))
    decreases |cmds|
  {
    hide Final, Acquired;
    var before := cmds[..|cmds| - 1];
    InsertionsMeant(w, objects, shredded, own, before);
    if i < |cmds| - 1 {
      assert before[..i] == cmds[..i];
      InsertionAt(w, objects, shredded, own, before, i);
    }
  }

  lemma RecordedRaw(w: World, objects: map<Hash, seq<Byte>>, shredded: set<KeyId>, own: map<KeyId, Key>,
      cmds: seq<Command>, i: nat, d: Doc, t: string)
    requires RecordedAt(w, objects, shredded, own, cmds, i, d, t)
    ensures HasRaw(Insertions(w, objects, shredded, own, cmds), d, t)
  {
    hide Final, Acquired, Insertions;
    InsertionAt(w, objects, shredded, own, cmds, i);
    InsertionsMeant(w, objects, shredded, own, cmds[..i]);
    InsertionsMeant(w, objects, shredded, own, cmds);
    assert IsRaw(Insertions(w, objects, shredded, own, cmds), d, d, t);
  }
}
