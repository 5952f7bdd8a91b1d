/** The conversation history: events in the order they were recorded, the maps that find them, and
  * the index of their texts (history.rs).
  */
module ConversationHistory {
  import opened Wrappers
  import opened Text
  import opened TextSearch

  type KeyId = nat
  type Doc = nat

  datatype Event = Event(owner: string, eventId: string, conversation: string, sequence: nat, callId: Option<string>,
                         supersedes: Option<string>, acquisition: nat)

  /** Why a text could not be indexed. */
  datatype Unindexed = NotUtf8 | Shredded | Missing

  datatype Content = Readable(text: string) | Withheld(why: Unindexed)

  datatype History = History(
    events: seq<Event>, byEvent: map<(string, string), Doc>, byOwner: map<string, set<Doc>>,
    byConversation: map<(string, string), map<nat, Doc>>, byCall: map<(string, string, string), seq<Doc>>,
    supersededBy: map<(string, string), seq<Doc>>, byKey: map<KeyId, seq<Doc>>,
    tokens: map<Doc, set<string>>, unindexed: map<Doc, Unindexed>)

  const NO_HISTORY: History := History([], map[], map[], map[], map[], map[], map[], map[], map[])

  function Grams(u: Unicode, text: string): set<string> {
    Bigrams(u, Normalize(u, text)) + Singles(u, Normalize(u, text))
  }

  function Push<K>(m: map<K, seq<Doc>>, k: Option<K>, doc: Doc): map<K, seq<Doc>> {
    if k.None? then m else m[k.value := (if k.value in m then m[k.value] else []) + [doc]]
  }

  function CallOf(ev: Event): Option<(string, string, string)> {
    if ev.callId.None? then None else Some((ev.owner, ev.conversation, ev.callId.value))
  }

  function CorrectionOf(ev: Event): Option<(string, string)> {
    if ev.supersedes.None? then None else Some((ev.owner, ev.supersedes.value))
  }

  function Owned(m: map<string, set<Doc>>, owner: string, doc: Doc): map<string, set<Doc>> {
    m[owner := (if owner in m then m[owner] else {}) + {doc}]
  }

  function Placed(m: map<(string, string), map<nat, Doc>>, ev: Event, doc: Doc): map<(string, string), map<nat, Doc>> {
    var conv := (ev.owner, ev.conversation);
    m[conv := (if conv in m then m[conv] else map[])[ev.sequence := doc]]
  }

  /** The maps that find an event; its text is indexed separately. */
  function Filed(h: History, ev: Event, key: Option<KeyId>): History {
    var doc := |h.events|;
    h.(events := h.events + [ev], byEvent := h.byEvent[(ev.owner, ev.eventId) := doc],
      byOwner := Owned(h.byOwner, ev.owner, doc),
       byConversation := Placed(h.byConversation, ev, doc), byCall := Push(h.byCall, CallOf(ev), doc),
       supersededBy := Push(h.supersededBy, CorrectionOf(ev), doc), byKey := Push(h.byKey, key, doc))
  }

  function Insert(u: Unicode, h: History, ev: Event, content: Content, key: Option<KeyId>): History {
    var doc, filed := |h.events|, Filed(h, ev, key);
    match content
    case Readable(text) => filed.(tokens := h.tokens[doc := Grams(u, text)])
    case Withheld(why) => filed.(unindexed := h.unindexed[doc := why])
  }

  function At<K>(m: map<K, seq<Doc>>, k: K): seq<Doc> {
    if k in m then m[k] else []
  }

  function KeyedBy(h: History, key: KeyId): seq<Doc> {
    At(h.byKey, key)
  }

  function DocSet(docs: seq<Doc>): set<Doc> {
    set d | d in docs
  }

  function ShredMarks(docs: seq<Doc>): map<Doc, Unindexed> {
    map d | d in docs :: Shredded
  }

  function Shred(h: History, key: KeyId): History {
    var docs := KeyedBy(h, key);
    h.(tokens := h.tokens - DocSet(docs), unindexed := h.unindexed + ShredMarks(docs))
  }

  lemma FiledTexts(h: History, ev: Event, key: Option<KeyId>)
    ensures Filed(h, ev, key).tokens == h.tokens && Filed(h, ev, key).unindexed == h.unindexed
  {}

  lemma OneMore(docs: seq<Doc>, i: nat, tokens: map<Doc, set<string>>, unindexed: map<Doc, Unindexed>)
    requires i < |docs|
    ensures tokens - DocSet(docs[..i + 1]) == tokens - DocSet(docs[..i]) - {docs[i]}
    ensures unindexed + ShredMarks(docs[..i + 1]) == (unindexed + ShredMarks(docs[..i]))[docs[i] := Shredded]
  {
    assert docs[..i + 1] == docs[..i] + [docs[i]];
  }

  class HistoryStore {
    const u: Unicode
    var events: seq<Event>
    var byEvent: map<(string, string), Doc>
    var byOwner: map<string, set<Doc>>
    var byConversation: map<(string, string), map<nat, Doc>>
    var byCall: map<(string, string, string), seq<Doc>>
    var supersededBy: map<(string, string), seq<Doc>>
    var byKey: map<KeyId, seq<Doc>>
    const text: TextIndex
    var unindexed: map<Doc, Unindexed>

    ghost function State(): History
      reads this, text
    {
      History(events, byEvent, byOwner, byConversation, byCall, supersededBy, byKey, text.docTokens, unindexed)
    }

    constructor (u: Unicode)
      ensures State() == NO_HISTORY && text.Valid() && fresh(text) && this.u == u
    {
      this.u := u;
      events, byEvent, byOwner, byConversation, byCall := [], map[], map[], map[], map[];
      supersededBy, byKey, unindexed := map[], map[], map[];
      text := new TextIndex();
    }

    method File(ev: Event, key: Option<KeyId>) returns (doc: Doc)
      modifies this`events, this`byEvent, this`byOwner, this`byConversation, this`byCall, this`supersededBy, this`byKey
      ensures doc == |old(events)| && State() == Filed(old(State()), ev, key)
    {
      hide Push, Owned, Placed, CallOf, CorrectionOf;
      doc := |events|;
      byEvent := byEvent[(ev.owner, ev.eventId) := doc];
      byOwner := Owned(byOwner, ev.owner, doc);
      byConversation := Placed(byConversation, ev, doc);
      byCall := Push(byCall, CallOf(ev), doc);
      supersededBy := Push(supersededBy, CorrectionOf(ev), doc);
      byKey := Push(byKey, key, doc);
      events := events + [ev];
    }

    method InsertEvent(ev: Event, content: Content, key: Option<KeyId>) returns (doc: Doc)
      requires text.Valid()
      modifies this, text
      ensures text.Valid() && doc == |old(events)| && State() == Insert(u, old(State()), ev, content, key)
    {
      hide Filed, Bigrams, Singles, Normalize;
      ghost var h := State();
      doc := File(ev, key);
      FiledTexts(h, ev, key);
      match content
      case Readable(t) =>
        var toks := GramTokens(u, t);
        text.SetTokens(doc, toks);
      case Withheld(why) =>
        unindexed := unindexed[doc := why];
    }

    method ShredKey(key: KeyId)
      requires text.Valid()
      modifies this`unindexed, text
      ensures text.Valid() && State() == Shred(old(State()), key)
    {
      hide TextIndex.Valid;
      var docs := if key in byKey then byKey[key] else [];
      ghost var tokens0, unindexed0 := text.docTokens, unindexed;
      for i := 0 to |docs|
        invariant text.Valid()
        invariant text.docTokens == tokens0 - DocSet(docs[..i])
        invariant unindexed == unindexed0 + ShredMarks(docs[..i])
      {
        OneMore(docs, i, tokens0, unindexed0);
        text.Remove(docs[i]);
        unindexed := unindexed[docs[i] := Shredded];
      }
      assert docs[..|docs|] == docs;
    }

    /** The candidates of a text search leave out no readable event that matches and whose key was not shredded. */
    method TextCandidates(query: string, exact: bool, terms: seq<string>, ghost run: seq<Change>)
        returns (r: Option<set<Doc>>)
      requires Lawful(u) && text.Valid() && State() == HistoryAfter(u, run)
      ensures r.Some? ==>
                forall d: Doc, t: string | HasRaw(run, d, t) && Matches(u, t, query, exact, terms) :: d in r.value
    {
      hide TextIndex.Valid, HasRaw, Matches, Lawful;
      ghost var raws := RunIndexed(u, run);
      r := Candidates(u, text, query, exact, terms, raws);
    }

    /** The event with a place in the recorded order of its conversation. */
    method AtSequence(owner: string, conversation: string, sequence: nat) returns (doc: Option<Doc>)
      ensures doc == Lookup(State(), owner, conversation, sequence)
    {
      if (owner, conversation) !in byConversation { return None; }
      var m := byConversation[(owner, conversation)];
      return if sequence in m then Some(m[sequence]) else None;
    }
  }

  function Lookup(h: History, owner: string, conversation: string, sequence: nat): Option<Doc> {
    if (owner, conversation) in h.byConversation && sequence in h.byConversation[(owner, conversation)]
    then Some(h.byConversation[(owner, conversation)][sequence])
    else None
  }

  /** A new event is found by its identifier and at its place; nothing else moves. */
  lemma InsertFinds(u: Unicode, h: History, ev: Event, content: Content, key: Option<KeyId>)
    ensures var h', doc := Insert(u, h, ev, content, key), |h.events|;
            && h'.events == h.events + [ev]
            && h'.byEvent == h.byEvent[(ev.owner, ev.eventId) := doc]
            && Lookup(h', ev.owner, ev.conversation, ev.sequence) == Some(doc)
            && (forall owner: string, conversation: string, sequence: nat |
                  !(owner == ev.owner && conversation == ev.conversation && sequence == ev.sequence) ::
                  Lookup(h', owner, conversation, sequence) == Lookup(h, owner, conversation, sequence))
            && (content.Readable? ==>
              h'.tokens == h.tokens[doc := Grams(u, content.text)] && h'.unindexed == h.unindexed)
            && (content.Withheld? ==> h'.tokens == h.tokens && h'.unindexed == h.unindexed[doc := content.why])
  {
    hide Grams, Owned, Push, CallOf, CorrectionOf;
  }

  function OwnerDocs(h: History, owner: string): set<Doc> {
    if owner in h.byOwner then h.byOwner[owner] else {}
  }

  /** The events with the same call identifier in a conversation. */
  function CallPeers(h: History, call: (string, string, string)): seq<Doc> {
    At(h.byCall, call)
  }

  function Corrections(h: History, event: (string, string)): seq<Doc> {
    At(h.supersededBy, event)
  }

  function If<T>(c: bool, x: T): seq<T> {
    if c then [x] else []
  }

  lemma PushJoins<K(!new)>(m: map<K, seq<Doc>>, k: Option<K>, doc: Doc)
    ensures forall x: K :: At(Push(m, k, doc), x) == At(m, x) + If(k == Some(x), doc)
  {}

  /** A new event joins exactly the groups it names: its owner, its call, what it corrects, and its key. */
  lemma InsertJoins(u: Unicode, h: History, ev: Event, content: Content, key: Option<KeyId>)
    ensures var h', doc := Insert(u, h, ev, content, key), |h.events|;
            && (forall owner: string ::
              OwnerDocs(h', owner) == OwnerDocs(h, owner) + (if owner == ev.owner then {doc} else {}))
            && (forall owner: string, conversation: string, call: string ::
                  CallPeers(h', (owner, conversation, call)) == CallPeers(h, (owner, conversation, call))
                  + If(owner == ev.owner && conversation == ev.conversation && ev.callId == Some(call), doc))
            && (forall owner: string, id: string ::
                  Corrections(h', (owner, id)) ==
                    Corrections(h, (owner, id)) + If(owner == ev.owner && ev.supersedes == Some(id), doc))
            && (forall k: KeyId :: KeyedBy(h', k) == KeyedBy(h, k) + If(key == Some(k), doc))
  {
    hide Grams, Placed, Push, At;
    PushJoins(h.byCall, CallOf(ev), |h.events|);
    PushJoins(h.supersededBy, CorrectionOf(ev), |h.events|);
    PushJoins(h.byKey, key, |h.events|);
  }

  // ------------------------------------------------------------ runs

  datatype Change = Insertion(event: Event, content: Content, under: Option<KeyId>) | Shredding(key: KeyId)

  function Changed(u: Unicode, h: History, change: Change): History {
    match change
    case Insertion(ev, content, key) => Insert(u, h, ev, content, key)
    case Shredding(key) => Shred(h, key)
  }

  function HistoryAfter(u: Unicode, run: seq<Change>): History {
    if run == [] then NO_HISTORY else Changed(u, HistoryAfter(u, run[..|run| - 1]), run[|run| - 1])
  }

  function Inserted(run: seq<Change>): seq<Event> {
    if run == [] then []
    else
      var before, last := Inserted(run[..|run| - 1]), run[|run| - 1];
      if last.Insertion? then before + [last.event] else before
  }

  /** The change at `i` inserts the event with this number. */
  predicate Inserts(run: seq<Change>, i: nat, d: Doc) {
    i < |run| && run[i].Insertion? && |Inserted(run[..i])| == d
  }

  /** The event was inserted at `i` with this raw text, and its key was not shredded afterwards. */
  ghost predicate IsRaw(run: seq<Change>, d: Doc, i: nat, t: string) {
    && Inserts(run, i, d) && run[i].content == Readable(t)
    && forall j | i < j < |run| && run[j].Shredding? :: run[i].under != Some(run[j].key)
  }

  /** The event was inserted under the key. */
  ghost predicate KeyedIn(run: seq<Change>, k: KeyId, d: Doc) {
    exists i: nat :: Inserts(run, i, d) && run[i].under == Some(k)
  }

  lemma InsertsOneMore(run: seq<Change>, i: nat, d: Doc)
    requires run != []
    ensures var before, last := run[..|run| - 1], run[|run| - 1];
            Inserts(run, i, d) <==>
              Inserts(before, i, d) || (i == |run| - 1 && last.Insertion? && d == |Inserted(before)|)
  {
    if i < |run| { assert run[..|run| - 1][..i] == run[..i] || i == |run| - 1; }
  }

  lemma KeyedOneMore(run: seq<Change>, k: KeyId, d: Doc)
    requires run != []
    ensures var before, last := run[..|run| - 1], run[|run| - 1];
            KeyedIn(run, k, d) <==>
              KeyedIn(before, k, d) || (last.Insertion? && last.under == Some(k) && d == |Inserted(before)|)
  {
    hide Inserts;
    var before := run[..|run| - 1];
    forall i: nat ensures Inserts(run, i, d) <==>
      Inserts(before, i, d) || (i == |run| - 1 && run[i].Insertion? && d == |Inserted(before)|)
    {
      InsertsOneMore(run, i, d);
    }
    InsertsInRun(before, d);
    InsertsInRun(run, d);
    assert Inserts(run, |run| - 1, d) ==> KeyedIn(run, k, d) || run[|run| - 1].under != Some(k);
    if KeyedIn(before, k, d) {
      var i: nat :| Inserts(before, i, d) && before[i].under == Some(k);
      assert Inserts(run, i, d) && run[i].under == Some(k);
    }
  }

  lemma InsertsInRun(run: seq<Change>, d: Doc)
    ensures forall i: nat | Inserts(run, i, d) :: i < |run| && run[i].Insertion?
  {}

  lemma ChangedFiles(u: Unicode, h: History, change: Change)
    ensures Changed(u, h, change).events == if change.Insertion? then h.events + [change.event] else h.events
    ensures forall k: KeyId :: KeyedBy(Changed(u, h, change), k) ==
              KeyedBy(h, k) + If(change.Insertion? && change.under == Some(k), |h.events|)
  {
    hide Insert, KeyedBy;
    if change.Insertion? {
      InsertFinds(u, h, change.event, change.content, change.under);
      InsertJoins(u, h, change.event, change.content, change.under);
    } else {
      ShredFiles(h, change.key);
    }
  }

  lemma ShredFiles(h: History, key: KeyId)
    ensures Shred(h, key).events == h.events && forall k: KeyId :: KeyedBy(Shred(h, key), k) == KeyedBy(h, k)
  {}

  /** Events are numbered in the order of their insertion, and found under their key. */
  lemma {:induction false} RunKeyed(u: Unicode, run: seq<Change>)
    ensures HistoryAfter(u, run).events == Inserted(run)
    ensures forall k: KeyId, d: Doc :: d in KeyedBy(HistoryAfter(u, run), k) <==> KeyedIn(run, k, d)
  {
    hide Changed, KeyedBy, KeyedIn;
    if run == [] {
      NothingKeyed();
    } else {
      var before := run[..|run| - 1];
      RunKeyed(u, before);
      ChangedFiles(u, HistoryAfter(u, before), run[|run| - 1]);
      forall k: KeyId, d: Doc ensures d in KeyedBy(HistoryAfter(u, run), k) <==> KeyedIn(run, k, d) {
        KeyedOneMore(run, k, d);
      }
    }
  }

  lemma NothingKeyed()
    ensures forall k: KeyId, d: Doc :: d !in KeyedBy(NO_HISTORY, k) && !KeyedIn([], k, d)
  {}

  /** The numbers of the events increase. */
  lemma {:induction false} InsertedBefore(run: seq<Change>, i: nat, j: nat)
    requires i < j <= |run| && run[i].Insertion?
    ensures |Inserted(run[..i])| < |Inserted(run[..j])|
    decreases j
  {
    assert run[..j][..j - 1] == run[..j - 1];
    if i < j - 1 { InsertedBefore(run, i, j - 1); }
  }

  lemma OneInsertion(run: seq<Change>, i: nat, j: nat, d: Doc)
    requires Inserts(run, i, d) && Inserts(run, j, d)
    ensures i == j
  {
    if i < j { InsertedBefore(run, i, j); }
    if j < i { InsertedBefore(run, j, i); }
  }

  lemma InsertsBelow(run: seq<Change>, i: nat, d: Doc)
    requires Inserts(run, i, d)
    ensures d < |Inserted(run)|
  {
    InsertedBefore(run, i, |run|);
    assert run[..|run|] == run;
  }

  /** What one more change does to the raw texts. */
  ghost predicate RawIsStep(run: seq<Change>, d: Doc, i: nat, t: string)
    requires run != []
  {
    var before, last := run[..|run| - 1], run[|run| - 1];
    match last
    case Insertion(_, content, _) =>
      IsRaw(run, d, i, t) <==>
        (IsRaw(before, d, i, t) || (i == |run| - 1 && content == Readable(t) && d == |Inserted(before)|))
    case Shredding(k) => IsRaw(run, d, i, t) <==> (IsRaw(before, d, i, t) && !KeyedIn(before, k, d))
  }

  lemma RawOneMore(run: seq<Change>, d: Doc, i: nat, t: string)
    requires run != []
    ensures RawIsStep(run, d, i, t)
  {
    hide Inserts;
    var before, last := run[..|run| - 1], run[|run| - 1];
    InsertsOneMore(run, i, d);
    InsertsInRun(before, d);
    InsertsInRun(run, d);
    if last.Shredding? && Inserts(before, i, d) {
      forall j: nat | Inserts(before, j, d) ensures j == i { OneInsertion(before, i, j, d); }
      assert before[i].under == Some(last.key) ==> KeyedIn(before, last.key, d);
    }
  }

  /** The texts that are in the index after one more change. */
  function TextsAfter(h: History, change: Change, texts: map<Doc, string>): map<Doc, string> {
    match change
    case Insertion(_, content, _) => if content.Readable? then texts[|h.events| := content.text] else texts
    case Shredding(k) => texts - DocSet(KeyedBy(h, k))
  }

  lemma IndexedStep(u: Unicode, h: History, change: Change, texts: map<Doc, string>)
    requires IndexedBy(u, h.tokens, texts) && h.tokens.Keys == texts.Keys
    ensures IndexedBy(u, Changed(u, h, change).tokens, TextsAfter(h, change, texts))
    ensures Changed(u, h, change).tokens.Keys == TextsAfter(h, change, texts).Keys
  {
    hide Normalize, Bigrams, Singles, Owned, Placed, Push, CallOf, CorrectionOf;
  }

  /** The event has this raw text in the end. */
  ghost predicate HasRaw(run: seq<Change>, d: Doc, t: string) {
    exists i: nat :: IsRaw(run, d, i, t)
  }

  lemma HasRawOneMore(run: seq<Change>, d: Doc, t: string)
    requires run != []
    ensures var before, last := run[..|run| - 1], run[|run| - 1];
            match last {
              case Insertion(_, content, _) =>
                HasRaw(run, d, t) <==> HasRaw(before, d, t) || (content == Readable(t) && d == |Inserted(before)|)
              case Shredding(k) => HasRaw(run, d, t) <==> HasRaw(before, d, t) && !KeyedIn(before, k, d)
            }
  {
    hide IsRaw, KeyedIn, Inserted;
    RawOneMore(run, d, |run| - 1, t);
    if HasRaw(run, d, t) {
      var i: nat :| IsRaw(run, d, i, t);
      RawOneMore(run, d, i, t);
    }
    if HasRaw(run[..|run| - 1], d, t) {
      var i: nat :| IsRaw(run[..|run| - 1], d, i, t);
      RawOneMore(run, d, i, t);
    }
  }

  lemma RawBelow(run: seq<Change>, d: Doc, t: string)
    requires HasRaw(run, d, t)
    ensures d < |Inserted(run)|
  {
    var i: nat :| IsRaw(run, d, i, t);
    InsertsBelow(run, i, d);
  }

  /** After any run the index holds exactly the events that are readable and whose key was not shredded since, each
    * under
    * the pairs and single characters of its normalised text.
    */
  lemma {:induction false} RunIndexed(u: Unicode, run: seq<Change>) returns (raws: map<Doc, string>)
    ensures IndexedBy(u, HistoryAfter(u, run).tokens, raws) && HistoryAfter(u, run).tokens.Keys == raws.Keys
    ensures forall d: Doc, t: string :: (d in raws && raws[d] == t) <==> HasRaw(run, d, t)
  {
    raws := map[];
    if run != [] {
      hide Changed, HasRaw, KeyedBy, KeyedIn, IndexedBy, TextsAfter, Inserted;
      var before, last := run[..|run| - 1], run[|run| - 1];
      var texts := RunIndexed(u, before);
      raws := TextsAfter(HistoryAfter(u, before), last, texts);
      IndexedStep(u, HistoryAfter(u, before), last, texts);
      forall d: Doc, t: string ensures (d in raws && raws[d] == t) <==> HasRaw(run, d, t) {
        TextsStep(u, run, texts, d, t);
      }
    }
  }

  lemma TextsStep(u: Unicode, run: seq<Change>, texts: map<Doc, string>, d: Doc, t: string)
    requires run != [] && ((d in texts && texts[d] == t) <==> HasRaw(run[..|run| - 1], d, t))
    ensures var raws := TextsAfter(HistoryAfter(u, run[..|run| - 1]), run[|run| - 1], texts);
            (d in raws && raws[d] == t) <==> HasRaw(run, d, t)
  {
    hide HasRaw, KeyedBy, KeyedIn, HistoryAfter, Inserted;
    var before := run[..|run| - 1];
    RunKeyed(u, before);
    HasRawOneMore(run, d, t);
    if HasRaw(before, d, t) { RawBelow(before, d, t); }
  }
}
