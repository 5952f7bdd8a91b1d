/** Recording a batch of conversation events of one owner: resending is harmless, conflicts refuse
  * the whole batch, identifiers and places stay unique, and a conversation keeps its visibility (write.rs).
  */
module Recording {
  import opened Wrappers
  import B = Branches

  const MAX_EVENTS: nat := 1000

  datatype Fields = Fields(conversation: string, sequence: nat, metadata: seq<string>)

  datatype Event = Event(id: string, fields: Fields, content: seq<nat>)

  /** An event to record, with the visibility asked for its conversation. */
  datatype Input = Input(event: Event, visibility: Option<B.Visibility>)

  /** The events of the owner, the visibility of each of the owner's conversations, and for which conversations and
    * visibilities a source is registered, perhaps by another owner.
    */
  datatype Site = Site(log: seq<Event>, sources: map<string, B.Visibility>, registered: set<(string, B.Visibility)>)

  const NO_EVENTS: Site := Site([], map[], {})

  type Place = (string, nat)

  function PlaceOf(e: Event): Place {
    (e.fields.conversation, e.fields.sequence)
  }

  datatype Refusal = Anonymous | WrongSize | Malformed | Conflict | Incomparable | Forbidden | NotStored

  /** Who sends the events, and what is decided elsewhere: whether identifiers, content, hash and time of an event are
    * in order, whether the recorded content of an event can still be compared, which it cannot once its key is
    * shredded, and whether the content of a new event can be stored, which it cannot under a key that does not exist.
    */
  datatype Rules = Rules(who: B.Principal, wellFormed: Event -> bool, comparable: string -> bool,
      storable: Event -> bool)

  datatype Verdict = Duplicate | New | Refused(why: Refusal)

  /** `begun` has the visibility of the conversations that the batch begins. */
  datatype Result = Recorded(added: seq<Event>, duplicates: seq<bool>, begun: map<string, B.Visibility>) |
      Rejected(why: Refusal)

  function FindId(q: seq<Event>, id: string): (r: Option<Event>)
    ensures r.Some? ==> r.value in q && r.value.id == id
    ensures r.None? ==> forall e | e in q :: e.id != id
  {
    if q == [] then None
    else if q[|q| - 1].id == id then Some(q[|q| - 1])
    else FindId(q[..|q| - 1], id)
  }

  predicate PlaceTaken(q: seq<Event>, p: Place) {
    exists e <- q :: PlaceOf(e) == p
  }

  /** An event against what was recorded and what came earlier in the batch. */
  function Check(log: seq<Event>, added: seq<Event>, e: Event, rules: Rules): Verdict {
    var old_ := FindId(log, e.id);
    if !rules.wellFormed(e) then Refused(Malformed)
    else if old_.Some? then
      if old_.value.fields != e.fields then Refused(Conflict)
      else if !rules.comparable(e.id) then Refused(Incomparable)
      else if old_.value.content != e.content then Refused(Conflict)
      else Duplicate
    else
      var first := FindId(added, e.id);
      if first.Some? then if first.value == e then Duplicate else Refused(Conflict)
      else if PlaceTaken(log, PlaceOf(e)) || PlaceTaken(added, PlaceOf(e)) then Refused(Conflict)
      else New
  }

  /** The visibility of a conversation that is begun: the one asked for, or private. */
  function Asked(who: B.Principal, input: Input): B.Visibility {
    match input.visibility
    case Some(v) => v
    case None => B.Private(if who.onBehalfOf.Some? then who.onBehalfOf.value else who.actor)
  }

  /** No one makes what is not theirs to see, and groups are not empty. */
  predicate MayCreate(who: B.Principal, v: B.Visibility) {
    B.CanSee(who, v) && (v.Groups? ==> v.groups != {})
  }

  /** A new event may ask only for the visibility that its conversation has. For a conversation begun earlier in the
    * batch this is looked at only if its source was registered before.
    */
  function VisibilityRefusal(site: Site, begun: map<string, B.Visibility>, input: Input,
      who: B.Principal): Option<Refusal> {
    var conv := input.event.fields.conversation;
    if conv in site.sources then
      if input.visibility.Some? && input.visibility.value != site.sources[conv] then Some(Conflict) else None
    else if conv in begun then
      if input.visibility.Some? && (conv, begun[conv]) in site.registered && input.visibility.value != begun[conv]
      then Some(Conflict) else None
    else if MayCreate(who, Asked(who, input)) then None
    else Some(Forbidden)
  }

  function BegunWith(site: Site, begun: map<string, B.Visibility>, input: Input, who: B.Principal): map<string,
      B.Visibility> {
    var conv := input.event.fields.conversation;
    if conv in site.sources || conv in begun then begun else begun[conv := Asked(who, input)]
  }

  function CheckInput(site: Site, added: seq<Event>, begun: map<string, B.Visibility>, input: Input,
      rules: Rules): Verdict {
    var v := Check(site.log, added, input.event, rules);
    if v != New then v
    else
      var refusal := VisibilityRefusal(site, begun, input, rules.who);
      if refusal.Some? then Refused(refusal.value)
      else if !rules.storable(input.event) then Refused(NotStored)
      else New
  }

  function Batch(site: Site, inputs: seq<Input>, rules: Rules): Result {
    if inputs == [] then Recorded([], [], map[])
    else Extended(site, Batch(site, inputs[..|inputs| - 1], rules), inputs[|inputs| - 1], rules)
  }

  function Extended(site: Site, before: Result, input: Input, rules: Rules): Result {
    if before.Rejected? then before
    else
      match CheckInput(site, before.added, before.begun, input, rules)
      case Duplicate => before.(duplicates := before.duplicates + [true])
      case New =>
        Recorded(before.added + [input.event], before.duplicates + [false],
          BegunWith(site, before.begun, input, rules.who))
      case Refused(why) => Rejected(why)
  }

  function Record(site: Site, inputs: seq<Input>, rules: Rules): Result {
    if rules.who.actor == "anonymous" then Rejected(Anonymous)
    else if inputs == [] || |inputs| > MAX_EVENTS then Rejected(WrongSize)
    else Batch(site, inputs, rules)
  }

  /** What is recorded afterwards. */
  function After(site: Site, r: Result): Site {
    match r
    case Rejected(_) => site
    case Recorded(added, _, begun) =>
      Site(site.log + added, site.sources + begun, site.registered + set c | c in begun :: (c, begun[c]))
  }

  // ------------------------------------------------------------ in place

  /** The maps of what came earlier in the request. */
  ghost predicate PendingOk(added: seq<Event>, pending: map<string, Event>, pendingPlace: map<Place, string>) {
    && (forall id :: id in pending <==> FindId(added, id).Some?)
    && (forall id | id in pending :: FindId(added, id) == Some(pending[id]))
    && (forall p :: p in pendingPlace <==> PlaceTaken(added, p))
  }

  lemma PendingMore(added: seq<Event>, pending: map<string, Event>, pendingPlace: map<Place, string>, e: Event)
    requires PendingOk(added, pending, pendingPlace)
    ensures PendingOk(added + [e], pending[e.id := e], pendingPlace[PlaceOf(e) := e.id])
  {
    assert (added + [e])[..|added|] == added;
    forall p ensures PlaceTaken(added + [e], p) <==> PlaceTaken(added, p) || PlaceOf(e) == p {
      assert forall x :: x in added + [e] <==> x in added || x == e;
      if PlaceTaken(added, p) {
        var x :| x in added && PlaceOf(x) == p;
        assert x in added + [e];
      }
      assert e in added + [e];
    }
  }

  class Recorder {
    var byEvent: map<string, Event>
    var byPlace: map<Place, string>
    var sources: map<string, B.Visibility>
    var registered: set<(string, B.Visibility)>
    ghost var log: seq<Event>

    ghost function State(): Site
      reads this
    {
      Site(log, sources, registered)
    }

    ghost predicate Valid()
      reads this
    {
      PendingOk(log, byEvent, byPlace)
    }

    constructor ()
      ensures Valid() && State() == NO_EVENTS
    {
      byEvent, byPlace, sources, registered, log := map[], map[], map[], {}, [];
    }

    method CheckOne(ghost added: seq<Event>, pending: map<string, Event>, pendingPlace: map<Place, string>, e: Event,
        rules: Rules)
        returns (v: Verdict)
      requires Valid() && PendingOk(added, pending, pendingPlace)
      ensures v == Check(log, added, e, rules)
    {
      hide PendingOk;
      if !rules.wellFormed(e) { return Refused(Malformed); }
      PendingLookup(log, byEvent, byPlace, e);
      PendingLookup(added, pending, pendingPlace, e);
      if e.id in byEvent {
        var old_ := byEvent[e.id];
        if old_.fields != e.fields { return Refused(Conflict); }
        if !rules.comparable(e.id) { return Refused(Incomparable); }
        return if old_.content != e.content then Refused(Conflict) else Duplicate;
      }
      if e.id in pending {
        return if pending[e.id] != e then Refused(Conflict) else Duplicate;
      }
      return if PlaceOf(e) in byPlace || PlaceOf(e) in pendingPlace then Refused(Conflict) else New;
    }

    method CheckAll(inputs: seq<Input>, rules: Rules) returns (r: Result)
      requires Valid()
      ensures r == Batch(State(), inputs, rules)
    {
      var pending: map<string, Event>, pendingPlace: map<Place, string>, begun: map<string, B.Visibility> := map[],
        map[], map[];
      var added: seq<Event>, results: seq<bool> := [], [];
      for i := 0 to |inputs|
        invariant PendingOk(added, pending, pendingPlace)
        invariant Batch(State(), inputs[..i], rules) == Recorded(added, results, begun)
      {
        hide PendingOk, Check, VisibilityRefusal, BegunWith;
        var input := inputs[i];
        assert inputs[..i + 1][..i] == inputs[..i];
        var v := CheckOne(added, pending, pendingPlace, input.event, rules);
        if v == New {
          var refusal := VisibilityRefusal(Site([], sources, registered), begun, input, rules.who);
          VisibilityOnly(State(), begun, input, rules.who);
          v := if refusal.Some? then Refused(refusal.value) else if !rules.storable(input.event) then
            Refused(NotStored) else New;
        }
        match v
        case Refused(why) =>
          RejectionStays(State(), inputs, rules, i + 1);
          return Rejected(why);
        case Duplicate =>
          results := results + [true];
        case New =>
          var e := input.event;
          PendingMore(added, pending, pendingPlace, e);
          pending, pendingPlace := pending[e.id := e], pendingPlace[PlaceOf(e) := e.id];
          begun := BegunWith(Site([], sources, registered), begun, input, rules.who);
          added, results := added + [e], results + [false];
      }
      assert inputs[..|inputs|] == inputs;
      return Recorded(added, results, begun);
    }

    method AddAll(added: seq<Event>)
      requires Valid()
      modifies this`byEvent, this`byPlace, this`log
      ensures Valid() && log == old(log) + added
    {
      for i := 0 to |added|
        invariant Valid() && log == old(log) + added[..i]
      {
        hide PendingOk;
        PendingMore(log, byEvent, byPlace, added[i]);
        assert added[..i + 1] == added[..i] + [added[i]];
        byEvent, byPlace := byEvent[added[i].id := added[i]], byPlace[PlaceOf(added[i]) := added[i].id];
        log := log + [added[i]];
      }
      assert added[..|added|] == added;
    }

    /** Checks every event against what was recorded and what came earlier, and then adds the new ones;
      * a refusal leaves everything as it was.
      */
    method RecordEvents(inputs: seq<Input>, rules: Rules) returns (r: Result)
      requires Valid()
      modifies this
      ensures Valid() && r == Record(old(State()), inputs, rules)
      ensures State() == After(old(State()), r)
    {
      hide Check, Batch;
      if rules.who.actor == "anonymous" { return Rejected(Anonymous); }
      if |inputs| == 0 || |inputs| > MAX_EVENTS { return Rejected(WrongSize); }
      r := CheckAll(inputs, rules);
      if r.Recorded? {
        AddAll(r.added);
        sources := sources + r.begun;
        registered := registered + set c | c in r.begun :: (c, r.begun[c]);
      }
    }
  }

  /** The events themselves play no part in the visibility of conversations. */
  lemma VisibilityOnly(site: Site, begun: map<string, B.Visibility>, input: Input, who: B.Principal)
    ensures VisibilityRefusal(Site([], site.sources, site.registered), begun, input, who) ==
      VisibilityRefusal(site, begun, input, who)
    ensures BegunWith(Site([], site.sources, site.registered), begun, input, who) == BegunWith(site, begun, input, who)
  {}

  lemma PendingLookup(added: seq<Event>, pending: map<string, Event>, pendingPlace: map<Place, string>, e: Event)
    requires PendingOk(added, pending, pendingPlace)
    ensures FindId(added, e.id) == (if e.id in pending then Some(pending[e.id]) else None)
    ensures PlaceTaken(added, PlaceOf(e)) <==> PlaceOf(e) in pendingPlace
  {}

  lemma {:induction false} RejectionStays(site: Site, inputs: seq<Input>, rules: Rules, i: nat)
    requires i <= |inputs| && Batch(site, inputs[..i], rules).Rejected?
    ensures Batch(site, inputs, rules) == Batch(site, inputs[..i], rules)
    decreases |inputs|
  {
    if i == |inputs| {
      assert inputs[..i] == inputs;
    } else {
      assert inputs[..|inputs| - 1][..i] == inputs[..i];
      RejectionStays(site, inputs[..|inputs| - 1], rules, i);
    }
  }

  // ------------------------------------------------------------ what recording keeps

  /** Events that are not the same have different identifiers and different places. */
  ghost predicate Agree(a: Event, b: Event) {
    (a.id == b.id || PlaceOf(a) == PlaceOf(b)) ==> a == b
  }

  lemma AgreeSymmetric()
    ensures forall a, b :: Agree(a, b) <==> Agree(b, a)
    ensures forall a :: Agree(a, a)
  {}

  /** No identifier and no place is used twice. */
  ghost predicate Unique(q: seq<Event>) {
    forall i, j | 0 <= i < j < |q| :: q[i].id != q[j].id && PlaceOf(q[i]) != PlaceOf(q[j])
  }

  /** Every two events of the log and of the request agree. */
  ghost predicate Compatible(log: seq<Event>, inputs: seq<Event>) {
    && (forall a, b | a in log && b in inputs :: Agree(a, b))
    && (forall a, b | a in inputs && b in inputs :: Agree(a, b))
  }

  lemma UniqueMore(q: seq<Event>, e: Event)
    requires Unique(q) && FindId(q, e.id).None? && !PlaceTaken(q, PlaceOf(e))
    ensures Unique(q + [e])
  {
    forall i | 0 <= i < |q| ensures q[i].id != e.id && PlaceOf(q[i]) != PlaceOf(e) {
      assert q[i] in q;
    }
  }

  lemma UniqueAgree(q: seq<Event>, a: Event, b: Event)
    requires Unique(q) && a in q && b in q
    ensures Agree(a, b)
  {
    var i :| 0 <= i < |q| && q[i] == a;
    var j :| 0 <= j < |q| && q[j] == b;
  }

  lemma TakenAppend(log: seq<Event>, added: seq<Event>, e: Event)
    requires FindId(log, e.id).None? && FindId(added, e.id).None? && !PlaceTaken(log, PlaceOf(e)) &&
      !PlaceTaken(added, PlaceOf(e))
    ensures FindId(log + added, e.id).None? && !PlaceTaken(log + added, PlaceOf(e))
  {
    assert forall x :: x in log + added <==> x in log || x in added;
    assert forall x | x in log + added :: x.id != e.id;
  }

  /** The log and what was added are unique, and hold every event of the request. */
  ghost predicate Holds(log: seq<Event>, inputs: seq<Event>, added: seq<Event>) {
    Unique(log + added) && (forall e | e in inputs :: e in log + added) && (forall e | e in added :: e in inputs)
  }

  lemma HoldsDuplicate(log: seq<Event>, before: seq<Event>, added: seq<Event>, e: Event, rules: Rules)
    requires Holds(log, before, added) && Check(log, added, e, rules) == Duplicate
    ensures Holds(log, before + [e], added)
  {
    hide Unique;
    assert e in log + added;
  }

  lemma HoldsNew(log: seq<Event>, before: seq<Event>, added: seq<Event>, e: Event, rules: Rules)
    requires Holds(log, before, added) && Check(log, added, e, rules) == New
    ensures Holds(log, before + [e], added + [e])
  {
    hide Unique, PlaceTaken;
    TakenAppend(log, added, e);
    UniqueMore(log + added, e);
    assert log + added + [e] == log + (added + [e]);
    assert forall x :: x in log + (added + [e]) <==> x in log + added || x == e;
  }

  lemma HoldsNothing(log: seq<Event>)
    requires Unique(log)
    ensures Holds(log, [], [])
  {
    assert log + [] == log;
  }

  /** The events of the request. */
  function Events(inputs: seq<Input>): seq<Event> {
    seq(|inputs|, i requires 0 <= i < |inputs| => inputs[i].event)
  }

  lemma EventsSnoc(before: seq<Input>, x: Input)
    ensures Events(before + [x]) == Events(before) + [x.event]
    ensures forall e :: e in Events(before + [x]) <==> e in Events(before) || e == x.event
  {}

  lemma BatchStep(site: Site, before: seq<Input>, x: Input, rules: Rules)
    ensures Batch(site, before + [x], rules) == Extended(site, Batch(site, before, rules), x, rules)
  {
    assert (before + [x])[..|before|] == before;
  }

  lemma BatchNothing(site: Site, rules: Rules)
    ensures Batch(site, [], rules) == Recorded([], [], map[])
  {}

  /** What an accepted batch leaves: unique events, and every event of the request among them. */
  lemma {:induction false} BatchKeeps(site: Site, inputs: seq<Input>, rules: Rules)
    requires Unique(site.log) && Batch(site, inputs, rules).Recorded?
    ensures Holds(site.log, Events(inputs), Batch(site, inputs, rules).added) &&
      |Batch(site, inputs, rules).duplicates| == |inputs|
  {
    hide Holds, Unique, Check, Batch, VisibilityRefusal, BegunWith;
    if inputs != [] {
      var before, x := inputs[..|inputs| - 1], inputs[|inputs| - 1];
      assert inputs == before + [x];
      BatchStep(site, before, x, rules);
      EventsSnoc(before, x);
      BatchKeeps(site, before, rules);
      var added := Batch(site, before, rules).added;
      if Check(site.log, added, x.event, rules) == New {
        HoldsNew(site.log, Events(before), added, x.event, rules);
      } else {
        HoldsDuplicate(site.log, Events(before), added, x.event, rules);
      }
    } else {
      HoldsNothing(site.log);
      BatchNothing(site, rules);
      assert Events([]) == [];
    }
  }

  // ------------------------------------------------------------ which batches are accepted

  /** The event is neither recorded nor earlier in the batch. */
  predicate IsNew(log: seq<Event>, before: seq<Input>, x: Input) {
    FindId(log, x.event.id).None? && x.event !in Events(before)
  }

  /** The conversations that the batch begins, by the first of their new events. */
  function Begun(site: Site, inputs: seq<Input>, who: B.Principal): map<string, B.Visibility> {
    if inputs == [] then map[]
    else
      var before, x := inputs[..|inputs| - 1], inputs[|inputs| - 1];
      var begun := Begun(site, before, who);
      if IsNew(site.log, before, x) then BegunWith(site, begun, x, who) else begun
  }

  /** What one more event has to satisfy. */
  ghost predicate Fits(site: Site, before: seq<Input>, x: Input, rules: Rules) {
    && rules.wellFormed(x.event) && (forall a | a in site.log || a in Events(before) :: Agree(a, x.event))
    && (FindId(site.log, x.event.id).Some? ==> rules.comparable(x.event.id))
    && (IsNew(site.log, before, x) ==>
          VisibilityRefusal(site, Begun(site, before, rules.who), x, rules.who).None? && rules.storable(x.event))
  }

  /** The events are in order and agree with one another and with the log; what was recorded before can still be
    * compared; what is new can be stored, and asks for no other visibility than its conversation has.
    */
  ghost predicate Acceptable(site: Site, inputs: seq<Input>, rules: Rules) {
    && Compatible(site.log, Events(inputs))
    && (forall x | x in inputs :: rules.wellFormed(x.event))
    && (forall a, x | a in site.log && x in inputs && a.id == x.event.id :: rules.comparable(x.event.id))
    && (forall x | x in inputs && FindId(site.log, x.event.id).None? :: rules.storable(x.event))
    && Visible(site, inputs, rules.who)
  }

  /** No new event asks for another visibility than it may. */
  ghost predicate Visible(site: Site, inputs: seq<Input>, who: B.Principal) {
    forall i | 0 <= i < |inputs| && IsNew(site.log, inputs[..i], inputs[i]) ::
      VisibilityRefusal(site, Begun(site, inputs[..i], who), inputs[i], who).None?
  }

  lemma VisibleStep(site: Site, before: seq<Input>, x: Input, who: B.Principal)
    ensures Visible(site, before + [x], who) <==>
              Visible(site, before, who) &&
                (IsNew(site.log, before, x) ==> VisibilityRefusal(site, Begun(site, before, who), x, who).None?)
  {
    hide VisibilityRefusal, Begun, IsNew;
    var all := before + [x];
    assert forall i | 0 <= i < |before| :: all[..i] == before[..i] && all[i] == before[i];
    assert all[..|before|] == before && all[|before|] == x;
  }

  /** Such batches are accepted, and no others. */
  lemma {:induction false} AcceptedExactly(site: Site, inputs: seq<Input>, rules: Rules)
    requires Unique(site.log)
    ensures Batch(site, inputs, rules).Recorded? <==> Acceptable(site, inputs, rules)
    ensures Batch(site, inputs, rules).Recorded? ==> Batch(site, inputs, rules).begun == Begun(site, inputs, rules.who)
  {
    hide Check, Agree, Unique, FindId, VisibilityRefusal, BegunWith, Acceptable, Holds, Fits;
    if inputs != [] {
      var before, x := inputs[..|inputs| - 1], inputs[|inputs| - 1];
      assert inputs == before + [x];
      AcceptedExactly(site, before, rules);
      AcceptableStep(site, before, x, rules);
      if Acceptable(site, before, rules) {
        BatchKeeps(site, before, rules);
        CheckExactly(site, before, Batch(site, before, rules).added, x, rules);
      }
    } else {
      NothingAcceptable(site, rules);
    }
  }

  lemma NothingAcceptable(site: Site, rules: Rules)
    ensures Acceptable(site, [], rules)
  {}

  lemma AcceptableStep(site: Site, before: seq<Input>, x: Input, rules: Rules)
    ensures Acceptable(site, before + [x], rules) <==> Acceptable(site, before, rules) && Fits(site, before, x, rules)
  {
    hide Compatible, Visible, Agree, VisibilityRefusal, Begun, IsNew, Events;
    EventsSnoc(before, x);
    VisibleStep(site, before, x, rules.who);
    CompatibleStep(site.log, Events(before), x.event);
    assert forall y :: y in before + [x] <==> y in before || y == x;
    if Acceptable(site, before, rules) && Fits(site, before, x, rules) {
      assert forall a | a in site.log && a.id == x.event.id :: FindId(site.log, x.event.id).Some?;
      StorableAgain(site, before, x, rules);
    }
    if Acceptable(site, before + [x], rules) {
      assert x in before + [x];
      NewIsUnrecorded(site.log, before, x);
    }
  }

  lemma NewIsUnrecorded(log: seq<Event>, before: seq<Input>, x: Input)
    ensures IsNew(log, before, x) ==> FindId(log, x.event.id).None?
  {}

  lemma CompatibleStep(log: seq<Event>, before: seq<Event>, e: Event)
    ensures Compatible(log, before + [e]) <==>
      Compatible(log, before) && forall a | a in log || a in before :: Agree(a, e)
  {
    hide Agree;
    AgreeSymmetric();
    assert forall x :: x in before + [e] <==> x in before || x == e;
  }

  lemma StorableAgain(site: Site, before: seq<Input>, x: Input, rules: Rules)
    requires forall y | y in before && FindId(site.log, y.event.id).None? :: rules.storable(y.event)
    requires IsNew(site.log, before, x) ==> rules.storable(x.event)
    ensures FindId(site.log, x.event.id).None? ==> rules.storable(x.event)
  {
    if x.event in Events(before) {
      var i :| 0 <= i < |before| && Events(before)[i] == x.event;
      assert before[i] in before;
    }
  }

  lemma CheckExactly(site: Site, before: seq<Input>, added: seq<Event>, x: Input, rules: Rules)
    requires Holds(site.log, Events(before), added)
    ensures var v := CheckInput(site, added, Begun(site, before, rules.who), x, rules);
            && (!v.Refused? <==> Fits(site, before, x, rules))
            && (v == New ==> IsNew(site.log, before, x)) && (v == Duplicate ==> !IsNew(site.log, before, x))
  {
    hide VisibilityRefusal, Begun, Unique;
    EventAgrees(site.log, Events(before), added, x.event, rules);
  }

  lemma EventAgrees(log: seq<Event>, before: seq<Event>, added: seq<Event>, e: Event, rules: Rules)
    requires Holds(log, before, added)
    ensures var v := Check(log, added, e, rules);
            && (!v.Refused? <==>
                  && rules.wellFormed(e) && (forall a | a in log || a in before :: Agree(a, e))
                  && (FindId(log, e.id).Some? ==> rules.comparable(e.id)))
            && (v == New ==> FindId(log, e.id).None? && e !in before)
            && (v == Duplicate ==> FindId(log, e.id).Some? || e in before)
  {
    assert forall x :: x in log + added <==> x in log || x in added;
    if Check(log, added, e, rules) == Duplicate {
      assert e in log + added;
      forall a | a in log || a in before ensures Agree(a, e) {
        UniqueAgree(log + added, a, e);
      }
    }
    if forall a | a in log || a in before :: Agree(a, e) {
      assert forall a | a in log || a in added :: Agree(a, e);
    }
  }

  // ------------------------------------------------------------ sending again

  /** Sending recorded events again: they are all duplicates, unless the content of one can no longer be compared. */
  lemma {:induction false} Resend(site: Site, inputs: seq<Input>, rules: Rules)
    requires Unique(site.log) && forall x | x in inputs :: x.event in site.log && rules.wellFormed(x.event)
    ensures var r := Batch(site, inputs, rules);
            && (r.Recorded? <==> forall x | x in inputs :: rules.comparable(x.event.id))
            && (r.Recorded? ==> r.added == [] && r.begun == map[] && forall b | b in r.duplicates :: b)
            && (r.Rejected? ==> r.why == Incomparable)
  {
    if inputs != [] {
      var before, x := inputs[..|inputs| - 1], inputs[|inputs| - 1];
      Resend(site, before, rules);
      assert forall y :: y in inputs <==> y in before || y == x by { assert inputs == before + [x]; }
      var old_ := FindId(site.log, x.event.id);
      UniqueAgree(site.log, x.event, if old_.Some? then old_.value else x.event);
    }
  }

  /** Recording a batch and sending it once more, perhaps after keys were shredded: the second time all are
    * duplicates, or the batch is refused because a content cannot be compared.
    */
  lemma RecordTwice(site: Site, inputs: seq<Input>, rules: Rules, later: Rules)
    requires Unique(site.log) && Record(site, inputs, rules).Recorded?
    requires later.wellFormed == rules.wellFormed && later.who == rules.who
    ensures var site' := After(site, Record(site, inputs, rules));
            var again := Record(site', inputs, later);
            && Unique(site'.log)
            && (again.Recorded? <==> forall x | x in inputs :: later.comparable(x.event.id))
            && (again.Recorded? ==> After(site', again) == site' && forall b | b in again.duplicates :: b)
            && (again.Rejected? ==> again.why == Incomparable)
  {
    hide Compatible, Check, Unique;
    BatchKeeps(site, inputs, rules);
    AcceptedExactly(site, inputs, rules);
    var site' := After(site, Record(site, inputs, rules));
    forall x | x in inputs ensures x.event in site'.log {
      var i :| 0 <= i < |inputs| && inputs[i] == x;
      assert Events(inputs)[i] == x.event;
    }
    Resend(site', inputs, later);
    var again := Record(site', inputs, later);
    if again.Recorded? {
      assert site'.log + [] == site'.log && site'.sources + map[] == site'.sources;
      assert After(site', again) == site';
    }
  }

  // ------------------------------------------------------------ visibility

  /** A new event of an accepted batch that asked for a visibility is in a conversation with that visibility exactly
    * unless an earlier event of the batch began the conversation with another one, of which no source was registered.
    */
  lemma VisibilityHonoured(site: Site, inputs: seq<Input>, rules: Rules, i: nat)
    requires Unique(site.log) && Record(site, inputs, rules).Recorded? && i < |inputs|
    requires IsNew(site.log, inputs[..i], inputs[i]) && inputs[i].visibility.Some?
    ensures var x, conv := inputs[i], inputs[i].event.fields.conversation;
            var begun := Begun(site, inputs[..i], rules.who);
            var now := After(site, Record(site, inputs, rules)).sources;
            && conv in now
            && (now[conv] == x.visibility.value <==>
                  (conv !in site.sources && conv in begun && (conv, begun[conv]) !in site.registered ==>
                    begun[conv] == x.visibility.value))
  {
    hide Acceptable, Batch;
    AcceptedExactly(site, inputs, rules);
    Welcome(site, inputs, rules, i);
    assert inputs[..i + 1][..i] == inputs[..i];
    BegunStays(site, inputs, rules.who, i + 1);
    BegunElsewhere(site, inputs, rules.who);
  }

  lemma Welcome(site: Site, inputs: seq<Input>, rules: Rules, i: nat)
    requires Acceptable(site, inputs, rules) && i < |inputs| && IsNew(site.log, inputs[..i], inputs[i])
    ensures VisibilityRefusal(site, Begun(site, inputs[..i], rules.who), inputs[i], rules.who).None?
  {}

  lemma {:induction false} BegunStays(site: Site, inputs: seq<Input>, who: B.Principal, i: nat)
    requires i <= |inputs|
    ensures forall c | c in Begun(site, inputs[..i], who) ::
              c in Begun(site, inputs, who) && Begun(site, inputs, who)[c] == Begun(site, inputs[..i], who)[c]
    decreases |inputs|
  {
    if i == |inputs| {
      assert inputs[..i] == inputs;
    } else {
      assert inputs[..|inputs| - 1][..i] == inputs[..i];
      BegunStays(site, inputs[..|inputs| - 1], who, i);
    }
  }

  lemma {:induction false} BegunElsewhere(site: Site, inputs: seq<Input>, who: B.Principal)
    ensures forall c | c in Begun(site, inputs, who) :: c !in site.sources
  {
    if inputs != [] { BegunElsewhere(site, inputs[..|inputs| - 1], who); }
  }

  /** The principal acts for the owner. */
  predicate ActsFor(p: B.Principal, owner: string) {
    p.actor == owner || p.onBehalfOf == Some(owner)
  }

  /** What may be made public, for groups and for an owner. */
  lemma MayCreateExact(who: B.Principal, v: B.Visibility)
    ensures MayCreate(who, v) <==>
              || v.Public?
              || (v.Private? && (who.system || ActsFor(who, v.owner)))
              || (v.Groups? && v.groups != {} && (who.system || exists g <- v.groups :: g in who.groups))
  {
    if v.Groups? {
      var both := v.groups * who.groups;
      assert both != {} ==> exists g :: g in both;
      assert forall g | g in v.groups && g in who.groups :: g in both;
    }
  }

  /** The sender, or whom the sender acts for. */
  function OwnerOf(who: B.Principal): string {
    match who.onBehalfOf
    case Some(owner) => owner
    case None => who.actor
  }

  lemma {:induction false} BegunPrivate(site: Site, inputs: seq<Input>, who: B.Principal, conv: string)
    requires conv in Begun(site, inputs, who)
    requires forall x | x in inputs && x.event.fields.conversation == conv :: x.visibility.None?
    ensures Begun(site, inputs, who)[conv] == B.Private(OwnerOf(who))
  {
    hide IsNew;
    var before, x := inputs[..|inputs| - 1], inputs[|inputs| - 1];
    assert x in inputs && forall y | y in before :: y in inputs;
    if conv in Begun(site, before, who) { BegunPrivate(site, before, who, conv); }
  }

  /** A conversation begun by events that ask for no visibility is seen by its owner, by who acts for the owner and by
    * the
    * system, and by no one else.
    */
  lemma PrivateByDefault(site: Site, inputs: seq<Input>, rules: Rules, conv: string, p: B.Principal)
    requires Unique(site.log) && Record(site, inputs, rules).Recorded? && conv !in site.sources
    requires conv in After(site, Record(site, inputs, rules)).sources
    requires forall x | x in inputs && x.event.fields.conversation == conv :: x.visibility.None?
    ensures B.CanSee(p, After(site, Record(site, inputs, rules)).sources[conv]) <==>
              p.system || ActsFor(p, OwnerOf(rules.who))
  {
    hide Batch, Begun;
    AcceptedExactly(site, inputs, rules);
    BegunPrivate(site, inputs, rules.who, conv);
  }

  const AGENT: B.Principal := B.Principal("agent", false, {}, None)

  const LENIENT: Rules := Rules(AGENT, e => true, id => true, e => true)

  const FIRST: Input := Input(Event("a", Fields("talk", 1, []), []), Some(B.Public))

  const SECOND: Input := Input(Event("b", Fields("talk", 2, []), []), Some(B.Private("agent")))

  /** In one batch the second event is taken into a public conversation although it asked for a private one; sent on
    * its own after the first it is refused.
    */
  lemma MixedVisibilityTaken()
    ensures var r := Record(NO_EVENTS, [FIRST, SECOND], LENIENT);
            r.Recorded? && r.added == [FIRST.event, SECOND.event] &&
              After(NO_EVENTS, r).sources == map["talk" := B.Public]
    ensures Record(After(NO_EVENTS, Record(NO_EVENTS, [FIRST], LENIENT)), [SECOND], LENIENT) == Rejected(Conflict)
  {
    assert FIRST.event.id == "a" && SECOND.event.id == "b" && "a"[0] != "b"[0];
    var one := Recorded([FIRST.event], [false], map["talk" := B.Public]);
    BatchNothing(NO_EVENTS, LENIENT);
    BatchStep(NO_EVENTS, [], FIRST, LENIENT);
    assert [] + [FIRST] == [FIRST];
    assert Extended(NO_EVENTS, Recorded([], [], map[]), FIRST, LENIENT) == one;
    BatchStep(NO_EVENTS, [FIRST], SECOND, LENIENT);
    assert [FIRST] + [SECOND] == [FIRST, SECOND] && [FIRST.event][..0] == [];
    var site := After(NO_EVENTS, one);
    assert site.log == [FIRST.event] && site.sources == map["talk" := B.Public];
    BatchNothing(site, LENIENT);
    BatchStep(site, [], SECOND, LENIENT);
    assert [] + [SECOND] == [SECOND];
  }
}
