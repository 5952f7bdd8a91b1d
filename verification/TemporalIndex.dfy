/** The bucket index over time intervals: looking into a few buckets of every level finds exactly
  * what a scan of all intervals finds (index/temporal.rs).
  */
module TemporalIndexes {
  import opened Wrappers
  import opened TimeRange

  const LEVELS: nat := 17
  const LAST: nat := 16

  type Doc = nat

  /** `1 << (level * LEVEL_STEP)` */
  function Width(level: nat): (w: nat)
    ensures w > 0
  {
    if level == 0 then 1 else 16 * Width(level - 1)
  }

  /** The arithmetic right shift by the level. */
  function Bucket(t: int, level: nat): int {
    t / Width(level)
  }

  /** The first level at or after `level` where the interval touches at most two buckets. */
  function LevelFrom(es: int, le: int, level: nat): (r: nat)
    requires level <= LAST
    ensures level <= r <= LAST && (r < LAST ==> Bucket(le, r) - Bucket(es, r) <= 1)
    decreases LAST - level
  {
    if level == LAST then LAST
    else if Bucket(le, level) - Bucket(es, level) <= 1 then level
    else LevelFrom(es, le, level + 1)
  }

  datatype Entry = Entry(level: nat, key: int, es: int, le: int)

  /** Intervals without an end go to the last level, which has one bucket. */
  function EntryOf(es: int, le: int): Entry {
    var end := if le < es then es else le;
    var level := if es == NEG_INF || end == POS_INF then LAST else LevelFrom(es, end, 0);
    Entry(level, if level == LAST then 0 else Bucket(es, level), es, end)
  }

  function Down(t: int): int {
    if t == NEG_INF then t else t - 1
  }

  predicate InRange(t: int) {
    NEG_INF <= t <= POS_INF
  }

  predicate Overlaps(e: Entry, qs: int, qe: int) {
    e.es < qe && e.le > qs
  }

  lemma BucketMonotone(a: int, b: int, level: nat)
    requires a <= b
    ensures Bucket(a, level) <= Bucket(b, level)
  {
    var w := Width(level);
    DivideMonotone(a, b, w);
  }

  lemma TimesMonotone(a: int, b: int, w: int)
    requires a <= b && w >= 0
    ensures a * w <= b * w
  {}

  lemma LessByProduct(x: int, z: int, w: int)
    requires x * w < z * w && w > 0
    ensures x < z
  {
    if z <= x { TimesMonotone(z, x, w); }
  }

  lemma DivideMonotone(a: int, b: int, w: int)
    requires a <= b && w > 0
    ensures a / w <= b / w
  {
    var x, y := a / w, b / w;
    assert a == x * w + a % w && b == y * w + b % w;
    assert (y + 1) * w == y * w + w;
    LessByProduct(x, y + 1, w);
  }

  lemma BucketBounds(t: int, level: nat)
    requires InRange(t)
    ensures InRange(Bucket(t, level))
  {
    DivideBounds(t, Width(level));
  }

  lemma DivideBounds(t: int, w: int)
    requires w > 0
    ensures (t >= 0 ==> 0 <= t / w <= t) && (t < 0 ==> t <= t / w < 0)
  {
    var x := t / w;
    assert t == x * w + t % w;
    if t >= 0 {
      DivideMonotone(0, t, w);
      TimesMonotone(1, w, x);
    } else {
      DivideMonotone(t, -1, w);
      TimesMonotone(1, -x, w - 1);
      assert (-x) * (w - 1) == x - x * w;
    }
  }

  /** An interval that overlaps the window lies in one of the buckets looked into. */
  lemma BucketReached(es: int, le: int, qs: int, qe: int)
    requires InRange(es) && InRange(le) && InRange(qs) && InRange(qe)
    requires Overlaps(EntryOf(es, le), qs, qe) && EntryOf(es, le).level < LAST
    ensures var e := EntryOf(es, le); Down(Bucket(qs, e.level)) <= e.key <= Bucket(Down(qe), e.level)
  {
    var e := EntryOf(es, le);
    BucketMonotone(es, Down(qe), e.level);
    BucketMonotone(qs, e.le, e.level);
    BucketBounds(es, e.level);
    BucketBounds(qs, e.level);
  }

  // ------------------------------------------------------------ the index

  type Level = map<int, seq<Doc>>

  function DocsAt(level: Level, key: int): seq<Doc> {
    if key in level then level[key] else []
  }

  function Stored(levels: seq<Level>, level: nat, key: int): seq<Doc> {
    if level < |levels| then DocsAt(levels[level], key) else []
  }

  ghost predicate Placed(entries: map<Doc, Entry>, level: nat, key: int, d: Doc) {
    d in entries && entries[d].level == level && entries[d].key == key
  }

  /** The buckets hold every document at the place of its entry. */
  ghost predicate Agree(levels: seq<Level>, entries: map<Doc, Entry>) {
    && |levels| == LEVELS
    && forall level: nat, key: int,
      d: Doc {:trigger d in Stored(levels, level, key)} {:trigger Placed(entries, level, key, d)} ::
         d in Stored(levels, level, key) <==> Placed(entries, level, key, d)
  }

  ghost predicate Computed(entries: map<Doc, Entry>) {
    forall d | d in entries ::
      InRange(entries[d].es) && InRange(entries[d].le) && entries[d] == EntryOf(entries[d].es, entries[d].le)
  }

  function Without(docs: seq<Doc>, doc: Doc): (r: seq<Doc>)
    ensures forall d :: d in r <==> d in docs && d != doc
  {
    if docs == [] then []
    else if docs[|docs| - 1] == doc then Without(docs[..|docs| - 1], doc)
    else Without(docs[..|docs| - 1], doc) + [docs[|docs| - 1]]
  }

  function Added(level: Level, key: int, doc: Doc): Level {
    level[key := DocsAt(level, key) + [doc]]
  }

  function Dropped(level: Level, key: int, doc: Doc): Level {
    var rest := Without(DocsAt(level, key), doc);
    if rest == [] then level - {key} else level[key := rest]
  }

  lemma AddedAgrees(levels: seq<Level>, entries: map<Doc, Entry>, doc: Doc, e: Entry)
    requires Agree(levels, entries) && doc !in entries && e.level < LEVELS
    ensures Agree(levels[e.level := Added(levels[e.level], e.key, doc)], entries[doc := e])
  {
    var levels', entries' := levels[e.level := Added(levels[e.level], e.key, doc)], entries[doc := e];
    forall level: nat, key: int, d: Doc ensures d in Stored(levels', level, key) <==> Placed(entries', level, key, d) {
      assert d in Stored(levels, level, key) <==> Placed(entries, level, key, d);
      assert d in Stored(levels', level, key) <==>
        d in Stored(levels, level, key) || (level == e.level && key == e.key && d == doc);
    }
  }

  lemma DroppedAgrees(levels: seq<Level>, entries: map<Doc, Entry>, doc: Doc)
    requires Agree(levels, entries) && doc in entries && entries[doc].level < LEVELS
    ensures Agree(levels[entries[doc].level := Dropped(levels[entries[doc].level], entries[doc].key, doc)],
      entries - {doc})
  {
    var e := entries[doc];
    var levels', entries' := levels[e.level := Dropped(levels[e.level], e.key, doc)], entries - {doc};
    forall level: nat, key: int, d: Doc ensures d in Stored(levels', level, key) <==> Placed(entries', level, key, d) {
      assert d in Stored(levels, level, key) <==> Placed(entries, level, key, d);
      assert d in Stored(levels', level, key) <==>
        d in Stored(levels, level, key) && !(level == e.level && key == e.key && d == doc);
    }
  }

  ghost predicate InSome(level: Level, keys: set<int>, d: Doc) {
    exists key :: key in keys && d in DocsAt(level, key)
  }

  /** The overlapping documents of one bucket. */
  method ScanBucket(docs: seq<Doc>, entries: map<Doc, Entry>, qs: int, qe: int) returns (out: set<Doc>)
    requires forall d | d in docs :: d in entries
    ensures forall d: Doc :: d in out <==> d in docs && Overlaps(entries[d], qs, qe)
  {
    out := {};
    for i := 0 to |docs|
      invariant forall d: Doc :: d in out <==> d in docs[..i] && Overlaps(entries[d], qs, qe)
    {
      assert docs[..i + 1] == docs[..i] + [docs[i]];
      var e := entries[docs[i]];
      if e.es < qe && e.le > qs {
        out := out + {docs[i]};
      }
    }
    assert docs[..|docs|] == docs;
  }

  /** The overlapping documents in some buckets of a level. */
  method ScanLevel(level: Level, entries: map<Doc, Entry>, keys: set<int>, qs: int, qe: int) returns (out: set<Doc>)
    requires forall key, d: Doc | d in DocsAt(level, key) :: d in entries
    ensures forall d: Doc :: d in out <==> d in entries && InSome(level, keys, d) && Overlaps(entries[d], qs, qe)
  {
    out := {};
    var rest := keys;
    while rest != {}
      invariant rest <= keys
      invariant forall d: Doc :: d in out <==>
        d in entries && InSome(level, keys - rest, d) && Overlaps(entries[d], qs, qe)
      decreases |rest|
    {
      SomeKey(rest);
      var key :| key in rest;
      var found := ScanBucket(DocsAt(level, key), entries, qs, qe);
      forall d: Doc ensures InSome(level, keys - (rest - {key}), d) <==>
        InSome(level, keys - rest, d) || d in DocsAt(level, key) {
        assert keys - (rest - {key}) == (keys - rest) + {key};
        SomeMore(level, keys - rest, key, d);
      }
      out := out + found;
      rest := rest - {key};
    }
    assert keys - rest == keys;
  }

  lemma SomeKey(keys: set<int>)
    requires keys != {}
    ensures exists key :: key in keys
  {
    assert (forall key: int :: key !in keys) ==> keys == {};
  }

  lemma SomeMore(level: Level, keys: set<int>, key: int, d: Doc)
    ensures InSome(level, keys + {key}, d) <==> InSome(level, keys, d) || d in DocsAt(level, key)
  {
    if InSome(level, keys, d) {
      var k :| k in keys && d in DocsAt(level, k);
      assert k in keys + {key};
    }
    if d in DocsAt(level, key) {
      assert key in keys + {key};
    }
  }

  /** The buckets of a level that a query looks into. */
  function KeysFor(buckets: Level, level: nat, qs: int, qe: int): set<int> {
    if level == LAST then buckets.Keys
    else set k | k in buckets.Keys && Down(Bucket(qs, level)) <= k <= Bucket(Down(qe), level)
  }

  /** They hold every document of the level that overlaps the window. */
  lemma KeysSuffice(levels: seq<Level>, entries: map<Doc, Entry>, level: nat, qs: int, qe: int, d: Doc)
    requires Agree(levels, entries) && Computed(entries) && level < LEVELS && InRange(qs) && InRange(qe)
    requires d in entries && Overlaps(entries[d], qs, qe)
    ensures InSome(levels[level], KeysFor(levels[level], level, qs, qe), d) <==> entries[d].level == level
  {
    hide EntryOf, Bucket;
    var keys, e := KeysFor(levels[level], level, qs, qe), entries[d];
    if InSome(levels[level], keys, d) {
      var key :| key in keys && d in DocsAt(levels[level], key);
      assert d in Stored(levels, level, key);
    }
    if e.level == level {
      assert d in Stored(levels, level, e.key);
      if level < LAST {
        BucketReached(e.es, e.le, qs, qe);
      }
      assert e.key in keys;
    }
  }

  class TemporalIndex {
    var levels: seq<Level>
    var entries: map<Doc, Entry>

    ghost predicate Valid()
      reads this
    {
      Agree(levels, entries) && Computed(entries)
    }

    /** The possible span of every document. */
    ghost function Spans(): map<Doc, (int, int)>
      reads this
    {
      map d | d in entries :: (entries[d].es, entries[d].le)
    }

    constructor ()
      ensures Valid() && Spans() == map[]
    {
      levels, entries := seq(LEVELS, _ => map[]), map[];
    }

    method Insert(doc: Doc, es: int, le: int)
      requires Valid() && InRange(es) && InRange(le)
      requires es != NEG_INF && le != POS_INF ==> le - es <= POS_INF
      modifies this
      ensures Valid() && Spans() == old(Spans())[doc := (es, if le < es then es else le)]
    {
      hide Agree, EntryOf;
      Remove(doc);
      var e := EntryOf(es, le);
      EntryStable(es, le);
      AddedAgrees(levels, entries, doc, e);
      AgreeLength(levels, entries);
      ghost var before := Spans();
      levels := levels[e.level := Added(levels[e.level], e.key, doc)];
      entries := entries[doc := e];
      assert Spans() == before[doc := (e.es, e.le)];
    }

    method Remove(doc: Doc)
      requires Valid()
      modifies this
      ensures Valid() && Spans() == old(Spans()) - {doc}
    {
      hide Agree, EntryOf;
      if doc in entries {
        var e := entries[doc];
        EntryStable(e.es, e.le);
        DroppedAgrees(levels, entries, doc);
        AgreeLength(levels, entries);
        levels := levels[e.level := Dropped(levels[e.level], e.key, doc)];
        entries := entries - {doc};
      }
    }

    /** All documents whose span overlaps the window, and no other. */
    method Overlapping(qs: int, qe: int) returns (out: set<Doc>)
      requires Valid() && InRange(qs) && InRange(qe)
      ensures forall d: Doc :: d in out <==> d in Spans() && Spans()[d].0 < qe && Spans()[d].1 > qs
    {
      out := {};
      for level := 0 to |levels|
        invariant forall d: Doc :: d in out <==>
          d in entries && entries[d].level < level && Overlaps(entries[d], qs, qe)
      {
        hide EntryOf;
        assert forall key, d: Doc | d in DocsAt(levels[level], key) ::
          d in Stored(levels, level, key) && Placed(entries, level, key, d);
        var found := ScanLevel(levels[level], entries, KeysFor(levels[level], level, qs, qe), qs, qe);
        forall d | d in entries && Overlaps(entries[d], qs, qe) ensures d in found <==> entries[d].level == level {
          KeysSuffice(levels, entries, level, qs, qe, d);
        }
        out := out + found;
      }
      forall d | d in entries ensures entries[d].level < |levels| { EntryStable(entries[d].es, entries[d].le); }
    }
  }

  lemma EntryStable(es: int, le: int)
    ensures EntryOf(es, le).level < LEVELS
    ensures EntryOf(EntryOf(es, le).es, EntryOf(es, le).le) == EntryOf(es, le)
    ensures EntryOf(es, le).es == es && EntryOf(es, le).le == if le < es then es else le
  {}

  lemma AgreeLength(levels: seq<Level>, entries: map<Doc, Entry>)
    requires Agree(levels, entries)
    ensures |levels| == LEVELS
  {}
}
