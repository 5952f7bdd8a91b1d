/** Pages of content by byte offset, and pages of search hits by cursor (query/history.rs). */
module Paging {
  import opened Wrappers
  import opened IsoText

  type Byte = b: nat | b < 256

  // ------------------------------------------------------------ UTF-8

  predicate IsTail(b: Byte) {
    0x80 <= b <= 0xBF
  }

  /** The length of the character that begins at `i`, or 0 if none does (section 4 of RFC 3629). */
  function CharLen(bytes: seq<Byte>, i: nat): (n: nat)
    requires i < |bytes|
    ensures i + n <= |bytes| && n <= 4
    ensures n > 0 ==> !IsTail(bytes[i]) && forall k | i < k < i + n :: IsTail(bytes[k])
  {
    var b := bytes[i];
    if b < 0x80 then 1
    else if 0xC2 <= b <= 0xDF && i + 2 <= |bytes| && IsTail(bytes[i + 1]) then 2
    else if 0xE0 <= b <= 0xEF && i + 3 <= |bytes| && SecondOk(b, bytes[i + 1]) && IsTail(bytes[i + 2]) then 3
    else if 0xF0 <= b <= 0xF4 && i + 4 <= |bytes| && SecondOk(b, bytes[i + 1]) && IsTail(bytes[i + 2]) &&
      IsTail(bytes[i + 3]) then 4
    else 0
  }

  /** Leads that would give overlong forms, surrogates or too large code points restrict the next byte. */
  predicate SecondOk(lead: Byte, b: Byte) {
    && IsTail(b) && (lead == 0xE0 ==> b >= 0xA0) && (lead == 0xED ==> b <= 0x9F)
    && (lead == 0xF0 ==> b >= 0x90) && (lead == 0xF4 ==> b <= 0x8F)
  }

  predicate ValidFrom(bytes: seq<Byte>, i: nat)
    requires i <= |bytes|
    decreases |bytes| - i
  {
    i == |bytes| || (CharLen(bytes, i) > 0 && ValidFrom(bytes, i + CharLen(bytes, i)))
  }

  predicate ValidUtf8(bytes: seq<Byte>) {
    ValidFrom(bytes, 0)
  }

  /** `is_char_boundary`: the ends, and bytes that continue no character. */
  predicate IsBoundary(bytes: seq<Byte>, i: nat) {
    i == 0 || i == |bytes| || (i < |bytes| && !IsTail(bytes[i]))
  }

  /** In valid text a character begins at every boundary. */
  lemma {:induction false} BoundaryValid(bytes: seq<Byte>, i: nat, k: nat)
    requires i <= k <= |bytes| && ValidFrom(bytes, i) && (k == i || IsBoundary(bytes, k))
    ensures ValidFrom(bytes, k)
    decreases k - i
  {
    if k > i {
      var n := CharLen(bytes, i);
      assert forall j | i < j < i + n :: IsTail(bytes[j]);
      if i + n <= k {
        BoundaryValid(bytes, i + n, k);
      }
    }
  }

  lemma ValidBoundary(bytes: seq<Byte>, i: nat)
    requires i <= |bytes| && ValidFrom(bytes, i)
    ensures IsBoundary(bytes, i)
  {}

  /** Text cut at two boundaries is valid text. */
  lemma {:induction false} SliceValid(bytes: seq<Byte>, i: nat, start: nat, end: nat)
    requires start <= i <= end <= |bytes| && ValidFrom(bytes, i) && IsBoundary(bytes, end)
    ensures ValidFrom(bytes[start..end], i - start)
    decreases end - i
  {
    if i < end {
      var n, part := CharLen(bytes, i), bytes[start..end];
      assert forall k | i < k < i + n :: IsTail(bytes[k]);
      if i + n <= end {
        assert forall k | i <= k < i + n :: part[k - start] == bytes[k];
        assert CharLen(part, i - start) == n;
        SliceValid(bytes, i + n, start, end);
      }
    }
  }

  // ------------------------------------------------------------ content pages

  const DEFAULT_PAGE_BYTES: nat := 64 * 1024
  const MAX_PAGE_BYTES: nat := 1024 * 1024

  datatype Encoding = Auto | TextOnly | Base64

  datatype PageError = BeyondEnd | NotText | InsideCharacter

  datatype Page = Page(start: nat, end: nat, text: bool, next: Option<nat>) | Failed(error: PageError)

  function Clamp(n: nat, low: nat, high: nat): nat
    requires low <= high
  {
    if n < low then low else if n > high then high else n
  }

  function Wanted(length: Option<nat>): nat {
    Clamp(if length.Some? then length.value else DEFAULT_PAGE_BYTES, 1, MAX_PAGE_BYTES)
  }

  /** The last boundary at or before `i`. */
  function BoundaryBefore(bytes: seq<Byte>, i: nat): (r: nat)
    ensures r <= i && IsBoundary(bytes, r) && forall k | r < k <= i :: !IsBoundary(bytes, k)
  {
    if IsBoundary(bytes, i) then i else BoundaryBefore(bytes, i - 1)
  }

  predicate AsText(bytes: seq<Byte>, encoding: Encoding) {
    encoding != Base64 && ValidUtf8(bytes)
  }

  /** Where a page that starts at `start` ends. */
  function PageEnd(bytes: seq<Byte>, start: nat, want: nat, text: bool): nat
    requires start <= |bytes|
  {
    var end := if start + want < |bytes| then start + want else |bytes|;
    if !text then end
    else
      var cut := BoundaryBefore(bytes, end);
      if cut == start && start < |bytes| then start + CharLen(bytes, start) else cut
  }

  function ContentPage(bytes: seq<Byte>, offset: nat, length: Option<nat>, encoding: Encoding): Page {
    var text := AsText(bytes, encoding);
    if offset > |bytes| then Failed(BeyondEnd)
    else if encoding == TextOnly && !text then Failed(NotText)
    else if text && !IsBoundary(bytes, offset) then Failed(InsideCharacter)
    else
      var end := PageEnd(bytes, offset, Wanted(length), text);
      Page(offset, end, text, if end < |bytes| then Some(end) else None)
  }

  /** Moves back step by step to a boundary. */
  method StepBack(bytes: seq<Byte>, from: nat) returns (end: nat)
    ensures end == BoundaryBefore(bytes, from)
  {
    end := from;
    while !IsBoundary(bytes, end)
      invariant BoundaryBefore(bytes, end) == BoundaryBefore(bytes, from)
      decreases end
    {
      end := end - 1;
    }
  }

  /** `content_page`. */
  method MakePage(bytes: seq<Byte>, offset: nat, length: Option<nat>, encoding: Encoding) returns (page: Page)
    ensures page == ContentPage(bytes, offset, length, encoding)
  {
    hide CharLen, ValidUtf8, Wanted, AsText, BoundaryBefore, IsBoundary;
    if offset > |bytes| { return Failed(BeyondEnd); }
    var want := Wanted(length);
    var end := if offset + want < |bytes| then offset + want else |bytes|;
    var text := AsText(bytes, encoding);
    if encoding == TextOnly && !text { return Failed(NotText); }
    if text && !IsBoundary(bytes, offset) { return Failed(InsideCharacter); }
    if text {
      end := StepBack(bytes, end);
      if end == offset && offset < |bytes| {
        end := offset + CharLen(bytes, offset);
      }
    }
    assert end == PageEnd(bytes, offset, want, text);
    page := Page(offset, end, text, if end < |bytes| then Some(end) else None);
  }

  /** In valid text the boundary before a place is at most three bytes before it. */
  lemma BoundaryNear(bytes: seq<Byte>, i: nat)
    requires i <= |bytes| && ValidUtf8(bytes)
    ensures BoundaryBefore(bytes, i) + 3 >= i
  {
    var cut := BoundaryBefore(bytes, i);
    BoundaryValid(bytes, 0, cut);
    if cut < |bytes| {
      ValidBoundary(bytes, cut + CharLen(bytes, cut));
      assert cut + CharLen(bytes, cut) > cut;
    }
  }

  /** The length asked for, or 65536 bytes, but no less than one and no more than 1048576. */
  function Asked(length: Option<nat>): nat {
    match length
    case None => 65_536
    case Some(n) => if n == 0 then 1 else if n <= 1_048_576 then n else 1_048_576
  }

  /** A page that is served is not empty before the end, ends no later than the content, and has the length asked for if
    * that much is left; as text it begins and ends at boundaries, is valid, and may be up to three bytes shorter, or
    * one
    * character long if that is longer.
    */
  lemma PageAdvances(bytes: seq<Byte>, offset: nat, length: Option<nat>, encoding: Encoding)
    requires ContentPage(bytes, offset, length, encoding).Page?
    ensures var p, asked := ContentPage(bytes, offset, length, encoding), Asked(length);
            && p.start == offset && p.end <= |bytes| && (offset < |bytes| ==> p.end > offset) &&
              (offset == |bytes| ==> p.end == offset)
            && p.end - offset <= (if asked > 4 then asked else 4)
            && (p.end < |bytes| ==> p.end - offset >= if p.text then asked - 3 else asked)
            && (!p.text ==> p.end - offset <= asked)
            && (p.text ==> IsBoundary(bytes, p.end) && ValidUtf8(bytes[p.start..p.end]))
            && (p.next.None? <==> p.end == |bytes|)
  {
    var p := ContentPage(bytes, offset, length, encoding);
    if p.text {
      BoundaryValid(bytes, 0, offset);
      if offset < |bytes| {
        var n := CharLen(bytes, offset);
        ValidBoundary(bytes, offset + n);
        assert forall k | offset <= k <= offset && IsBoundary(bytes, k) :: true;
      }
      BoundaryNear(bytes, if offset + Wanted(length) < |bytes| then offset + Wanted(length) else |bytes|);
      SliceValid(bytes, offset, offset, p.end);
    }
  }

  /** The bytes read by following `next` from `start`, with any length for each page. */
  function Follow(bytes: seq<Byte>, start: nat, lengths: nat -> Option<nat>, step: nat,
      encoding: Encoding): Option<seq<Byte>>
    decreases |bytes| - start
  {
    var p := ContentPage(bytes, start, lengths(step), encoding);
    if p.Failed? || p.end > |bytes| || p.start > p.end then None
    else if p.next.None? then Some(bytes[p.start..p.end])
    else if p.end <= start then None
    else
      var rest := Follow(bytes, p.end, lengths, step + 1, encoding);
      if rest.None? then None else Some(bytes[p.start..p.end] + rest.value)
  }

  /** Following the pages from the start gives exactly the stored bytes, whatever lengths are asked for. */
  lemma {:induction false} PagesAreWhole(bytes: seq<Byte>, start: nat, lengths: nat -> Option<nat>, step: nat,
      encoding: Encoding)
    requires start <= |bytes| && (encoding == TextOnly ==> ValidUtf8(bytes))
    requires AsText(bytes, encoding) ==> IsBoundary(bytes, start)
    ensures Follow(bytes, start, lengths, step, encoding) == Some(bytes[start..])
    decreases |bytes| - start
  {
    var p := ContentPage(bytes, start, lengths(step), encoding);
    PageAdvances(bytes, start, lengths(step), encoding);
    if p.next.Some? {
      PagesAreWhole(bytes, p.end, lengths, step + 1, encoding);
      assert bytes[start..p.end] + bytes[p.end..] == bytes[start..];
    } else {
      assert bytes[start..p.end] == bytes[start..];
    }
  }

  // ------------------------------------------------------------ hits by cursor

  datatype Order = Newest | Oldest | Sequence

  /** The sort key of an event and its document number. */
  datatype Key = Key(time: int, doc: nat)

  predicate Less(a: Key, b: Key) {
    a.time < b.time || (a.time == b.time && a.doc < b.doc)
  }

  /** `a` comes before `b` in the order of the results. */
  predicate Precedes(order: Order, a: Key, b: Key) {
    if order == Newest then Less(b, a) else Less(a, b)
  }

  ghost predicate Ordered(order: Order, keyed: seq<Key>) {
    forall i, j | 0 <= i < j < |keyed| :: Precedes(order, keyed[i], keyed[j])
  }

  /** The newest first, or the oldest; events of the same time in the order, or the reverse order, of their numbers. */
  lemma OrderMeans(order: Order, keyed: seq<Key>, i: nat, j: nat)
    requires Ordered(order, keyed) && i < j < |keyed|
    ensures if order == Newest then keyed[i].time >= keyed[j].time else keyed[i].time <= keyed[j].time
    ensures keyed[i].time == keyed[j].time ==>
              if order == Newest then keyed[i].doc > keyed[j].doc else keyed[i].doc < keyed[j].doc
  {}

  /** The index of the first key after the cursor. */
  function Begin(order: Order, keyed: seq<Key>, cursor: Option<Key>): (i: nat)
    ensures i <= |keyed|
  {
    if cursor.None? || keyed == [] || Precedes(order, cursor.value, keyed[0]) then 0
      else 1 + Begin(order, keyed[1..], cursor)
  }

  datatype Hits = Hits(keys: seq<Key>, next: Option<Key>)

  /** At most `limit` hits; the cursor of the last key looked at, if there was more to look at. */
  method SearchPage(order: Order, keyed: seq<Key>, hit: Key -> bool, limit: nat, cursor: Option<Key>) returns (r: Hits)
    requires limit >= 1
    ensures r == PageOf(keyed[Begin(order, keyed, cursor)..], hit, limit, None)
  {
    var begin := Begin(order, keyed, cursor);
    var hits: seq<Key>, last: Option<Key>, i := [], None, begin;
    assert forall q: seq<Key> :: hits + q == q;
    while i < |keyed|
      invariant begin <= i <= |keyed| && |hits| <= limit
      invariant PageOf(keyed[begin..], hit, limit, None) == Joined(hits, PageOf(keyed[i..], hit, limit - |hits|, last))
    {
      assert keyed[i..][0] == keyed[i] && keyed[i..][1..] == keyed[i + 1..];
      if |hits| >= limit { return Hits(hits, last); }
      last := Some(keyed[i]);
      if hit(keyed[i]) {
        ghost var rest := PageOf(keyed[i + 1..], hit, limit - |hits| - 1, last);
        assert hits + ([keyed[i]] + rest.keys) == hits + [keyed[i]] + rest.keys;
        hits := hits + [keyed[i]];
      }
      i := i + 1;
    }
    return Hits(hits, None);
  }

  function Joined(hits: seq<Key>, rest: Hits): Hits {
    Hits(hits + rest.keys, rest.next)
  }

  /** The page over the remaining keys, with room for `room` hits; `last` is the key looked at before. */
  function PageOf(keys: seq<Key>, hit: Key -> bool, room: nat, last: Option<Key>): Hits {
    if keys == [] then Hits([], None)
    else if room == 0 then Hits([], last)
    else if hit(keys[0]) then Joined([keys[0]], PageOf(keys[1..], hit, room - 1, Some(keys[0])))
    else PageOf(keys[1..], hit, room, Some(keys[0]))
  }

  function Filter(keys: seq<Key>, hit: Key -> bool): seq<Key> {
    if keys == [] then [] else (if hit(keys[0]) then [keys[0]] else []) + Filter(keys[1..], hit)
  }

  /** A page holds the hits up to its cursor, and stops with a cursor only at a key that was looked at. */
  lemma {:induction false} PageSplits(keys: seq<Key>, hit: Key -> bool, room: nat, last: Option<Key>) returns (n: nat)
    requires room >= 1 || last.Some?
    ensures n <= |keys| && PageOf(keys, hit, room, last).keys == Filter(keys[..n], hit)
    ensures var next := PageOf(keys, hit, room, last).next;
            if n < |keys| then next == (if n == 0 then last else Some(keys[n - 1])) && next.Some? &&
              (n == 0 ==> room == 0)
            else next.None?
  {
    if keys == [] {
      n := 0;
    } else if room == 0 {
      n := 0;
      assert keys[..0] == [];
    } else {
      var m := PageSplits(keys[1..], hit, if hit(keys[0]) then room - 1 else room, Some(keys[0]));
      n := m + 1;
      assert keys[..n][0] == keys[0] && keys[..n][1..] == keys[1..][..m];
    }
  }

  /** A page has as many hits as there is room for, or all that are left. */
  lemma {:induction false} PageFilled(keys: seq<Key>, hit: Key -> bool, room: nat, last: Option<Key>)
    ensures var n := |Filter(keys, hit)|; |PageOf(keys, hit, room, last).keys| == if n <= room then n else room
  {
    if keys != [] && room > 0 {
      PageFilled(keys[1..], hit, if hit(keys[0]) then room - 1 else room, Some(keys[0]));
    }
  }

  lemma {:induction false} FilterAppend(a: seq<Key>, b: seq<Key>, hit: Key -> bool)
    ensures Filter(a + b, hit) == Filter(a, hit) + Filter(b, hit)
  {
    if a == [] {
      assert a + b == b;
    } else {
      assert (a + b)[0] == a[0] && (a + b)[1..] == a[1..] + b;
      FilterAppend(a[1..], b, hit);
      var head := if hit(a[0]) then [a[0]] else [];
      assert head + (Filter(a[1..], hit) + Filter(b, hit)) == head + Filter(a[1..], hit) + Filter(b, hit);
    }
  }

  /** The keys after the cursor of the `n`th key are the rest of the list. */
  lemma {:induction false} BeginAfter(order: Order, keyed: seq<Key>, n: nat)
    requires Ordered(order, keyed) && 1 <= n <= |keyed|
    ensures Begin(order, keyed, Some(keyed[n - 1])) == n
  {
    var rest := keyed[1..];
    assert forall i, j | 0 <= i < j < |rest| :: rest[i] == keyed[i + 1] && rest[j] == keyed[j + 1];
    if n > 1 {
      assert Precedes(order, keyed[0], keyed[n - 1]);
      BeginAfter(order, rest, n - 1);
    } else if rest != [] {
      assert Precedes(order, keyed[0], keyed[1]);
      assert Begin(order, rest, Some(keyed[0])) == 0;
    }
  }

  /** The hits found by following the cursors, with any limit of at least one for each page. */
  function FollowHits(order: Order, keyed: seq<Key>, hit: Key -> bool, limits: nat -> nat, step: nat,
      cursor: Option<Key>): seq<Key>
    decreases |keyed| - Begin(order, keyed, cursor)
  {
    var page := PageOf(keyed[Begin(order, keyed, cursor)..], hit, Clamp(limits(step), 1, 200), None);
    if page.next.None? || Begin(order, keyed, page.next) <= Begin(order, keyed, cursor) then page.keys
    else page.keys + FollowHits(order, keyed, hit, limits, step + 1, page.next)
  }

  /** A page and what is left after its cursor. */
  lemma PageAndRest(order: Order, keyed: seq<Key>, hit: Key -> bool, room: nat, begin: nat)
    requires Ordered(order, keyed) && begin <= |keyed| && room >= 1
    ensures var page := PageOf(keyed[begin..], hit, room, None);
            if page.next.None? then page.keys == Filter(keyed[begin..], hit)
            else
              var after := Begin(order, keyed, page.next);
              begin < after && page.keys + Filter(keyed[after..], hit) == Filter(keyed[begin..], hit)
  {
    hide PageOf, Begin, Filter, Ordered;
    var keys := keyed[begin..];
    var n := PageSplits(keys, hit, room, None);
    if n < |keys| {
      assert keys[n - 1] == keyed[begin + n - 1];
      BeginAfter(order, keyed, begin + n);
      assert keyed[begin + n..] == keys[n..];
      FilterAppend(keys[..n], keys[n..], hit);
      assert keys[..n] + keys[n..] == keys;
    } else {
      assert keys[..n] == keys;
    }
  }

  /** Following the cursors finds every hit exactly once and in order. */
  lemma {:induction false} HitsAreWhole(order: Order, keyed: seq<Key>, hit: Key -> bool, limits: nat -> nat, step: nat,
      cursor: Option<Key>)
    requires Ordered(order, keyed)
    ensures FollowHits(order, keyed, hit, limits, step, cursor) == Filter(keyed[Begin(order, keyed, cursor)..], hit)
    decreases |keyed| - Begin(order, keyed, cursor)
  {
    hide PageOf, Begin, Filter, Ordered;
    var room := Clamp(limits(step), 1, 200);
    PageAndRest(order, keyed, hit, room, Begin(order, keyed, cursor));
    var page := PageOf(keyed[Begin(order, keyed, cursor)..], hit, room, None);
    if page.next.Some? {
      HitsAreWhole(order, keyed, hit, limits, step + 1, page.next);
    }
  }

  // ------------------------------------------------------------ cursor text

  function Tag(order: Order): char {
    match order
    case Newest => 'n'
    case Oldest => 'o'
    case Sequence => 's'
  }

  function IntText(n: int): string {
    if n < 0 then "-" + Digits(-n) else Digits(n)
  }

  function CursorText(order: Order, k: Key): string {
    [Tag(order)] + ":" + IntText(k.time) + ":" + Digits(k.doc)
  }

  /** The text before the first colon and the text after it. */
  function SplitColon(s: string): Option<(string, string)> {
    if s == [] then None
    else if s[0] == ':' then Some(([], s[1..]))
    else
      var rest := SplitColon(s[1..]);
      if rest.None? then None else Some(([s[0]] + rest.value.0, rest.value.1))
  }

  function ParseNat(s: string, max: nat): Option<nat> {
    if s == [] || DigitRun(s) != |s| || Value(s) > max then None else Some(Value(s))
  }

  /** An integer with an optional sign. */
  function ParseInt(s: string, max: nat): Option<int> {
    if s != [] && s[0] == '-' then
      var n := ParseNat(s[1..], max + 1);
      if n.None? then None else Some(0 - n.value as int)
    else if s != [] && s[0] == '+' then ParseNat(s[1..], max)
    else ParseNat(s, max)
  }

  const I64_MAX: nat := 0x7FFF_FFFF_FFFF_FFFF
  const U32_MAX: nat := 0xFFFF_FFFF

  /** A cursor of another order, or one that is not two numbers, is refused. */
  function ParseCursor(order: Order, c: string): Option<Key> {
    var first := SplitColon(c);
    if first.None? || first.value.0 != [Tag(order)] then None
    else
      var second := SplitColon(first.value.1);
      if second.None? then None
      else
        var k, d := ParseInt(second.value.0, I64_MAX), ParseNat(StripPlus(second.value.1), U32_MAX);
        if k.None? || d.None? then None else Some(Key(k.value, d.value))
  }

  /** Unsigned numbers may have a plus sign. */
  function StripPlus(s: string): string {
    if s != [] && s[0] == '+' then s[1..] else s
  }

  lemma {:induction false} SplitAt(a: string, b: string)
    requires ':' !in a
    ensures SplitColon(a + ":" + b) == Some((a, b))
  {
    var s := a + ":" + b;
    if a == [] {
      assert s[1..] == b;
    } else {
      assert s[1..] == a[1..] + ":" + b;
      SplitAt(a[1..], b);
      assert [a[0]] + a[1..] == a;
    }
  }

  lemma DigitsParse(n: nat, max: nat)
    requires n <= max
    ensures ParseNat(Digits(n), max) == Some(n) && ':' !in Digits(n) && Digits(n) != [] && Digits(n)[0] != '-' &&
      Digits(n)[0] != '+'
  {
    DigitsRead(n);
    RunOf(Digits(n), []);
    assert Digits(n) + [] == Digits(n);
  }

  lemma IntParses(n: int)
    requires -0x8000_0000_0000_0000 <= n <= I64_MAX
    ensures ParseInt(IntText(n), I64_MAX) == Some(n) && ':' !in IntText(n)
  {
    if n < 0 {
      DigitsParse(-n, I64_MAX + 1);
      assert IntText(n)[1..] == Digits(-n);
    } else {
      DigitsParse(n, I64_MAX);
    }
  }

  /** A cursor reads back as the key it was made from, and only for the order it was made for. */
  lemma CursorRoundTrip(order: Order, other: Order, k: Key)
    requires -0x8000_0000_0000_0000 <= k.time <= I64_MAX && k.doc <= U32_MAX
    ensures ParseCursor(other, CursorText(order, k)) == if other == order then Some(k) else None
  {
    hide Digits, IntText, SplitColon, ParseInt, ParseNat;
    var tag, rest := [Tag(order)], IntText(k.time) + ":" + Digits(k.doc);
    assert CursorText(order, k) == tag + ":" + rest;
    SplitAt(tag, rest);
    IntParses(k.time);
    DigitsParse(k.doc, U32_MAX);
    SplitAt(IntText(k.time), Digits(k.doc));
    assert [Tag(other)] == tag <==> Tag(other) == tag[0];
  }

  /** Decimal digits, at least one, with this value. */
  predicate Writes(s: string, n: nat) {
    s != [] && (forall i | 0 <= i < |s| :: IsDigit(s[i])) && Value(s) == n
  }

  /** Digits with or without a plus sign. */
  predicate WritesPlus(s: string, n: nat) {
    Writes(s, n) || (s != [] && s[0] == '+' && Writes(s[1..], n))
  }

  /** Digits with or without a sign, which may be minus. */
  predicate WritesInt(s: string, n: int) {
    (n >= 0 && WritesPlus(s, n)) || (s != [] && s[0] == '-' && n <= 0 && Writes(s[1..], -n))
  }

  lemma NatExact(s: string, max: nat, n: nat)
    ensures ParseNat(s, max) == Some(n) <==> Writes(s, n) && n <= max
  {
    assert DigitRun(s) != |s| ==> !IsDigit(s[DigitRun(s)]);
  }

  lemma IntExact(s: string, n: int)
    ensures ParseInt(s, I64_MAX) == Some(n) <==> WritesInt(s, n) && -0x8000_0000_0000_0000 <= n <= I64_MAX
  {
    hide ParseNat, Writes;
    WritesDigits(s);
    if s != [] && s[0] == '-' {
      if n <= 0 { NatExact(s[1..], I64_MAX + 1, -n); }
      forall m: nat { NatExact(s[1..], I64_MAX + 1, m); }
    } else if n >= 0 {
      NatExact(s, I64_MAX, n);
      if s != [] { NatExact(s[1..], I64_MAX, n); }
    }
  }

  lemma WritesDigits(s: string)
    ensures forall n | Writes(s, n) :: s != [] && IsDigit(s[0])
  {}

  lemma {:induction false} SplitExact(s: string)
    ensures SplitColon(s).Some? ==>
              ':' !in SplitColon(s).value.0 && s == SplitColon(s).value.0 + ":" + SplitColon(s).value.1
    ensures SplitColon(s).None? <==> ':' !in s
  {
    if s != [] && s[0] != ':' { SplitExact(s[1..]); }
  }

  /** The parts of a cursor. */
  ghost predicate CursorParts(order: Order, c: string, k: Key, time: string, doc: string) {
    c == [Tag(order)] + ":" + (time + ":" + doc) && WritesInt(time, k.time) && WritesPlus(doc, k.doc)
  }

  lemma NoColon(s: string, n: int)
    requires WritesInt(s, n)
    ensures ':' !in s
  {}

  /** What is read as a cursor is the tag of the order, an integer of 64 bits and one of 32 bits, with colons between.
    */
  lemma CursorExact(order: Order, c: string, k: Key)
    ensures ParseCursor(order, c) == Some(k) <==>
              && -0x8000_0000_0000_0000 <= k.time <= I64_MAX && k.doc <= U32_MAX
              && exists time, doc :: CursorParts(order, c, k, time, doc)
  {
    hide SplitColon, ParseInt, ParseNat, WritesInt, Writes;
    if ParseCursor(order, c) == Some(k) {
      var first := SplitColon(c).value;
      SplitExact(c);
      SplitExact(first.1);
      var second := SplitColon(first.1).value;
      IntExact(second.0, k.time);
      PlusExact(second.1, k.doc);
      assert CursorParts(order, c, k, second.0, second.1);
    }
    if time, doc :| CursorParts(order, c, k, time, doc) {
      NoColon(time, k.time);
      SplitAt([Tag(order)], time + ":" + doc);
      SplitAt(time, doc);
      if -0x8000_0000_0000_0000 <= k.time <= I64_MAX && k.doc <= U32_MAX {
        IntExact(time, k.time);
        PlusExact(doc, k.doc);
      }
    }
  }

  lemma PlusExact(s: string, n: nat)
    ensures ParseNat(StripPlus(s), U32_MAX) == Some(n) <==> WritesPlus(s, n) && n <= U32_MAX
  {
    hide ParseNat, Writes;
    WritesDigits(s);
    NatExact(StripPlus(s), U32_MAX, n);
  }
}
