/** Normalised text, the way back to the raw text, and the bigrams of the substring search (text.rs).
  * Positions count characters.
  */
module Text {
  import opened Wrappers

  /** The Unicode tables: the lowercase form of a character, white space, and alphanumerics. */
  datatype Unicode = Unicode(lower: char -> string, space: char -> bool, alnum: char -> bool)

  /** Full-width forms become ASCII. */
  function Fold(c: char): char {
    if '\U{FF01}' <= c <= '\U{FF5E}' then (c as int - 0xFEE0) as char
    else if c == '\U{3000}' then ' '
    else c
  }

  /** White space is its own lowercase form and is not alphanumeric; lowercasing anything else gives
    * something and no white space; lowercasing twice changes nothing.
    */
  ghost predicate Lawful(u: Unicode) {
    && u.space(' ')
    && (forall c | u.space(c) :: u.lower(c) == [c] && !u.alnum(c))
    && (forall c | !u.space(c) :: u.lower(c) != [] && forall i | 0 <= i < |u.lower(c)| :: !u.space(u.lower(c)[i]))
    && (forall c, d | d in u.lower(Fold(c)) :: u.lower(Fold(d)) == [d])
  }

  // ------------------------------------------------------------ normalisation

  /** Every character folded and lowercased. */
  function Flat(u: Unicode, s: string): string {
    if s == [] then [] else Flat(u, s[..|s| - 1]) + u.lower(Fold(s[|s| - 1]))
  }

  /** The longest runs without white space. */
  function Words(u: Unicode, t: string): seq<string> {
    if t == [] then []
    else
      var before, c := Words(u, t[..|t| - 1]), t[|t| - 1];
      if u.space(c) then before
      else if before == [] || u.space(t[|t| - 2]) then before + [[c]]
      else before[..|before| - 1] + [before[|before| - 1] + [c]]
  }

  function Join(words: seq<string>): string {
    if words == [] then []
    else if |words| == 1 then words[0]
    else Join(words[..|words| - 1]) + " " + words[|words| - 1]
  }

  function Normalize(u: Unicode, s: string): string {
    Join(Words(u, Flat(u, s)))
  }

  /** A printable ASCII character in its full-width form. */
  function Wide(c: char): char {
    if c == ' ' then '\U{3000}' else if '!' <= c <= '~' then (c as int + 0xFEE0) as char else c
  }

  function Widened(s: string): string {
    if s == [] then [] else Widened(s[..|s| - 1]) + [Wide(s[|s| - 1])]
  }

  /** A text in full-width forms has the normal form that it has in ASCII. */
  lemma {:induction false} WideNormal(u: Unicode, s: string)
    requires forall i | 0 <= i < |s| :: ' ' <= s[i] <= '~'
    ensures Flat(u, Widened(s)) == Flat(u, s) && Normalize(u, Widened(s)) == Normalize(u, s)
  {
    if s != [] {
      var rest, c := s[..|s| - 1], s[|s| - 1];
      WideNormal(u, rest);
      assert Widened(s)[..|Widened(s)| - 1] == Widened(rest);
      assert Fold(Wide(c)) == Fold(c);
    }
  }

  lemma {:induction false} FlatAppend(u: Unicode, a: string, b: string)
    ensures Flat(u, a + b) == Flat(u, a) + Flat(u, b)
  {
    if b == [] {
      assert a + b == a;
    } else {
      assert (a + b)[..|a + b| - 1] == a + b[..|b| - 1];
      FlatAppend(u, a, b[..|b| - 1]);
    }
  }

  lemma {:induction false} WordsSome(u: Unicode, t: string)
    ensures Words(u, t) == [] <==> forall i | 0 <= i < |t| :: u.space(t[i])
    ensures forall i | 0 <= i < |Words(u, t)| :: Words(u, t)[i] != []
  {
    if t != [] { WordsSome(u, t[..|t| - 1]); }
  }

  lemma JoinLast(words: seq<string>, w: string, c: char)
    requires words != [] ==> words[|words| - 1] == w
    ensures Join(words + [[c]]) == Join(words) + (if words == [] then "" else " ") + [c]
    ensures words != [] ==> Join(words[..|words| - 1] + [w + [c]]) == Join(words) + [c]
  {
    assert (words + [[c]])[..|words|] == words;
    if words != [] {
      var more := words[..|words| - 1] + [w + [c]];
      assert more[..|more| - 1] == words[..|words| - 1];
    }
  }

  /** The space that the next word will be joined with. */
  function Due(u: Unicode, t: string): string {
    if t != [] && u.space(t[|t| - 1]) && Words(u, t) != [] then " " else ""
  }

  /** How one more character changes the normal form of what was flattened. */
  lemma JoinWordsSnoc(u: Unicode, t: string, c: char)
    ensures Join(Words(u, t + [c])) == if u.space(c) then Join(Words(u, t)) else Join(Words(u, t)) + Due(u, t) + [c]
    ensures Words(u, t + [c]) == [] <==> Words(u, t) == [] && u.space(c)
  {
    assert (t + [c])[..|t|] == t;
    var words := Words(u, t);
    WordsSome(u, t);
    if !u.space(c) {
      JoinLast(words, if words == [] then "" else words[|words| - 1], c);
    }
  }

  lemma {:induction false} JoinWordsAppend(u: Unicode, t: string, more: string)
    requires more != [] && forall i | 0 <= i < |more| :: !u.space(more[i])
    ensures Join(Words(u, t + more)) == Join(Words(u, t)) + Due(u, t) + more
    ensures Words(u, t + more) != [] && Due(u, t + more) == ""
  {
    hide Words, Join;
    var before, c := more[..|more| - 1], more[|more| - 1];
    assert t + more == t + before + [c];
    JoinWordsSnoc(u, t + before, c);
    if before == [] {
      assert t + before == t && more == [c];
    } else {
      JoinWordsAppend(u, t, before);
    }
  }

  // ------------------------------------------------------------ mapped text

  datatype Span = Span(from: nat, to: nat)

  /** The normal form of a prefix with the raw span of each of its characters, and the raw span of
    * white space that has not become a space yet.
    */
  datatype Scan = Scan(text: string, spans: seq<Span>, space: Option<Span>)

  function Repeat(span: Span, n: nat): (r: seq<Span>)
    ensures |r| == n && forall i | 0 <= i < n :: r[i] == span
  {
    if n == 0 then [] else Repeat(span, n - 1) + [span]
  }

  function Step(u: Unicode, st: Scan, i: nat, raw: char): Scan {
    var c := Fold(raw);
    if u.space(c) then
      if st.text == [] then st
      else st.(space := Some(Span(if st.space.Some? then st.space.value.from else i, i + 1)))
    else
      var text, spans := if st.space.Some? then st.text + " " else st.text, if st.space.Some? then
        st.spans + [st.space.value] else st.spans;
      Scan(text + u.lower(c), spans + Repeat(Span(i, i + 1), |u.lower(c)|), None)
  }

  function Scanned(u: Unicode, raw: string): (r: Scan)
    ensures |r.spans| == |r.text|
  {
    if raw == [] then Scan([], [], None) else Step(u, Scanned(u, raw[..|raw| - 1]), |raw| - 1, raw[|raw| - 1])
  }

  datatype MappedText = MappedText(text: string, spans: seq<Span>)

  method MapText(u: Unicode, raw: string) returns (m: MappedText)
    ensures m == MappedText(Scanned(u, raw).text, Scanned(u, raw).spans)
  {
    var text: string, spans: seq<Span>, space: Option<Span> := [], [], None;
    for i := 0 to |raw|
      invariant Scan(text, spans, space) == Scanned(u, raw[..i])
    {
      assert raw[..i + 1][..i] == raw[..i];
      var c := Fold(raw[i]);
      if u.space(c) {
        if text != [] {
          space := Some(Span(if space.Some? then space.value.from else i, i + 1));
        }
      } else {
        if space.Some? {
          spans := spans + [space.value];
          text := text + " ";
          space := None;
        }
        ghost var textBefore, spansBefore := text, spans;
        var lower := u.lower(c);
        for k := 0 to |lower|
          invariant text == textBefore + lower[..k] && spans == spansBefore + Repeat(Span(i, i + 1), k)
        {
          spans := spans + [Span(i, i + 1)];
          text := text + [lower[k]];
        }
        assert lower[..|lower|] == lower;
      }
    }
    assert raw[..|raw|] == raw;
    m := MappedText(text, spans);
  }

  /** `raw_span`: from the start of the first character to the end of the last. */
  function RawSpan(m: MappedText, start: nat, end: nat): Option<Span>
    requires |m.spans| == |m.text|
  {
    var last := if end <= |m.spans| then end else |m.spans|;
    if last == 0 || start >= |m.spans| then None else Some(Span(m.spans[start].from, m.spans[last - 1].to))
  }

  /** A character of white space makes a space due if there was a word. */
  lemma DueSpace(u: Unicode, t: string, c: char)
    requires u.space(c)
    ensures Due(u, t + [c]) == if Words(u, t) == [] then "" else " "
  {
    assert (t + [c])[..|t|] == t;
  }

  lemma JoinEmpty(u: Unicode, t: string)
    ensures Join(Words(u, t)) == [] <==> Words(u, t) == []
  {
    WordsSome(u, t);
  }

  /** The state of a scan over text that flattens to `flat`. */
  ghost predicate Normal(u: Unicode, st: Scan, flat: string) {
    st.text == Join(Words(u, flat)) && (st.space.Some? <==> Due(u, flat) == " ")
  }

  /** One step of the scan keeps the text normal. */
  lemma StepNormal(u: Unicode, st: Scan, flat: string, i: nat, raw: char)
    requires Lawful(u) && Normal(u, st, flat)
    ensures Normal(u, Step(u, st, i, raw), flat + u.lower(Fold(raw)))
  {
    hide Words, Join, Due, Fold;
    var c := Fold(raw);
    DueShape(u, flat);
    JoinEmpty(u, flat);
    if u.space(c) {
      assert u.lower(c) == [c];
      JoinWordsSnoc(u, flat, c);
      DueSpace(u, flat, c);
    } else {
      JoinWordsAppend(u, flat, u.lower(c));
    }
  }

  /** Scanning gives the normal form; white space is pending exactly when a space is due. */
  lemma {:induction false} ScanNormalizes(u: Unicode, raw: string)
    requires Lawful(u)
    ensures Scanned(u, raw).text == Normalize(u, raw) && Normal(u, Scanned(u, raw), Flat(u, raw))
  {
    hide Words, Join, Due, Step, Lawful;
    if raw != [] {
      ScanNormalizes(u, raw[..|raw| - 1]);
      StepNormal(u, Scanned(u, raw[..|raw| - 1]), Flat(u, raw[..|raw| - 1]), |raw| - 1, raw[|raw| - 1]);
    } else {
      NothingNormal(u);
    }
  }

  lemma NothingNormal(u: Unicode)
    ensures Join(Words(u, [])) == [] && Due(u, []) == ""
  {}

  lemma DueShape(u: Unicode, t: string)
    ensures Due(u, t) == " " || Due(u, t) == ""
    ensures Due(u, t) == " " ==> Words(u, t) != []
  {}

  /** `MappedText` holds the same text as `normalize_label`, and one raw span for each character. */
  lemma MappedIsNormal(u: Unicode, raw: string)
    requires Lawful(u)
    ensures var m := MappedText(Scanned(u, raw).text, Scanned(u, raw).spans);
            m.text == Normalize(u, raw) && |m.spans| == |m.text|
  {
    ScanNormalizes(u, raw);
  }

  /** The text before character `i` of the raw text, with the space that is due. */
  function Before(u: Unicode, raw: string, i: nat): string
    requires i <= |raw|
  {
    var st := Scanned(u, raw[..i]);
    if st.space.Some? then st.text + " " else st.text
  }

  /** A character of the text that is not a space comes from one raw character. */
  lemma {:induction false} SpanAt(u: Unicode, raw: string, j: nat)
    requires Lawful(u) && j < |Scanned(u, raw).text| && Scanned(u, raw).text[j] != ' '
    ensures var span := Scanned(u, raw).spans[j];
            && span.to == span.from + 1 && span.to <= |raw| && !u.space(Fold(raw[span.from]))
            && |Before(u, raw, span.from)| <= j < |Scanned(u, raw[..span.to]).text|
  {
    var n := |raw| - 1;
    var st := Scanned(u, raw[..n]);
    if j < |st.text| {
      SpanAt(u, raw[..n], j);
      var span := st.spans[j];
      assert raw[..n][..span.from] == raw[..span.from] && raw[..n][..span.to] == raw[..span.to];
    } else {
      assert raw[..n + 1] == raw;
    }
  }

  /** The scan of a prefix is a prefix of the scan. */
  lemma {:induction false} ScanPrefix(u: Unicode, raw: string, b: nat)
    requires b <= |raw|
    ensures Scanned(u, raw[..b]).text <= Scanned(u, raw).text
    ensures b < |raw| && !u.space(Fold(raw[b])) ==> Before(u, raw, b) <= Scanned(u, raw).text
  {
    if b < |raw| {
      var n := |raw| - 1;
      ScanPrefix(u, raw[..n], b);
      assert raw[..n][..b] == raw[..b];
    } else {
      assert raw[..b] == raw;
    }
  }

  /** From a character that is not white space the scan goes on as if the text began there. */
  lemma {:induction false} ScanFrom(u: Unicode, raw: string, s: nat, e: nat)
    requires Lawful(u) && s < e <= |raw| && !u.space(Fold(raw[s]))
    ensures Scanned(u, raw[..e]).text == Before(u, raw, s) + Scanned(u, raw[s..e]).text
    ensures Scanned(u, raw[..e]).space.Some? <==> Scanned(u, raw[s..e]).space.Some?
    ensures Scanned(u, raw[s..e]).text != []
  {
    hide Scanned, Before;
    ScanSnoc(u, raw[..e]);
    ScanSnoc(u, raw[s..e]);
    assert raw[..e][..e - 1] == raw[..e - 1] && raw[s..e][..e - s - 1] == raw[s..e - 1];
    if e == s + 1 {
      assert raw[s..e - 1] == [];
      ScanStart(u, raw, s);
    } else {
      ScanFrom(u, raw, s, e - 1);
    }
  }

  lemma ScanSnoc(u: Unicode, raw: string)
    requires raw != []
    ensures Scanned(u, raw) == Step(u, Scanned(u, raw[..|raw| - 1]), |raw| - 1, raw[|raw| - 1])
  {}

  lemma ScanStart(u: Unicode, raw: string, s: nat)
    requires s <= |raw|
    ensures Scanned(u, []) == Scan([], [], None)
    ensures Before(u, raw, s) == if Scanned(u, raw[..s]).space.Some? then Scanned(u, raw[..s]).text + " "
      else Scanned(u, raw[..s]).text
  {}

  ghost predicate OccursAt(text: string, part: string, at: nat) {
    at + |part| <= |text| && text[at..at + |part|] == part
  }

  ghost predicate Occurs(text: string, part: string) {
    exists at: nat :: OccursAt(text, part, at)
  }

  /** The raw span of a match that does not begin or end with a space normalises to text that
    * contains the match.
    */
  lemma RawSpanCovers(u: Unicode, raw: string, start: nat, end: nat)
    requires Lawful(u) && start < end <= |Normalize(u, raw)|
    requires Normalize(u, raw)[start] != ' ' && Normalize(u, raw)[end - 1] != ' '
    ensures |Scanned(u, raw).text| == |Normalize(u, raw)|
    ensures var span := RawSpan(MappedText(Scanned(u, raw).text, Scanned(u, raw).spans), start, end);
            && span.Some? && span.value.from < span.value.to <= |raw|
            && Occurs(Normalize(u, raw[span.value.from..span.value.to]), Normalize(u, raw)[start..end])
  {
    hide Normalize, Scanned, Lawful, Before;
    ScanNormalizes(u, raw);
    SpanAt(u, raw, start);
    SpanAt(u, raw, end - 1);
    var s, e := Scanned(u, raw).spans[start].from, Scanned(u, raw).spans[end - 1].to;
    ScanPrefix(u, raw, e);
    if e <= s {
      BeforeLonger(u, raw, s, e);
    } else {
      ScanFrom(u, raw, s, e);
      ScanNormalizes(u, raw[s..e]);
      InnerMatch(Scanned(u, raw).text, Scanned(u, raw[..e]).text, Before(u, raw, s), Scanned(u, raw[s..e]).text, start,
        end);
    }
  }

  lemma BeforeLonger(u: Unicode, raw: string, s: nat, e: nat)
    requires e <= s <= |raw|
    ensures |Scanned(u, raw[..e]).text| <= |Before(u, raw, s)|
  {
    ScanPrefix(u, raw[..s], e);
    assert raw[..s][..e] == raw[..e];
  }

  lemma InnerMatch(text: string, upTo: string, before: string, inner: string, start: nat, end: nat)
    requires upTo <= text && upTo == before + inner && |before| <= start < end <= |upTo|
    ensures Occurs(inner, text[start..end])
  {
    var part, off := text[start..end], |before|;
    assert part == upTo[start..end];
    assert OccursAt(inner, part, start - off);
  }

  /** Normalising twice changes nothing. */
  lemma {:induction false} FlatStable(u: Unicode, t: string)
    requires forall i | 0 <= i < |t| :: u.lower(Fold(t[i])) == [t[i]]
    ensures Flat(u, t) == t
  {
    if t != [] {
      FlatStable(u, t[..|t| - 1]);
    }
  }

  lemma {:induction false} FlatLowered(u: Unicode, s: string)
    requires Lawful(u)
    ensures forall i | 0 <= i < |Flat(u, s)| :: u.lower(Fold(Flat(u, s)[i])) == [Flat(u, s)[i]]
  {
    if s != [] {
      FlatLowered(u, s[..|s| - 1]);
      assert forall d | d in u.lower(Fold(s[|s| - 1])) :: u.lower(Fold(d)) == [d];
    }
  }

  /** Characters of the normal form are characters of the flattened text, or spaces between words. */
  lemma {:induction false} JoinedFrom(u: Unicode, t: string, c: char)
    requires c in Join(Words(u, t))
    ensures c in t || c == ' '
  {
    if t != [] {
      var n := |t| - 1;
      assert t == t[..n] + [t[n]];
      JoinWordsSnoc(u, t[..n], t[n]);
      if c in Join(Words(u, t[..n])) {
        JoinedFrom(u, t[..n], c);
      }
    }
  }

  lemma NormalLowered(u: Unicode, s: string)
    requires Lawful(u)
    ensures forall i | 0 <= i < |Normalize(u, s)| :: u.lower(Fold(Normalize(u, s)[i])) == [Normalize(u, s)[i]]
  {
    FlatLowered(u, s);
    forall i | 0 <= i < |Normalize(u, s)|
      ensures u.lower(Fold(Normalize(u, s)[i])) == [Normalize(u, s)[i]]
    {
      JoinedFrom(u, Flat(u, s), Normalize(u, s)[i]);
    }
  }
}
