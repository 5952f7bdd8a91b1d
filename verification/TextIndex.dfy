/** The bigram prefilter: it may let through texts without the term, but never loses one with it
  * (text.rs, and the candidate filter of query/history.rs).
  */
module TextSearch {
  import opened Wrappers
  import opened Text

  // ------------------------------------------------------------ tokens

  function Pair(t: string, i: nat): string
    requires i + 1 < |t|
  {
    [t[i], t[i + 1]]
  }

  /** Adjacent alphanumeric characters. */
  function Bigrams(u: Unicode, t: string): set<string> {
    set i {:trigger Pair(t, i)} | 0 <= i < |t| - 1 && u.alnum(t[i]) && u.alnum(t[i + 1]) :: Pair(t, i)
  }

  /** Alphanumeric characters with no alphanumeric neighbour. */
  function Singles(u: Unicode, t: string): set<string> {
    set i | 0 <= i < |t| && u.alnum(t[i]) && (i == 0 || !u.alnum(t[i - 1])) && (i == |t| - 1 || !u.alnum(t[i + 1])) ::
      [t[i]]
  }

  function Windows(run: string): set<string> {
    set i {:trigger Pair(run, i)} | 0 <= i < |run| - 1 :: Pair(run, i)
  }

  function RunLength(u: Unicode, t: string): (n: nat)
    ensures n <= |t| && (forall i | 0 <= i < n :: u.alnum(t[i])) && (n < |t| ==> !u.alnum(t[n]))
  {
    if t == [] || !u.alnum(t[0]) then 0 else 1 + RunLength(u, t[1..])
  }

  /** Splitting off the first alphanumeric run splits the tokens. */
  lemma SplitTokens(u: Unicode, t: string, n: nat)
    requires n == RunLength(u, t)
    ensures var run, rest := t[..n], if n < |t| then t[n + 1..] else [];
            && Bigrams(u, t) == Windows(run) + Bigrams(u, rest)
            && Singles(u, t) == (if n == 1 then {run} else {}) + Singles(u, rest)
  {
    var run, rest := t[..n], if n < |t| then t[n + 1..] else [];
    SplitBigrams(u, t, n, run, rest);
    SplitSingles(u, t, n, run, rest);
  }

  ghost predicate PairAt(u: Unicode, t: string, b: string, i: nat) {
    i + 1 < |t| && u.alnum(t[i]) && u.alnum(t[i + 1]) && b == Pair(t, i)
  }

  lemma PairIn(u: Unicode, t: string, b: string)
    ensures b in Bigrams(u, t) <==> exists i: nat :: PairAt(u, t, b, i)
  {
    if b in Bigrams(u, t) {
      var i :| 0 <= i < |t| - 1 && u.alnum(t[i]) && u.alnum(t[i + 1]) && b == Pair(t, i);
      assert PairAt(u, t, b, i);
    }
  }

  lemma PairsOfRun(u: Unicode, run: string, b: string)
    requires forall i | 0 <= i < |run| :: u.alnum(run[i])
    ensures b in Windows(run) <==> exists i: nat :: PairAt(u, run, b, i)
  {
    if b in Windows(run) {
      var i :| 0 <= i < |run| - 1 && b == Pair(run, i);
      assert PairAt(u, run, b, i);
    }
  }

  lemma SplitBigrams(u: Unicode, t: string, n: nat, run: string, rest: string)
    requires n == RunLength(u, t) && run == t[..n] && rest == if n < |t| then t[n + 1..] else []
    ensures Bigrams(u, t) == Windows(run) + Bigrams(u, rest)
  {
    hide Bigrams, Windows, RunLength;
    forall b: string ensures b in Bigrams(u, t) <==> b in Windows(run) + Bigrams(u, rest) {
      PairIn(u, t, b);
      PairIn(u, rest, b);
      PairsOfRun(u, run, b);
      forall i: nat | PairAt(u, t, b, i) ensures PairAt(u, run, b, i) || (i > n && PairAt(u, rest, b, i - n - 1)) {}
      forall i: nat | PairAt(u, run, b, i) ensures PairAt(u, t, b, i) {}
      forall i: nat | PairAt(u, rest, b, i) ensures PairAt(u, t, b, n + 1 + i) {}
    }
  }

  ghost predicate SingleAt(u: Unicode, t: string, b: string, i: nat) {
    i < |t| && u.alnum(t[i]) && (i == 0 || !u.alnum(t[i - 1])) && (i == |t| - 1 || !u.alnum(t[i + 1])) && b == [t[i]]
  }

  lemma SingleIn(u: Unicode, t: string, b: string)
    ensures b in Singles(u, t) <==> exists i: nat :: SingleAt(u, t, b, i)
  {
    if b in Singles(u, t) {
      var i :| 0 <= i < |t| && u.alnum(t[i]) && (i == 0 || !u.alnum(t[i - 1])) &&
        (i == |t| - 1 || !u.alnum(t[i + 1])) && b == [t[i]];
      assert SingleAt(u, t, b, i);
    }
  }

  lemma SplitSingles(u: Unicode, t: string, n: nat, run: string, rest: string)
    requires n == RunLength(u, t) && run == t[..n] && rest == if n < |t| then t[n + 1..] else []
    ensures Singles(u, t) == (if n == 1 then {run} else {}) + Singles(u, rest)
  {
    hide Singles, RunLength;
    var right := (if n == 1 then {run} else {}) + Singles(u, rest);
    forall b: string ensures b in Singles(u, t) <==> b in right {
      SingleIn(u, t, b);
      SingleIn(u, rest, b);
      forall i: nat | SingleAt(u, t, b, i) ensures (n == 1 && b == run) || (i > n && SingleAt(u, rest, b, i - n - 1)) {}
      if n == 1 && b == run { assert SingleAt(u, t, b, 0); }
      forall i: nat | SingleAt(u, rest, b, i) ensures SingleAt(u, t, b, n + 1 + i) {}
    }
  }

  /** `gram_tokens`: the bigrams of the normalised text, and its runs of one character. */
  method GramTokens(u: Unicode, s: string) returns (out: set<string>)
    ensures out == Bigrams(u, Normalize(u, s)) + Singles(u, Normalize(u, s))
  {
    hide Bigrams, Singles, Windows, Normalize;
    out := {};
    var text := Normalize(u, s);
    ghost var all := Bigrams(u, text) + Singles(u, text);
    while text != []
      invariant all == out + Bigrams(u, text) + Singles(u, text)
      decreases |text|
    {
      var n := RunLength(u, text);
      var run := text[..n];
      SplitTokens(u, text, n);
      var windows := WindowsOf(run);
      out := out + (if n == 1 then {run} else {}) + windows;
      text := if n < |text| then text[n + 1..] else [];
    }
    NoTokens(u);
  }

  lemma NoTokens(u: Unicode)
    ensures Bigrams(u, "") == {} && Singles(u, "") == {}
  {}

  method WindowsOf(run: string) returns (out: set<string>)
    ensures out == Windows(run)
  {
    out := {};
    var i := 0;
    while i + 1 < |run|
      invariant 0 <= i && (i < |run| || i == 0) && out == set k {:trigger Pair(run, k)} | 0 <= k < i &&
        k + 1 < |run| :: Pair(run, k)
    {
      out := out + {Pair(run, i)};
      i := i + 1;
    }
  }

  /** `gram_query_tokens`: a run of one character asks for nothing. */
  method GramQueryTokens(u: Unicode, term: string) returns (out: set<string>)
    ensures out == Bigrams(u, Normalize(u, term))
  {
    hide Bigrams, Singles, Windows, Normalize;
    out := {};
    var text := Normalize(u, term);
    ghost var all := Bigrams(u, text);
    while text != []
      invariant all == out + Bigrams(u, text)
      decreases |text|
    {
      var n := RunLength(u, text);
      SplitTokens(u, text, n);
      var windows := WindowsOf(text[..n]);
      out := out + windows;
      text := if n < |text| then text[n + 1..] else [];
    }
    NoTokens(u);
  }

  // ------------------------------------------------------------ completeness

  lemma BigramsWithin(u: Unicode, t: string, part: string, at: nat)
    requires OccursAt(t, part, at)
    ensures Bigrams(u, part) <= Bigrams(u, t)
  {
    hide Bigrams;
    forall b | b in Bigrams(u, part) ensures b in Bigrams(u, t) {
      PairIn(u, part, b);
      PairIn(u, t, b);
      var i: nat :| PairAt(u, part, b, i);
      assert part == t[at..at + |part|];
      assert PairAt(u, t, b, at + i);
    }
  }

  /** One more character adds the pair that it ends. */
  lemma BigramsSnoc(u: Unicode, t: string, c: char)
    ensures Bigrams(u, t + [c]) == Bigrams(u, t) + Ended(u, t, c)
  {
    hide Bigrams;
    var t' := t + [c];
    forall b: string ensures b in Bigrams(u, t') <==> b in Bigrams(u, t) + Ended(u, t, c) {
      PairIn(u, t, b);
      PairIn(u, t', b);
      forall i: nat ensures PairAt(u, t', b, i) <==> PairAt(u, t, b, i) || (i + 1 == |t| && b in Ended(u, t, c)) {}
      if b in Ended(u, t, c) { assert PairAt(u, t', b, |t| - 1); }
    }
  }

  /** The pair that `c` ends when it follows `t`. */
  ghost function Ended(u: Unicode, t: string, c: char): set<string> {
    if t != [] && u.alnum(t[|t| - 1]) && u.alnum(c) then {[t[|t| - 1], c]} else {}
  }

  lemma {:induction false} JoinEnds(u: Unicode, t: string)
    ensures t != [] && !u.space(t[|t| - 1]) ==>
            Join(Words(u, t)) != [] && Join(Words(u, t))[|Join(Words(u, t))| - 1] == t[|t| - 1]
  {
    if t != [] {
      assert t == t[..|t| - 1] + [t[|t| - 1]];
      JoinWordsSnoc(u, t[..|t| - 1], t[|t| - 1]);
    }
  }

  /** Joining words with single spaces neither makes nor breaks a pair of alphanumerics. */
  lemma {:induction false} BigramsJoined(u: Unicode, t: string)
    requires Lawful(u)
    ensures Bigrams(u, Join(Words(u, t))) == Bigrams(u, t)
  {
    hide Bigrams, Words, Join, Lawful, Due;
    if t != [] {
      var before, c := t[..|t| - 1], t[|t| - 1];
      assert t == before + [c];
      BigramsJoined(u, before);
      BigramsJoinedSnoc(u, before, c);
    } else {
      JoinNothing(u);
    }
  }

  lemma JoinNothing(u: Unicode)
    ensures Join(Words(u, [])) == []
  {}

  lemma BigramsJoinedSnoc(u: Unicode, t: string, c: char)
    requires Lawful(u) && Bigrams(u, Join(Words(u, t))) == Bigrams(u, t)
    ensures Bigrams(u, Join(Words(u, t + [c]))) == Bigrams(u, t + [c])
  {
    hide Bigrams, Words, Join, Due;
    var text := Join(Words(u, t));
    JoinWordsSnoc(u, t, c);
    BigramsSnoc(u, t, c);
    if !u.space(c) {
      JoinEnds(u, t);
      DueOrStart(u, t);
      DueShape(u, t);
      if Due(u, t) == " " {
        BigramsSnoc(u, text, ' ');
        BigramsSnoc(u, text + " ", c);
      } else {
        assert text + "" == text;
        BigramsSnoc(u, text, c);
      }
    }
  }

  lemma DueOrStart(u: Unicode, t: string)
    ensures Due(u, t) == "" && t != [] && u.space(t[|t| - 1]) ==> Join(Words(u, t)) == []
    ensures t == [] ==> Join(Words(u, t)) == []
    ensures Due(u, t) == " " ==> t != [] && u.space(t[|t| - 1])
  {}

  /** If the raw query occurs in the raw text, the text has every token asked for. */
  lemma ExactQueryFound(u: Unicode, raw: string, query: string)
    requires Lawful(u) && Occurs(raw, query)
    ensures Bigrams(u, Normalize(u, query)) <= Bigrams(u, Normalize(u, raw)) + Singles(u, Normalize(u, raw))
  {
    var at: nat :| OccursAt(raw, query, at);
    var head, tail := raw[..at], raw[at + |query|..];
    assert raw == head + query + tail;
    FlatAppend(u, head, query);
    FlatAppend(u, head + query, tail);
    assert OccursAt(Flat(u, raw), Flat(u, query), |Flat(u, head)|);
    BigramsWithin(u, Flat(u, raw), Flat(u, query), |Flat(u, head)|);
    BigramsJoined(u, Flat(u, raw));
    BigramsJoined(u, Flat(u, query));
  }

  /** If a term of the normalised query occurs in the normalised text, the text has every token asked for. */
  lemma TermFound(u: Unicode, raw: string, term: string)
    requires Lawful(u) && Occurs(Normalize(u, raw), term)
    ensures Bigrams(u, Normalize(u, term)) <= Bigrams(u, Normalize(u, raw)) + Singles(u, Normalize(u, raw))
  {
    var text := Normalize(u, raw);
    var at: nat :| OccursAt(text, term, at);
    NormalLowered(u, raw);
    forall i | 0 <= i < |term| ensures u.lower(Fold(term[i])) == [term[i]] {
      assert term[i] == text[at..at + |term|][i];
    }
    FlatStable(u, term);
    BigramsJoined(u, term);
    BigramsWithin(u, text, term, at);
  }

  // ------------------------------------------------------------ matching

  /** The first occurrence, as `str::find`. */
  method Find(text: string, part: string) returns (at: Option<nat>)
    ensures at.Some? <==> Occurs(text, part)
    ensures at.Some? ==> OccursAt(text, part, at.value) && forall k: nat | OccursAt(text, part, k) :: at.value <= k
  {
    var i := 0;
    while i + |part| <= |text|
      invariant forall k: nat | k < i :: !OccursAt(text, part, k)
    {
      if text[i..i + |part|] == part {
        assert OccursAt(text, part, i);
        return Some(i);
      }
      i := i + 1;
    }
    return None;
  }

  ghost predicate FirstAt(text: string, part: string, at: nat) {
    OccursAt(text, part, at) && forall k: nat | OccursAt(text, part, k) :: at <= k
  }

  /** `find_all`: every term occurs; the span is that of the first term's first occurrence. */
  method FindAll(m: MappedText, terms: seq<string>) returns (first: Option<Span>)
    requires |m.spans| == |m.text| && forall i | 0 <= i < |terms| :: terms[i] != []
    ensures first.Some? <==> terms != [] && forall i | 0 <= i < |terms| :: Occurs(m.text, terms[i])
    ensures first.Some? ==> exists at: nat :: FirstAt(m.text, terms[0], at) && first == RawSpan(m, at, at + |terms[0]|)
  {
    first := None;
    for i := 0 to |terms|
      invariant forall k | 0 <= k < i :: Occurs(m.text, terms[k])
      invariant first.Some? <==> i > 0
      invariant i > 0 ==> exists at: nat :: FirstAt(m.text, terms[0], at) && first == RawSpan(m, at, at + |terms[0]|)
    {
      var at := Find(m.text, terms[i]);
      if at.None? { return None; }
      if first.None? {
        first := RawSpan(m, at.value, at.value + |terms[i]|);
        assert FirstAt(m.text, terms[0], at.value);
      }
    }
  }

  /** What is found for terms of a query is a part of the raw text: its normal form contains the first term. */
  lemma FoundCovers(u: Unicode, raw: string, terms: seq<string>, first: Span, at: nat)
    requires Lawful(u) && terms != [] && terms[0] != [] && terms[0][0] != ' ' && terms[0][|terms[0]| - 1] != ' '
    requires FirstAt(Normalize(u, raw), terms[0], at)
    requires Some(first) == RawSpan(MappedText(Scanned(u, raw).text, Scanned(u, raw).spans), at, at + |terms[0]|)
    ensures first.from < first.to <= |raw| && Occurs(Normalize(u, raw[first.from..first.to]), terms[0])
  {
    hide Scanned, Normalize, Lawful;
    var text, term := Normalize(u, raw), terms[0];
    assert text[at..at + |term|] == term;
    assert text[at] == term[0] && text[at + |term| - 1] == term[|term| - 1];
    RawSpanCovers(u, raw, at, at + |term|);
  }

  // ------------------------------------------------------------ the index

  function Posted(postings: map<string, set<nat>>, t: string): set<nat> {
    if t in postings then postings[t] else {}
  }

  ghost predicate HasAll(docTokens: map<nat, set<string>>, toks: set<string>, d: nat) {
    d in docTokens && toks <= docTokens[d]
  }

  /** Token to documents, and back. */
  class TextIndex {
    var postings: map<string, set<nat>>
    var docTokens: map<nat, set<string>>

    ghost predicate Valid()
      reads this
    {
      forall t: string, d: nat :: d in Posted(postings, t) <==> d in docTokens && t in docTokens[d]
    }

    constructor ()
      ensures Valid() && docTokens == map[]
    {
      postings, docTokens := map[], map[];
    }

    method Remove(doc: nat)
      requires Valid()
      modifies this
      ensures Valid() && docTokens == old(docTokens) - {doc}
    {
      if doc in docTokens {
        var rest := docTokens[doc];
        ghost var toks, others := rest, docTokens - {doc};
        docTokens := docTokens - {doc};
        while rest != {}
          invariant docTokens == others && rest <= toks
          invariant forall t: string, d: nat :: d in Posted(postings, t) <==>
            if d == doc then t in rest else d in others && t in others[d]
          decreases |rest|
        {
          var t :| t in rest;
          ghost var before := postings;
          if t in postings {
            postings := postings[t := postings[t] - {doc}];
          }
          assert forall x :: Posted(postings, x) == if x == t then Posted(before, x) - {doc} else Posted(before, x);
          rest := rest - {t};
        }
      }
    }

    method SetTokens(doc: nat, toks: set<string>)
      requires Valid()
      modifies this
      ensures Valid() && docTokens == old(docTokens)[doc := toks]
    {
      Remove(doc);
      var rest := toks;
      ghost var others := docTokens;
      while rest != {}
        invariant docTokens == others && rest <= toks
        invariant forall t: string, d: nat :: d in Posted(postings, t) <==>
          if d == doc then t in toks - rest else d in others && t in others[d]
        decreases |rest|
      {
        var t :| t in rest;
        ghost var before := postings;
        postings := postings[t := Posted(postings, t) + {doc}];
        assert forall x :: Posted(postings, x) == if x == t then Posted(before, x) + {doc} else Posted(before, x);
        rest := rest - {t};
      }
      docTokens := docTokens[doc := toks];
    }

    /** The documents that have all tokens; no token means no filter. */
    method SearchTokens(toks: set<string>) returns (r: Option<set<nat>>)
      requires Valid()
      ensures r.None? <==> toks == {}
      ensures r.Some? ==> forall d: nat :: d in r.value <==> HasAll(docTokens, toks, d)
    {
      r := None;
      var rest := toks;
      ghost var done: set<string> := {};
      while rest != {}
        invariant done + rest == toks && (r.None? <==> done == {})
        invariant r.Some? ==> forall d: nat :: d in r.value <==> HasAll(docTokens, done, d)
        decreases |rest|
      {
        hide HasAll;
        var t :| t in rest;
        var p := Posted(postings, t);
        forall d: nat ensures HasAll(docTokens, done + {t}, d) <==>
          (done == {} || HasAll(docTokens, done, d)) && d in p {
          HasOneMore(docTokens, done, t, d);
        }
        r := Some(if r.None? then p else r.value * p);
        done, rest := done + {t}, rest - {t};
      }
      assert done == toks;
    }
  }

  lemma HasOneMore(docTokens: map<nat, set<string>>, done: set<string>, t: string, d: nat)
    ensures HasAll(docTokens, done + {t}, d) <==>
      (done == {} || HasAll(docTokens, done, d)) && d in docTokens && t in docTokens[d]
  {}

  // ------------------------------------------------------------ the candidate filter

  /** Every document is indexed by the tokens of its raw text. */
  ghost predicate IndexedBy(u: Unicode, docTokens: map<nat, set<string>>, raws: map<nat, string>) {
    forall d | d in raws ::
      d in docTokens && docTokens[d] == Bigrams(u, Normalize(u, raws[d])) + Singles(u, Normalize(u, raws[d]))
  }

  /** The query matches the raw text: as it is, or term by term after normalisation. */
  ghost predicate Matches(u: Unicode, raw: string, query: string, exact: bool, terms: seq<string>) {
    if exact then Occurs(raw, query) else forall i | 0 <= i < |terms| :: Occurs(Normalize(u, raw), terms[i])
  }

  /** The candidates of a text search leave out no document that matches. */
  method Candidates(u: Unicode, index: TextIndex, query: string, exact: bool, terms: seq<string>,
      ghost raws: map<nat, string>)
      returns (r: Option<set<nat>>)
    requires Lawful(u) && index.Valid() && IndexedBy(u, index.docTokens, raws)
    ensures r.Some? ==> forall d | d in raws && Matches(u, raws[d], query, exact, terms) :: d in r.value
  {
    hide Bigrams, Singles, Normalize, Occurs, Lawful;
    var toks: set<string> := {};
    if exact {
      toks := GramQueryTokens(u, query);
      forall d | d in raws && Occurs(raws[d], query) ensures HasAll(index.docTokens, toks, d) {
        ExactQueryFound(u, raws[d], query);
      }
    } else {
      for i := 0 to |terms|
        invariant forall d | d in raws && Matches(u, raws[d], query, false, terms) :: HasAll(index.docTokens, toks, d)
      {
        var more := GramQueryTokens(u, terms[i]);
        forall d | d in raws &&
          Matches(u, raws[d], query, false, terms) ensures HasAll(index.docTokens, toks + more, d) {
          TermFound(u, raws[d], terms[i]);
        }
        toks := toks + more;
      }
    }
    r := index.SearchTokens(toks);
  }
}
