/** The revision log as a file of lines: appending, crashing at any byte, recovering the tail and
  * reading everything back (store/log.rs).
  */
module RevisionLog {
  import opened Wrappers

  type Byte = b: nat | b < 256

  const NEWLINE: Byte := 10
  const CARRIAGE_RETURN: Byte := 13

  /** The serialisation of a revision, and the test for a line of white space. */
  datatype Codec<!R> = Codec(encode: R -> seq<Byte>, decode: seq<Byte> -> Option<R>, blank: seq<Byte> -> bool)

  /** What the log relies on: a revision is one line that reads back, and a part of one does not. */
  ghost predicate Sound<R(!new)>(c: Codec<R>) {
    && c.blank([])
    && (forall r :: c.decode(c.encode(r)) == Some(r) && !c.blank(c.encode(r)) && |c.encode(r)| > 0)
    && (forall r :: NEWLINE !in c.encode(r) && c.encode(r)[|c.encode(r)| - 1] != CARRIAGE_RETURN)
    && (forall r, k | 0 <= k < |c.encode(r)| :: c.decode(c.encode(r)[..k]) == None)
  }

  datatype Result<+T> = Ok(value: T) | Corrupt(line: nat)

  // ------------------------------------------------------------ contents

  function Record<R>(c: Codec<R>, r: R): seq<Byte> {
    c.encode(r) + [NEWLINE]
  }

  function Encoded<R>(c: Codec<R>, revs: seq<R>): seq<Byte> {
    if revs == [] then [] else Encoded(c, revs[..|revs| - 1]) + Record(c, revs[|revs| - 1])
  }

  function IndexOfNewline(f: seq<Byte>): (r: nat)
    ensures r <= |f| && NEWLINE !in f[..r] && (r < |f| ==> f[r] == NEWLINE)
  {
    if f == [] || f[0] == NEWLINE then 0 else 1 + IndexOfNewline(f[1..])
  }

  function StripReturn(line: seq<Byte>): seq<Byte> {
    if line != [] && line[|line| - 1] == CARRIAGE_RETURN then line[..|line| - 1] else line
  }

  function Lines(f: seq<Byte>): seq<seq<Byte>> {
    if f == [] then []
    else
      var n := IndexOfNewline(f);
      if n == |f| then [f] else [StripReturn(f[..n])] + Lines(f[n + 1..])
  }

  function Prepend<R>(r: R, rest: Result<seq<R>>): Result<seq<R>> {
    match rest
    case Ok(revs) => Ok([r] + revs)
    case Corrupt(line) => Corrupt(line)
  }

  /** The revisions of the lines, skipping blank ones; `i` lines were read before. */
  function ReadLines<R>(c: Codec<R>, lines: seq<seq<Byte>>, i: nat): Result<seq<R>> {
    if lines == [] then Ok([])
    else if c.blank(lines[0]) then ReadLines(c, lines[1..], i + 1)
    else
      match c.decode(lines[0])
      case None => Corrupt(i + 1)
      case Some(r) => Prepend(r, ReadLines(c, lines[1..], i + 1))
  }

  function Read<R>(c: Codec<R>, f: seq<Byte>): Result<seq<R>> {
    ReadLines(c, Lines(f), 0)
  }

  /** The length of `f` up to and including its last newline. */
  function Complete(f: seq<Byte>): (cut: nat)
    ensures cut <= |f| && (cut == 0 || f[cut - 1] == NEWLINE) && NEWLINE !in f[cut..]
  {
    if f == [] then 0 else if f[|f| - 1] == NEWLINE then |f| else
      var cut := Complete(f[..|f| - 1]);
      assert f[cut..] == f[..|f| - 1][cut..] + [f[|f| - 1]];
      cut
  }

  function Recover<R>(c: Codec<R>, f: seq<Byte>): seq<Byte> {
    var cut := Complete(f);
    if cut == |f| then f else if c.decode(f[cut..]).Some? then f + [NEWLINE] else f[..cut]
  }

  class JsonlLog<R(!new)> {
    const codec: Codec<R>
    var file: seq<Byte>

    /** Opening recovers the tail that a crash may have left. */
    constructor (codec: Codec<R>, file: seq<Byte>)
      ensures this.codec == codec && this.file == Recover(codec, file)
    {
      this.codec := codec;
      this.file := file;
      new;
      RecoverTail();
    }

    method RecoverTail()
      modifies this`file
      ensures file == Recover(codec, old(file))
    {
      if |file| == 0 || file[|file| - 1] == NEWLINE { return; }
      var cut := |file|;
      while cut > 0 && file[cut - 1] != NEWLINE
        invariant 0 <= cut <= |file| && NEWLINE !in file[cut..]
      {
        assert file[cut - 1..] == [file[cut - 1]] + file[cut..];
        cut := cut - 1;
      }
      CompleteUnique(file, cut);
      if codec.decode(file[cut..]).Some? {
        file := file + [NEWLINE];
      } else {
        file := file[..cut];
      }
    }

    method Append(r: R)
      modifies this`file
      ensures file == old(file) + Record(codec, r)
    {
      var text := codec.encode(r);
      file := file + text;
      file := file + [NEWLINE];
      assert file == old(file) + (text + [NEWLINE]);
    }

    method ReadAll() returns (result: Result<seq<R>>)
      ensures result == Read(codec, file)
    {
      var out: seq<R>, rest, i := [], file, 0;
      assert forall q: seq<R> :: out + q == q;
      while rest != []
        invariant Read(codec, file) == After(out, ReadLines(codec, Lines(rest), i))
        decreases |rest|
      {
        var n := IndexOfNewline(rest);
        var line := if n == |rest| then rest else StripReturn(rest[..n]);
        ghost var lines := Lines(rest);
        rest := if n == |rest| then [] else rest[n + 1..];
        assert lines[1..] == Lines(rest) && lines[0] == line;
        if !codec.blank(line) {
          var r := codec.decode(line);
          if r.None? { return Corrupt(i + 1); }
          AfterPrepend(out, r.value, ReadLines(codec, Lines(rest), i + 1));
          out := out + [r.value];
        }
        i := i + 1;
      }
      assert out + [] == out;
      return Ok(out);
    }
  }

  ghost function After<R>(out: seq<R>, rest: Result<seq<R>>): Result<seq<R>> {
    match rest
    case Ok(revs) => Ok(out + revs)
    case Corrupt(line) => Corrupt(line)
  }

  lemma AfterPrepend<R>(out: seq<R>, r: R, rest: Result<seq<R>>)
    ensures After(out, Prepend(r, rest)) == After(out + [r], rest)
  {
    if rest.Ok? { assert out + ([r] + rest.value) == out + [r] + rest.value; }
  }

  lemma CompleteUnique(f: seq<Byte>, cut: nat)
    requires cut <= |f| && (cut == 0 || f[cut - 1] == NEWLINE) && NEWLINE !in f[cut..]
    ensures Complete(f) == cut
  {
    var c := Complete(f);
    forall k | c <= k < |f| ensures f[k] != NEWLINE { assert f[k] == f[c..][k - c]; }
    forall k | cut <= k < |f| ensures f[k] != NEWLINE { assert f[k] == f[cut..][k - cut]; }
  }

  // ------------------------------------------------------------ reading back

  lemma IndexUnique(f: seq<Byte>, n: nat)
    requires n < |f| && f[n] == NEWLINE && NEWLINE !in f[..n]
    ensures IndexOfNewline(f) == n
  {
    var m := IndexOfNewline(f);
    forall k | 0 <= k < n ensures f[k] != NEWLINE { assert f[k] == f[..n][k]; }
    forall k | 0 <= k < m ensures f[k] != NEWLINE { assert f[k] == f[..m][k]; }
  }

  lemma LinesAt(f: seq<Byte>, n: nat)
    requires n < |f| && f[n] == NEWLINE && NEWLINE !in f[..n]
    ensures Lines(f) == [StripReturn(f[..n])] + Lines(f[n + 1..])
  {
    IndexUnique(f, n);
  }

  lemma FirstNewline(f: seq<Byte>)
    requires f != [] && f[|f| - 1] == NEWLINE
    ensures IndexOfNewline(f) < |f|
  {
    var n := IndexOfNewline(f);
    forall k | 0 <= k < n ensures f[k] != NEWLINE { assert f[k] == f[..n][k]; }
  }

  lemma NoLines()
    ensures Lines([]) == []
  {}

  lemma {:induction false} LinesAppend(f: seq<Byte>, line: seq<Byte>)
    requires f == [] || f[|f| - 1] == NEWLINE
    requires NEWLINE !in line && StripReturn(line) == line
    ensures Lines(f + line + [NEWLINE]) == Lines(f) + [line]
    decreases |f|
  {
    hide Lines, StripReturn;
    NoLines();
    var g := f + line + [NEWLINE];
    if f == [] {
      assert g[..|line|] == line && g[|line| + 1..] == [];
      LinesAt(g, |line|);
    } else {
      FirstNewline(f);
      var n := IndexOfNewline(f);
      var rest := f[n + 1..];
      assert g[..n] == f[..n] && g[n + 1..] == rest + line + [NEWLINE];
      LinesAt(f, n);
      LinesAt(g, n);
      assert rest != [] ==> rest[|rest| - 1] == f[|f| - 1];
      LinesAppend(rest, line);
    }
  }

  lemma {:induction false} ReadLinesAppend<R>(c: Codec<R>, lines: seq<seq<Byte>>, line: seq<Byte>, i: nat)
    requires ReadLines(c, lines, i).Ok? && !c.blank(line) && c.decode(line).Some?
    ensures ReadLines(c, lines + [line], i) == Ok(ReadLines(c, lines, i).value + [c.decode(line).value])
    decreases |lines|
  {
    var all := lines + [line];
    if lines == [] {
      var last := c.decode(line).value;
      assert all[0] == line && all[1..] == [];
      assert ReadLines(c, all[1..], i + 1) == Ok([]);
      assert [last] + [] == [last];
      assert ReadLines(c, lines, i).value == [] && [] + [last] == [last];
    } else {
      assert all[1..] == lines[1..] + [line];
      ReadLinesAppend(c, lines[1..], line, i + 1);
      if !c.blank(lines[0]) {
        var r, rest, last := c.decode(lines[0]).value, ReadLines(c, lines[1..], i + 1).value, c.decode(line).value;
        assert [r] + (rest + [last]) == [r] + rest + [last];
      }
    }
  }

  lemma {:induction false} EncodedEnds<R>(c: Codec<R>, revs: seq<R>)
    ensures Encoded(c, revs) == [] || Encoded(c, revs)[|Encoded(c, revs)| - 1] == NEWLINE
  {}

  lemma SoundAt<R(!new)>(c: Codec<R>, r: R)
    requires Sound(c)
    ensures c.decode(c.encode(r)) == Some(r) && !c.blank(c.encode(r))
    ensures NEWLINE !in c.encode(r) && StripReturn(c.encode(r)) == c.encode(r)
  {}

  /** Reading gives back exactly what was appended. */
  lemma {:induction false} ReadEncoded<R(!new)>(c: Codec<R>, revs: seq<R>)
    requires Sound(c)
    ensures Read(c, Encoded(c, revs)) == Ok(revs)
  {
    hide Sound, Lines, ReadLines, StripReturn;
    if revs != [] {
      var before, r := revs[..|revs| - 1], revs[|revs| - 1];
      ReadEncoded(c, before);
      EncodedEnds(c, before);
      SoundAt(c, r);
      var f, line := Encoded(c, before), c.encode(r);
      assert f + Record(c, r) == f + line + [NEWLINE];
      LinesAppend(f, line);
      ReadLinesAppend(c, Lines(f), line, 0);
      assert revs == before + [r];
    } else {
      NothingRead(c);
    }
  }

  lemma NothingRead<R>(c: Codec<R>)
    ensures Read(c, []) == Ok([])
  {}

  /** Reading succeeds exactly when every line that is not blank decodes, and gives their revisions in order. */
  lemma {:induction false} ReadExact<R>(c: Codec<R>, lines: seq<seq<Byte>>, i: nat)
    ensures ReadLines(c, lines, i).Ok? <==> forall k | 0 <= k < |lines| :: c.blank(lines[k]) || c.decode(lines[k]).Some?
    ensures ReadLines(c, lines, i).Corrupt? ==>
      var k := ReadLines(c, lines, i).line - 1 - i;
      0 <= k < |lines| && !c.blank(lines[k]) && c.decode(lines[k]).None?
  {
    if lines != [] {
      ReadExact(c, lines[1..], i + 1);
      assert forall k | 0 < k < |lines| :: lines[k] == lines[1..][k - 1];
      if ReadLines(c, lines[1..], i + 1).Ok? {
        assert forall k | 0 <= k < |lines[1..]| :: lines[1..][k] == lines[k + 1];
      } else {
        var k := ReadLines(c, lines[1..], i + 1).line - 2 - i;
        assert lines[1..][k] == lines[k + 1];
      }
    }
  }

  // ------------------------------------------------------------ crashes

  /** After a crash at any byte of an append, recovery keeps the revision if its text was complete
    * and otherwise leaves no trace of it.
    */
  lemma CrashRecovers<R(!new)>(c: Codec<R>, revs: seq<R>, r: R, written: nat)
    requires Sound(c) && written <= |Record(c, r)|
    ensures Recover(c, Encoded(c, revs) + Record(c, r)[..written])
         == Encoded(c, if written < |c.encode(r)| then revs else revs + [r])
  {
    var f, text := Encoded(c, revs), c.encode(r);
    EncodedEnds(c, revs);
    assert (revs + [r])[..|revs|] == revs;
    if written <= |text| {
      var tail := text[..written];
      assert Record(c, r)[..written] == tail;
      assert (f + tail)[|f|..] == tail && (f + tail)[..|f|] == f;
      CompleteUnique(f + tail, |f|);
      if written == |text| {
        assert tail == text && f + text + [NEWLINE] == f + Record(c, r);
      }
    } else {
      assert Record(c, r)[..written] == Record(c, r);
      var g := f + Record(c, r);
      assert g[|g|..] == [];
      CompleteUnique(g, |g|);
    }
  }

  /** Recovering a whole log, or twice, changes nothing. */
  lemma RecoverWhole<R(!new)>(c: Codec<R>, revs: seq<R>)
    requires Sound(c)
    ensures Recover(c, Encoded(c, revs)) == Encoded(c, revs)
  {
    EncodedEnds(c, revs);
    var f := Encoded(c, revs);
    assert f[|f|..] == [];
    CompleteUnique(f, |f|);
  }

  lemma RecoverTwice<R>(c: Codec<R>, f: seq<Byte>)
    ensures Recover(c, Recover(c, f)) == Recover(c, f)
  {
    var g := Recover(c, f);
    assert g[|g|..] == [];
    CompleteUnique(g, |g|);
  }

  // ------------------------------------------------------------ runs

  /** An append that returned, or one that a crash stopped after `written` bytes. */
  datatype Attempt<R> = Appended(rev: R) | Crashed(rev: R, written: nat)

  ghost predicate Possible<R>(c: Codec<R>, run: seq<Attempt<R>>) {
    forall i | 0 <= i < |run| && run[i].Crashed? :: run[i].written <= |Record(c, run[i].rev)|
  }

  function FileAfter<R>(c: Codec<R>, run: seq<Attempt<R>>): seq<Byte> {
    if run == [] then []
    else
      var f := FileAfter(c, run[..|run| - 1]);
      match run[|run| - 1]
      case Appended(r) => f + Record(c, r)
      case Crashed(r, written) => Recover(c, f + Record(c, r)[..Least(written, |Record(c, r)|)])
  }

  function Least(a: nat, b: nat): nat { if a <= b then a else b }

  predicate Survives<R>(c: Codec<R>, e: Attempt<R>) {
    e.Appended? || e.written >= |c.encode(e.rev)|
  }

  /** The revisions that were acknowledged or wholly written, in order. */
  function Survivors<R>(c: Codec<R>, run: seq<Attempt<R>>): seq<R> {
    if run == [] then []
    else
      var before, e := Survivors(c, run[..|run| - 1]), run[|run| - 1];
      if Survives(c, e) then before + [e.rev] else before
  }

  function Acknowledged<R>(run: seq<Attempt<R>>): seq<R> {
    if run == [] then []
    else
      var before, e := Acknowledged(run[..|run| - 1]), run[|run| - 1];
      if e.Appended? then before + [e.rev] else before
  }

  /** `a` is `b` with some elements left out. */
  ghost predicate Subsequence<R>(a: seq<R>, b: seq<R>) {
    if a == [] then true
    else if b == [] then false
    else if a[|a| - 1] == b[|b| - 1] && Subsequence(a[..|a| - 1], b[..|b| - 1]) then true
    else Subsequence(a, b[..|b| - 1])
  }

  /** After any run of appends and crashes the log reads back as the survivors: all acknowledged
    * revisions in order, and otherwise only revisions that were in flight in a crash.
    */
  lemma {:induction false} LogSurvives<R(!new)>(c: Codec<R>, run: seq<Attempt<R>>)
    requires Sound(c)
    ensures FileAfter(c, run) == Encoded(c, Survivors(c, run))
    ensures Read(c, FileAfter(c, run)) == Ok(Survivors(c, run))
    ensures Subsequence(Acknowledged(run), Survivors(c, run))
  {
    if run != [] {
      var before, e := run[..|run| - 1], run[|run| - 1];
      LogSurvives(c, before);
      var revs := Survivors(c, before);
      assert (revs + [e.rev])[..|revs|] == revs;
      if e.Crashed? {
        CrashRecovers(c, revs, e.rev, Least(e.written, |Record(c, e.rev)|));
      } else {
        var a := Acknowledged(before);
        assert (a + [e.rev])[..|a|] == a;
      }
    }
    ReadEncoded(c, Survivors(c, run));
  }
}
