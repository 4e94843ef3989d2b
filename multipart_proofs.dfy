/** Properties of the multipart reader of src/utils/multipart-parser.js, stated
    about the step, loop and end functions of module `Multipart`. */
module MultipartProofs {
  import opened Wrappers
  import opened Bytes
  import opened Multipart

  /** The bytes that make `write` return early, written out case by case from
      the parser's point of view: the state the byte meets and the byte. */
  predicate Offending(bd: seq<byte>, m: Machine, c: byte) {
    match m.state
    case ParserUninitialized => true
    case PartEnd => true
    case Start => OpeningOffends(bd, 0, m.lastBoundary, c)
    case StartBoundary => OpeningOffends(bd, m.index, m.lastBoundary, c)
    case HeaderFieldStart => BadNameByte(0, c)
    case HeaderField => BadNameByte(m.index, c)
    case HeaderValueAlmostDone => c != LF
    case HeadersAlmostDone => c != LF
    case _ => false
  }

  /** After the opening `--token`: only CR or `-` may follow it, and then
      only LF (for a part) or a second `-` (when the first was `-`). */
  predicate OpeningOffends(bd: seq<byte>, index: int, last: bool, c: byte) {
    || (index == |bd| - 2 && c != HYPHEN && c != CR)
    || (index == |bd| - 1 && !(last && c == HYPHEN) && !(!last && c == LF))
  }

  /** A header-name byte after `count` earlier ones: neither CR, `-` nor a
      letter, and a colon only once the name is non-empty. */
  predicate BadNameByte(count: int, c: byte) {
    && c != CR && c != HYPHEN
    && (c == COLON ==> count == 0)
    && (c != COLON ==> !IsAsciiLetter(c))
  }

  /** `write` leaves its loop early exactly at an offending byte. */
  lemma StepRejectsIff(bd: seq<byte>, m: Machine, chunk: seq<byte>, i: int)
    requires Consistent(bd, m) && 0 <= i < |chunk|
    ensures Step(bd, m, chunk, i).Reject? <==> Offending(bd, m, chunk[i])
  {
    LowerIsLetterTest(chunk[i]);
  }

  /** In the end state every byte is accepted and ignored: `write` returns
      the chunk length and changes nothing but the end-of-chunk flush. */
  lemma {:induction false} RunInEnd(bd: seq<byte>, m: Machine, chunk: seq<byte>, i: int)
    requires Consistent(bd, m) && m.state == State.End && 0 <= i <= |chunk| + 1
    ensures Run(bd, m, chunk, i) == Finished(FlushAll(bd, m, chunk))
    decreases |chunk| + 1 - i
  {
    if i < |chunk| {
      RunInEnd(bd, m, chunk, i + 1);
    }
  }

  lemma EndIgnoresBytes(bd: seq<byte>, m: Machine, chunk: seq<byte>)
    requires Consistent(bd, m) && m.state == State.End
    ensures Feed(bd, m, chunk) == (|chunk|, FlushAll(bd, m, chunk))
  {
    RunInEnd(bd, m, chunk, 0);
  }

  /** Matching bytes of the opening `--token` advance `index` one by one,
      from `k` at offset `i` to the whole token at offset `e`. */
  lemma {:induction false} OpeningAdvances(bd: seq<byte>, m: Machine, chunk: seq<byte>, i: int, k: int, e: int)
    requires Consistent(bd, m) && m.state == State.StartBoundary && 0 <= k <= |bd| - 2 && m.index == k
    requires 0 <= i && e == i + (|bd| - 2 - k) && e <= |chunk| && chunk[i..e] == bd[k + 2..]
    ensures Run(bd, m, chunk, i) == Run(bd, m.(index := |bd| - 2), chunk, e)
    decreases |bd| - k
  {
    if k < |bd| - 2 {
      assert chunk[i] == bd[k + 2];
      assert Step(bd, m, chunk, i) == Next(m.(index := k + 1), i + 1);
      assert chunk[i + 1..e] == bd[k + 3..];
      OpeningAdvances(bd, m.(index := k + 1), chunk, i + 1, k + 1, e);
    }
  }

  /** The bytes of the opening delimiter as it appears first in a body:
      `--token`, without the leading CR LF. */
  function OpeningBytes(bd: seq<byte>): (r: seq<byte>)
    requires |bd| >= 2
    ensures |r| == |bd| - 2
  {
    bd[2..]
  }

  /** The first `-` of the body leaves the start state. */
  lemma OpeningFirstByte(bd: seq<byte>, m: Machine, chunk: seq<byte>, i: int)
    requires Consistent(bd, m) && Delimited(bd) && m.state == Start
    requires 0 <= i < |chunk| && chunk[i] == HYPHEN
    ensures Run(bd, m, chunk, i) == Run(bd, m.(state := StartBoundary, index := 1), chunk, i + 1)
  {
    RunAdvances(bd, m, chunk, i, m.(state := StartBoundary, index := 1), i + 1);
  }

  /** CR LF after the whole `--token`. */
  lemma OpeningCrLf(bd: seq<byte>, m: Machine, chunk: seq<byte>, i: int)
    requires Consistent(bd, m) && m.state == State.StartBoundary && m.index == |bd| - 2 && !m.lastBoundary
    requires 0 <= i && i + 2 <= |chunk| && chunk[i] == CR && chunk[i + 1] == LF
    ensures Run(bd, m, chunk, i)
            == Run(bd, m.(state := HeaderFieldStart, index := 0, events := m.events + [PartBegin]), chunk, i + 2)
  {
    var m1 := m.(index := |bd| - 1);
    RunAdvances(bd, m, chunk, i, m1, i + 1);
    RunAdvances(bd, m1, chunk, i + 1, m1.(index := 0, events := m1.events + [PartBegin], state := HeaderFieldStart), i + 2);
  }

  /** `--` after the whole `--token`. */
  lemma OpeningDashes(bd: seq<byte>, m: Machine, chunk: seq<byte>, i: int)
    requires Consistent(bd, m) && m.state == State.StartBoundary && m.index == |bd| - 2
    requires 0 <= i && i + 2 <= |chunk| && chunk[i] == HYPHEN && chunk[i + 1] == HYPHEN
    ensures Run(bd, m, chunk, i)
            == Run(bd, m.(state := State.End, index := |bd| - 1, partBoundary := false, lastBoundary := false,
                          events := m.events + [Event.End]), chunk, i + 2)
  {
    var m1 := m.(index := |bd| - 1, lastBoundary := true);
    RunAdvances(bd, m, chunk, i, m1, i + 1);
    RunAdvances(bd, m1, chunk, i + 1, m1.(events := m1.events + [Event.End], state := State.End,
                                           partBoundary := false, lastBoundary := false), i + 2);
  }

  /** The token and CR LF after the first `-`. */
  lemma OpeningRestStartsPart(bd: seq<byte>, m: Machine, chunk: seq<byte>, i: int, j: int, e: int)
    requires Consistent(bd, m) && m.state == State.StartBoundary && m.index == 1 && !m.lastBoundary
    requires 0 <= i && j == i + |bd| - 3 && e == j + 2 && e <= |chunk| && chunk[i..j] == bd[3..]
    requires chunk[j] == CR && chunk[j + 1] == LF
    ensures Run(bd, m, chunk, i)
            == Run(bd, m.(state := HeaderFieldStart, index := 0, events := m.events + [PartBegin]), chunk, e)
  {
    OpeningAdvances(bd, m, chunk, i, 1, j);
    OpeningCrLf(bd, m.(index := |bd| - 2), chunk, j);
  }

  /** The token and `--` after the first `-`. */
  lemma OpeningRestEndsBody(bd: seq<byte>, m: Machine, chunk: seq<byte>, i: int, j: int, e: int)
    requires Consistent(bd, m) && m.state == State.StartBoundary && m.index == 1
    requires 0 <= i && j == i + |bd| - 3 && e == j + 2 && e <= |chunk| && chunk[i..j] == bd[3..]
    requires chunk[j] == HYPHEN && chunk[j + 1] == HYPHEN
    ensures Run(bd, m, chunk, i)
            == Run(bd, m.(state := State.End, index := |bd| - 1, partBoundary := false, lastBoundary := false,
                          events := m.events + [Event.End]), chunk, e)
  {
    OpeningAdvances(bd, m, chunk, i, 1, j);
    OpeningDashes(bd, m.(index := |bd| - 2), chunk, j);
  }

  /** `--token` CR LF at offset `i`, byte by byte. */
  lemma OpeningBytesStartPart(bd: seq<byte>, m: Machine, chunk: seq<byte>, i: int)
    requires Consistent(bd, m) && Delimited(bd) && m.state == Start && !m.lastBoundary
    requires 0 <= i && i + |bd| <= |chunk| && chunk[i] == HYPHEN && chunk[i + 1..i + |bd| - 2] == bd[3..]
    requires chunk[i + |bd| - 2] == CR && chunk[i + |bd| - 1] == LF
    ensures Run(bd, m, chunk, i)
            == Run(bd, m.(state := HeaderFieldStart, index := 0, events := m.events + [PartBegin]), chunk, i + |bd|)
  {
    OpeningFirstByte(bd, m, chunk, i);
    var m1 := m.(state := StartBoundary, index := 1);
    OpeningRestStartsPart(bd, m1, chunk, i + 1, i + |bd| - 2, i + |bd|);
    assert m1.(state := HeaderFieldStart, index := 0, events := m1.events + [PartBegin])
           == m.(state := HeaderFieldStart, index := 0, events := m.events + [PartBegin]);
  }

  /** `--token--` at offset `i`, byte by byte. */
  lemma OpeningBytesEndBody(bd: seq<byte>, m: Machine, chunk: seq<byte>, i: int)
    requires Consistent(bd, m) && Delimited(bd) && m.state == Start
    requires 0 <= i && i + |bd| <= |chunk| && chunk[i] == HYPHEN && chunk[i + 1..i + |bd| - 2] == bd[3..]
    requires chunk[i + |bd| - 2] == HYPHEN && chunk[i + |bd| - 1] == HYPHEN
    ensures Run(bd, m, chunk, i)
            == Run(bd, m.(state := State.End, index := |bd| - 1, partBoundary := false, lastBoundary := false,
                          events := m.events + [Event.End]), chunk, i + |bd|)
  {
    OpeningFirstByte(bd, m, chunk, i);
    var m1 := m.(state := StartBoundary, index := 1);
    OpeningRestEndsBody(bd, m1, chunk, i + 1, i + |bd| - 2, i + |bd|);
    assert m1.(state := State.End, index := |bd| - 1, partBoundary := false, lastBoundary := false,
               events := m1.events + [Event.End])
           == m.(state := State.End, index := |bd| - 1, partBoundary := false, lastBoundary := false,
                 events := m.events + [Event.End]);
  }

  /** `--token` CR LF at the start of the body raises `partBegin` and leaves
      the parser at the start of a header line with `index` 0. */
  lemma OpeningStartsPart(bd: seq<byte>, m: Machine, chunk: seq<byte>, i: int)
    requires Consistent(bd, m) && Delimited(bd) && m.state == Start && !m.lastBoundary
    requires 0 <= i && i + |bd| <= |chunk| && chunk[i..i + |bd|] == OpeningBytes(bd) + [CR, LF]
    ensures Run(bd, m, chunk, i)
            == Run(bd, m.(state := HeaderFieldStart, index := 0, events := m.events + [PartBegin]), chunk, i + |bd|)
  {
    OpeningPrefix(bd, chunk, i, [CR, LF]);
    OpeningBytesStartPart(bd, m, chunk, i);
  }

  /** `--token--` at the start of the body raises only `end`, moves to the end
      state and clears both flags. */
  lemma OpeningEndsBody(bd: seq<byte>, m: Machine, chunk: seq<byte>, i: int)
    requires Consistent(bd, m) && Delimited(bd) && m.state == Start
    requires 0 <= i && i + |bd| <= |chunk| && chunk[i..i + |bd|] == OpeningBytes(bd) + [HYPHEN, HYPHEN]
    ensures Run(bd, m, chunk, i)
            == Run(bd, m.(state := State.End, index := |bd| - 1, partBoundary := false, lastBoundary := false,
                          events := m.events + [Event.End]), chunk, i + |bd|)
  {
    OpeningPrefix(bd, chunk, i, [HYPHEN, HYPHEN]);
    OpeningBytesEndBody(bd, m, chunk, i);
  }

  /** Slicing the opening delimiter and its two closing bytes apart. */
  lemma OpeningPrefix(bd: seq<byte>, chunk: seq<byte>, i: int, tail: seq<byte>)
    requires Delimited(bd) && |tail| == 2
    requires 0 <= i && i + |bd| <= |chunk| && chunk[i..i + |bd|] == OpeningBytes(bd) + tail
    ensures chunk[i] == HYPHEN
    ensures chunk[i + 1..i + |bd| - 2] == bd[3..]
    ensures chunk[i + |bd| - 2] == tail[0] && chunk[i + |bd| - 1] == tail[1]
  {
    assert chunk[i] == chunk[i..i + |bd|][0] == bd[2];
    forall k | i + 1 <= k < i + |bd| - 2
      ensures chunk[k] == bd[k - i + 2]
    {
      assert chunk[k] == chunk[i..i + |bd|][k - i];
    }
    assert chunk[i + 1..i + |bd| - 2] == bd[3..];
    assert chunk[i + |bd| - 2] == chunk[i..i + |bd|][|bd| - 2];
    assert chunk[i + |bd| - 1] == chunk[i..i + |bd|][|bd| - 1];
  }

  /** A byte that breaks the opening `--token` is no error: matching starts
      again from the front of CR LF `--token`, already one byte in when the
      breaking byte is CR. */
  lemma OpeningMismatchRestarts(bd: seq<byte>, m: Machine, chunk: seq<byte>, i: int)
    requires Consistent(bd, m) && Delimited(bd) && m.state == State.StartBoundary
    requires m.index < |bd| - 2 && 0 <= i < |chunk| && chunk[i] != bd[m.index + 2]
    ensures Step(bd, m, chunk, i) == Next(m.(index := if chunk[i] == CR then -1 else -2), i + 1)
  {
    assert bd[0] == CR;
  }

  /** The byte after a whole delimiter, when it is a CR or `-`: it is kept
      in the lookbehind and raises the matching flag. */
  lemma AfterDelimiter(bd: seq<byte>, m: Machine, chunk: seq<byte>, i: int)
    requires Consistent(bd, m) && m.state == State.PartData && m.index == |bd|
    requires 0 <= i < |chunk| && (chunk[i] == CR || chunk[i] == HYPHEN)
    ensures Step(bd, m, chunk, i)
            == Next(m.(index := |bd| + 1, partBoundary := chunk[i] == CR || m.partBoundary,
                       lastBoundary := chunk[i] == HYPHEN || m.lastBoundary,
                       lookbehind := m.lookbehind[|bd| := chunk[i]]), i + 1)
  {
  }

  /** LF after the CR that follows a delimiter: `partEnd`, `partBegin`, and
      the headers of the next part. */
  lemma LfAfterDelimiterCr(bd: seq<byte>, m: Machine, chunk: seq<byte>, i: int)
    requires Consistent(bd, m) && m.state == State.PartData && m.index == |bd| + 1 && m.partBoundary
    requires 0 <= i < |chunk| && chunk[i] == LF
    ensures Step(bd, m, chunk, i)
            == Next(m.(index := 0, partBoundary := false, events := m.events + [Event.PartEnd, PartBegin],
                       state := HeaderFieldStart), i + 1)
  {
  }

  /** The second `-` after a delimiter, with no part-boundary flag raised:
      `partEnd`, `end`, the end state and both flags cleared. */
  lemma HyphenAfterDelimiterHyphen(bd: seq<byte>, m: Machine, chunk: seq<byte>, i: int)
    requires Consistent(bd, m) && m.state == State.PartData && m.index == |bd| + 1
    requires m.lastBoundary && !m.partBoundary
    requires 0 <= i < |chunk| && chunk[i] == HYPHEN
    ensures Step(bd, m, chunk, i)
            == Next(m.(events := m.events + [Event.PartEnd, Event.End], state := State.End,
                       partBoundary := false, lastBoundary := false, lookbehind := m.lookbehind[|bd| := HYPHEN]), i + 1)
  {
  }

  /** CR LF after a whole delimiter in part data: `partEnd`, `partBegin`,
      and the headers of the next part with `index` 0. */
  lemma ClosingStartsPart(bd: seq<byte>, m: Machine, chunk: seq<byte>, i: int)
    requires Consistent(bd, m) && m.state == State.PartData && m.index == |bd|
    requires 0 <= i && i + 2 <= |chunk| && chunk[i] == CR && chunk[i + 1] == LF
    ensures Run(bd, m, chunk, i)
            == Run(bd, m.(state := HeaderFieldStart, index := 0, partBoundary := false,
                          lookbehind := m.lookbehind[|bd| := CR],
                          events := m.events + [Event.PartEnd, PartBegin]), chunk, i + 2)
  {
    var m1 := m.(index := |bd| + 1, partBoundary := true, lookbehind := m.lookbehind[|bd| := CR]);
    var m2 := m.(state := HeaderFieldStart, index := 0, partBoundary := false,
                 lookbehind := m.lookbehind[|bd| := CR], events := m.events + [Event.PartEnd, PartBegin]);
    AfterDelimiter(bd, m, chunk, i);
    LfAfterDelimiterCr(bd, m1, chunk, i + 1);
    assert m1.(index := 0, partBoundary := false, events := m1.events + [Event.PartEnd, PartBegin],
               state := HeaderFieldStart) == m2;
    RunAdvances(bd, m, chunk, i, m1, i + 1);
    RunAdvances(bd, m1, chunk, i + 1, m2, i + 2);
  }

  /** `--` after a whole delimiter in part data: `partEnd`, `end`, the end
      state and both flags cleared, provided no earlier CR left the
      part-boundary flag set. */
  lemma ClosingEndsBody(bd: seq<byte>, m: Machine, chunk: seq<byte>, i: int)
    requires Consistent(bd, m) && m.state == State.PartData && m.index == |bd| && !m.partBoundary
    requires 0 <= i && i + 2 <= |chunk| && chunk[i] == HYPHEN && chunk[i + 1] == HYPHEN
    ensures Run(bd, m, chunk, i)
            == Run(bd, m.(state := State.End, index := |bd| + 1, partBoundary := false, lastBoundary := false,
                          lookbehind := m.lookbehind[|bd| := HYPHEN],
                          events := m.events + [Event.PartEnd, Event.End]), chunk, i + 2)
  {
    var m1 := m.(index := |bd| + 1, lastBoundary := true, lookbehind := m.lookbehind[|bd| := HYPHEN]);
    var m2 := m.(state := State.End, index := |bd| + 1, partBoundary := false, lastBoundary := false,
                 lookbehind := m.lookbehind[|bd| := HYPHEN], events := m.events + [Event.PartEnd, Event.End]);
    AfterDelimiter(bd, m, chunk, i);
    HyphenAfterDelimiterHyphen(bd, m1, chunk, i + 1);
    assert m1.(events := m1.events + [Event.PartEnd, Event.End], state := State.End,
               partBoundary := false, lastBoundary := false, lookbehind := m1.lookbehind[|bd| := HYPHEN]) == m2;
    RunAdvances(bd, m, chunk, i, m1, i + 1);
    RunAdvances(bd, m1, chunk, i + 1, m2, i + 2);
  }

  /** Any other byte after a whole delimiter: the delimiter was data after
      all.  Its bytes are delivered from the lookbehind as one `partData`,
      the data mark restarts at this byte and the byte is read again. */
  lemma ClosingMismatchRedelivers(bd: seq<byte>, m: Machine, chunk: seq<byte>, i: int)
    requires Consistent(bd, m) && m.state == State.PartData && m.index == |bd|
    requires 0 <= i < |chunk| && chunk[i] != CR && chunk[i] != HYPHEN
    ensures Step(bd, m, chunk, i)
            == Next(m.(index := 0, partDataMark := Some(i),
                       events := m.events + [Event.PartData(m.lookbehind[..|bd|])]), i)
  {
  }

  /** A byte that breaks a partial match of `p` delimiter bytes: exactly the
      `p` bytes held in the lookbehind are delivered as one `partData`, the
      data mark restarts at this byte and the byte is read again. */
  lemma PartialMatchRedelivers(bd: seq<byte>, m: Machine, chunk: seq<byte>, i: int)
    requires Consistent(bd, m) && m.state == State.PartData && 0 < m.index < |bd|
    requires 0 <= i < |chunk| && chunk[i] != bd[m.index]
    ensures Step(bd, m, chunk, i)
            == Next(m.(index := 0, partDataMark := Some(i),
                       events := m.events + [Event.PartData(m.lookbehind[..m.index])]), i)
  {
  }

  /** The part-boundary flag is not cleared when the CR after a delimiter is
      not followed by LF.  A later `--token--` then closes nothing: its
      second `-` is read as a failed part boundary, the delimiter and the
      first `-` are delivered as part data, and the parser stays in part
      data. */
  lemma StaleFlagMissesEnd(bd: seq<byte>, m: Machine, chunk: seq<byte>, i: int)
    requires Consistent(bd, m) && m.state == State.PartData && m.index == |bd| && m.partBoundary
    requires 0 <= i && i + 2 <= |chunk| && chunk[i] == HYPHEN && chunk[i + 1] == HYPHEN
    ensures var lb := m.lookbehind[|bd| := HYPHEN];
            Run(bd, m, chunk, i)
            == Run(bd, m.(index := 0, lastBoundary := true, lookbehind := lb, partDataMark := Some(i + 1),
                          events := m.events + [Event.PartData(lb[..|bd| + 1])]), chunk, i + 1)
  {
    var m1 := m.(index := |bd| + 1, lastBoundary := true, lookbehind := m.lookbehind[|bd| := HYPHEN]);
    RunAdvances(bd, m, chunk, i, m1, i + 1);
    FailedPartBoundary(bd, m1, chunk, i + 1);
    var m2 := m1.(index := 0, partDataMark := Some(i + 1),
                  events := m1.events + [Event.PartData(m1.lookbehind[..|bd| + 1])]);
    RunAdvances(bd, m1, chunk, i + 1, m2, i + 1);
  }

  /** A byte other than LF after delimiter and CR (or with the flag left
      over): the delimiter and the byte after it go back to part data, and
      this byte is read again. */
  lemma FailedPartBoundary(bd: seq<byte>, m: Machine, chunk: seq<byte>, i: int)
    requires Consistent(bd, m) && m.state == State.PartData && m.index == |bd| + 1 && m.partBoundary
    requires 0 <= i < |chunk| && chunk[i] != LF
    ensures Step(bd, m, chunk, i)
            == Next(m.(index := 0, partDataMark := Some(i),
                       events := m.events + [Event.PartData(m.lookbehind[..|bd| + 1])]), i)
  {
  }

  /** `end()` right after a whole delimiter raises the same events as the
      `--` that would have closed the body. */
  lemma CloseMatchesTrailingDashes(bd: seq<byte>, m: Machine)
    requires Consistent(bd, m) && m.state == State.PartData && m.index == |bd| && !m.partBoundary
    requires m.headerFieldMark.None? && m.headerValueMark.None? && m.partDataMark.None?
    ensures Close(bd, m).0.None?
    ensures Close(bd, m).1.events == Feed(bd, m, [HYPHEN, HYPHEN]).1.events == m.events + [Event.PartEnd, Event.End]
  {
    ClosingEndsBody(bd, m, [HYPHEN, HYPHEN], 0);
  }

  /** The delimiter bytes matched so far are held in the lookbehind. */
  ghost predicate Agrees(bd: seq<byte>, m: Machine) {
    |m.lookbehind| >= |bd|
    && forall k :: 0 <= k < |bd| && k < m.index ==> m.lookbehind[k] == bd[k]
  }

  /** The invariant of the part-data scan: `index` is 0 when the data
      begins, never passes the delimiter length plus one, and the bytes of a
      partial match sit in the lookbehind. */
  ghost predicate Synced(bd: seq<byte>, m: Machine) {
    && Consistent(bd, m)
    && (m.state == HeadersAlmostDone || m.state == PartDataStart ==> m.index == 0)
    && (m.state == State.PartData ==> m.index <= |bd| + 1 && Agrees(bd, m))
  }

  /** A CR inside a non-empty header name: the source ends the header block
      without resetting `index`, which then holds the name length. */
  predicate Derails(m: Machine, c: byte) {
    m.state == State.HeaderField && m.index > 0 && c == CR
  }

  /** Positions below the delimiter length only ever receive the delimiter's
      own byte. */
  ghost predicate LookbehindFaithful(bd: seq<byte>, before: seq<byte>, after: seq<byte>) {
    |before| >= |bd| && |after| >= |bd|
    && forall k :: 0 <= k < |bd| ==> after[k] == before[k] || after[k] == bd[k]
  }

  /** What the delimiter comparison does to `index` and the lookbehind: it
      leaves the lookbehind alone, and when the scan stays in part data with
      a match in progress, it has advanced `index` by one over a byte equal
      to the delimiter's, or past its end. */
  lemma MatchShape(bd: seq<byte>, m: Machine, chunk: seq<byte>, j: int, c: Option<byte>)
    requires Consistent(bd, m) && m.state == State.PartData && j >= 0 && m.index <= |bd| + 1
    ensures var (m1, done) := MatchByte(bd, m, chunk, j, c);
            && m1.lookbehind == m.lookbehind
            && (m1.state == State.PartData || m1.state == HeaderFieldStart || m1.state == State.End)
            && (m1.state == State.PartData && m1.index > 0 ==> m1.index == m.index + 1)
            && (m1.state == State.PartData && 0 < m1.index <= |bd| ==> c == Some(bd[m.index]))
            && (done ==> m1.state == HeaderFieldStart && m1.index == 0)
  {
  }

  /** The part-data step keeps the invariant. */
  lemma PartDataKeepsSync(bd: seq<byte>, m: Machine, chunk: seq<byte>, i: int)
    requires Synced(bd, m) && m.state == State.PartData && 0 <= i < |chunk|
    ensures Synced(bd, PartDataByte(bd, m, chunk, i).m)
  {
    var j := if m.index == 0 then SkipAhead(bd, chunk, i) else i;
    var c := if j < |chunk| then Some(chunk[j]) else None;
    var (m1, done) := MatchByte(bd, m, chunk, j, c);
    MatchShape(bd, m, chunk, j, c);
    var r := PartDataByte(bd, m, chunk, i).m;
    if !done && m1.index > 0 {
      var lb := if m1.index - 1 < |m1.lookbehind| then m1.lookbehind[m1.index - 1 := StoredByte(c)]
                else m1.lookbehind;
      assert r == m1.(lookbehind := lb);
    }
  }

  /** The part-data step writes into the lookbehind only delimiter bytes at
      their own positions. */
  lemma PartDataFaithful(bd: seq<byte>, m: Machine, chunk: seq<byte>, i: int)
    requires Synced(bd, m) && m.state == State.PartData && 0 <= i < |chunk|
    ensures LookbehindFaithful(bd, m.lookbehind, PartDataByte(bd, m, chunk, i).m.lookbehind)
  {
    var j := if m.index == 0 then SkipAhead(bd, chunk, i) else i;
    var c := if j < |chunk| then Some(chunk[j]) else None;
    var (m1, done) := MatchByte(bd, m, chunk, j, c);
    MatchShape(bd, m, chunk, j, c);
    var r := PartDataByte(bd, m, chunk, i).m;
    if !done && m1.index > 0 {
      var lb := if m1.index - 1 < |m1.lookbehind| then m1.lookbehind[m1.index - 1 := StoredByte(c)]
                else m1.lookbehind;
      assert r.lookbehind == lb;
    } else {
      assert r.lookbehind == m.lookbehind;
    }
  }

  /** One step keeps the invariant unless it meets the header-name CR. */
  lemma StepKeepsSync(bd: seq<byte>, m: Machine, chunk: seq<byte>, i: int)
    requires Synced(bd, m) && 0 <= i < |chunk| && !Derails(m, chunk[i])
    ensures Synced(bd, Step(bd, m, chunk, i).m)
    ensures LookbehindFaithful(bd, m.lookbehind, Step(bd, m, chunk, i).m.lookbehind)
  {
    match m.state
    case PartDataStart =>
      PartDataKeepsSync(bd, m.(state := State.PartData, partDataMark := Some(i)), chunk, i);
      PartDataFaithful(bd, m.(state := State.PartData, partDataMark := Some(i)), chunk, i);
    case PartData =>
      PartDataKeepsSync(bd, m, chunk, i);
      PartDataFaithful(bd, m, chunk, i);
    case StartBoundary =>
      OpeningKeepsSync(bd, m, chunk, i);
    case Start =>
      OpeningKeepsSync(bd, m, chunk, i);
    case HeaderFieldStart =>
      FieldKeepsSync(bd, m.(state := State.HeaderField, headerFieldMark := Some(i), index := 0), chunk, i);
    case HeaderField =>
      FieldKeepsSync(bd, m, chunk, i);
    case HeaderValueStart =>
      ValueKeepsSync(bd, m, chunk, i);
    case HeaderValue =>
      ValueKeepsSync(bd, m, chunk, i);
    case _ =>
  }

  /** The opening-delimiter steps keep the invariant and leave the
      lookbehind alone. */
  lemma OpeningKeepsSync(bd: seq<byte>, m: Machine, chunk: seq<byte>, i: int)
    requires Synced(bd, m) && 0 <= i < |chunk| && (m.state == Start || m.state == State.StartBoundary)
    ensures Synced(bd, Step(bd, m, chunk, i).m)
    ensures Step(bd, m, chunk, i).m.lookbehind == m.lookbehind
  {
  }

  /** A header-name byte keeps the invariant, barring the CR that ends a
      non-empty name, and leaves the lookbehind alone. */
  lemma FieldKeepsSync(bd: seq<byte>, m: Machine, chunk: seq<byte>, i: int)
    requires Synced(bd, m) && 0 <= i < |chunk| && m.state == State.HeaderField && !Derails(m, chunk[i])
    ensures Synced(bd, HeaderFieldByte(bd, m, chunk, i).m)
    ensures HeaderFieldByte(bd, m, chunk, i).m.lookbehind == m.lookbehind
  {
    var m1 := m.(index := m.index + 1);
    var r := HeaderFieldByte(bd, m, chunk, i);
    if chunk[i] == CR {
      assert r.m == m.(headerFieldMark := None, state := HeadersAlmostDone);
    } else if chunk[i] == COLON && m1.index != 1 {
      assert r.m == Settle(m1, FieldMark, chunk, i).(state := HeaderValueStart);
    } else {
      assert r.m == m1;
    }
  }

  /** A header-value byte keeps the invariant and leaves the lookbehind
      alone. */
  lemma ValueKeepsSync(bd: seq<byte>, m: Machine, chunk: seq<byte>, i: int)
    requires Synced(bd, m) && 0 <= i < |chunk| && (m.state == HeaderValueStart || m.state == State.HeaderValue)
    ensures Synced(bd, Step(bd, m, chunk, i).m)
    ensures Step(bd, m, chunk, i).m.lookbehind == m.lookbehind
  {
  }

  /** The loop from offset `i` never meets a header-name CR. */
  ghost predicate Clean(bd: seq<byte>, m: Machine, chunk: seq<byte>, i: int)
    requires Consistent(bd, m) && 0 <= i <= |chunk| + 1
    decreases |chunk| + 1 - i, if m.index > 0 then 1 else 0
  {
    i >= |chunk|
    || (&& !Derails(m, chunk[i])
        && match Step(bd, m, chunk, i)
           case Reject(_) => true
           case Next(m', i') => Clean(bd, m', chunk, i'))
  }

  /** The loop keeps the invariant up to an early return or the chunk end. */
  lemma {:induction false} RunKeepsSync(bd: seq<byte>, m: Machine, chunk: seq<byte>, i: int)
    requires Synced(bd, m) && 0 <= i <= |chunk| + 1 && Clean(bd, m, chunk, i)
    ensures Run(bd, m, chunk, i).Finished? ==> Synced(bd, Run(bd, m, chunk, i).m)
    ensures LookbehindFaithful(bd, m.lookbehind, Run(bd, m, chunk, i).m.lookbehind)
    decreases |chunk| + 1 - i, if m.index > 0 then 1 else 0
  {
    if i < |chunk| {
      StepKeepsSync(bd, m, chunk, i);
      match Step(bd, m, chunk, i)
      case Reject(_) =>
      case Next(m', i') =>
        RunKeepsSync(bd, m', chunk, i');
    }
  }

  /** `write` keeps the invariant whenever its chunk holds no header-name CR
      where the parser would read it, also when it returns early: the
      registers it restores belong to the machine it started from, whose
      matched bytes are still in the lookbehind. */
  lemma FeedKeepsSync(bd: seq<byte>, m: Machine, chunk: seq<byte>)
    requires Synced(bd, m) && Clean(bd, m, chunk, 0)
    ensures Synced(bd, Feed(bd, m, chunk).1)
  {
    RunKeepsSync(bd, m, chunk, 0);
  }

  /** The header-name CR breaks the invariant for good: the parser enters the
      part data with `index` still holding the length of the name. */
  lemma HeaderCrDerails(bd: seq<byte>, m: Machine, chunk: seq<byte>, i: int)
    requires Consistent(bd, m) && 0 <= i && i + 2 <= |chunk| && Derails(m, chunk[i]) && chunk[i + 1] == LF
    ensures var m2 := Step(bd, Step(bd, m, chunk, i).m, chunk, i + 1).m;
            m2.state == PartDataStart && m2.index == m.index && !Synced(bd, m2)
  {
  }

  /** Past the delimiter length plus one, `index` never moves again in part
      data: no delimiter is recognised, and each byte is written to the
      lookbehind position `index - 1` (a no-op beyond the buffer). */
  lemma StuckIndex(bd: seq<byte>, m: Machine, chunk: seq<byte>, i: int)
    requires Consistent(bd, m) && m.state == State.PartData && m.index > |bd| + 1 && 0 <= i < |chunk|
    ensures var r := Step(bd, m, chunk, i);
            r == Next(m.(lookbehind := if m.index - 1 < |m.lookbehind| then m.lookbehind[m.index - 1 := chunk[i]]
                                     else m.lookbehind), i + 1)
  {
  }

  /** A span event with at least one byte; other events trivially. */
  predicate NonEmptySpan(e: Event) {
    match e
    case HeaderField(f) => |f| > 0
    case HeaderValue(v) => |v| > 0
    case PartData(d) => |d| > 0
    case _ => true
  }

  predicate Filled(evs: seq<Event>) {
    forall k :: 0 <= k < |evs| ==> NonEmptySpan(evs[k])
  }

  /** Every open mark lies at or before offset `b`. */
  predicate MarksBehind(m: Machine, b: int) {
    && (m.headerFieldMark.Some? ==> m.headerFieldMark.value <= b)
    && (m.headerValueMark.Some? ==> m.headerValueMark.value <= b)
    && (m.partDataMark.Some? ==> m.partDataMark.value <= b)
  }

  lemma FilledAppend(evs: seq<Event>, extra: seq<Event>)
    requires Filled(evs) && Filled(extra)
    ensures Filled(evs + extra)
  {
    forall k | 0 <= k < |evs + extra|
      ensures NonEmptySpan((evs + extra)[k])
    {
      if k < |evs| {
        assert (evs + extra)[k] == evs[k];
      } else {
        assert (evs + extra)[k] == extra[k - |evs|];
      }
    }
  }

  /** Delivering an open span up to an offset not before its mark adds no
      empty span. */
  lemma SettleFills(bd: seq<byte>, m: Machine, k: MarkKind, chunk: seq<byte>, i: int)
    requires Consistent(bd, m) && 0 <= i <= |chunk| && MarksBehind(m, i) && Filled(m.events)
    ensures Filled(Settle(m, k, chunk, i).events)
    ensures MarksBehind(Settle(m, k, chunk, i), i)
  {
    if GetMark(m, k).Some? && GetMark(m, k).value != i {
      FilledAppend(m.events, [SpanEvent(k, chunk[GetMark(m, k).value..i])]);
    }
  }

  /** The delimiter comparison delivers no empty span. */
  lemma MatchFills(bd: seq<byte>, m: Machine, chunk: seq<byte>, j: int, c: Option<byte>)
    requires Consistent(bd, m) && m.state == State.PartData && 0 <= j <= |chunk|
    requires MarksBehind(m, j) && Filled(m.events)
    ensures Filled(MatchByte(bd, m, chunk, j, c).0.events)
    ensures MarksBehind(MatchByte(bd, m, chunk, j, c).0, j)
  {
    if m.index < |bd| && c == Some(bd[m.index]) && m.index == 0 {
      SettleFills(bd, m, DataMark, chunk, j);
    } else if m.index - 1 == |bd| && m.partBoundary && c == Some(LF) {
      FilledAppend(m.events, [Event.PartEnd, PartBegin]);
    } else if m.index - 1 == |bd| && !m.partBoundary && m.lastBoundary && c == Some(HYPHEN) {
      FilledAppend(m.events, [Event.PartEnd, Event.End]);
    }
  }

  /** The part-data step delivers no empty span and keeps the marks behind
      the loop offset. */
  lemma PartDataFills(bd: seq<byte>, m: Machine, chunk: seq<byte>, i: int)
    requires Consistent(bd, m) && m.state == State.PartData && 0 <= i < |chunk|
    requires MarksBehind(m, i) && Filled(m.events)
    ensures var r := PartDataByte(bd, m, chunk, i);
            Filled(r.m.events) && MarksBehind(r.m, Min(r.i, |chunk|))
  {
    var j := if m.index == 0 then SkipAhead(bd, chunk, i) else i;
    var c := if j < |chunk| then Some(chunk[j]) else None;
    MatchFills(bd, m, chunk, j, c);
    var (m1, done) := MatchByte(bd, m, chunk, j, c);
    if !done && m1.index == 0 && m.index > 0 {
      FilledAppend(m1.events, [Event.PartData(Subarray(m1.lookbehind, 0, m.index))]);
    }
  }

  lemma StartFills(bd: seq<byte>, m: Machine, c: byte, i: int)
    requires Consistent(bd, m) && m.state == State.StartBoundary && i >= 0 && MarksBehind(m, i) && Filled(m.events)
    ensures Filled(StartBoundaryByte(bd, m, c, i).m.events) && MarksBehind(StartBoundaryByte(bd, m, c, i).m, i)
  {
    FilledAppend(m.events, [Event.End]);
    FilledAppend(m.events, [PartBegin]);
  }

  lemma FieldFills(bd: seq<byte>, m: Machine, chunk: seq<byte>, i: int)
    requires Consistent(bd, m) && m.state == State.HeaderField && 0 <= i < |chunk|
    requires MarksBehind(m, i) && Filled(m.events)
    ensures Filled(HeaderFieldByte(bd, m, chunk, i).m.events) && MarksBehind(HeaderFieldByte(bd, m, chunk, i).m, i)
  {
    var m1 := m.(index := m.index + 1);
    var r := HeaderFieldByte(bd, m, chunk, i);
    if chunk[i] == CR {
      assert r.m == m.(headerFieldMark := None, state := HeadersAlmostDone);
    } else if chunk[i] == COLON && m1.index != 1 {
      SettleFills(bd, m1, FieldMark, chunk, i);
      assert r.m == Settle(m1, FieldMark, chunk, i).(state := HeaderValueStart);
    } else {
      assert r.m == m1;
    }
  }

  lemma ValueFills(bd: seq<byte>, m: Machine, chunk: seq<byte>, i: int)
    requires Consistent(bd, m) && m.state == State.HeaderValue && 0 <= i < |chunk|
    requires MarksBehind(m, i) && Filled(m.events)
    ensures Filled(HeaderValueByte(bd, m, chunk, i).m.events) && MarksBehind(HeaderValueByte(bd, m, chunk, i).m, i)
  {
    SettleFills(bd, m, ValueMark, chunk, i);
    FilledAppend(Settle(m, ValueMark, chunk, i).events, [HeaderEnd]);
  }

  /** `StepFills` in the opening-delimiter scan. */
  lemma OpeningStepFills(bd: seq<byte>, m: Machine, chunk: seq<byte>, i: int)
    requires Consistent(bd, m) && 0 <= i < |chunk| && MarksBehind(m, i) && Filled(m.events)
    requires m.state == Start || m.state == State.StartBoundary
    ensures var r := Step(bd, m, chunk, i);
            Filled(r.m.events) && (r.Next? ==> MarksBehind(r.m, Min(r.i, |chunk|)))
  {
    if m.state == Start {
      StartFills(bd, m.(index := 0, state := StartBoundary), chunk[i], i);
    } else {
      StartFills(bd, m, chunk[i], i);
    }
  }

  /** `StepFills` in a header name. */
  lemma FieldStepFills(bd: seq<byte>, m: Machine, chunk: seq<byte>, i: int)
    requires Consistent(bd, m) && 0 <= i < |chunk| && MarksBehind(m, i) && Filled(m.events)
    requires m.state == HeaderFieldStart || m.state == State.HeaderField
    ensures var r := Step(bd, m, chunk, i);
            Filled(r.m.events) && (r.Next? ==> MarksBehind(r.m, Min(r.i, |chunk|)))
  {
    if m.state == HeaderFieldStart {
      FieldFills(bd, m.(state := State.HeaderField, headerFieldMark := Some(i), index := 0), chunk, i);
    } else {
      FieldFills(bd, m, chunk, i);
    }
  }

  /** `StepFills` in a header value. */
  lemma ValueStepFills(bd: seq<byte>, m: Machine, chunk: seq<byte>, i: int)
    requires Consistent(bd, m) && 0 <= i < |chunk| && MarksBehind(m, i) && Filled(m.events)
    requires m.state == HeaderValueStart || m.state == State.HeaderValue
    ensures var r := Step(bd, m, chunk, i);
            Filled(r.m.events) && (r.Next? ==> MarksBehind(r.m, Min(r.i, |chunk|)))
  {
    if m.state == State.HeaderValue {
      ValueFills(bd, m, chunk, i);
    } else if chunk[i] != SPACE {
      ValueFills(bd, m.(headerValueMark := Some(i), state := State.HeaderValue), chunk, i);
    }
  }

  /** One step of the loop delivers no empty span, as long as every open
      mark lies at or before the byte it reads. */
  lemma StepFills(bd: seq<byte>, m: Machine, chunk: seq<byte>, i: int)
    requires Consistent(bd, m) && 0 <= i < |chunk| && MarksBehind(m, i) && Filled(m.events)
    ensures var r := Step(bd, m, chunk, i);
            Filled(r.m.events) && (r.Next? ==> MarksBehind(r.m, Min(r.i, |chunk|)))
  {
    if m.state == PartDataStart {
      PartDataFills(bd, m.(state := State.PartData, partDataMark := Some(i)), chunk, i);
    } else if m.state == State.PartData {
      PartDataFills(bd, m, chunk, i);
    } else if m.state == Start || m.state == State.StartBoundary {
      OpeningStepFills(bd, m, chunk, i);
    } else if m.state == HeaderFieldStart || m.state == State.HeaderField {
      FieldStepFills(bd, m, chunk, i);
    } else if m.state == HeaderValueStart || m.state == State.HeaderValue {
      ValueStepFills(bd, m, chunk, i);
    } else if m.state == HeadersAlmostDone {
      FilledAppend(m.events, [HeadersEnd]);
    }
  }

  lemma FlushOneFills(bd: seq<byte>, m: Machine, k: MarkKind, chunk: seq<byte>)
    requires Consistent(bd, m) && MarksBehind(m, |chunk|) && Filled(m.events)
    ensures var r := Flush(m, k, chunk);
            Consistent(bd, r) && Filled(r.events) && MarksBehind(r, |chunk|) && (GetMark(r, k).Some? ==> GetMark(r, k).value == 0)
  {
    var r := Flush(m, k, chunk);
    match GetMark(m, k)
    case None =>
      assert r == m;
    case Some(start) =>
      if start != |chunk| {
        FilledAppend(m.events, [SpanEvent(k, Subarray(chunk, start, |chunk|))]);
        assert r.events == m.events + [SpanEvent(k, Subarray(chunk, start, |chunk|))];
      } else {
        assert r.events == m.events;
      }
  }

  /** The end-of-chunk flush delivers no empty span when every open mark lies
      within the chunk, and it leaves every mark at offset 0. */
  lemma FlushFills(bd: seq<byte>, m: Machine, chunk: seq<byte>)
    requires Consistent(bd, m) && MarksBehind(m, |chunk|) && Filled(m.events)
    ensures Filled(FlushAll(bd, m, chunk).events) && MarksBehind(FlushAll(bd, m, chunk), 0)
  {
    FlushOneFills(bd, m, FieldMark, chunk);
    var m1 := Flush(m, FieldMark, chunk);
    FlushOneFills(bd, m1, ValueMark, chunk);
    var m2 := Flush(m1, ValueMark, chunk);
    FlushOneFills(bd, m2, DataMark, chunk);
  }

  /** The loop delivers no empty span. */
  lemma {:induction false} RunFills(bd: seq<byte>, m: Machine, chunk: seq<byte>, i: int)
    requires Consistent(bd, m) && 0 <= i <= |chunk| + 1 && MarksBehind(m, Min(i, |chunk|)) && Filled(m.events)
    ensures Filled(Run(bd, m, chunk, i).m.events)
    ensures Run(bd, m, chunk, i).Finished? ==> MarksBehind(Run(bd, m, chunk, i).m, 0)
    decreases |chunk| + 1 - i, if m.index > 0 then 1 else 0
  {
    if i >= |chunk| {
      FlushFills(bd, m, chunk);
    } else {
      StepFills(bd, m, chunk, i);
      match Step(bd, m, chunk, i)
      case Reject(_) =>
      case Next(m', i') =>
        RunFills(bd, m', chunk, i');
    }
  }

  /** A `write` that starts with every open mark at offset 0, as every
      accepted chunk leaves them, delivers no empty span; when it accepts the
      whole chunk it leaves the marks at 0 again for the next one. */
  lemma FeedFills(bd: seq<byte>, m: Machine, chunk: seq<byte>)
    requires Consistent(bd, m) && MarksBehind(m, 0) && Filled(m.events)
    ensures Filled(Feed(bd, m, chunk).1.events)
    ensures Feed(bd, m, chunk).0 == |chunk| ==> MarksBehind(Feed(bd, m, chunk).1, 0)
  {
    RunFills(bd, m, chunk, 0);
  }

  /** A mark left beyond the end of the next chunk, as an early return can
      leave one, is flushed as an empty span: `subarray` clamps both ends. */
  lemma StaleMarkFlushesEmpty(bd: seq<byte>, m: Machine, chunk: seq<byte>)
    requires Consistent(bd, m) && m.headerFieldMark == Some(|chunk| + 1)
    requires m.headerValueMark.None? && m.partDataMark.None?
    ensures FlushAll(bd, m, chunk).events == m.events + [Event.HeaderField([])]
    ensures !Filled(FlushAll(bd, m, chunk).events)
  {
    assert Subarray(chunk, |chunk| + 1, |chunk|) == [];
    var evs := FlushAll(bd, m, chunk).events;
    assert !NonEmptySpan(evs[|evs| - 1]);
  }

  /** A window holding the delimiter holds no byte foreign to it, so the
      skip never passes the start of a delimiter. */
  lemma NoForeignInDelimiter(bd: seq<byte>, chunk: seq<byte>, k: int)
    requires 0 <= k && k + |bd| <= |chunk| && chunk[k..k + |bd|] == bd
    ensures !ForeignIn(chunk, BoundaryChars(bd), k, |bd|)
  {
    forall p | k <= p < k + |bd| && 0 <= p < |chunk|
      ensures chunk[p] in BoundaryChars(bd)
    {
      assert chunk[p] == chunk[k..k + |bd|][p - k];
    }
  }

  /** No delimiter starts before offset `k` of the data: the part-data scan
      at offset `i` with no match in progress reads next either a byte before
      `k`, which is no CR and so starts no match, or the CR at `k`. */
  lemma DataByte(bd: seq<byte>, m: Machine, chunk: seq<byte>, i: int, k: int)
    requires Consistent(bd, m) && Delimited(bd) && m.state == State.PartData && m.index == 0
    requires m.partDataMark.Some? && m.partDataMark.value <= i
    requires 0 <= i <= k && k + |bd| <= |chunk| && chunk[k..k + |bd|] == bd
    requires forall p :: i <= p < k ==> chunk[p] != CR
    ensures var j := SkipAhead(bd, chunk, i);
            && j <= k
            && (j < k ==> Step(bd, m, chunk, i) == Next(m, j + 1))
            && (j == k ==> Step(bd, m, chunk, i)
                           == Next(m.(index := 1, partDataMark := None, lookbehind := m.lookbehind[0 := CR],
                                      events := Callback(m.events, DataMark, chunk, m.partDataMark.value, k)), k + 1))
  {
    NoForeignInDelimiter(bd, chunk, k);
    SkipAheadSound(bd, chunk, i);
    assert bd[0] == CR;
  }

  /** The part-data scan at offset `i` with no match in progress, in
      general: the skip moves to `j`; a CR there settles the data span up to
      `j` and begins a match, holding the CR in the lookbehind; any other
      byte, or the chunk end, leaves the machine as it was and resumes at
      `j + 1`.  (With no match in progress the data mark is open, since the
      data state opens it and a failed match reopens it.) */
  lemma DataStep(bd: seq<byte>, m: Machine, chunk: seq<byte>, i: int)
    requires Consistent(bd, m) && Delimited(bd) && m.state == State.PartData && m.index == 0
    requires m.partDataMark.Some? && 0 <= i < |chunk|
    ensures var j := SkipAhead(bd, chunk, i);
            && (j < |chunk| && chunk[j] == CR ==>
                  Step(bd, m, chunk, i)
                  == Next(m.(index := 1, partDataMark := None, lookbehind := m.lookbehind[0 := CR],
                             events := Callback(m.events, DataMark, chunk, m.partDataMark.value, j)), j + 1))
            && (j == |chunk| || chunk[j] != CR ==> Step(bd, m, chunk, i) == Next(m, j + 1))
  {
    assert bd[0] == CR;
  }

  /** After a delimiter and a `-`, any byte but a second `-`: the delimiter
      and the `-` are delivered from the lookbehind as one `partData`, the
      data mark restarts at this byte and the byte is read again.  The
      last-boundary flag is left set. */
  lemma LastBoundaryMismatch(bd: seq<byte>, m: Machine, chunk: seq<byte>, i: int)
    requires Consistent(bd, m) && m.state == State.PartData && m.index == |bd| + 1
    requires !m.partBoundary && m.lastBoundary
    requires 0 <= i < |chunk| && chunk[i] != HYPHEN
    ensures Step(bd, m, chunk, i)
            == Next(m.(index := 0, partDataMark := Some(i),
                       events := m.events + [Event.PartData(m.lookbehind[..|bd| + 1])]), i)
  {
  }

  /** The part-data bytes of a trace, in order. */
  function DataBytes(evs: seq<Event>): seq<byte>
    decreases |evs|
  {
    if |evs| == 0 then []
    else
      var e := evs[|evs| - 1];
      DataBytes(evs[..|evs| - 1]) + (if e.PartData? then e.data else [])
  }

  /** Delivering a whole chunk as part data adds exactly its bytes. */
  lemma CallbackData(evs: seq<Event>, c: seq<byte>)
    ensures DataBytes(Callback(evs, DataMark, c, 0, |c|)) == DataBytes(evs) + c
  {
    if |c| > 0 {
      var evs' := evs + [Event.PartData(c)];
      assert Subarray(c, 0, |c|) == c;
      assert evs'[..|evs'| - 1] == evs;
    }
  }

  /** Part data holding no CR is skipped through to the chunk end without
      changing the machine; only the end-of-chunk flush remains. */
  lemma {:induction false} RunPlainData(bd: seq<byte>, m: Machine, chunk: seq<byte>, i: int)
    requires Consistent(bd, m) && Delimited(bd) && m.state == State.PartData && m.index == 0
    requires m.partDataMark.Some? && 0 <= i <= |chunk| + 1
    requires forall p :: i <= p < |chunk| ==> chunk[p] != CR
    ensures Run(bd, m, chunk, i) == Finished(FlushAll(bd, m, chunk))
    decreases |chunk| + 1 - i
  {
    if i < |chunk| {
      PlainStep(bd, m, chunk, i);
      var j := SkipAhead(bd, chunk, i);
      RunAdvances(bd, m, chunk, i, m, j + 1);
      RunPlainData(bd, m, chunk, j + 1);
    }
  }

  /** With no CR ahead, a part-data step only skips. */
  lemma PlainStep(bd: seq<byte>, m: Machine, chunk: seq<byte>, i: int)
    requires Consistent(bd, m) && Delimited(bd) && m.state == State.PartData && m.index == 0
    requires m.partDataMark.Some? && 0 <= i < |chunk|
    requires forall p :: i <= p < |chunk| ==> chunk[p] != CR
    ensures Step(bd, m, chunk, i) == Next(m, SkipAhead(bd, chunk, i) + 1)
  {
    DataStep(bd, m, chunk, i);
    var j := SkipAhead(bd, chunk, i);
    assert j == |chunk| || chunk[j] != CR;
  }

  /** `write` of a chunk of part data with no CR, at the start of a chunk
      (the data mark at 0, no header span open): the whole chunk is accepted
      and delivered as one `partData`, and nothing else changes. */
  lemma PlainDataFeed(bd: seq<byte>, m: Machine, chunk: seq<byte>)
    requires Consistent(bd, m) && Delimited(bd) && m.state == State.PartData && m.index == 0
    requires m.headerFieldMark.None? && m.headerValueMark.None? && m.partDataMark == Some(0)
    requires NoCr(chunk)
    ensures Feed(bd, m, chunk) == (|chunk|, m.(events := Callback(m.events, DataMark, chunk, 0, |chunk|)))
  {
    RunPlainData(bd, m, chunk, 0);
  }

  /** What `write` of plain part data leaves: the same machine, with the
      chunk's bytes added to the data delivered. */
  lemma PlainDataBytes(bd: seq<byte>, m: Machine, chunk: seq<byte>)
    requires Consistent(bd, m) && Delimited(bd) && m.state == State.PartData && m.index == 0
    requires m.headerFieldMark.None? && m.headerValueMark.None? && m.partDataMark == Some(0)
    requires NoCr(chunk)
    ensures var r := Feed(bd, m, chunk);
            && r.0 == |chunk| && r.1.(events := m.events) == m
            && DataBytes(r.1.events) == DataBytes(m.events) + chunk
  {
    PlainDataFeed(bd, m, chunk);
    CallbackData(m.events, chunk);
  }

  /** Splitting part data with no CR over two `write` calls changes only how
      the bytes are cut into `partData` events: both chunks are accepted, and
      the machine ends as after one `write` of the joined chunk but for its
      events. */
  lemma PlainDataSplit(bd: seq<byte>, m: Machine, c1: seq<byte>, c2: seq<byte>)
    requires Consistent(bd, m) && Delimited(bd) && m.state == State.PartData && m.index == 0
    requires m.headerFieldMark.None? && m.headerValueMark.None? && m.partDataMark == Some(0)
    requires NoCr(c1 + c2)
    ensures var r1 := Feed(bd, m, c1);
            var r2 := Feed(bd, r1.1, c2);
            var rj := Feed(bd, m, c1 + c2);
            && r1.0 == |c1| && r2.0 == |c2| && rj.0 == |c1 + c2|
            && r2.1.(events := rj.1.events) == rj.1
  {
    NoCrSplit(c1, c2);
    PlainDataBytes(bd, m, c1);
    var r1 := Feed(bd, m, c1);
    assert r1.1 == m.(events := r1.1.events);
    PlainDataBytes(bd, r1.1, c2);
    PlainDataBytes(bd, m, c1 + c2);
  }

  /** ... and the data delivered is the same bytes in the same order either
      way: the bytes of both chunks, after those delivered before. */
  lemma PlainDataSplitBytes(bd: seq<byte>, m: Machine, c1: seq<byte>, c2: seq<byte>)
    requires Consistent(bd, m) && Delimited(bd) && m.state == State.PartData && m.index == 0
    requires m.headerFieldMark.None? && m.headerValueMark.None? && m.partDataMark == Some(0)
    requires NoCr(c1 + c2)
    ensures var r1 := Feed(bd, m, c1);
            var r2 := Feed(bd, r1.1, c2);
            var rj := Feed(bd, m, c1 + c2);
            DataBytes(r2.1.events) == DataBytes(rj.1.events) == DataBytes(m.events) + c1 + c2
  {
    NoCrSplit(c1, c2);
    PlainDataFeed(bd, m, c1);
    var m1 := m.(events := Callback(m.events, DataMark, c1, 0, |c1|));
    PlainDataFeed(bd, m1, c2);
    PlainDataFeed(bd, m, c1 + c2);
    SplitCallbacksBytes(m.events, c1, c2);
  }

  /** Two deliveries of `c1` and `c2` carry the same bytes as one delivery
      of `c1 + c2`. */
  lemma SplitCallbacksBytes(evs: seq<Event>, c1: seq<byte>, c2: seq<byte>)
    ensures var split := Callback(Callback(evs, DataMark, c1, 0, |c1|), DataMark, c2, 0, |c2|);
            DataBytes(split) == DataBytes(Callback(evs, DataMark, c1 + c2, 0, |c1 + c2|)) == DataBytes(evs) + c1 + c2
  {
    CallbackData(evs, c1);
    CallbackData(Callback(evs, DataMark, c1, 0, |c1|), c2);
    CallbackData(evs, c1 + c2);
    AppendAssoc(DataBytes(evs), c1, c2);
  }

  lemma AppendAssoc(a: seq<byte>, b: seq<byte>, c: seq<byte>)
    ensures a + (b + c) == a + b + c
  {
  }

  /** No byte of `c` is a CR. */
  predicate NoCr(c: seq<byte>) {
    forall p :: 0 <= p < |c| ==> c[p] != CR
  }

  /** Both halves of a chunk with no CR hold none. */
  lemma NoCrSplit(c1: seq<byte>, c2: seq<byte>)
    requires NoCr(c1 + c2)
    ensures NoCr(c1) && NoCr(c2)
  {
    forall p | 0 <= p < |c1| ensures c1[p] != CR {
      assert c1[p] == (c1 + c2)[p];
    }
    forall p | 0 <= p < |c2| ensures c2[p] != CR {
      assert c2[p] == (c1 + c2)[|c1| + p];
    }
  }
}
