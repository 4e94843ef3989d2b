/** The streaming `multipart/form-data` reader of src/utils/multipart-parser.js:
    a byte-level state machine that scans chunks of a body and reports its
    structure as events.  The functions below state what one byte, one chunk
    and the end of the stream do; the class `MultipartParser` at the bottom is
    the object the source updates in place, and its methods are proved to do
    exactly what those functions say. */
module Multipart {
  import opened Wrappers
  import opened Bytes

  /** The parser states, in the order of their numeric constants. */
  datatype State =
    | ParserUninitialized
    | Start
    | StartBoundary
    | HeaderFieldStart
    | HeaderField
    | HeaderValueStart
    | HeaderValue
    | HeaderValueAlmostDone
    | HeadersAlmostDone
    | PartDataStart
    | PartData
    | PartEnd
    | End

  /** One handler call.  The spans carry a copy of the bytes handed over. */
  datatype Event =
    | PartBegin
    | HeaderField(field: seq<byte>)
    | HeaderValue(value: seq<byte>)
    | HeaderEnd
    | HeadersEnd
    | PartData(data: seq<byte>)
    | PartEnd
    | End

  /** The three kinds of span that a mark can open. */
  datatype MarkKind = FieldMark | ValueMark | DataMark

  /** Everything one byte can change: the registers `state`, `index` and the
      two flags (locals of `write`, stored back only when the whole chunk is
      accepted), the three marks and the lookbehind buffer (kept on the
      object), and the events raised so far. */
  datatype Machine = Machine(
    state: State,
    index: int,
    partBoundary: bool,
    lastBoundary: bool,
    headerFieldMark: Option<int>,
    headerValueMark: Option<int>,
    partDataMark: Option<int>,
    lookbehind: seq<byte>,
    events: seq<Event>)

  /** The delimiter `CR LF "--" token`; each character code is truncated to a
      byte, as storing it into a `Uint8Array` does. */
  function Delimiter(token: string): (r: seq<byte>)
    ensures |r| == |token| + 4 && r[..4] == [CR, LF, HYPHEN, HYPHEN]
    ensures forall k :: 0 <= k < |token| ==> r[k + 4] == CodeUnitByte(token[k])
  {
    [CR, LF, HYPHEN, HYPHEN] + seq(|token|, k requires 0 <= k < |token| => CodeUnitByte(token[k]))
  }

  /** The byte values that occur in the delimiter (`boundaryChars`). */
  function BoundaryChars(bd: seq<byte>): (r: set<byte>)
    ensures forall b :: b in r <==> b in bd
  {
    set b | b in bd
  }

  /** A delimiter as `Delimiter` builds it. */
  predicate Delimited(bd: seq<byte>) {
    |bd| >= 4 && bd[..4] == [CR, LF, HYPHEN, HYPHEN]
  }

  /** What every machine the parser can hold satisfies: the lookbehind has
      room for the delimiter and eight more bytes, marks are chunk offsets,
      and `index` stays within what the opening-delimiter scan reads. */
  predicate Consistent(bd: seq<byte>, m: Machine) {
    && |bd| >= 4
    && |m.lookbehind| == |bd| + 8
    && (m.state == State.StartBoundary ==> -2 <= m.index <= |bd| - 1)
    && (m.state != State.StartBoundary ==> m.index >= 0)
    && (m.state == Start ==> m.index == 0)
    && (m.headerFieldMark.Some? ==> m.headerFieldMark.value >= 0)
    && (m.headerValueMark.Some? ==> m.headerValueMark.value >= 0)
    && (m.partDataMark.Some? ==> m.partDataMark.value >= 0)
  }

  function Min(a: int, b: int): int {
    if a < b then a else b
  }

  /** `src.subarray(start, end)`: both ends are clamped to the length, and a
      reversed range is empty. */
  function Subarray(src: seq<byte>, start: int, end: int): (r: seq<byte>)
    requires 0 <= start && 0 <= end
    ensures start <= end <= |src| ==> r == src[start..end]
    ensures |r| <= |src|
  {
    var s := Min(start, |src|);
    var e := Min(end, |src|);
    if s < e then src[s..e] else []
  }

  function SpanEvent(k: MarkKind, bytes: seq<byte>): Event {
    match k
    case FieldMark => Event.HeaderField(bytes)
    case ValueMark => Event.HeaderValue(bytes)
    case DataMark => Event.PartData(bytes)
  }

  /** `callback(name, start, end, src)` for a span: nothing when the span is
      known to be empty, otherwise the handler receives the subarray. */
  function Callback(events: seq<Event>, k: MarkKind, src: seq<byte>, start: int, end: int): seq<Event>
    requires 0 <= start && 0 <= end
  {
    if start == end then events else events + [SpanEvent(k, Subarray(src, start, end))]
  }

  function GetMark(m: Machine, k: MarkKind): Option<int> {
    match k
    case FieldMark => m.headerFieldMark
    case ValueMark => m.headerValueMark
    case DataMark => m.partDataMark
  }

  function SetMark(m: Machine, k: MarkKind, v: Option<int>): (r: Machine)
    ensures GetMark(r, k) == v
    ensures forall k' :: k' != k ==> GetMark(r, k') == GetMark(m, k')
    ensures r.(headerFieldMark := m.headerFieldMark, headerValueMark := m.headerValueMark,
               partDataMark := m.partDataMark) == m
  {
    match k
    case FieldMark => m.(headerFieldMark := v)
    case ValueMark => m.(headerValueMark := v)
    case DataMark => m.(partDataMark := v)
  }

  /** `dataCallback(name, true)` at offset `i`: an open span is delivered up
      to `i` and its mark deleted. */
  function Settle(m: Machine, k: MarkKind, chunk: seq<byte>, i: int): (r: Machine)
    requires i >= 0 && (GetMark(m, k).Some? ==> GetMark(m, k).value >= 0)
    ensures GetMark(r, k) == None
  {
    match GetMark(m, k)
    case None => m
    case Some(start) => SetMark(m.(events := Callback(m.events, k, chunk, start, i)), k, None)
  }

  /** `dataCallback(name)` at the end of a chunk: an open span is delivered up
      to the chunk end and its mark restarts at offset 0 of the next chunk. */
  function Flush(m: Machine, k: MarkKind, chunk: seq<byte>): (r: Machine)
    requires GetMark(m, k).Some? ==> GetMark(m, k).value >= 0
    ensures GetMark(r, k) == if GetMark(m, k).Some? then Some(0) else None
  {
    match GetMark(m, k)
    case None => m
    case Some(start) => SetMark(m.(events := Callback(m.events, k, chunk, start, |chunk|)), k, Some(0))
  }

  /** Some byte of the window of `w` bytes at offset `q` lies in the chunk
      and not in `chars`. */
  predicate ForeignIn(chunk: seq<byte>, chars: set<byte>, q: int, w: int) {
    exists p :: q <= p < q + w && 0 <= p < |chunk| && chunk[p] !in chars
  }

  /** The skip loop of the part-data scan: from `j`, jump by `bl` while the
      byte under `j` occurs nowhere in the delimiter. */
  function SkipFrom(chunk: seq<byte>, chars: set<byte>, j: int, bl: int): (r: int)
    requires 0 <= j < |chunk| + bl && bl >= 1
    ensures j <= r < |chunk| + bl && (r < |chunk| ==> chunk[r] in chars)
    decreases |chunk| - j
  {
    if j < |chunk| && chunk[j] !in chars then SkipFrom(chunk, chars, j + bl, bl) else j
  }

  /** Every window the skip loop passes over holds a foreign byte. */
  lemma {:induction false} SkipFromForeign(chunk: seq<byte>, chars: set<byte>, j: int, bl: int)
    requires 0 <= j < |chunk| + bl && bl >= 1
    ensures var r := SkipFrom(chunk, chars, j, bl);
            forall q :: j - (bl - 1) <= q < r - (bl - 1) ==> ForeignIn(chunk, chars, q, bl)
    decreases |chunk| - j
  {
    if j < |chunk| && chunk[j] !in chars {
      SkipFromForeign(chunk, chars, j + bl, bl);
      forall q | j - (bl - 1) <= q < j + 1
        ensures ForeignIn(chunk, chars, q, bl)
      {
        assert q <= j < q + bl && 0 <= j < |chunk| && chunk[j] !in chars;
      }
    }
  }

  /** Where the part-data scan resumes after skipping, from a byte at `i`
      with no delimiter match in progress. */
  function SkipAhead(bd: seq<byte>, chunk: seq<byte>, i: int): (r: int)
    requires |bd| >= 1 && 0 <= i < |chunk|
    ensures i <= r <= |chunk|
  {
    SkipFrom(chunk, BoundaryChars(bd), i + |bd| - 1, |bd|) - (|bd| - 1)
  }

  /** Every byte the skip passes over starts no prefix of the delimiter that
      fits in the chunk, because each window of delimiter length from a
      skipped offset holds a byte foreign to it. */
  lemma SkipAheadSound(bd: seq<byte>, chunk: seq<byte>, i: int)
    requires |bd| >= 1 && 0 <= i < |chunk|
    ensures forall q :: i <= q < SkipAhead(bd, chunk, i) ==> ForeignIn(chunk, BoundaryChars(bd), q, |bd|)
  {
    SkipFromForeign(chunk, BoundaryChars(bd), i + |bd| - 1, |bd|);
  }

  /** The byte a `Uint8Array` stores for a value that may be `undefined`. */
  function StoredByte(c: Option<byte>): byte {
    match c
    case Some(b) => b
    case None => 0
  }

  /** One byte of the opening-delimiter scan (`START_BOUNDARY`). */
  function StartBoundaryByte(bd: seq<byte>, m: Machine, c: byte, i: int): (r: Transition)
    requires Consistent(bd, m) && m.state == State.StartBoundary && i >= 0
    ensures Consistent(bd, r.m) && (r.Next? ==> r.i == i + 1)
  {
    if m.index == |bd| - 2 then
      if c == HYPHEN then Next(m.(lastBoundary := true, index := m.index + 1), i + 1)
      else if c != CR then Reject(m)
      else Next(m.(index := m.index + 1), i + 1)
    else if m.index - 1 == |bd| - 2 then
      if m.lastBoundary && c == HYPHEN then
        Next(m.(events := m.events + [Event.End], state := State.End,
                partBoundary := false, lastBoundary := false), i + 1)
      else if !m.lastBoundary && c == LF then
        Next(m.(index := 0, events := m.events + [PartBegin], state := HeaderFieldStart), i + 1)
      else Reject(m)
    else
      var index := if c != bd[m.index + 2] then -2 else m.index;
      Next(m.(index := if c == bd[index + 2] then index + 1 else index), i + 1)
  }

  /** One byte of a header name (`HEADER_FIELD`). */
  function HeaderFieldByte(bd: seq<byte>, m: Machine, chunk: seq<byte>, i: int): (r: Transition)
    requires Consistent(bd, m) && 0 <= i < |chunk| && m.state == State.HeaderField
    ensures Consistent(bd, r.m) && (r.Next? ==> r.i == i + 1)
  {
    var c := chunk[i];
    if c == CR then
      Next(m.(headerFieldMark := None, state := HeadersAlmostDone), i + 1)
    else
      var m1 := m.(index := m.index + 1);
      if c == HYPHEN then Next(m1, i + 1)
      else if c == COLON then
        if m1.index == 1 then Reject(m1)
        else Next(Settle(m1, FieldMark, chunk, i).(state := HeaderValueStart), i + 1)
      else if Lower(c) < LOWER_A || Lower(c) > LOWER_Z then Reject(m1)
      else Next(m1, i + 1)
  }

  /** One byte of a header value (`HEADER_VALUE`). */
  function HeaderValueByte(bd: seq<byte>, m: Machine, chunk: seq<byte>, i: int): (r: Transition)
    requires Consistent(bd, m) && 0 <= i < |chunk| && m.state == State.HeaderValue
    ensures Consistent(bd, r.m) && (r.Next? ==> r.i == i + 1)
  {
    if chunk[i] == CR then
      var m1 := Settle(m, ValueMark, chunk, i);
      Next(m1.(events := m1.events + [HeaderEnd], state := HeaderValueAlmostDone), i + 1)
    else
      Next(m, i + 1)
  }

  /** The delimiter comparison of the part-data scan for the byte `c` read at
      offset `i` (`undefined` past the chunk end).  The flag is true when the
      byte ends the scan of this byte at once (the `break` after a part
      boundary). */
  function MatchByte(bd: seq<byte>, m: Machine, chunk: seq<byte>, i: int, c: Option<byte>): (r: (Machine, bool))
    requires Consistent(bd, m) && m.state == State.PartData && i >= 0
    ensures Consistent(bd, r.0) && r.0.index >= 0
  {
    if m.index < |bd| then
      if c == Some(bd[m.index]) then
        var m1 := if m.index == 0 then Settle(m, DataMark, chunk, i) else m;
        (m1.(index := m.index + 1), false)
      else
        (m.(index := 0), false)
    else if m.index == |bd| then
      var m1 := m.(index := m.index + 1);
      if c == Some(CR) then (m1.(partBoundary := true), false)
      else if c == Some(HYPHEN) then (m1.(lastBoundary := true), false)
      else (m1.(index := 0), false)
    else if m.index - 1 == |bd| then
      if m.partBoundary then
        var m1 := m.(index := 0);
        if c == Some(LF) then
          (m1.(partBoundary := false, events := m1.events + [Event.PartEnd, PartBegin],
               state := HeaderFieldStart), true)
        else (m1, false)
      else if m.lastBoundary then
        if c == Some(HYPHEN) then
          (m.(events := m.events + [Event.PartEnd, Event.End], state := State.End,
              partBoundary := false, lastBoundary := false), false)
        else (m.(index := 0), false)
      else (m.(index := 0), false)
    else
      (m, false)
  }

  /** One step of the part-data scan (`PART_DATA`) from offset `i`: the skip
      when no match is in progress, the delimiter comparison, then either the
      lookbehind store of a matched byte or, when a match of `prev` bytes just
      failed, the delivery of those bytes as part data and a second look at
      the byte that broke the match (`i--`). */
  function PartDataByte(bd: seq<byte>, m: Machine, chunk: seq<byte>, i: int): (r: Transition)
    requires Consistent(bd, m) && m.state == State.PartData && 0 <= i < |chunk|
    ensures Consistent(bd, r.m)
    ensures r.Next? && r.i <= |chunk| + 1
    ensures i < r.i || (r.i == i && m.index > 0 && r.m.index == 0)
  {
    var prev := m.index;
    var j := if m.index == 0 then SkipAhead(bd, chunk, i) else i;
    var c := if j < |chunk| then Some(chunk[j]) else None;
    var (m1, done) := MatchByte(bd, m, chunk, j, c);
    if done then
      Next(m1, j + 1)
    else if m1.index > 0 then
      var lb := if m1.index - 1 < |m1.lookbehind| then m1.lookbehind[m1.index - 1 := StoredByte(c)]
                else m1.lookbehind;
      Next(m1.(lookbehind := lb), j + 1)
    else if prev > 0 then
      Next(m1.(events := Callback(m1.events, DataMark, m1.lookbehind, 0, prev), partDataMark := Some(j)), j)
    else
      Next(m1, j + 1)
  }

  /** What the `write` loop does with one byte: `Reject` is the early
      `return i`, `Next` carries the machine and the next loop offset. */
  datatype Transition = Reject(m: Machine) | Next(m: Machine, i: int)

  /** One iteration of the `write` loop, at offset `i` of `chunk`. */
  function Step(bd: seq<byte>, m: Machine, chunk: seq<byte>, i: int): (r: Transition)
    requires Consistent(bd, m) && 0 <= i < |chunk|
    ensures Consistent(bd, r.m)
    ensures r.Next? ==> r.i <= |chunk| + 1
    ensures r.Next? ==> i < r.i || (r.i == i && m.index > 0 && r.m.index == 0)
  {
    var c := chunk[i];
    match m.state
    case ParserUninitialized => Reject(m)
    case Start => StartBoundaryByte(bd, m.(index := 0, state := StartBoundary), c, i)
    case StartBoundary => StartBoundaryByte(bd, m, c, i)
    case HeaderFieldStart =>
      HeaderFieldByte(bd, m.(state := State.HeaderField, headerFieldMark := Some(i), index := 0), chunk, i)
    case HeaderField => HeaderFieldByte(bd, m, chunk, i)
    case HeaderValueStart =>
      if c == SPACE then Next(m, i + 1)
      else HeaderValueByte(bd, m.(headerValueMark := Some(i), state := State.HeaderValue), chunk, i)
    case HeaderValue => HeaderValueByte(bd, m, chunk, i)
    case HeaderValueAlmostDone =>
      if c != LF then Reject(m) else Next(m.(state := HeaderFieldStart), i + 1)
    case HeadersAlmostDone =>
      if c != LF then Reject(m)
      else Next(m.(events := m.events + [HeadersEnd], state := PartDataStart), i + 1)
    case PartDataStart => PartDataByte(bd, m.(state := State.PartData, partDataMark := Some(i)), chunk, i)
    case PartData => PartDataByte(bd, m, chunk, i)
    case PartEnd => Reject(m)
    case End => Next(m, i + 1)
  }

  /** The end-of-chunk flush of the three marks, in source order. */
  function FlushAll(bd: seq<byte>, m: Machine, chunk: seq<byte>): (r: Machine)
    requires Consistent(bd, m)
    ensures Consistent(bd, r)
    ensures forall k :: GetMark(r, k) == if GetMark(m, k).Some? then Some(0) else None
    ensures r.(events := m.events, headerFieldMark := m.headerFieldMark,
               headerValueMark := m.headerValueMark, partDataMark := m.partDataMark) == m
  {
    Flush(Flush(Flush(m, FieldMark, chunk), ValueMark, chunk), DataMark, chunk)
  }

  /** How the `write` loop ends: at an early `return at`, or after the whole
      chunk, with the machine as it then stands. */
  datatype Outcome = Rejected(at: int, m: Machine) | Finished(m: Machine)

  /** The `write` loop from offset `i` on. */
  function Run(bd: seq<byte>, m: Machine, chunk: seq<byte>, i: int): (r: Outcome)
    requires Consistent(bd, m) && 0 <= i <= |chunk| + 1
    ensures Consistent(bd, r.m)
    ensures r.Rejected? ==> i <= r.at < |chunk|
    decreases |chunk| + 1 - i, if m.index > 0 then 1 else 0
  {
    if i >= |chunk| then
      Finished(FlushAll(bd, m, chunk))
    else
      match Step(bd, m, chunk, i)
      case Reject(m') => Rejected(i, m')
      case Next(m', i') => Run(bd, m', chunk, i')
  }

  /** One accepted byte moves the loop on. */
  lemma RunAdvances(bd: seq<byte>, m: Machine, chunk: seq<byte>, i: int, m': Machine, i': int)
    requires Consistent(bd, m) && 0 <= i < |chunk| && Step(bd, m, chunk, i) == Next(m', i')
    ensures Consistent(bd, m') && 0 <= i' <= |chunk| + 1
    ensures Run(bd, m, chunk, i) == Run(bd, m', chunk, i')
  {
  }

  /** `write(chunk)`: the value returned and the machine kept afterwards.  An
      early return keeps the marks, the lookbehind and the events it raised,
      but not the registers, which were only held in locals. */
  function Feed(bd: seq<byte>, m: Machine, chunk: seq<byte>): (r: (int, Machine))
    requires Consistent(bd, m)
    ensures Consistent(bd, r.1) && 0 <= r.0 <= |chunk|
    ensures r.0 < |chunk| ==>
              && r.1.state == m.state && r.1.index == m.index
              && r.1.partBoundary == m.partBoundary && r.1.lastBoundary == m.lastBoundary
  {
    match Run(bd, m, chunk, 0)
    case Rejected(at, m') =>
      (at, m'.(state := m.state, index := m.index,
               partBoundary := m.partBoundary, lastBoundary := m.lastBoundary))
    case Finished(m') => (|chunk|, m')
  }

  /** Why `end()` fails. */
  datatype EndError = StreamEndedUnexpectedly

  /** `end()`: accepted right after a part boundary with no header begun, or
      when the data of a part is followed by a whole delimiter and nothing
      else; then the events of the missing `--` are raised.  The end state
      accepts silently; any other state returns the error. */
  function Close(bd: seq<byte>, m: Machine): (r: (Option<EndError>, Machine))
  {
    if (m.state == HeaderFieldStart && m.index == 0) || (m.state == State.PartData && m.index == |bd|) then
      (None, m.(events := m.events + [Event.PartEnd, Event.End]))
    else if m.state != State.End then
      (Some(StreamEndedUnexpectedly), m)
    else
      (None, m)
  }

  /** An early return at offset `i` of the loop gives `Feed` its result. */
  lemma FeedRejects(bd: seq<byte>, m0: Machine, chunk: seq<byte>, m: Machine, i: int)
    requires Consistent(bd, m0) && Consistent(bd, m) && 0 <= i < |chunk|
    requires Run(bd, m, chunk, i) == Run(bd, m0, chunk, 0)
    requires Step(bd, m, chunk, i).Reject?
    ensures var m' := Step(bd, m, chunk, i).m;
            Feed(bd, m0, chunk) == (i, m'.(state := m0.state, index := m0.index,
                                          partBoundary := m0.partBoundary, lastBoundary := m0.lastBoundary))
  {
  }

  /** Leaving the loop past the chunk end gives `Feed` its result. */
  lemma FeedFinishes(bd: seq<byte>, m0: Machine, chunk: seq<byte>, m: Machine, i: int)
    requires Consistent(bd, m0) && Consistent(bd, m) && |chunk| <= i <= |chunk| + 1
    requires Run(bd, m, chunk, i) == Run(bd, m0, chunk, 0)
    ensures Feed(bd, m0, chunk) == (|chunk|, FlushAll(bd, m, chunk))
  {
  }

  /** The constructor's loop: the code unit of each character as a byte,
      in a new array, and the set of byte values seen. */
  method EncodeBoundary(s: string) returns (ui8a: array<byte>, chars: set<byte>)
    ensures fresh(ui8a) && ui8a.Length == |s|
    ensures forall k :: 0 <= k < |s| ==> ui8a[k] == CodeUnitByte(s[k])
    ensures chars == BoundaryChars(ui8a[..])
  {
    ui8a := new byte[|s|];
    chars := {};
    for i := 0 to |s|
      invariant forall k :: 0 <= k < i ==> ui8a[k] == CodeUnitByte(s[k])
      invariant chars == BoundaryChars(ui8a[..i])
    {
      ui8a[i] := CodeUnitByte(s[i]);
      assert ui8a[..i + 1] == ui8a[..i] + [ui8a[i]];
      chars := chars + {ui8a[i]};
    }
    assert ui8a[..|s|] == ui8a[..];
  }

  /** The parser object.  `state`, `index` and the flags are written back at
      the end of an accepted chunk only; the marks, the lookbehind buffer and
      the handler calls (`events`) change as the bytes are scanned.  `index`
      is `null` until the first byte is read. */
  class MultipartParser {
    const boundary: seq<byte>
    const boundaryChars: set<byte>
    const lookbehind: array<byte>
    var state: State
    var index: Option<int>
    var partBoundary: bool
    var lastBoundary: bool
    var headerFieldMark: Option<int>
    var headerValueMark: Option<int>
    var partDataMark: Option<int>
    var events: seq<Event>

    ghost predicate Valid()
      reads this, lookbehind
    {
      && Consistent(boundary, Snapshot())
      && boundaryChars == BoundaryChars(boundary)
      && (state == Start <==> index.None?)
    }

    /** The object as a machine; the `null` index reads as 0, a value the
        first byte overwrites before it is looked at. */
    function Snapshot(): Machine
      reads this, lookbehind
    {
      Machine(state, index.GetOr(0), partBoundary, lastBoundary,
              headerFieldMark, headerValueMark, partDataMark, lookbehind[..], events)
    }

    /** The machine in the middle of `write`, with the registers held in the
        method's locals. */
    function Scanning(st: State, idx: int, pb: bool, lb: bool): Machine
      reads this, lookbehind
    {
      Machine(st, idx, pb, lb, headerFieldMark, headerValueMark, partDataMark, lookbehind[..], events)
    }

    constructor (token: string)
      ensures Valid() && fresh(lookbehind)
      ensures boundary == Delimiter(token)
      ensures lookbehind[..] == seq(|boundary| + 8, _ => 0)
      ensures state == Start && index == None && !partBoundary && !lastBoundary
      ensures headerFieldMark == None && headerValueMark == None && partDataMark == None
      ensures events == []
    {
      index := None;
      partBoundary, lastBoundary := false, false;
      var s := "\r\n--" + token;
      var ui8a, chars := EncodeBoundary(s);
      ghost var bd := Delimiter(token);
      forall k | 0 <= k < |s|
        ensures ui8a[k] == bd[k]
      {
        if k < 4 {
          assert s[k] == "\r\n--"[k] && bd[k] == bd[..4][k];
        } else {
          assert s[k] == token[k - 4];
        }
      }
      assert ui8a[..] == bd;
      boundary := ui8a[..];
      boundaryChars := chars;
      lookbehind := new byte[|s| + 8](_ => 0);
      state := Start;
      headerFieldMark, headerValueMark, partDataMark := None, None, None;
      events := [];
    }

    /** The opening-delimiter case of the `write` loop (`START_BOUNDARY`). */
    method ScanStartBoundary(index: int, partBoundary: bool, lastBoundary: bool, c: byte, i: int)
      returns (ok: bool, state': State, index': int, partBoundary': bool, lastBoundary': bool)
      requires Consistent(boundary, Scanning(StartBoundary, index, partBoundary, lastBoundary)) && i >= 0
      modifies this`events
      ensures var t := StartBoundaryByte(boundary, old(Scanning(StartBoundary, index, partBoundary, lastBoundary)), c, i);
              t == if ok then Next(Scanning(state', index', partBoundary', lastBoundary'), i + 1)
                   else Reject(Scanning(state', index', partBoundary', lastBoundary'))
    {
      ok, state', index', partBoundary', lastBoundary' := true, StartBoundary, index, partBoundary, lastBoundary;
      if index == |boundary| - 2 {
        if c == HYPHEN {
          lastBoundary' := true;
        } else if c != CR {
          return false, state', index', partBoundary', lastBoundary';
        }
        index' := index + 1;
      } else if index - 1 == |boundary| - 2 {
        if lastBoundary && c == HYPHEN {
          events := events + [Event.End];
          state' := State.End;
          partBoundary', lastBoundary' := false, false;
        } else if !lastBoundary && c == LF {
          index' := 0;
          events := events + [PartBegin];
          state' := HeaderFieldStart;
        } else {
          ok := false;
        }
      } else {
        if c != boundary[index' + 2] {
          index' := -2;
        }
        if c == boundary[index' + 2] {
          index' := index' + 1;
        }
      }
    }

    /** The header-name case of the `write` loop (`HEADER_FIELD_START`,
        `HEADER_FIELD`). */
    method ScanHeaderField(index: int, partBoundary: bool, lastBoundary: bool, chunk: seq<byte>, i: int)
      returns (ok: bool, state': State, index': int)
      requires Consistent(boundary, Scanning(State.HeaderField, index, partBoundary, lastBoundary)) && 0 <= i < |chunk|
      modifies this`events, this`headerFieldMark
      ensures var t := HeaderFieldByte(boundary, old(Scanning(State.HeaderField, index, partBoundary, lastBoundary)), chunk, i);
              t == if ok then Next(Scanning(state', index', partBoundary, lastBoundary), i + 1)
                   else Reject(Scanning(state', index', partBoundary, lastBoundary))
    {
      state', index' := State.HeaderField, index;
      var c := chunk[i];
      if c == CR {
        headerFieldMark := None;
        return true, HeadersAlmostDone, index';
      }
      index' := index' + 1;
      if c == HYPHEN {
        return true, state', index';
      }
      if c == COLON {
        if index' == 1 {
          // empty header field
          return false, state', index';
        }
        if headerFieldMark.Some? {
          events := Callback(events, FieldMark, chunk, headerFieldMark.value, i);
          headerFieldMark := None;
        }
        return true, HeaderValueStart, index';
      }
      var cl := Lower(c);
      ok := LOWER_A <= cl <= LOWER_Z;
    }

    /** The header-value case of the `write` loop (`HEADER_VALUE_START`,
        `HEADER_VALUE`). */
    method ScanHeaderValue(state: State, index: int, partBoundary: bool, lastBoundary: bool, chunk: seq<byte>, i: int)
      returns (state': State)
      requires state == HeaderValueStart || state == State.HeaderValue
      requires Consistent(boundary, Scanning(state, index, partBoundary, lastBoundary)) && 0 <= i < |chunk|
      modifies this`events, this`headerValueMark
      ensures var m := old(Scanning(state, index, partBoundary, lastBoundary));
              var t := if state == State.HeaderValue then HeaderValueByte(boundary, m, chunk, i)
                       else if chunk[i] == SPACE then Next(m, i + 1)
                       else HeaderValueByte(boundary, m.(headerValueMark := Some(i), state := State.HeaderValue), chunk, i);
              t == Next(Scanning(state', index, partBoundary, lastBoundary), i + 1)
    {
      state' := state;
      var c := chunk[i];
      if state == HeaderValueStart {
        if c == SPACE {
          return;
        }
        headerValueMark := Some(i);
        state' := State.HeaderValue;
      }
      if c == CR {
        if headerValueMark.Some? {
          events := Callback(events, ValueMark, chunk, headerValueMark.value, i);
          headerValueMark := None;
        }
        events := events + [HeaderEnd];
        state' := HeaderValueAlmostDone;
      }
    }

    /** The skip of the part-data scan: the offset where the comparison
        with the delimiter resumes. */
    method SkipAheadFrom(chunk: seq<byte>, i: int) returns (i': int)
      requires boundaryChars == BoundaryChars(boundary) && |boundary| >= 1 && 0 <= i < |chunk|
      ensures i' == SkipAhead(boundary, chunk, i)
    {
      var boundaryLength := |boundary|;
      var boundaryEnd := boundaryLength - 1;
      i' := i + boundaryEnd;
      while i' < |chunk| && chunk[i'] !in boundaryChars
        invariant i + boundaryEnd <= i' < |chunk| + boundaryLength
        invariant SkipFrom(chunk, boundaryChars, i', boundaryLength)
                  == SkipFrom(chunk, boundaryChars, i + boundaryEnd, boundaryLength)
        decreases |chunk| - i'
      {
        i' := i' + boundaryLength;
      }
      i' := i' - boundaryEnd;
    }

    /** The comparison of the byte `c` (read at offset `i`) with the
        delimiter.  `partBegun` is the `break` taken after a part boundary. */
    method MatchDelimiter(index: int, partBoundary: bool, lastBoundary: bool, chunk: seq<byte>, i: int, c: Option<byte>)
      returns (state': State, index': int, partBoundary': bool, lastBoundary': bool, partBegun: bool)
      requires Consistent(boundary, Scanning(State.PartData, index, partBoundary, lastBoundary)) && i >= 0
      modifies this`events, this`partDataMark
      ensures MatchByte(boundary, old(Scanning(State.PartData, index, partBoundary, lastBoundary)), chunk, i, c)
              == (Scanning(state', index', partBoundary', lastBoundary'), partBegun)
    {
      state', index', partBoundary', lastBoundary', partBegun := State.PartData, index, partBoundary, lastBoundary, false;
      if index < |boundary| {
        if c == Some(boundary[index]) {
          if index == 0 && partDataMark.Some? {
            events := Callback(events, DataMark, chunk, partDataMark.value, i);
            partDataMark := None;
          }
          index' := index + 1;
        } else {
          index' := 0;
        }
      } else if index == |boundary| {
        index' := index + 1;
        if c == Some(CR) {
          // CR: part boundary
          partBoundary' := true;
        } else if c == Some(HYPHEN) {
          // HYPHEN: end boundary
          lastBoundary' := true;
        } else {
          index' := 0;
        }
      } else if index - 1 == |boundary| {
        if partBoundary {
          index' := 0;
          if c == Some(LF) {
            partBoundary' := false;
            events := events + [Event.PartEnd, PartBegin];
            state' := HeaderFieldStart;
            partBegun := true;
          }
        } else if lastBoundary {
          if c == Some(HYPHEN) {
            events := events + [Event.PartEnd, Event.End];
            state' := State.End;
            partBoundary', lastBoundary' := false, false;
          } else {
            index' := 0;
          }
        } else {
          index' := 0;
        }
      }
    }

    /** The part-data case of the `write` loop (`PART_DATA`, entered from
        `PART_DATA_START` with the data mark set).  `i'` is the offset the loop
        counter holds afterwards, one less than the offset of the next byte
        looked at. */
    method ScanPartData(index: int, partBoundary: bool, lastBoundary: bool, chunk: seq<byte>, i: int)
      returns (state': State, index': int, partBoundary': bool, lastBoundary': bool, i': int)
      requires boundaryChars == BoundaryChars(boundary) && Consistent(boundary, Scanning(State.PartData, index, partBoundary, lastBoundary)) && 0 <= i < |chunk|
      modifies this`events, this`partDataMark, lookbehind
      ensures PartDataByte(boundary, old(Scanning(State.PartData, index, partBoundary, lastBoundary)), chunk, i)
              == Next(Scanning(state', index', partBoundary', lastBoundary'), i' + 1)
    {
      var previousIndex := index;
      var c: Option<byte> := Some(chunk[i]);
      i' := i;
      if index == 0 {
        i' := SkipAheadFrom(chunk, i);
        c := if i' < |chunk| then Some(chunk[i']) else None;
      }
      var partBegun;
      state', index', partBoundary', lastBoundary', partBegun := MatchDelimiter(index, partBoundary, lastBoundary, chunk, i', c);
      if partBegun {
        return;
      }
      if index' > 0 {
        // a byte of a possible delimiter, kept in case the match fails
        if index' - 1 < lookbehind.Length {
          lookbehind[index' - 1] := StoredByte(c);
        }
      } else if previousIndex > 0 {
        // the match failed: the bytes held back are part data, and the byte
        // that broke it may begin a new match
        events := Callback(events, DataMark, lookbehind[..], 0, previousIndex);
        partDataMark := Some(i');
        i' := i' - 1;
      }
    }

    /** One iteration of the `write` loop: the `switch` on the state.  `ok` is
        false for an early `return i`. */
    method ScanByte(state: State, index: int, partBoundary: bool, lastBoundary: bool, chunk: seq<byte>, i: int)
      returns (ok: bool, state': State, index': int, partBoundary': bool, lastBoundary': bool, i': int)
      requires boundaryChars == BoundaryChars(boundary) && Consistent(boundary, Scanning(state, index, partBoundary, lastBoundary)) && 0 <= i < |chunk|
      modifies this`events, this`headerFieldMark, this`headerValueMark, this`partDataMark, lookbehind
      ensures var t := Step(boundary, old(Scanning(state, index, partBoundary, lastBoundary)), chunk, i);
              t == if ok then Next(Scanning(state', index', partBoundary', lastBoundary'), i' + 1)
                   else Reject(Scanning(state', index', partBoundary', lastBoundary'))
    {
      ok, state', index', partBoundary', lastBoundary', i' := true, state, index, partBoundary, lastBoundary, i;
      var c := chunk[i];
      match state
      case ParserUninitialized =>
        ok := false;
      case Start =>
        ok, state', index', partBoundary', lastBoundary' := ScanStartBoundary(0, partBoundary, lastBoundary, c, i);
      case StartBoundary =>
        ok, state', index', partBoundary', lastBoundary' := ScanStartBoundary(index, partBoundary, lastBoundary, c, i);
      case HeaderFieldStart =>
        headerFieldMark := Some(i);
        ok, state', index' := ScanHeaderField(0, partBoundary, lastBoundary, chunk, i);
      case HeaderField =>
        ok, state', index' := ScanHeaderField(index, partBoundary, lastBoundary, chunk, i);
      case HeaderValueStart =>
        state' := ScanHeaderValue(state, index, partBoundary, lastBoundary, chunk, i);
      case HeaderValue =>
        state' := ScanHeaderValue(state, index, partBoundary, lastBoundary, chunk, i);
      case HeaderValueAlmostDone =>
        if c != LF {
          ok := false;
        } else {
          state' := HeaderFieldStart;
        }
      case HeadersAlmostDone =>
        if c != LF {
          ok := false;
        } else {
          events := events + [HeadersEnd];
          state' := PartDataStart;
        }
      case PartDataStart =>
        partDataMark := Some(i);
        state', index', partBoundary', lastBoundary', i' := ScanPartData(index, partBoundary, lastBoundary, chunk, i);
      case PartData =>
        state', index', partBoundary', lastBoundary', i' := ScanPartData(index, partBoundary, lastBoundary, chunk, i);
      case PartEnd =>
        ok := false;
      case End =>
    }

    /** One iteration of the `write` loop, stated by what it does to the rest
        of the loop. */
    method Advance(state: State, index: int, partBoundary: bool, lastBoundary: bool, chunk: seq<byte>, i: int)
      returns (ok: bool, state': State, index': int, partBoundary': bool, lastBoundary': bool, i': int)
      requires boundaryChars == BoundaryChars(boundary) && Consistent(boundary, Scanning(state, index, partBoundary, lastBoundary)) && 0 <= i < |chunk|
      modifies this`events, this`headerFieldMark, this`headerValueMark, this`partDataMark, lookbehind
      ensures Consistent(boundary, Scanning(state', index', partBoundary', lastBoundary'))
      ensures ok ==> 0 <= i' <= |chunk| + 1 && (i < i' || (i' == i && index > 0 && index' == 0))
      ensures var r := Run(boundary, old(Scanning(state, index, partBoundary, lastBoundary)), chunk, i);
              if ok then r == Run(boundary, Scanning(state', index', partBoundary', lastBoundary'), chunk, i')
              else r == Rejected(i, Scanning(state', index', partBoundary', lastBoundary'))
    {
      ghost var m := Scanning(state, index, partBoundary, lastBoundary);
      ok, state', index', partBoundary', lastBoundary', i' := ScanByte(state, index, partBoundary, lastBoundary, chunk, i);
      i' := i' + 1;
      if ok {
        RunAdvances(boundary, m, chunk, i, Scanning(state', index', partBoundary', lastBoundary'), i');
      }
    }

    /** The `for` loop of `write` over the chunk, from the registers loaded
        from the object.  `at` is the offset of an early return, or where the
        loop counter stopped. */
    method ScanChunk(state: State, index: int, partBoundary: bool, lastBoundary: bool, chunk: seq<byte>)
      returns (rejected: bool, at: int, state': State, index': int, partBoundary': bool, lastBoundary': bool)
      requires boundaryChars == BoundaryChars(boundary) && Consistent(boundary, Scanning(state, index, partBoundary, lastBoundary))
      modifies this`events, this`headerFieldMark, this`headerValueMark, this`partDataMark, lookbehind
      ensures Consistent(boundary, Scanning(state', index', partBoundary', lastBoundary'))
      ensures var r := Run(boundary, old(Scanning(state, index, partBoundary, lastBoundary)), chunk, 0);
              if rejected then r == Rejected(at, Scanning(state', index', partBoundary', lastBoundary'))
              else |chunk| <= at <= |chunk| + 1 && r == Run(boundary, Scanning(state', index', partBoundary', lastBoundary'), chunk, at)
    {
      ghost var m0 := Scanning(state, index, partBoundary, lastBoundary);
      state', index', partBoundary', lastBoundary' := state, index, partBoundary, lastBoundary;
      var i := 0;
      while i < |chunk|
        invariant 0 <= i <= |chunk| + 1
        invariant Consistent(boundary, Scanning(state', index', partBoundary', lastBoundary'))
        invariant Run(boundary, Scanning(state', index', partBoundary', lastBoundary'), chunk, i) == Run(boundary, m0, chunk, 0)
        decreases |chunk| + 1 - i, if index' > 0 then 1 else 0
      {
        var ok, i';
        ok, state', index', partBoundary', lastBoundary', i' := Advance(state', index', partBoundary', lastBoundary', chunk, i);
        if !ok {
          return true, i, state', index', partBoundary', lastBoundary';
        }
        i := i';
      }
      return false, i, state', index', partBoundary', lastBoundary';
    }

    /** The three `dataCallback(name)` calls after the loop of `write`. */
    method FlushMarks(state: State, index: int, partBoundary: bool, lastBoundary: bool, chunk: seq<byte>)
      requires Consistent(boundary, Scanning(state, index, partBoundary, lastBoundary))
      modifies this`events, this`headerFieldMark, this`headerValueMark, this`partDataMark
      ensures Scanning(state, index, partBoundary, lastBoundary)
              == FlushAll(boundary, old(Scanning(state, index, partBoundary, lastBoundary)), chunk)
    {
      if headerFieldMark.Some? {
        events := Callback(events, FieldMark, chunk, headerFieldMark.value, |chunk|);
        headerFieldMark := Some(0);
      }
      if headerValueMark.Some? {
        events := Callback(events, ValueMark, chunk, headerValueMark.value, |chunk|);
        headerValueMark := Some(0);
      }
      if partDataMark.Some? {
        events := Callback(events, DataMark, chunk, partDataMark.value, |chunk|);
        partDataMark := Some(0);
      }
    }

    /** The end of an accepted `write`: the three flushes, then the
        registers written back to the object. */
    method Commit(state: State, index: int, partBoundary: bool, lastBoundary: bool, chunk: seq<byte>)
      requires boundaryChars == BoundaryChars(boundary)
      requires Consistent(boundary, Scanning(state, index, partBoundary, lastBoundary))
      modifies this`state, this`index, this`partBoundary, this`lastBoundary
      modifies this`events, this`headerFieldMark, this`headerValueMark, this`partDataMark
      ensures Valid()
      ensures Snapshot() == FlushAll(boundary, old(Scanning(state, index, partBoundary, lastBoundary)), chunk)
    {
      FlushMarks(state, index, partBoundary, lastBoundary, chunk);
      this.index := if state == Start then None else Some(index);
      this.state := state;
      this.partBoundary, this.lastBoundary := partBoundary, lastBoundary;
    }

    /** `write(chunk)`: scans the chunk and returns its length, or the offset
        of the first byte that has no transition. */
    method Write(chunk: seq<byte>) returns (n: int)
      requires Valid()
      modifies this`state, this`index, this`partBoundary, this`lastBoundary
      modifies this`events, this`headerFieldMark, this`headerValueMark, this`partDataMark, lookbehind
      ensures Valid()
      ensures (n, Snapshot()) == Feed(boundary, old(Snapshot()), chunk)
    {
      ghost var m0 := Snapshot();
      var rejected, i, state, index, partBoundary, lastBoundary :=
        ScanChunk(this.state, this.index.GetOr(0), this.partBoundary, this.lastBoundary, chunk);
      if rejected {
        return i;
      }
      FeedFinishes(boundary, m0, chunk, Scanning(state, index, partBoundary, lastBoundary), i);
      Commit(state, index, partBoundary, lastBoundary, chunk);
      return |chunk|;
    }

    /** `end()`: the two calls of a missing `--`, or the error it returns. */
    method End() returns (err: Option<EndError>)
      requires Valid()
      modifies this`events
      ensures Valid()
      ensures (err, Snapshot()) == Close(boundary, old(Snapshot()))
    {
      if (state == HeaderFieldStart && index == Some(0)) || (state == State.PartData && index == Some(|boundary|)) {
        events := events + [Event.PartEnd, Event.End];
        err := None;
      } else if state != State.End {
        err := Some(StreamEndedUnexpectedly);
      } else {
        err := None;
      }
    }
  }
}
