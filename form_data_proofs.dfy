/** What the handlers of `toFormData` make of a trace of parser events:
    entries are only appended, one per `partEnd` once a part has begun, and
    the kind of each entry follows from the part's first header. */
module FormDataProofs {
  import opened Wrappers
  import opened Bytes
  import opened Multipart
  import opened HeaderParams
  import opened FormData

  /** The number of `partEnd` events. */
  function CountPartEnds(evs: seq<Event>): nat {
    if |evs| == 0 then 0 else (if evs[0] == Event.PartEnd then 1 else 0) + CountPartEnds(evs[1..])
  }

  lemma {:induction false} HandleAllAppend(a: Assembly, xs: seq<Event>, ys: seq<Event>)
    ensures HandleAll(a, xs + ys) == HandleAll(HandleAll(a, xs), ys)
    decreases |xs|
  {
    if |xs| == 0 {
      assert xs + ys == ys;
    } else {
      assert (xs + ys)[0] == xs[0] && (xs + ys)[1..] == xs[1..] + ys;
      HandleAllAppend(Handle(a, xs[0]), xs[1..], ys);
    }
  }

  /** One step of the handlers. */
  lemma HandleAllStep(a: Assembly, evs: seq<Event>)
    requires |evs| > 0
    ensures HandleAll(a, evs) == HandleAll(Handle(a, evs[0]), evs[1..])
  {
  }

  /** Entries already in the form data stay, in place and in order. */
  lemma {:induction false} EntriesKept(a: Assembly, evs: seq<Event>)
    ensures a.entries <= HandleAll(a, evs).entries
    decreases |evs|
  {
    if |evs| > 0 {
      EntriesKept(Handle(a, evs[0]), evs[1..]);
    }
  }

  /** Once a part has begun, data handlers stay installed. */
  lemma {:induction false} SinkStaysSet(a: Assembly, evs: seq<Event>)
    requires a.sink != Unset
    ensures HandleAll(a, evs).sink != Unset
    decreases |evs|
  {
    if |evs| > 0 {
      SinkStaysSet(Handle(a, evs[0]), evs[1..]);
    }
  }

  /** With the handlers installed, every `partEnd` appends exactly one entry
      and nothing else appends any. */
  lemma {:induction false} EntryPerPartEnd(a: Assembly, evs: seq<Event>)
    requires a.sink != Unset
    ensures |HandleAll(a, evs).entries| == |a.entries| + CountPartEnds(evs)
    decreases |evs|
  {
    if |evs| > 0 {
      var b := Handle(a, evs[0]);
      assert b.sink != Unset;
      assert |b.entries| == |a.entries| + if evs[0] == Event.PartEnd then 1 else 0;
      EntryPerPartEnd(b, evs[1..]);
    }
  }

  /** A trace that opens with `partBegin`, as the parser's do, yields one
      entry per `partEnd`. */
  lemma EntriesOfTrace(evs: seq<Event>)
    requires |evs| > 0 && evs[0] == PartBegin
    ensures |HandleAll(Fresh, evs).entries| == CountPartEnds(evs)
  {
    EntryPerPartEnd(Handle(Fresh, evs[0]), evs[1..]);
  }

  /** One `partData` event per chunk of data. */
  function DataEvents(data: seq<seq<byte>>): (evs: seq<Event>)
    ensures |evs| == |data| && forall k :: 0 <= k < |data| ==> evs[k] == Event.PartData(data[k])
  {
    seq(|data|, k requires 0 <= k < |data| => Event.PartData(data[k]))
  }

  /** The text handler collects the data of the part. */
  lemma {:induction false} TextData(a: Assembly, data: seq<seq<byte>>)
    requires a.sink == TextSink
    ensures HandleAll(a, DataEvents(data)) == a.(entryValue := a.entryValue + Concat(data))
    decreases |data|
  {
    if |data| == 0 {
      assert a.entryValue + Concat(data) == a.entryValue;
    } else {
      assert DataEvents(data)[1..] == DataEvents(data[1..]);
      var b := Handle(a, DataEvents(data)[0]);
      assert b == a.(entryValue := a.entryValue + data[0]);
      TextData(b, data[1..]);
      assert (a.entryValue + data[0]) + Concat(data[1..]) == a.entryValue + Concat(data);
    }
  }

  /** The file handler keeps each chunk of data. */
  lemma {:induction false} FileData(a: Assembly, data: seq<seq<byte>>)
    requires a.sink == FileSink
    ensures HandleAll(a, DataEvents(data)) == a.(entryChunks := a.entryChunks + data)
    decreases |data|
  {
    if |data| == 0 {
      assert a.entryChunks + data == a.entryChunks;
    } else {
      assert DataEvents(data)[1..] == DataEvents(data[1..]);
      var b := Handle(a, DataEvents(data)[0]);
      assert b == a.(entryChunks := a.entryChunks + [data[0]]);
      FileData(b, data[1..]);
      assert (a.entryChunks + [data[0]]) + data[1..] == a.entryChunks + data;
    }
  }

  /** The events of a part with one header `f: v` and the given data. */
  function PartEvents(f: seq<byte>, v: seq<byte>, data: seq<seq<byte>>): seq<Event> {
    [PartBegin, Event.HeaderField(f), Event.HeaderValue(v), Event.HeaderEnd, HeadersEnd] + DataEvents(data) + [Event.PartEnd]
  }

  /** The entry such a part yields: a file when the header is a
      `Content-Disposition` (in any case) whose file name is non-empty,
      text otherwise; the name is the `name` parameter of a disposition,
      else empty; a lone header leaves the file's type empty. */
  function PartEntry(f: seq<byte>, v: seq<byte>, data: seq<seq<byte>>): Entry {
    var value := Decode(v);
    var disposition := KindOf(AsciiLower(Decode(f))) == Disposition;
    var name := if disposition then NameParam(value).GetOr("") else "";
    var fname := FileName(value);
    if disposition && fname.Some? && fname.value != "" then
      FileEntry(name, File(Concat(data), fname, ""))
    else
      TextEntry(name, Concat(data))
  }

  /** The bytes of one header name and value are appended to the header
      strings. */
  lemma HeaderBytes(a: Assembly, f: seq<byte>, v: seq<byte>)
    ensures Handle(Handle(a, Event.HeaderField(f)), Event.HeaderValue(v))
            == a.(headerField := a.headerField + Decode(f), headerValue := a.headerValue + Decode(v))
  {
  }

  /** `headerEnd` then `headersEnd`: only `onHeaderEnd` runs. */
  lemma HeaderEndStep(c: Assembly)
    ensures HandleAll(c, [Event.HeaderEnd, HeadersEnd]) == HeaderEnded(c)
  {
    var evs := [Event.HeaderEnd, HeadersEnd];
    HandleAllStep(c, evs);
    assert evs[1..] == [HeadersEnd] && [HeadersEnd][1..] == [];
  }

  /** The header of a one-header part, as `onHeaderEnd` leaves it. */
  lemma OneHeader(a: Assembly, f: seq<byte>, v: seq<byte>)
    ensures HandleAll(a, [Event.HeaderField(f), Event.HeaderValue(v), Event.HeaderEnd, HeadersEnd])
            == HeaderEnded(a.(headerField := a.headerField + Decode(f), headerValue := a.headerValue + Decode(v)))
  {
    var c := a.(headerField := a.headerField + Decode(f), headerValue := a.headerValue + Decode(v));
    var evs := [Event.HeaderField(f), Event.HeaderValue(v), Event.HeaderEnd, HeadersEnd];
    HeaderBytes(a, f, v);
    HeaderEndStep(c);
    HandleAllStep(a, evs);
    HandleAllStep(Handle(a, evs[0]), evs[1..]);
    assert evs[0] == Event.HeaderField(f) && evs[1..][0] == Event.HeaderValue(v);
    assert evs[1..][1..] == [Event.HeaderEnd, HeadersEnd];
  }

  /** What `onHeaderEnd` leaves of the header strings, the entries, the
      collected data and the content type; the data handlers stay installed. */
  lemma HeaderEndedKeeps(a: Assembly)
    ensures var r := HeaderEnded(a);
            && r.headerField == AsciiLower(a.headerField) && r.headerValue == a.headerValue
            && r.entries == a.entries && r.entryValue == a.entryValue && r.entryChunks == a.entryChunks
            && r.contentType == (if KindOf(AsciiLower(a.headerField)) == ContentType then a.headerValue else a.contentType)
            && (a.sink != Unset ==> r.sink != Unset)
  {
  }

  /** The entry `onPartEnd` appends after the data of a part. */
  function EntryOf(b: Assembly, data: seq<seq<byte>>): Entry {
    if b.sink == FileSink then FileEntry(b.entryName, File(Concat(data), b.filename, b.contentType))
    else TextEntry(b.entryName, Concat(data))
  }

  /** The data of a part and its end: the installed handlers collect the
      data and append one entry. */
  lemma PartBody(b: Assembly, data: seq<seq<byte>>)
    requires b.sink != Unset && b.entryValue == [] && b.entryChunks == []
    ensures HandleAll(b, DataEvents(data) + [Event.PartEnd]).entries == b.entries + [EntryOf(b, data)]
  {
    HandleAllAppend(b, DataEvents(data), [Event.PartEnd]);
    if b.sink == FileSink {
      FileBody(b, data);
    } else {
      TextBody(b, data);
    }
  }

  lemma FileBody(b: Assembly, data: seq<seq<byte>>)
    requires b.sink == FileSink && b.entryChunks == []
    ensures HandleAll(HandleAll(b, DataEvents(data)), [Event.PartEnd]).entries
            == b.entries + [FileEntry(b.entryName, File(Concat(data), b.filename, b.contentType))]
  {
    FileData(b, data);
    assert b.entryChunks + data == data;
    HandleOne(b.(entryChunks := data), Event.PartEnd);
  }

  lemma TextBody(b: Assembly, data: seq<seq<byte>>)
    requires b.sink == TextSink && b.entryValue == []
    ensures HandleAll(HandleAll(b, DataEvents(data)), [Event.PartEnd]).entries
            == b.entries + [TextEntry(b.entryName, Concat(data))]
  {
    TextData(b, data);
    assert b.entryValue + Concat(data) == Concat(data);
    HandleOne(b.(entryValue := Concat(data)), Event.PartEnd);
  }

  /** A single event. */
  lemma HandleOne(a: Assembly, e: Event)
    ensures HandleAll(a, [e]) == Handle(a, e)
  {
    assert [e][1..] == [];
  }

  /** After the header of a fresh part, the entry appended is the one
      `PartEntry` describes. */
  lemma HeaderEntry(c: Assembly, f: seq<byte>, v: seq<byte>, data: seq<seq<byte>>)
    requires c.headerField == Decode(f) && c.headerValue == Decode(v)
    requires c.sink == TextSink && c.entryName == "" && c.contentType == ""
    ensures EntryOf(HeaderEnded(c), data) == PartEntry(f, v, data)
  {
  }

  /** A part with one header yields exactly the entry `PartEntry` describes. */
  lemma OnePart(a: Assembly, f: seq<byte>, v: seq<byte>, data: seq<seq<byte>>)
    ensures HandleAll(a, PartEvents(f, v, data)).entries == a.entries + [PartEntry(f, v, data)]
  {
    var heads := [Event.HeaderField(f), Event.HeaderValue(v), Event.HeaderEnd, HeadersEnd];
    var rest := DataEvents(data) + [Event.PartEnd];
    var evs := PartEvents(f, v, data);
    assert evs[0] == PartBegin && evs[1..] == heads + rest;
    var a0 := Handle(a, PartBegin);
    HandleAllStep(a, evs);
    HandleAllAppend(a0, heads, rest);
    OneHeader(a0, f, v);
    assert a0.headerField + Decode(f) == Decode(f) && a0.headerValue + Decode(v) == Decode(v);
    var c := a0.(headerField := Decode(f), headerValue := Decode(v));
    assert HandleAll(a0, heads) == HeaderEnded(c);
    HeaderEndedKeeps(c);
    PartBody(HeaderEnded(c), data);
    HeaderEntry(c, f, v, data);
  }

  /** Lower-casing the first header name before the second is appended
      changes nothing: the name compared at the second header's end is the
      lower-cased concatenation of both names. */
  lemma LowerConcat(x: string, y: string)
    ensures AsciiLower(AsciiLower(x) + y) == AsciiLower(x + y)
  {
    assert forall k :: 0 <= k < |x| + |y| ==>
      AsciiLower(AsciiLower(x) + y)[k] == AsciiLower(x + y)[k] by {
      forall k | 0 <= k < |x| + |y|
        ensures AsciiLower(AsciiLower(x) + y)[k] == AsciiLower(x + y)[k]
      {
        if k < |x| {
          assert (AsciiLower(x) + y)[k] == AsciiLowerChar(x[k]);
          assert (x + y)[k] == x[k];
        } else {
          assert (AsciiLower(x) + y)[k] == y[k - |x|] == (x + y)[k];
        }
      }
    }
  }

  /** One header and its end. */
  lemma HeaderThenEnd(a: Assembly, f: seq<byte>, v: seq<byte>)
    ensures HandleAll(a, [Event.HeaderField(f), Event.HeaderValue(v), Event.HeaderEnd])
            == HeaderEnded(a.(headerField := a.headerField + Decode(f), headerValue := a.headerValue + Decode(v)))
  {
    var c := a.(headerField := a.headerField + Decode(f), headerValue := a.headerValue + Decode(v));
    var pair := [Event.HeaderField(f), Event.HeaderValue(v)];
    assert pair + [Event.HeaderEnd] == [Event.HeaderField(f), Event.HeaderValue(v), Event.HeaderEnd];
    HandleAllAppend(a, pair, [Event.HeaderEnd]);
    HeaderPair(a, f, v);
    HandleOne(c, Event.HeaderEnd);
    HeaderEndHandled(c);
    assert HandleAll(a, pair + [Event.HeaderEnd]) == HandleAll(c, [Event.HeaderEnd]);
  }

  /** The handler of `headerEnd`. */
  lemma HeaderEndHandled(c: Assembly)
    ensures Handle(c, Event.HeaderEnd) == HeaderEnded(c)
  {
  }

  /** A header name and its value. */
  lemma HeaderPair(a: Assembly, f: seq<byte>, v: seq<byte>)
    ensures HandleAll(a, [Event.HeaderField(f), Event.HeaderValue(v)])
            == a.(headerField := a.headerField + Decode(f), headerValue := a.headerValue + Decode(v))
  {
    var pair := [Event.HeaderField(f), Event.HeaderValue(v)];
    HeaderBytes(a, f, v);
    HandleAllStep(a, pair);
    assert pair[1..] == [Event.HeaderValue(v)];
    HandleOne(Handle(a, Event.HeaderField(f)), Event.HeaderValue(v));
  }

  /** Two headers of a part, each with its end. */
  lemma TwoHeaders(a: Assembly, f1: seq<byte>, v1: seq<byte>, f2: seq<byte>, v2: seq<byte>)
    ensures var c1 := a.(headerField := a.headerField + Decode(f1), headerValue := a.headerValue + Decode(v1));
            var a2 := HeaderEnded(c1);
            HandleAll(a, [Event.HeaderField(f1), Event.HeaderValue(v1), Event.HeaderEnd,
                          Event.HeaderField(f2), Event.HeaderValue(v2), Event.HeaderEnd])
            == HeaderEnded(a2.(headerField := a2.headerField + Decode(f2), headerValue := a2.headerValue + Decode(v2)))
  {
    var first := [Event.HeaderField(f1), Event.HeaderValue(v1), Event.HeaderEnd];
    var second := [Event.HeaderField(f2), Event.HeaderValue(v2), Event.HeaderEnd];
    assert first + second == [Event.HeaderField(f1), Event.HeaderValue(v1), Event.HeaderEnd,
                              Event.HeaderField(f2), Event.HeaderValue(v2), Event.HeaderEnd];
    HandleAllAppend(a, first, second);
    HeaderThenEnd(a, f1, v1);
    var c1 := a.(headerField := a.headerField + Decode(f1), headerValue := a.headerValue + Decode(v1));
    HeaderThenEnd(HeaderEnded(c1), f2, v2);
  }

  /** Header strings are reset only by `partBegin`: a second header is
      judged by the concatenation of both names and both values. */
  lemma SecondHeader(a: Assembly, f1: seq<byte>, v1: seq<byte>, f2: seq<byte>, v2: seq<byte>)
    requires a.headerField == "" && a.headerValue == ""
    ensures var r := HandleAll(a, [Event.HeaderField(f1), Event.HeaderValue(v1), Event.HeaderEnd,
                                   Event.HeaderField(f2), Event.HeaderValue(v2), Event.HeaderEnd]);
            r.headerField == AsciiLower(Decode(f1) + Decode(f2)) && r.headerValue == Decode(v1) + Decode(v2)
  {
    TwoHeaders(a, f1, v1, f2, v2);
    var c1 := a.(headerField := a.headerField + Decode(f1), headerValue := a.headerValue + Decode(v1));
    assert c1.headerField == Decode(f1) && c1.headerValue == Decode(v1);
    HeaderEndedKeeps(c1);
    var a2 := HeaderEnded(c1);
    var c2 := a2.(headerField := a2.headerField + Decode(f2), headerValue := a2.headerValue + Decode(v2));
    HeaderEndedKeeps(c2);
    LowerConcat(Decode(f1), Decode(f2));
  }

  /** So a `Content-Type` that follows a `Content-Disposition` is never
      recognised: the compared name is `content-dispositioncontent-type`. */
  lemma TypeAfterDispositionIgnored(a: Assembly, f1: seq<byte>, v1: seq<byte>, f2: seq<byte>, v2: seq<byte>)
    requires a.headerField == "" && a.headerValue == ""
    requires AsciiLower(Decode(f1)) == "content-disposition" && |f2| > 0
    ensures var r := HandleAll(a, [Event.HeaderField(f1), Event.HeaderValue(v1), Event.HeaderEnd,
                                   Event.HeaderField(f2), Event.HeaderValue(v2), Event.HeaderEnd]);
            r.contentType == a.contentType
  {
    TwoHeaders(a, f1, v1, f2, v2);
    var c1 := a.(headerField := a.headerField + Decode(f1), headerValue := a.headerValue + Decode(v1));
    assert c1.headerField == Decode(f1);
    HeaderEndedKeeps(c1);
    var a2 := HeaderEnded(c1);
    assert a2.contentType == a.contentType && a2.headerField == "content-disposition";
    var c2 := a2.(headerField := a2.headerField + Decode(f2), headerValue := a2.headerValue + Decode(v2));
    HeaderEndedKeeps(c2);
    assert |AsciiLower(c2.headerField)| > 19;
  }

  /** Lower-casing distributes over concatenation. */
  lemma LowerAppend(x: string, y: string)
    ensures AsciiLower(x + y) == AsciiLower(x) + AsciiLower(y)
  {
    assert forall k :: 0 <= k < |x| + |y| ==> AsciiLower(x + y)[k] == (AsciiLower(x) + AsciiLower(y))[k] by {
      forall k | 0 <= k < |x| + |y|
        ensures AsciiLower(x + y)[k] == (AsciiLower(x) + AsciiLower(y))[k]
      {
        if k < |x| {
          assert (x + y)[k] == x[k];
        } else {
          assert (x + y)[k] == y[k - |x|];
        }
      }
    }
  }

  /** A lower-case prefix survives lower-casing. */
  lemma LowerKeepsPrefix(p: string, s: string)
    requires AsciiLower(p) == p && p <= s
    ensures p <= AsciiLower(s)
  {
    forall k | 0 <= k < |p|
      ensures AsciiLower(s)[k] == p[k]
    {
      assert s[k] == p[k];
      assert AsciiLower(p)[k] == AsciiLowerChar(p[k]);
    }
    assert AsciiLower(s)[..|p|] == p;
  }

  /** Lower-cased text is its own lower case. */
  lemma LowerIdempotent(s: string)
    ensures AsciiLower(AsciiLower(s)) == AsciiLower(s)
  {
    forall k | 0 <= k < |s|
      ensures AsciiLower(AsciiLower(s))[k] == AsciiLower(s)[k]
    {
      assert AsciiLowerChar(AsciiLowerChar(s[k])) == AsciiLowerChar(s[k]);
    }
  }

  /** The events of the headers `hs` of a part, each name, value and end in
      turn. */
  function HeaderEvents(hs: seq<(seq<byte>, seq<byte>)>): seq<Event>
    decreases |hs|
  {
    if |hs| == 0 then []
    else [Event.HeaderField(hs[0].0), Event.HeaderValue(hs[0].1), Event.HeaderEnd] + HeaderEvents(hs[1..])
  }

  /** The events of a part with the headers `hs` and the given data. */
  function HeadersPart(hs: seq<(seq<byte>, seq<byte>)>, data: seq<seq<byte>>): seq<Event> {
    [PartBegin] + HeaderEvents(hs) + [HeadersEnd] + DataEvents(data) + [Event.PartEnd]
  }

  /** Once the accumulated header name is at least as long as
      `content-disposition`, every further header with a non-empty name is
      recognised as neither keyword: only the header strings change. */
  lemma {:induction false} LaterHeadersIgnored(a: Assembly, hs: seq<(seq<byte>, seq<byte>)>)
    requires |a.headerField| >= 19
    requires forall k :: 0 <= k < |hs| ==> |hs[k].0| > 0
    ensures var r := HandleAll(a, HeaderEvents(hs));
            r.(headerField := a.headerField, headerValue := a.headerValue) == a && |r.headerField| >= 19
    decreases |hs|
  {
    if |hs| > 0 {
      var f, v := hs[0].0, hs[0].1;
      var three := [Event.HeaderField(f), Event.HeaderValue(v), Event.HeaderEnd];
      assert HeaderEvents(hs) == three + HeaderEvents(hs[1..]);
      HandleAllAppend(a, three, HeaderEvents(hs[1..]));
      HeaderThenEnd(a, f, v);
      var c := a.(headerField := a.headerField + Decode(f), headerValue := a.headerValue + Decode(v));
      assert |AsciiLower(c.headerField)| >= 20;
      assert KindOf(AsciiLower(c.headerField)) == OtherHeader;
      var b := HeaderEnded(c);
      assert b == c.(headerField := AsciiLower(c.headerField));
      LaterHeadersIgnored(b, hs[1..]);
    }
  }

  /** While the accumulated header name starts with a lower-case text that
      does not begin `content-disposition`, no header is recognised as a
      disposition: the handlers, the entry name and the collected data stay. */
  lemma {:induction false} LaterHeadersNoDisposition(a: Assembly, hs: seq<(seq<byte>, seq<byte>)>, p: string)
    requires AsciiLower(p) == p && p <= a.headerField && !(p <= "content-disposition")
    ensures var r := HandleAll(a, HeaderEvents(hs));
            && p <= r.headerField && r.sink == a.sink && r.entryName == a.entryName
            && r.entries == a.entries && r.entryValue == a.entryValue && r.entryChunks == a.entryChunks
    decreases |hs|
  {
    if |hs| > 0 {
      var f, v := hs[0].0, hs[0].1;
      var three := [Event.HeaderField(f), Event.HeaderValue(v), Event.HeaderEnd];
      assert HeaderEvents(hs) == three + HeaderEvents(hs[1..]);
      HandleAllAppend(a, three, HeaderEvents(hs[1..]));
      HeaderThenEnd(a, f, v);
      var c := a.(headerField := a.headerField + Decode(f), headerValue := a.headerValue + Decode(v));
      assert c.headerField[..|p|] == a.headerField[..|p|];
      LowerKeepsPrefix(p, c.headerField);
      var lf := AsciiLower(c.headerField);
      assert lf != "content-disposition";
      HeaderEndedKeeps(c);
      var b := HeaderEnded(c);
      assert b.sink == c.sink && b.entryName == c.entryName;
      LaterHeadersNoDisposition(b, hs[1..], p);
    }
  }

  /** The first header of a part, after `partBegin`. */
  lemma FirstHeader(a: Assembly, f1: seq<byte>, v1: seq<byte>, hs: seq<(seq<byte>, seq<byte>)>, data: seq<seq<byte>>)
    ensures var c1 := Handle(a, PartBegin).(headerField := Decode(f1), headerValue := Decode(v1));
            HandleAll(a, HeadersPart([(f1, v1)] + hs, data))
            == HandleAll(HandleAll(HeaderEnded(c1), HeaderEvents(hs)), DataEvents(data) + [Event.PartEnd])
  {
    var a0 := Handle(a, PartBegin);
    var three := [Event.HeaderField(f1), Event.HeaderValue(v1), Event.HeaderEnd];
    var body := DataEvents(data) + [Event.PartEnd];
    var tail := HeaderEvents(hs) + ([HeadersEnd] + body);
    assert ([(f1, v1)] + hs)[1..] == hs;
    assert HeaderEvents([(f1, v1)] + hs) == three + HeaderEvents(hs);
    var evs := HeadersPart([(f1, v1)] + hs, data);
    assert evs == [PartBegin] + (three + tail);
    HandleAllStep(a, evs);
    assert evs[1..] == three + tail;
    HandleAllAppend(a0, three, tail);
    HeaderThenEnd(a0, f1, v1);
    assert a0.headerField + Decode(f1) == Decode(f1) && a0.headerValue + Decode(v1) == Decode(v1);
    var a2 := HeaderEnded(a0.(headerField := Decode(f1), headerValue := Decode(v1)));
    HandleAllAppend(a2, HeaderEvents(hs), [HeadersEnd] + body);
    var a3 := HandleAll(a2, HeaderEvents(hs));
    HandleAllStep(a3, [HeadersEnd] + body);
    assert ([HeadersEnd] + body)[1..] == body;
  }

  /** A part whose first header is a `Content-Disposition` with a non-empty
      file name yields a file, whatever headers with non-empty names follow:
      the entry takes the disposition's `name`, the collected data, that file
      name and an empty type, since a later `Content-Type` is never
      recognised. */
  lemma DispositionFirstFile(a: Assembly, f1: seq<byte>, v1: seq<byte>, hs: seq<(seq<byte>, seq<byte>)>,
                             data: seq<seq<byte>>, x: string)
    requires AsciiLower(Decode(f1)) == "content-disposition"
    requires FileName(Decode(v1)) == Some(x) && x != ""
    requires forall k :: 0 <= k < |hs| ==> |hs[k].0| > 0
    ensures HandleAll(a, HeadersPart([(f1, v1)] + hs, data)).entries
            == a.entries + [FileEntry(NameParam(Decode(v1)).GetOr(""), File(Concat(data), Some(x), ""))]
  {
    FirstHeader(a, f1, v1, hs, data);
    var c1 := Handle(a, PartBegin).(headerField := Decode(f1), headerValue := Decode(v1));
    var a2 := HeaderEnded(c1);
    assert KindOf(AsciiLower(c1.headerField)) == Disposition;
    assert a2.sink == FileSink && a2.headerField == "content-disposition";
    assert a2.entryName == NameParam(Decode(v1)).GetOr("") && a2.filename == Some(x) && a2.contentType == "";
    assert a2.entries == a.entries && a2.entryValue == [] && a2.entryChunks == [];
    LaterHeadersIgnored(a2, hs);
    var a3 := HandleAll(a2, HeaderEvents(hs));
    PartBody(a3, data);
  }

  /** A part whose first header is a `Content-Disposition` with no file
      name, or an empty one, yields a text entry with the disposition's
      `name` and the collected data, whatever headers with non-empty names
      follow. */
  lemma DispositionFirstText(a: Assembly, f1: seq<byte>, v1: seq<byte>, hs: seq<(seq<byte>, seq<byte>)>,
                             data: seq<seq<byte>>)
    requires AsciiLower(Decode(f1)) == "content-disposition"
    requires FileName(Decode(v1)).GetOr("") == ""
    requires forall k :: 0 <= k < |hs| ==> |hs[k].0| > 0
    ensures HandleAll(a, HeadersPart([(f1, v1)] + hs, data)).entries
            == a.entries + [TextEntry(NameParam(Decode(v1)).GetOr(""), Concat(data))]
  {
    FirstHeader(a, f1, v1, hs, data);
    var c1 := Handle(a, PartBegin).(headerField := Decode(f1), headerValue := Decode(v1));
    var a2 := HeaderEnded(c1);
    assert KindOf(AsciiLower(c1.headerField)) == Disposition;
    assert a2.sink == TextSink && a2.headerField == "content-disposition";
    assert a2.entryName == NameParam(Decode(v1)).GetOr("");
    assert a2.entries == a.entries && a2.entryValue == [] && a2.entryChunks == [];
    LaterHeadersIgnored(a2, hs);
    var a3 := HandleAll(a2, HeaderEvents(hs));
    PartBody(a3, data);
  }

  /** A part whose first header name, lower-cased, does not begin
      `content-disposition` yields a text entry with an empty name, whatever
      headers follow. */
  lemma OtherFirstText(a: Assembly, f1: seq<byte>, v1: seq<byte>, hs: seq<(seq<byte>, seq<byte>)>,
                       data: seq<seq<byte>>)
    requires !(AsciiLower(Decode(f1)) <= "content-disposition")
    ensures HandleAll(a, HeadersPart([(f1, v1)] + hs, data)).entries == a.entries + [TextEntry("", Concat(data))]
  {
    FirstHeader(a, f1, v1, hs, data);
    var c1 := Handle(a, PartBegin).(headerField := Decode(f1), headerValue := Decode(v1));
    var p := AsciiLower(Decode(f1));
    assert KindOf(p) != Disposition;
    var a2 := HeaderEnded(c1);
    assert a2.sink == TextSink && a2.entryName == "" && a2.headerField == p;
    assert a2.entries == a.entries && a2.entryValue == [] && a2.entryChunks == [];
    LowerIdempotent(Decode(f1));
    LaterHeadersNoDisposition(a2, hs, p);
    var a3 := HandleAll(a2, HeaderEvents(hs));
    PartBody(a3, data);
  }

  /** Because the header name is never reset between headers and a name may
      begin with `-`, a disposition can be spread over two headers:
      `Content` followed by `-Disposition` is recognised, and the file name
      is taken from the two values run together. */
  lemma DispositionAcrossHeaders(a: Assembly, f1: seq<byte>, v1: seq<byte>, f2: seq<byte>, v2: seq<byte>, x: string)
    requires a.headerField == "" && a.headerValue == ""
    requires AsciiLower(Decode(f1)) == "content" && AsciiLower(Decode(f2)) == "-disposition"
    requires FileName(Decode(v1) + Decode(v2)) == Some(x) && x != ""
    ensures var r := HandleAll(a, [Event.HeaderField(f1), Event.HeaderValue(v1), Event.HeaderEnd,
                                   Event.HeaderField(f2), Event.HeaderValue(v2), Event.HeaderEnd]);
            r.sink == FileSink && r.filename == Some(x)
  {
    ContentThenHeader(a, f1, v1, f2, v2);
    DispositionJoined(Decode(f2));
    DispositionEnded(a.(headerField := "content" + Decode(f2), headerValue := Decode(v1) + Decode(v2)), x);
  }

  /** A first header named `content` is stored lower-cased and nothing
      else changes, so the second header's end sees `content` followed by
      the second name, and both values. */
  lemma ContentThenHeader(a: Assembly, f1: seq<byte>, v1: seq<byte>, f2: seq<byte>, v2: seq<byte>)
    requires a.headerField == "" && a.headerValue == ""
    requires AsciiLower(Decode(f1)) == "content"
    ensures HandleAll(a, [Event.HeaderField(f1), Event.HeaderValue(v1), Event.HeaderEnd,
                          Event.HeaderField(f2), Event.HeaderValue(v2), Event.HeaderEnd])
            == HeaderEnded(a.(headerField := "content" + Decode(f2), headerValue := Decode(v1) + Decode(v2)))
  {
    TwoHeaders(a, f1, v1, f2, v2);
    var c1 := a.(headerField := a.headerField + Decode(f1), headerValue := a.headerValue + Decode(v1));
    assert c1.headerField == Decode(f1) && c1.headerValue == Decode(v1);
    assert KindOf(AsciiLower(c1.headerField)) == OtherHeader;
    assert HeaderEnded(c1) == c1.(headerField := "content");
  }

  /** `content` followed by a name that lower-cases to `-disposition`
      lower-cases to `content-disposition`. */
  lemma DispositionJoined(y: string)
    requires AsciiLower(y) == "-disposition"
    ensures AsciiLower("content" + y) == "content-disposition"
  {
    LowerAppend("content", y);
    assert AsciiLower("content") == "content";
  }

  /** A disposition with a non-empty file name switches to the file
      handlers at its end. */
  lemma DispositionEnded(c: Assembly, x: string)
    requires AsciiLower(c.headerField) == "content-disposition"
    requires FileName(c.headerValue) == Some(x) && x != ""
    ensures HeaderEnded(c).sink == FileSink && HeaderEnded(c).filename == Some(x)
  {
  }

  /** A header name holding a character outside ASCII is neither keyword
      after lower-casing, since lower-casing keeps that character. */
  lemma NonAsciiNoKeyword(s: string, k: int)
    requires 0 <= k < |s| && s[k] as int >= 128
    ensures KindOf(AsciiLower(s)) == OtherHeader
  {
    assert AsciiLower(s)[k] == s[k];
    assert forall q :: 0 <= q < |"content-disposition"| ==> "content-disposition"[q] as int < 128;
    assert forall q :: 0 <= q < |"content-type"| ==> "content-type"[q] as int < 128;
  }
}
