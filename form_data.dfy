/** `toFormData` (src/utils/multipart-parser.js:343-436): it checks the
    content type, builds a `MultipartParser` for its boundary, feeds it the
    chunks of the body and turns the parser's events into an ordered list of
    form entries.  The handlers of the source share the closure variables of
    `toFormData`; here they are the fields of a `FormAssembler`, and what
    each handler does to them is the function `Handle`. */
module FormData {
  import opened Wrappers
  import opened Bytes
  import opened Multipart
  import opened HeaderParams

  /** A `File` of fetch-blob: its bytes, its name (`None` for `undefined`
      or `null`) and its type. */
  datatype File = File(bytes: seq<byte>, name: Option<string>, contentType: string)

  /** One `fd.append(name, value)`. */
  datatype Entry =
    | TextEntry(name: string, value: seq<byte>)
    | FileEntry(name: string, file: File)

  /** The handlers installed as `parser.onPartData` / `parser.onPartEnd`:
      none before the first part, the text pair after `onPartBegin`, the
      file pair once a file name is seen. */
  datatype Sink = Unset | TextSink | FileSink

  /** The closure variables of `toFormData`, the installed data handlers and
      the entries of the `FormData`. */
  datatype Assembly = Assembly(
    headerField: string,
    headerValue: string,
    entryValue: seq<byte>,
    entryName: string,
    contentType: string,
    filename: Option<string>,
    entryChunks: seq<seq<byte>>,
    sink: Sink,
    entries: seq<Entry>)

  const Fresh: Assembly := Assembly("", "", [], "", "", None, [], Unset, [])

  /** The text of header bytes. */
  function Decode(bs: seq<byte>): string {
    Latin1(bs)
  }

  function Concat(chunks: seq<seq<byte>>): seq<byte> {
    if |chunks| == 0 then [] else chunks[0] + Concat(chunks[1..])
  }

  /** The headers `onHeaderEnd` recognises, by their lower-cased name. */
  datatype HeaderKind = Disposition | ContentType | OtherHeader

  function KindOf(field: string): HeaderKind {
    if field == "content-disposition" then Disposition
    else if field == "content-type" then ContentType
    else OtherHeader
  }

  /** `onHeaderEnd`: the accumulated header name is lower-cased and stored
      back; a `content-disposition` header sets the entry name and the file
      name and switches to the file handlers when that name is non-empty;
      a `content-type` header sets the content type. */
  function HeaderEnded(a: Assembly): Assembly {
    var field := AsciiLower(a.headerField);
    var name := NameParam(a.headerValue);
    if KindOf(field) == Disposition then
      var fname := FileName(a.headerValue);
      a.(headerField := field,
         entryName := if name.Some? then name.value else a.entryName,
         filename := fname,
         sink := if fname.Some? && fname.value != "" then FileSink else a.sink)
    else if KindOf(field) == ContentType then
      a.(headerField := field, contentType := a.headerValue)
    else
      a.(headerField := field)
  }

  /** What the handler of one event does; events without a handler
      (`headersEnd`, `end`, and data before the first part) change nothing. */
  function Handle(a: Assembly, e: Event): Assembly {
    match e
    case PartBegin =>
      a.(sink := TextSink, headerField := "", headerValue := "", entryValue := [], entryName := "",
         contentType := "", filename := None, entryChunks := [])
    case HeaderField(bs) => a.(headerField := a.headerField + Decode(bs))
    case HeaderValue(bs) => a.(headerValue := a.headerValue + Decode(bs))
    case HeaderEnd => HeaderEnded(a)
    case HeadersEnd => a
    case PartData(bs) =>
      (match a.sink
       case Unset => a
       case TextSink => a.(entryValue := a.entryValue + bs)
       case FileSink => a.(entryChunks := a.entryChunks + [bs]))
    case PartEnd =>
      (match a.sink
       case Unset => a
       case TextSink => a.(entries := a.entries + [TextEntry(a.entryName, a.entryValue)])
       case FileSink =>
         a.(entries := a.entries + [FileEntry(a.entryName, File(Concat(a.entryChunks), a.filename, a.contentType))]))
    case End => a
  }

  /** The handlers run over a sequence of events, in order. */
  function HandleAll(a: Assembly, evs: seq<Event>): Assembly
    decreases |evs|
  {
    if |evs| == 0 then a else HandleAll(Handle(a, evs[0]), evs[1..])
  }

  /** Why `toFormData` throws. */
  datatype FetchError =
    | FailedToFetch  // TypeError('Failed to fetch')
    | NoBoundary     // TypeError('no or bad content-type header, no multipart boundary')

  /** A new parser as a machine. */
  function Initial(bd: seq<byte>): (m: Machine)
    requires |bd| >= 4
    ensures Consistent(bd, m)
  {
    Machine(Start, 0, false, false, None, None, None, seq(|bd| + 8, _ => 0), [])
  }

  /** `parser.write(chunk)` for each chunk in turn, each result ignored. */
  function FeedChunks(bd: seq<byte>, m: Machine, chunks: seq<seq<byte>>): (r: Machine)
    requires Consistent(bd, m)
    ensures Consistent(bd, r)
    decreases |chunks|
  {
    if |chunks| == 0 then m
    else Feed(bd, FeedChunks(bd, m, chunks[..|chunks| - 1]), chunks[|chunks| - 1]).1
  }

  /** The events a parser for `token` raises on the body and its end. */
  function Parse(token: string, body: seq<seq<byte>>): seq<Event> {
    var bd := Delimiter(token);
    Close(bd, FeedChunks(bd, Initial(bd), body)).1.events
  }

  /** The closure state of `toFormData` as an object whose fields the
      handlers update. */
  class FormAssembler {
    var headerField: string
    var headerValue: string
    var entryValue: seq<byte>
    var entryName: string
    var contentType: string
    var filename: Option<string>
    var entryChunks: seq<seq<byte>>
    var sink: Sink
    var entries: seq<Entry>

    function Snapshot(): Assembly
      reads this
    {
      Assembly(headerField, headerValue, entryValue, entryName, contentType, filename, entryChunks, sink, entries)
    }

    constructor ()
      ensures Snapshot() == Fresh
    {
      headerField, headerValue, entryValue, entryName, contentType := "", "", [], "", "";
      filename, entryChunks, sink, entries := None, [], Unset, [];
    }

    method OnPartBegin()
      modifies this
      ensures Snapshot() == Handle(old(Snapshot()), PartBegin)
    {
      sink := TextSink;
      headerField, headerValue, entryValue, entryName, contentType := "", "", [], "", "";
      filename := None;
      entryChunks := [];
    }

    method OnHeaderEnd()
      modifies this
      ensures Snapshot() == HeaderEnded(old(Snapshot()))
    {
      ghost var a := Snapshot();
      var field := AsciiLower(headerField);
      var name := NameParam(headerValue);
      headerField := field;
      var kind := KindOf(field);
      if kind == Disposition {
        var fname := FileName(headerValue);
        if name.Some? {
          entryName := name.value;
        }
        filename := fname;
        if fname.Some? && fname.value != "" {
          sink := FileSink;
        }
      } else if kind == ContentType {
        contentType := headerValue;
      }
    }

    method OnPartData(bs: seq<byte>)
      modifies this
      ensures Snapshot() == Handle(old(Snapshot()), Event.PartData(bs))
    {
      match sink
      case Unset =>
      case TextSink => entryValue := entryValue + bs;
      case FileSink => entryChunks := entryChunks + [bs];
    }

    method OnPartEnd()
      modifies this
      ensures Snapshot() == Handle(old(Snapshot()), Event.PartEnd)
    {
      match sink
      case Unset =>
      case TextSink => entries := entries + [TextEntry(entryName, entryValue)];
      case FileSink =>
        var file := File(Concat(entryChunks), filename, contentType);
        entries := entries + [FileEntry(entryName, file)];
    }

    /** The handler the parser calls for one event, if there is one. */
    method Deliver(e: Event)
      modifies this
      ensures Snapshot() == Handle(old(Snapshot()), e)
    {
      match e
      case PartBegin => OnPartBegin();
      case HeaderField(bs) => headerField := headerField + Decode(bs);
      case HeaderValue(bs) => headerValue := headerValue + Decode(bs);
      case HeaderEnd => OnHeaderEnd();
      case HeadersEnd =>
      case PartData(bs) => OnPartData(bs);
      case PartEnd => OnPartEnd();
      case End =>
    }
  }

  lemma {:induction false} HandleAllSnoc(a: Assembly, evs: seq<Event>, e: Event)
    ensures HandleAll(a, evs + [e]) == Handle(HandleAll(a, evs), e)
    decreases |evs|
  {
    if |evs| > 0 {
      assert (evs + [e])[1..] == evs[1..] + [e];
      HandleAllSnoc(Handle(a, evs[0]), evs[1..], e);
    }
  }

  /** The `for await` loop: every chunk written, every result ignored. */
  method WriteAll(parser: MultipartParser, body: seq<seq<byte>>)
    requires parser.Valid()
    modifies parser`state, parser`index, parser`partBoundary, parser`lastBoundary
    modifies parser`events, parser`headerFieldMark, parser`headerValueMark, parser`partDataMark, parser.lookbehind
    ensures parser.Valid()
    ensures parser.Snapshot() == FeedChunks(parser.boundary, old(parser.Snapshot()), body)
  {
    ghost var m0 := parser.Snapshot();
    var j := 0;
    while j < |body|
      invariant 0 <= j <= |body|
      invariant parser.Valid() && parser.Snapshot() == FeedChunks(parser.boundary, m0, body[..j])
    {
      var _ := parser.Write(body[j]);
      assert body[..j + 1][..j] == body[..j];
      j := j + 1;
    }
    assert body[..j] == body;
  }

  /** The handlers called for each event of a trace, in order, starting
      from a fresh closure. */
  method Assemble(events: seq<Event>) returns (entries: seq<Entry>)
    ensures entries == HandleAll(Fresh, events).entries
  {
    var fd := new FormAssembler();
    var k := 0;
    while k < |events|
      invariant 0 <= k <= |events|
      invariant fd.Snapshot() == HandleAll(Fresh, events[..k])
    {
      fd.Deliver(events[k]);
      HandleAllSnoc(Fresh, events[..k], events[k]);
      assert events[..k + 1] == events[..k] + [events[k]];
      k := k + 1;
    }
    assert events[..k] == events;
    return fd.entries;
  }

  /** `toFormData(Body, ct)`: the entries assembled from the body, or the
      error it throws. */
  method ToFormData(body: seq<seq<byte>>, ct: string) returns (r: Result<seq<Entry>, FetchError>)
    ensures !IsMultipart(ct) ==> r == Failure(FailedToFetch)
    ensures IsMultipart(ct) && BoundaryParam(ct).None? ==> r == Failure(NoBoundary)
    ensures IsMultipart(ct) && BoundaryParam(ct).Some? ==>
              r == Success(HandleAll(Fresh, Parse(BoundaryParam(ct).value, body)).entries)
  {
    if !IsMultipart(ct) {
      return Failure(FailedToFetch);
    }
    var token := BoundaryParam(ct);
    if token.None? {
      return Failure(NoBoundary);
    }
    var parser := new MultipartParser(token.value);
    ghost var bd := parser.boundary;
    assert parser.Snapshot() == Initial(bd);
    WriteAll(parser, body);
    var _ := parser.End();
    assert parser.events == Parse(token.value, body);
    var entries := Assemble(parser.events);
    return Success(entries);
  }
}
