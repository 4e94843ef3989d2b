/** The header parameters `toFormData` and `_fileName` pick out of a
    `Content-Type` or `Content-Disposition` value with a fixed regular
    expression each (src/utils/multipart-parser.js:329, :345-346, :405).
    Every pattern is written out as a scanner over the string: the search
    tries each position from the left and takes the first one where the
    pattern matches, as a JavaScript regular expression without the `g`
    flag does.  All patterns carry the `i` flag: their literal words match
    in either case. */
module HeaderParams {
  import opened Wrappers
  import opened Bytes

  /** `\w`: the ASCII letters, the digits and `_`. */
  predicate IsWordChar(ch: char) {
    'a' <= ch <= 'z' || 'A' <= ch <= 'Z' || '0' <= ch <= '9' || ch == '_'
  }

  /** `\s`: the white space and line terminators of ECMAScript. */
  predicate IsSpace(ch: char) {
    var c := ch as int;
    || 9 <= c <= 13 || c == 0x20 || c == 0xA0 || c == 0x1680
    || 0x2000 <= c <= 0x200A || c == 0x2028 || c == 0x2029
    || c == 0x202F || c == 0x205F || c == 0x3000 || c == 0xFEFF
  }

  /** What `.` refuses to match: the four line terminators. */
  predicate IsLineTerminator(ch: char) {
    var c := ch as int;
    c == 10 || c == 13 || c == 0x2028 || c == 0x2029
  }

  /** The class `[^()<>@,;:\\"/[\]?={}\s\t]` of token characters
      (section 2.2 of RFC 2616). */
  predicate IsTokenChar(ch: char) {
    ch !in "()<>@,;:\\\"/[]?={}" && !IsSpace(ch)
  }

  /** `\b` in front of a word character at `p`: the character before it,
      if any, is not a word character. */
  predicate WordStart(s: string, p: int)
    requires 0 <= p <= |s|
  {
    p == 0 || !IsWordChar(s[p - 1])
  }

  /** The lower-case literal `lit` occurs at `p`, in either case. */
  predicate HasLiteral(s: string, p: int, lit: string) {
    0 <= p && p + |lit| <= |s| && forall k :: 0 <= k < |lit| ==> AsciiLowerChar(s[p + k]) == lit[k]
  }

  /** `/lit/i.test(s)`, searching from `p` on. */
  function OccursFrom(s: string, lit: string, p: nat): bool
    decreases |s| + 1 - p
  {
    if p + |lit| > |s| then false else HasLiteral(s, p, lit) || OccursFrom(s, lit, p + 1)
  }

  /** The search finds the literal exactly when it occurs at or after `p`. */
  lemma {:induction false} OccursFromIff(s: string, lit: string, p: nat)
    decreases |s| + 1 - p
    ensures OccursFrom(s, lit, p) <==> exists q :: p <= q && HasLiteral(s, q, lit)
  {
    if p + |lit| > |s| {
      assert forall q :: p <= q ==> !HasLiteral(s, q, lit);
    } else {
      OccursFromIff(s, lit, p + 1);
      if HasLiteral(s, p, lit) {
        assert exists q :: p <= q && HasLiteral(s, q, lit);
      } else {
        assert forall q :: p <= q && HasLiteral(s, q, lit) ==> p + 1 <= q;
      }
    }
  }

  /** The first match of a pattern, trying each start position from `p`
      on; `at(s, q)` is what the pattern captures when it matches at `q`. */
  function Leftmost(s: string, at: (string, int) -> Option<string>, p: nat): Option<string>
    decreases |s| + 1 - p
  {
    if p > |s| then None
    else if at(s, p).Some? then at(s, p)
    else Leftmost(s, at, p + 1)
  }

  /** The search reports a match exactly when there is one, and then the
      capture of the first position that matches. */
  lemma {:induction false} LeftmostFirst(s: string, at: (string, int) -> Option<string>, p: nat)
    decreases |s| + 1 - p
    ensures var r := Leftmost(s, at, p);
            r.Some? ==> exists q :: p <= q <= |s| && at(s, q) == r && forall q' :: p <= q' < q ==> at(s, q').None?
    ensures Leftmost(s, at, p).None? <==> forall q :: p <= q <= |s| ==> at(s, q).None?
  {
    if p <= |s| && at(s, p).None? {
      LeftmostFirst(s, at, p + 1);
    }
  }

  /** The end of the longest run from `a` on whose characters satisfy `keep`. */
  function RunEnd(s: string, a: int, keep: char -> bool): (e: int)
    requires 0 <= a <= |s|
    decreases |s| - a
    ensures a <= e <= |s|
  {
    if a == |s| || !keep(s[a]) then a else RunEnd(s, a + 1, keep)
  }

  /** The run is the longest one: every character in it is kept, and the
      one after it, if any, is not. */
  lemma {:induction false} RunEndLongest(s: string, a: int, keep: char -> bool)
    requires 0 <= a <= |s|
    decreases |s| - a
    ensures var e := RunEnd(s, a, keep);
            (forall k :: a <= k < e ==> keep(s[k])) && (e == |s| || !keep(s[e]))
  {
    if a < |s| && keep(s[a]) {
      RunEndLongest(s, a + 1, keep);
    }
  }

  /** `($|;\s)`: the end of the string, or `;` followed by white space. */
  predicate Terminated(s: string, e: int)
    requires 0 <= e <= |s|
  {
    e == |s| || (s[e] == ';' && e + 1 < |s| && IsSpace(s[e + 1]))
  }

  /** A quote at `k` that can close a quoted file name: a terminator follows it. */
  predicate ClosesAt(s: string, k: int)
    requires 0 <= k < |s|
  {
    s[k] == '"' && Terminated(s, k + 1)
  }

  /** `"(.*?)"($|;\s)` after the opening quote, which stands just before `a`:
      the position of the first closing quote that is followed by a
      terminator, none of the characters before it being a line terminator. */
  function LazyClose(s: string, a: int): (q: Option<int>)
    requires 0 <= a <= |s|
    decreases |s| - a
    ensures q.Some? ==> a <= q.value < |s|
  {
    if a == |s| then None
    else if ClosesAt(s, a) then Some(a)
    else if IsLineTerminator(s[a]) then None
    else LazyClose(s, a + 1)
  }

  /** The closing quote found is the first one that can close, and no line
      terminator stands before it; when none is found, every quote that
      could close comes after a line terminator. */
  lemma {:induction false} LazyCloseFirst(s: string, a: int)
    requires 0 <= a <= |s|
    decreases |s| - a
    ensures var q := LazyClose(s, a);
            && (q.Some? ==> ClosesAt(s, q.value))
            && (q.Some? ==> forall k :: a <= k < q.value ==> !IsLineTerminator(s[k]))
            && (q.Some? ==> forall k :: a <= k < q.value ==> !ClosesAt(s, k))
            && (q.None? ==> forall k :: a <= k < |s| && ClosesAt(s, k) ==>
                              exists j :: a <= j < k && IsLineTerminator(s[j]))
  {
    if a < |s| && !ClosesAt(s, a) && !IsLineTerminator(s[a]) {
      LazyCloseFirst(s, a + 1);
    }
  }

  /** `\bfilename=("(.*?)"|([^…]+))($|;\s)` matched at `p`: the quoted
      text or the token (`m[2] || m[3] || ''`). */
  function FileNameAt(s: string, p: int): Option<string> {
    if 0 <= p <= |s| && WordStart(s, p) && HasLiteral(s, p, "filename=") then
      var a := p + 9;
      if a < |s| && s[a] == '"' then
        match LazyClose(s, a + 1)
        case Some(q) => Some(s[a + 1..q])
        case None => None
      else
        var e := RunEnd(s, a, IsTokenChar);
        if a < e && Terminated(s, e) then Some(s[a..e]) else None
    else
      None
  }

  /** `\bname=("([^"]*)"|([^…]+))` matched at `p`: the text up to the next
      quote, or the longest token. */
  function NameAt(s: string, p: int): Option<string> {
    if 0 <= p <= |s| && WordStart(s, p) && HasLiteral(s, p, "name=") then
      var a := p + 5;
      if a < |s| && s[a] == '"' then
        var e := RunEnd(s, a + 1, ch => ch != '"');
        if e < |s| then Some(s[a + 1..e]) else None
      else
        var e := RunEnd(s, a, IsTokenChar);
        if a < e then Some(s[a..e]) else None
    else
      None
  }

  /** `boundary=(?:"([^"]+)"|([^;]+))` matched at `p`: a non-empty quoted
      text, or else everything up to the next `;` (a quote included). */
  function BoundaryAt(s: string, p: int): Option<string> {
    if 0 <= p <= |s| && HasLiteral(s, p, "boundary=") then
      var a := p + 9;
      var e := if a < |s| && s[a] == '"' then RunEnd(s, a + 1, ch => ch != '"') else a;
      if a + 1 < e < |s| then
        Some(s[a + 1..e])
      else
        var f := RunEnd(s, a, ch => ch != ';');
        if a < f then Some(s[a..f]) else None
    else
      None
  }

  /** The `filename` parameter of a disposition value, as captured. */
  function FileNameParam(v: string): Option<string> {
    Leftmost(v, FileNameAt, 0)
  }

  /** The `name` parameter of a disposition value. */
  function NameParam(v: string): Option<string> {
    Leftmost(v, NameAt, 0)
  }

  /** The `boundary` parameter of a content type. */
  function BoundaryParam(ct: string): Option<string> {
    Leftmost(ct, BoundaryAt, 0)
  }

  /** `/multipart/i.test(ct)`. */
  predicate IsMultipart(ct: string) {
    OccursFrom(ct, "multipart", 0)
  }

  /** The first position where a pattern matches decides what is captured. */
  lemma FirstMatchWins(s: string, at: (string, int) -> Option<string>, q: nat)
    requires q <= |s| && at(s, q).Some?
    requires forall q' :: 0 <= q' < q ==> at(s, q').None?
    ensures Leftmost(s, at, 0) == at(s, q)
  {
    LeftmostFirst(s, at, 0);
    var r := Leftmost(s, at, 0);
    assert r.Some?;
    var q0 :| 0 <= q0 <= |s| && at(s, q0) == r && forall q' :: 0 <= q' < q0 ==> at(s, q').None?;
    assert q0 == q;
  }

  /** A quoted file name closing the value is captured whole, provided it
      holds no quote and no line terminator. */
  lemma QuotedFileNameAt(s: string, p: nat, x: string)
    requires p + 11 + |x| == |s| && WordStart(s, p)
    requires s[p..p + 9] == "filename=" && s[p + 9] == '"' && s[|s| - 1] == '"'
    requires s[p + 10..|s| - 1] == x
    requires forall k :: 0 <= k < |x| ==> x[k] != '"' && !IsLineTerminator(x[k])
    ensures FileNameAt(s, p) == Some(x)
  {
    assert HasLiteral(s, p, "filename=") by {
      forall k | 0 <= k < 9 ensures AsciiLowerChar(s[p + k]) == "filename="[k] {
        assert s[p + k] == s[p..p + 9][k];
      }
    }
    forall k | p + 10 <= k < |s| - 1 ensures s[k] != '"' && !IsLineTerminator(s[k]) {
      assert s[k] == x[k - p - 10];
    }
    var q := LazyClose(s, p + 10);
    LazyCloseFirst(s, p + 10);
    assert ClosesAt(s, |s| - 1);
    assert q.Some?;
    assert !ClosesAt(s, q.value) || q.value == |s| - 1;
    assert q == Some(|s| - 1);
  }

  /** A token file name followed by the end of the value or by `;` and
      white space is captured whole. */
  lemma TokenFileNameAt(s: string, p: nat, x: string)
    requires p + 9 + |x| <= |s| && WordStart(s, p) && |x| > 0
    requires s[p..p + 9] == "filename=" && s[p + 9..p + 9 + |x|] == x
    requires forall k :: 0 <= k < |x| ==> IsTokenChar(x[k])
    requires Terminated(s, p + 9 + |x|)
    ensures FileNameAt(s, p) == Some(x)
  {
    assert HasLiteral(s, p, "filename=") by {
      forall k | 0 <= k < 9 ensures AsciiLowerChar(s[p + k]) == "filename="[k] {
        assert s[p + k] == s[p..p + 9][k];
      }
    }
    forall k | p + 9 <= k < p + 9 + |x| ensures IsTokenChar(s[k]) {
      assert s[k] == x[k - p - 9];
    }
    assert s[p + 9] == x[0];
    var e := RunEnd(s, p + 9, IsTokenChar);
    RunEndLongest(s, p + 9, IsTokenChar);
    assert p + 9 + |x| == |s| || s[p + 9 + |x|] == ';';
    assert e == p + 9 + |x|;
  }

  /** A quoted name is captured up to the next quote, whatever follows. */
  lemma QuotedNameAt(s: string, p: nat, x: string)
    requires p + 7 + |x| <= |s| && WordStart(s, p)
    requires s[p..p + 5] == "name=" && s[p + 5] == '"' && s[p + 6..p + 6 + |x|] == x && s[p + 6 + |x|] == '"'
    requires '"' !in x
    ensures NameAt(s, p) == Some(x)
  {
    assert HasLiteral(s, p, "name=") by {
      forall k | 0 <= k < 5 ensures AsciiLowerChar(s[p + k]) == "name="[k] {
        assert s[p + k] == s[p..p + 5][k];
      }
    }
    forall k | p + 6 <= k < p + 6 + |x| ensures s[k] != '"' {
      assert s[k] == x[k - p - 6];
    }
    RunEndLongest(s, p + 6, ch => ch != '"');
    assert RunEnd(s, p + 6, ch => ch != '"') == p + 6 + |x|;
  }

  /** An unquoted name is captured as the longest run of token characters:
      the whole of `x` when a character outside the class, or the end of
      the value, follows it. */
  lemma TokenNameAt(s: string, p: nat, x: string)
    requires p + 5 + |x| <= |s| && WordStart(s, p) && |x| > 0
    requires s[p..p + 5] == "name=" && s[p + 5..p + 5 + |x|] == x
    requires forall k :: 0 <= k < |x| ==> IsTokenChar(x[k])
    requires p + 5 + |x| == |s| || !IsTokenChar(s[p + 5 + |x|])
    ensures NameAt(s, p) == Some(x)
  {
    assert HasLiteral(s, p, "name=") by {
      forall k | 0 <= k < 5 ensures AsciiLowerChar(s[p + k]) == "name="[k] {
        assert s[p + k] == s[p..p + 5][k];
      }
    }
    forall k | p + 5 <= k < p + 5 + |x| ensures IsTokenChar(s[k]) {
      assert s[k] == x[k - p - 5];
    }
    assert s[p + 5] == x[0];
    RunEndLongest(s, p + 5, IsTokenChar);
    assert RunEnd(s, p + 5, IsTokenChar) == p + 5 + |x|;
  }

  /** A non-empty quoted boundary is captured without its quotes. */
  lemma QuotedBoundaryAt(s: string, p: nat, x: string)
    requires p + 11 + |x| <= |s| && |x| > 0
    requires s[p..p + 9] == "boundary=" && s[p + 9] == '"' && s[p + 10..p + 10 + |x|] == x && s[p + 10 + |x|] == '"'
    requires '"' !in x
    ensures BoundaryAt(s, p) == Some(x)
  {
    assert HasLiteral(s, p, "boundary=") by {
      forall k | 0 <= k < 9 ensures AsciiLowerChar(s[p + k]) == "boundary="[k] {
        assert s[p + k] == s[p..p + 9][k];
      }
    }
    forall k | p + 10 <= k < p + 10 + |x| ensures s[k] != '"' {
      assert s[k] == x[k - p - 10];
    }
    RunEndLongest(s, p + 10, ch => ch != '"');
    assert RunEnd(s, p + 10, ch => ch != '"') == p + 10 + |x|;
  }

  /** An unquoted boundary runs to the next `;` or the end of the value;
      `boundary=""` is not a quoted boundary and yields the two quotes. */
  lemma BareBoundaryAt(s: string, p: nat, x: string)
    requires p + 9 + |x| <= |s| && |x| > 0
    requires s[p..p + 9] == "boundary=" && s[p + 9..p + 9 + |x|] == x
    requires p + 9 + |x| == |s| || s[p + 9 + |x|] == ';'
    requires ';' !in x && (x[0] == '"' ==> x == "\"\"")
    ensures BoundaryAt(s, p) == Some(x)
  {
    assert HasLiteral(s, p, "boundary=") by {
      forall k | 0 <= k < 9 ensures AsciiLowerChar(s[p + k]) == "boundary="[k] {
        assert s[p + k] == s[p..p + 9][k];
      }
    }
    forall k | p + 9 <= k < p + 9 + |x| ensures s[k] != ';' && s[k] == x[k - p - 9] {
      assert s[k] == x[k - p - 9];
    }
    if x[0] == '"' {
      assert s[p + 10] == x[1] == '"';
    }
    RunEndLongest(s, p + 9, ch => ch != ';');
    assert RunEnd(s, p + 9, ch => ch != ';') == p + 9 + |x|;
  }

  /** `s.lastIndexOf(c)`: -1 when `c` does not occur. */
  function LastIndexOf(s: string, c: char): (r: int)
    ensures -1 <= r < |s|
    ensures r >= 0 ==> s[r] == c
    ensures forall k :: r < k < |s| ==> s[k] != c
  {
    if |s| == 0 then -1
    else if s[|s| - 1] == c then |s| - 1
    else LastIndexOf(s[..|s| - 1], c)
  }

  /** What follows the last backslash: the longest suffix without one. */
  function StripPath(s: string): (r: string)
    ensures |r| <= |s| && s[|s| - |r|..] == r
    ensures '\\' !in r
    ensures |r| < |s| ==> s[|s| - |r| - 1] == '\\'
  {
    s[LastIndexOf(s, '\\') + 1..]
  }

  /** `s.replace(/%22/g, '"')`. */
  function UnescapeQuotes(s: string): (r: string)
    ensures |r| <= |s|
  {
    if |s| == 0 then []
    else if |s| >= 3 && s[..3] == "%22" then ['"'] + UnescapeQuotes(s[3..])
    else [s[0]] + UnescapeQuotes(s[1..])
  }

  /** The escaping `UnescapeQuotes` undoes: every quote written `%22`. */
  function EscapeQuotes(s: string): (r: string)
    ensures '"' !in r
  {
    if |s| == 0 then []
    else (if s[0] == '"' then "%22" else [s[0]]) + EscapeQuotes(s[1..])
  }

  /** `UnescapeQuotes` inverts `EscapeQuotes` on text without `%`. */
  lemma {:induction false} UnescapeEscapeQuotes(s: string)
    requires '%' !in s
    ensures UnescapeQuotes(EscapeQuotes(s)) == s
  {
    if |s| > 0 {
      var rest := EscapeQuotes(s[1..]);
      assert '%' !in s[1..];
      UnescapeEscapeQuotes(s[1..]);
      if s[0] == '"' {
        assert ("%22" + rest)[..3] == "%22" && ("%22" + rest)[3..] == rest;
      } else {
        assert ([s[0]] + rest)[1..] == rest;
      }
    }
  }

  /** Text without `%` has nothing to unescape. */
  lemma {:induction false} UnescapeQuotesPlain(s: string)
    requires '%' !in s
    ensures UnescapeQuotes(s) == s
  {
    if |s| > 0 {
      assert |s| >= 3 ==> s[..3][0] == s[0];
      assert '%' !in s[1..];
      UnescapeQuotesPlain(s[1..]);
    }
  }

  predicate IsDigit(ch: char) {
    '0' <= ch <= '9'
  }

  function DigitValue(ch: char): int
    requires IsDigit(ch)
  {
    ch as int - '0' as int
  }

  /** `&#` four digits `;` at `i`. */
  predicate CharRefAt(s: string, i: int) {
    && 0 <= i && i + 7 <= |s|
    && s[i] == '&' && s[i + 1] == '#'
    && IsDigit(s[i + 2]) && IsDigit(s[i + 3]) && IsDigit(s[i + 4]) && IsDigit(s[i + 5])
    && s[i + 6] == ';'
  }

  /** The decimal value of the four digits of a character reference. */
  function CharRefCode(s: string, i: int): (code: int)
    requires CharRefAt(s, i)
    ensures 0 <= code <= 9999
  {
    1000 * DigitValue(s[i + 2]) + 100 * DigitValue(s[i + 3]) + 10 * DigitValue(s[i + 4]) + DigitValue(s[i + 5])
  }

  /** `s.replace(/&#(\d{4});/g, (m, code) => String.fromCharCode(code))`:
      scanned from the left, each reference replaced by the character with
      that code. */
  function DecodeCharRefs(s: string): (r: string)
    ensures |r| <= |s|
  {
    if |s| == 0 then []
    else if CharRefAt(s, 0) then [CharRefCode(s, 0) as char] + DecodeCharRefs(s[7..])
    else [s[0]] + DecodeCharRefs(s[1..])
  }

  function DigitChar(d: int): (ch: char)
    requires 0 <= d <= 9
    ensures IsDigit(ch) && DigitValue(ch) == d
  {
    ('0' as int + d) as char
  }

  /** The four decimal digits of a number below 10000, most significant first. */
  function Digits(c: int): (d: seq<int>)
    requires 0 <= c <= 9999
    ensures |d| == 4 && forall k :: 0 <= k < 4 ==> 0 <= d[k] <= 9
    ensures 1000 * d[0] + 100 * d[1] + 10 * d[2] + d[3] == c
  {
    var r3 := c % 1000;
    var r2 := r3 % 100;
    [c / 1000, r3 / 100, r2 / 10, r2 % 10]
  }

  /** `&#dddd;` for a character whose code has at most four digits. */
  function CharRef(ch: char): (r: string)
    requires ch as int <= 9999
    ensures CharRefAt(r, 0) && |r| == 7 && CharRefCode(r, 0) == ch as int
  {
    var d := Digits(ch as int);
    ['&', '#', DigitChar(d[0]), DigitChar(d[1]), DigitChar(d[2]), DigitChar(d[3]), ';']
  }

  /** Every character written as a reference. */
  function EncodeCharRefs(s: string): (r: string)
    requires forall k :: 0 <= k < |s| ==> s[k] as int <= 9999
    ensures |r| == 7 * |s|
  {
    if |s| == 0 then [] else CharRef(s[0]) + EncodeCharRefs(s[1..])
  }

  /** `DecodeCharRefs` inverts `EncodeCharRefs`. */
  lemma {:induction false} DecodeEncodeCharRefs(s: string)
    requires forall k :: 0 <= k < |s| ==> s[k] as int <= 9999
    ensures DecodeCharRefs(EncodeCharRefs(s)) == s
  {
    if |s| > 0 {
      var head, rest := CharRef(s[0]), EncodeCharRefs(s[1..]);
      assert (head + rest)[..7] == head && (head + rest)[7..] == rest;
      assert CharRefAt(head + rest, 0);
      DecodeEncodeCharRefs(s[1..]);
    }
  }

  /** Text without `&` has nothing to decode. */
  lemma {:induction false} DecodeCharRefsPlain(s: string)
    requires '&' !in s
    ensures DecodeCharRefs(s) == s
  {
    if |s| > 0 {
      assert '&' !in s[1..];
      DecodeCharRefsPlain(s[1..]);
    }
  }

  /** `_fileName(headerValue)`: the `filename` parameter with everything up
      to its last backslash cut off, then `%22` unescaped, then character
      references decoded; `None` stands for `undefined`. */
  function FileName(v: string): Option<string> {
    match FileNameParam(v)
    case None => None
    case Some(raw) => Some(DecodeCharRefs(UnescapeQuotes(StripPath(raw))))
  }

  /** A file name without backslash, `%` or `&` comes out as captured. */
  lemma FileNamePlain(v: string, x: string)
    requires FileNameParam(v) == Some(x)
    requires '\\' !in x && '%' !in x && '&' !in x
    ensures FileName(v) == Some(x)
  {
    assert StripPath(x) == x;
    UnescapeQuotesPlain(x);
    DecodeCharRefsPlain(x);
  }

  /** Only what follows the last backslash of the captured name is kept. */
  lemma FileNameDropsDirectory(v: string, dir: string, x: string)
    requires FileNameParam(v) == Some(dir + "\\" + x)
    requires '\\' !in x && '%' !in x && '&' !in x
    ensures FileName(v) == Some(x)
  {
    StripAfterBackslash(dir, x);
    UnescapeQuotesPlain(x);
    DecodeCharRefsPlain(x);
  }

  lemma StripAfterBackslash(dir: string, x: string)
    requires '\\' !in x
    ensures StripPath(dir + "\\" + x) == x
  {
    var raw := dir + "\\" + x;
    assert raw[|dir|] == '\\';
    forall k | |dir| < k < |raw| ensures raw[k] != '\\' {
      assert raw[k] == x[k - |dir| - 1];
    }
    assert LastIndexOf(raw, '\\') == |dir|;
    assert raw[|dir| + 1..] == x;
  }
}
