/** The `multipart/form-data` decoder of the request body (index.mjs:875-976):
    a scan for the delimiter "--" + boundary (section 5.1.1 of RFC 2046, as
    used by RFC 7578), the header block of every part, and the fields the
    parts become. */
module Multipart {
  import opened Base
  import opened FormFields

  /** The scan handles this many bytes between two pauses. */
  const WindowSize := 40000000

  /** "\r\n\r\n", the end of a part's header block. */
  const HeaderTerminator: seq<byte> := [13, 10, 13, 10]

  // ---------------------------------------------------------------------
  // Finding a byte pattern
  // ---------------------------------------------------------------------

  /** `pattern` occupies the bytes of `body` that end at index `i`. */
  predicate EndsAt(pattern: seq<byte>, i: int, body: seq<byte>) {
    |pattern| - 1 <= i < |body| && body[i - |pattern| + 1 .. i + 1] == pattern
  }

  /** `isBoundaryEnd`: compares from the last byte of the pattern backwards. */
  method IsBoundaryEnd(boundary: seq<byte>, index: int, body: seq<byte>) returns (r: bool)
    requires |boundary| > 0
    ensures r <==> EndsAt(boundary, index, body)
  {
    var i: int := |boundary| - 1;
    if index < i {
      return false;
    }
    var j := index;
    ghost var start := index - |boundary| + 1;
    while i >= 0
      invariant -1 <= i < |boundary|
      invariant j == start + i
      invariant i < |boundary| - 1 ==> index < |body|
      invariant forall k | i < k < |boundary| :: start + k < |body| && body[start + k] == boundary[k]
    {
      if j >= |body| || boundary[i] != body[j] {
        assert index < |body| ==> body[start .. index + 1][i] == body[j];
        return false;
      }
      i, j := i - 1, j - 1;
    }
    assert forall k | 0 <= k < |boundary| :: body[start .. index + 1][k] == boundary[k];
    return true;
  }

  /** The indexes below `n` at which the pattern ends, in ascending order. */
  function Matches(pattern: seq<byte>, body: seq<byte>, n: nat): (ms: seq<nat>)
    requires n <= |body|
    ensures forall j | 0 <= j < |ms| :: ms[j] < n
  {
    if n == 0 then []
    else Matches(pattern, body, n - 1) + (if EndsAt(pattern, n - 1, body) then [n - 1] else [])
  }

  /** Exactly the positions below `n` at which the pattern ends. */
  lemma {:induction false} MatchesMembers(pattern: seq<byte>, body: seq<byte>, n: nat)
    requires n <= |body|
    ensures forall x: nat :: x in Matches(pattern, body, n) <==> x < n && EndsAt(pattern, x, body)
  {
    if n > 0 {
      MatchesMembers(pattern, body, n - 1);
      var prev := Matches(pattern, body, n - 1);
      var ms := Matches(pattern, body, n);
      assert ms == prev + (if EndsAt(pattern, n - 1, body) then [n - 1] else []);
      forall x: nat ensures x in ms <==> x < n && EndsAt(pattern, x, body) {
        assert x in ms <==> x in prev || (x == n - 1 && EndsAt(pattern, n - 1, body));
      }
    }
  }
  /** Each position once, in increasing order. */
  lemma {:induction false} MatchesIncreasing(pattern: seq<byte>, body: seq<byte>, n: nat)
    requires n <= |body|
    ensures forall j, k | 0 <= j < k < |Matches(pattern, body, n)| ::
      Matches(pattern, body, n)[j] < Matches(pattern, body, n)[k]
  {
    if n > 0 {
      MatchesIncreasing(pattern, body, n - 1);
      var prev := Matches(pattern, body, n - 1);
      var ms := Matches(pattern, body, n);
      assert ms == prev + (if EndsAt(pattern, n - 1, body) then [n - 1] else []);
      forall j, k | 0 <= j < k < |ms| ensures ms[j] < ms[k] {
        if k < |prev| {
          assert ms[j] == prev[j] && ms[k] == prev[k];
        } else {
          assert ms[j] == prev[j] && prev[j] < n - 1;
        }
      }
    }
  }

  // ---------------------------------------------------------------------
  // The windowed scan for part positions
  // ---------------------------------------------------------------------

  /** A part: its header starts at `start`; its content ends before `end`. */
  datatype PartPosition = PartPosition(start: int, end: int)

  /** The positions the scan records for delimiters ending at `ms`: each part
      starts 3 bytes after its delimiter's last byte (past "\r\n") and ends
      where the next delimiter's preceding "\r\n" begins; the last one is still
      open (-1). */
  function PartsOf(ms: seq<nat>, blen: nat): (ps: seq<PartPosition>)
    ensures |ps| == |ms|
  {
    seq(|ms|, j requires 0 <= j < |ms| =>
      PartPosition(ms[j] + 3, if j + 1 < |ms| then ms[j + 1] - blen - 1 else -1))
  }

  lemma PartsOfAppend(ms: seq<nat>, m: nat, blen: nat)
    ensures PartsOf(ms + [m], blen) ==
      (if ms == [] then [] else PartsOf(ms, blen)[|ms| - 1 := PartsOf(ms, blen)[|ms| - 1].(end := m - blen - 1)])
      + [PartPosition(m + 3, -1)]
  {
  }

  /** The scan loop of index.mjs:903-921, in windows of 40,000,000 bytes,
      followed by the `pop` of the part after the closing delimiter. */
  method ScanBoundaries(boundary: seq<byte>, body: seq<byte>) returns (parts: seq<PartPosition>)
    requires |boundary| > 0
    ensures var ms := Matches(boundary, body, |body|);
      parts == if ms == [] then [] else PartsOf(ms, |boundary|)[..|ms| - 1]
  {
    parts := [];
    var offset := 0;
    while offset < |body|
      invariant 0 <= offset
      invariant parts == PartsOf(Matches(boundary, body, Min(offset, |body|)), |boundary|)
    {
      parts := ScanWindow(boundary, body, parts, offset, Min(|body|, offset + WindowSize));
      offset := offset + WindowSize;
    }
    if |parts| > 0 {
      parts := parts[..|parts| - 1];
    }
    assert offset >= |body|;
    assert Min(offset, |body|) == |body|;
  }

  /** One window of the scan: the delimiters ending in [from, to) close the
      open part and open a new one. */
  method ScanWindow(boundary: seq<byte>, body: seq<byte>, parts: seq<PartPosition>, from: nat, to: nat)
    returns (after: seq<PartPosition>)
    requires |boundary| > 0 && from <= to <= |body|
    requires parts == PartsOf(Matches(boundary, body, from), |boundary|)
    ensures after == PartsOf(Matches(boundary, body, to), |boundary|)
  {
    after := parts;
    for i := from to to
      invariant after == PartsOf(Matches(boundary, body, i), |boundary|)
    {
      var found := IsBoundaryEnd(boundary, i, body);
      if found {
        PartsOfAppend(Matches(boundary, body, i), i, |boundary|);
        if |after| > 0 {
          after := after[|after| - 1 := after[|after| - 1].(end := i - |boundary| - 1)];
        }
        after := after + [PartPosition(i + 3, -1)];
      }
    }
  }

  /** No delimiter ends strictly between `lo` and `hi`. */
  predicate NoneBetween(boundary: seq<byte>, body: seq<byte>, lo: int, hi: int) {
    forall x | lo < x < hi :: !EndsAt(boundary, x, body)
  }

  /** Part `j` of a scan runs from the delimiter ending at `ms[j]` to the one
      ending at `ms[j + 1]`, with no delimiter in between. */
  predicate Consecutive(boundary: seq<byte>, body: seq<byte>, ms: seq<nat>) {
    forall j, k | 0 <= j && k == j + 1 < |ms| ::
      && EndsAt(boundary, ms[j], body)
      && EndsAt(boundary, ms[k], body)
      && ms[j] < ms[k]
      && NoneBetween(boundary, body, ms[j], ms[k])
  }

  /** The delimiters the scan finds are consecutive ones. */
  lemma ConsecutiveDelimiters(boundary: seq<byte>, body: seq<byte>)
    ensures Consecutive(boundary, body, Matches(boundary, body, |body|))
  {
    var ms := Matches(boundary, body, |body|);
    MatchesMembers(boundary, body, |body|);
    MatchesIncreasing(boundary, body, |body|);
    forall j, k | 0 <= j && k == j + 1 < |ms|
      ensures EndsAt(boundary, ms[j], body) && EndsAt(boundary, ms[k], body)
      ensures NoneBetween(boundary, body, ms[j], ms[k])
    {
      assert ms[j] in ms && ms[k] in ms;
      forall x: nat | ms[j] < x < ms[k] ensures x !in ms {
        forall i | 0 <= i < |ms| ensures ms[i] != x {
          if i < j {
            assert ms[i] < ms[j];
          } else if i > k {
            assert ms[k] < ms[i];
          }
        }
      }
    }
  }

  // ---------------------------------------------------------------------
  // One part: header block and value
  // ---------------------------------------------------------------------

  /** The first index in [from, stop) at which the header terminator ends. */
  function FirstTerminator(body: seq<byte>, from: int, stop: int): (r: Option<int>)
    ensures r.Some? ==> from <= r.value < stop && EndsAt(HeaderTerminator, r.value, body)
    decreases stop - from
  {
    if from >= stop then None
    else if EndsAt(HeaderTerminator, from, body) then Some(from)
    else FirstTerminator(body, from + 1, stop)
  }

  /** No terminator ends before the one found, or anywhere in the range when
      none is found. */
  lemma {:induction false} FirstTerminatorIsFirst(body: seq<byte>, from: int, stop: int)
    ensures var r := FirstTerminator(body, from, stop);
      forall i | from <= i < (if r.Some? then r.value else stop) :: !EndsAt(HeaderTerminator, i, body)
    decreases stop - from
  {
    if from < stop && !EndsAt(HeaderTerminator, from, body) {
      FirstTerminatorIsFirst(body, from + 1, stop);
    }
  }

  /** The end of the header block of a part (index.mjs:927-937): the index of
      the first "\r\n\r\n", or the part's end when it has none. */
  method HeaderEnd(body: seq<byte>, position: PartPosition) returns (end: int)
    ensures end == match FirstTerminator(body, position.start, position.end)
                   case Some(i) => i - 3
                   case None => position.end
  {
    end := position.end;
    var i := position.start;
    while i < position.end
      invariant FirstTerminator(body, position.start, position.end) == FirstTerminator(body, i, position.end)
      invariant end == position.end
      decreases position.end - i
    {
      var found := IsBoundaryEnd(HeaderTerminator, i, body);
      FirstTerminatorStep(body, i, position.end);
      if found {
        end := i - 3;
        return;
      }
      i := i + 1;
    }
  }

  /** One step of the search for the header terminator. */
  lemma FirstTerminatorStep(body: seq<byte>, i: int, stop: int)
    requires i < stop
    ensures EndsAt(HeaderTerminator, i, body) ==> FirstTerminator(body, i, stop) == Some(i)
    ensures !EndsAt(HeaderTerminator, i, body) ==> FirstTerminator(body, i, stop) == FirstTerminator(body, i + 1, stop)
  {
  }

  /** `buffer.slice(from, to)` and `buffer.toString(enc, from, to)`: both
      bounds clamped into the buffer, empty when they cross. */
  function Slice(body: seq<byte>, from: int, to: int): (r: seq<byte>)
    ensures |r| <= |body|
  {
    var a := if from < 0 then 0 else if from > |body| then |body| else from;
    var b := if to < 0 then 0 else if to > |body| then |body| else to;
    if b <= a then [] else body[a..b]
  }

  /** Text immediately before position `p` of `s` is `pattern`. */
  predicate PrecededBy(s: string, p: int, pattern: string) {
    |pattern| <= p <= |s| && s[p - |pattern|..p] == pattern
  }

  predicate IsLineTerminator(c: char) {
    c == '\n' || c == '\r' || c == '\U{2028}' || c == '\U{2029}'
  }

  /** The first position from `from` on where a look-behind for `pattern`
      succeeds. */
  function FirstAfter(s: string, pattern: string, from: nat): (r: Option<nat>)
    ensures r.Some? ==> from <= r.value <= |s| && PrecededBy(s, r.value, pattern)
    ensures forall p | from <= p <= (if r.Some? then r.value - 1 else |s|) :: !PrecededBy(s, p, pattern)
    decreases |s| + 1 - from
  {
    if from > |s| then None
    else if PrecededBy(s, from, pattern) then Some(from)
    else FirstAfter(s, pattern, from + 1)
  }

  /** The longest run of `s` from `p` on that avoids `stop`. */
  function RunUntil(s: string, p: nat, stop: char): (r: string)
    requires p <= |s|
    ensures stop !in r
    ensures |r| <= |s| - p && r == s[p..p + |r|]
    ensures p + |r| == |s| || s[p + |r|] == stop
    decreases |s| - p
  {
    if p == |s| || s[p] == stop then [] else [s[p]] + RunUntil(s, p + 1, stop)
  }

  /** `(?<=name=")[^"]*` and `(?<=filename=")[^"]*`: the first quoted value
      after `key`, or None when the header has no such text. */
  function QuotedParameter(info: string, key: string): Option<string> {
    match FirstAfter(info, key, 0)
    case None => None
    case Some(p) => Some(RunUntil(info, p, '"'))
  }

  /** A `Content-Type:` that starts a line and is followed by at least one
      character on that line. */
  predicate ContentTypeAt(s: string, p: nat) {
    && PrecededBy(s, p, "Content-Type:")
    && (p == 13 || IsLineTerminator(s[p - 14]))
    && p < |s| && s[p] != '\n'
  }

  function FirstContentType(s: string, from: nat): (r: Option<nat>)
    ensures r.Some? ==> from <= r.value && ContentTypeAt(s, r.value)
    ensures forall p | from <= p < (if r.Some? then r.value else |s| + 1) :: !ContentTypeAt(s, p)
    decreases |s| + 1 - from
  {
    if from > |s| then None
    else if ContentTypeAt(s, from) then Some(from)
    else FirstContentType(s, from + 1)
  }

  /** `(?<=^Content-Type:)[^\n]+` (multi-line), trimmed; empty when absent. */
  function ContentTypeOf(info: string): string {
    match FirstContentType(info, 0)
    case None => ""
    case Some(p) => Trim(RunUntil(info, p, '\n'))
  }

  /** What a part contributes to the body. */
  datatype PartOutcome =
    | Skipped                                // no (or an empty) name
    | Field(name: string, value: Value)
    | Malformed                              // a name that decodeURIComponent rejects

  /** A part whose header block ends at `end` (index.mjs:939-963):
      a content type and a file name give a file of the bytes after the
      header block; a content type alone gives null; no content type gives
      the text of the part, empty when the header block never ends. */
  function PartField(body: seq<byte>, position: PartPosition, end: int,
                     utf8: seq<byte> -> string, decodeUri: string -> Option<string>): (r: PartOutcome)
    ensures r.Field? ==> r.name != [] && (r.value.Null? || r.value.Str? || r.value.File?)
  {
    var info := utf8(Slice(body, position.start, end));
    var rawName := QuotedParameter(info, "name=\"").GetOr("");
    var rawFileName := QuotedParameter(info, "filename=\"").GetOr("");
    var contentType := ContentTypeOf(info);
    match (decodeUri(rawName), decodeUri(rawFileName))
    case (Some(name), Some(fileName)) =>
      if name == [] then Skipped
      else if contentType != [] then
        if fileName != [] then Field(name, File(Slice(body, end + 4, position.end), contentType, fileName))
        else Field(name, Null)
      else if end == position.end then Field(name, Str(""))
      else Field(name, Str(utf8(Slice(body, end + 4, position.end))))
    case _ => Malformed
  }

  /** No header terminator ends in [from, to). */
  predicate NoTerminator(body: seq<byte>, from: int, to: int) {
    forall i | from <= i < to :: !EndsAt(HeaderTerminator, i, body)
  }

  /** The terminator ending at `k`, with none ending earlier in the range,
      is the one found. */
  lemma {:induction false} FirstTerminatorAt(body: seq<byte>, from: int, stop: int, k: int)
    requires from <= k < stop && EndsAt(HeaderTerminator, k, body)
    requires NoTerminator(body, from, k)
    ensures FirstTerminator(body, from, stop) == Some(k)
    decreases k - from
  {
    if from < k {
      FirstTerminatorAt(body, from + 1, stop, k);
    }
  }

  /** A part laid out as a header block, a blank line and the content: the
      blank line ends three bytes after the header, the header block reads
      back as the header and what follows the blank line as the content. */
  lemma LayoutPieces(body: seq<byte>, position: PartPosition, header: seq<byte>, content: seq<byte>)
    requires 0 <= position.start <= position.end <= |body|
    requires body[position.start..position.end] == header + HeaderTerminator + content
    ensures position.start + |header| + 3 < position.end
    ensures EndsAt(HeaderTerminator, position.start + |header| + 3, body)
    ensures Slice(body, position.start, position.start + |header|) == header
    ensures Slice(body, position.start + |header| + 4, position.end) == content
  {
    var at := position.start + |header|;
    ThreePieces(body, position.start, position.end, header, HeaderTerminator, content);
    assert body[at..at + 4] == HeaderTerminator;
  }

  /** The header block of a part ends where the first blank line in the
      part begins. */
  lemma HeaderEndAt(body: seq<byte>, position: PartPosition, k: int)
    requires position.start <= k < position.end && EndsAt(HeaderTerminator, k, body)
    requires NoTerminator(body, position.start, k)
    ensures HeaderEnds(body, [position])[0] == k - 3
  {
    FirstTerminatorAt(body, position.start, position.end, k);
  }

  /** The value rules of a part whose name decodes to a non-empty text, for
      any header end. */
  lemma PartValue(body: seq<byte>, position: PartPosition, end: int, header: seq<byte>, rest: seq<byte>,
                  utf8: seq<byte> -> string, decodeUri: string -> Option<string>,
                  name: string, fileName: string)
    requires Slice(body, position.start, end) == header && Slice(body, end + 4, position.end) == rest
    requires decodeUri(QuotedParameter(utf8(header), "name=\"").GetOr("")) == Some(name) && name != []
    requires decodeUri(QuotedParameter(utf8(header), "filename=\"").GetOr("")) == Some(fileName)
    ensures var contentType := ContentTypeOf(utf8(header));
      && (contentType != [] && fileName != [] ==>
            PartField(body, position, end, utf8, decodeUri) == Field(name, File(rest, contentType, fileName)))
      && (contentType != [] && fileName == [] ==>
            PartField(body, position, end, utf8, decodeUri) == Field(name, Null))
      && (contentType == [] ==>
            PartField(body, position, end, utf8, decodeUri) ==
              Field(name, Str(if end == position.end then "" else utf8(rest))))
  {
  }

  /** The value of a laid-out part whose name decodes to a non-empty text
      (index.mjs:945-958): a content type and a file name give the content as
      an uploaded file, a content type alone gives null, and without a
      content type the value is the content as text. */
  lemma LaidOutPart(body: seq<byte>, position: PartPosition, header: seq<byte>, content: seq<byte>,
                    utf8: seq<byte> -> string, decodeUri: string -> Option<string>,
                    name: string, fileName: string)
    requires 0 <= position.start <= position.end <= |body|
    requires body[position.start..position.end] == header + HeaderTerminator + content
    requires NoTerminator(body, position.start, position.start + |header| + 3)
    requires decodeUri(QuotedParameter(utf8(header), "name=\"").GetOr("")) == Some(name) && name != []
    requires decodeUri(QuotedParameter(utf8(header), "filename=\"").GetOr("")) == Some(fileName)
    ensures HeaderEnds(body, [position])[0] == position.start + |header|
    ensures var contentType, end := ContentTypeOf(utf8(header)), position.start + |header|;
      && (contentType != [] && fileName != [] ==>
            PartField(body, position, end, utf8, decodeUri) == Field(name, File(content, contentType, fileName)))
      && (contentType != [] && fileName == [] ==>
            PartField(body, position, end, utf8, decodeUri) == Field(name, Null))
      && (contentType == [] ==>
            PartField(body, position, end, utf8, decodeUri) == Field(name, Str(utf8(content))))
  {
    LayoutPieces(body, position, header, content);
    HeaderEndAt(body, position, position.start + |header| + 3);
    var end := position.start + |header|;
    assert Slice(body, end + 4, position.end) == content;
    PartValue(body, position, end, header, content, utf8, decodeUri, name, fileName);
  }

  /** A part with no blank line: the whole part is its header block, so a
      content type and a file name give an empty file, a content type alone
      gives null, and without a content type the value is ''. */
  lemma UnterminatedPart(body: seq<byte>, position: PartPosition,
                         utf8: seq<byte> -> string, decodeUri: string -> Option<string>,
                         name: string, fileName: string)
    requires position.start >= 0
    requires NoTerminator(body, position.start, position.end)
    requires var info := utf8(Slice(body, position.start, position.end));
      && decodeUri(QuotedParameter(info, "name=\"").GetOr("")) == Some(name) && name != []
      && decodeUri(QuotedParameter(info, "filename=\"").GetOr("")) == Some(fileName)
    ensures var contentType := ContentTypeOf(utf8(Slice(body, position.start, position.end)));
      var end := HeaderEnds(body, [position])[0];
      && (contentType != [] && fileName != [] ==>
            PartField(body, position, end, utf8, decodeUri) == Field(name, File([], contentType, fileName)))
      && (contentType != [] && fileName == [] ==>
            PartField(body, position, end, utf8, decodeUri) == Field(name, Null))
      && (contentType == [] ==>
            PartField(body, position, end, utf8, decodeUri) == Field(name, Str("")))
  {
    FirstTerminatorIsFirst(body, position.start, position.end);
    assert HeaderEnds(body, [position])[0] == position.end;
    var e := position.end;
    PartValue(body, position, e, Slice(body, position.start, e), Slice(body, e + 4, e), utf8, decodeUri, name, fileName);
  }

  /** A part whose name decodes to '' is skipped, and one whose name or file
      name is not valid percent-encoding rejects the body (index.mjs:939-944). */
  lemma PartWithoutField(body: seq<byte>, position: PartPosition, end: int,
                         utf8: seq<byte> -> string, decodeUri: string -> Option<string>)
    ensures var info := utf8(Slice(body, position.start, end));
      var name := decodeUri(QuotedParameter(info, "name=\"").GetOr(""));
      var fileName := decodeUri(QuotedParameter(info, "filename=\"").GetOr(""));
      && (name.None? || fileName.None? <==> PartField(body, position, end, utf8, decodeUri).Malformed?)
      && (name == Some([]) && fileName.Some? <==> PartField(body, position, end, utf8, decodeUri).Skipped?)
  {
  }

  /** Adding one field to `data` (index.mjs:965-975): a repeated name turns
      the stored value into an array, onto which later non-null values are
      pushed. */
  function AddField(data: Entries<Value>, name: string, value: Value): Entries<Value> {
    var stored := Lookup(data, name);
    var data' := if stored.Some? && !stored.value.Arr? then Put(data, name, Arr([stored.value])) else data;
    var now := Lookup(data', name);
    if now.Some? && now.value.Arr? then
      if value != Null then Put(data', name, Arr(now.value.items + [value])) else data'
    else Put(data', name, value)
  }

  /** What one more value does to the value stored under a name: a new name
      takes the value; a second value turns the first into an array; an
      array grows by the value unless it is null. */
  function Grow(stored: Option<Value>, value: Value): Option<Value> {
    var tail := if value != Null then [value] else [];
    if stored.None? then Some(value)
    else if stored.value.Arr? then Some(Arr(stored.value.items + tail))
    else Some(Arr([stored.value] + tail))
  }

  lemma AddFieldSame(data: Entries<Value>, name: string, value: Value)
    ensures Lookup(AddField(data, name, value), name) == Grow(Lookup(data, name), value)
  {
    var stored := Lookup(data, name);
    if stored.Some? && !stored.value.Arr? {
      var data' := Put(data, name, Arr([stored.value]));
      assert Lookup(data', name) == Some(Arr([stored.value]));
      assert [stored.value] + [] == [stored.value];
    } else if stored.Some? {
      assert stored.value.items + [] == stored.value.items;
    }
  }

  /** Other names keep their values. */
  lemma AddFieldOther(data: Entries<Value>, name: string, value: Value, other: string)
    requires other != name
    ensures Lookup(AddField(data, name, value), other) == Lookup(data, other)
  {
  }

  /** The body collected from the fields of the parts, in order. */
  function Collected(fields: seq<(string, Value)>): Entries<Value> {
    if fields == [] then []
    else
      var last := fields[|fields| - 1];
      AddField(Collected(fields[..|fields| - 1]), last.0, last.1)
  }

  /** Every field value is a string, a file or null, never an array. */
  predicate NoArrays(fields: seq<(string, Value)>) {
    forall i | 0 <= i < |fields| :: !fields[i].1.Arr?
  }

  /** The values a sequence of fields carries under `name`, in order. */
  function ValuesOf(fields: seq<(string, Value)>, name: string): (vs: seq<Value>)
    ensures |vs| <= |fields|
    ensures NoArrays(fields) ==> forall i | 0 <= i < |vs| :: !vs[i].Arr?
  {
    if fields == [] then []
    else
      var last := fields[|fields| - 1];
      var prefix := fields[..|fields| - 1];
      assert NoArrays(fields) ==> NoArrays(prefix);
      ValuesOf(prefix, name) + (if last.0 == name then [last.1] else [])
  }

  function NonNull(vs: seq<Value>): (r: seq<Value>)
    ensures forall i | 0 <= i < |r| :: r[i] != Null
  {
    if vs == [] then []
    else NonNull(vs[..|vs| - 1]) + (if vs[|vs| - 1] != Null then [vs[|vs| - 1]] else [])
  }

  /** The value a name ends up with after the values `vs` arrive for it: the
      first value (even a null) alone, or an array of the first value and
      every later non-null one. */
  function Grouped(vs: seq<Value>): Option<Value> {
    if vs == [] then None
    else if |vs| == 1 then Some(vs[0])
    else Some(Arr([vs[0]] + NonNull(vs[1..])))
  }

  lemma GroupedSnoc(vs: seq<Value>, value: Value)
    requires forall i | 0 <= i < |vs| :: !vs[i].Arr?
    ensures Grouped(vs + [value]) == Grow(Grouped(vs), value)
  {
    var vs' := vs + [value];
    var tail := if value != Null then [value] else [];
    if |vs| == 1 {
      assert vs'[1..] == [value];
      assert NonNull([value]) == tail by {
        assert [value][..0] == [];
      }
    } else if |vs| > 1 {
      assert vs'[1..][..|vs'[1..]| - 1] == vs[1..];
      assert NonNull(vs'[1..]) == NonNull(vs[1..]) + tail;
      assert [vs[0]] + NonNull(vs'[1..]) == ([vs[0]] + NonNull(vs[1..])) + tail;
    }
  }

  /** Repeated names become an array in arrival order. */
  lemma {:induction false} CollectedValue(fields: seq<(string, Value)>, name: string)
    requires NoArrays(fields)
    ensures Lookup(Collected(fields), name) == Grouped(ValuesOf(fields, name))
  {
    if fields != [] {
      var prefix := fields[..|fields| - 1];
      var last := fields[|fields| - 1];
      assert NoArrays(prefix);
      CollectedValue(prefix, name);
      assert Collected(fields) == AddField(Collected(prefix), last.0, last.1);
      var vs := ValuesOf(prefix, name);
      if last.0 != name {
        AddFieldOther(Collected(prefix), last.0, last.1, name);
        assert ValuesOf(fields, name) == vs + [];
        assert vs + [] == vs;
      } else {
        AddFieldSame(Collected(prefix), name, last.1);
        assert ValuesOf(fields, name) == vs + [last.1];
        GroupedSnoc(vs, last.1);
      }
    }
  }

  // ---------------------------------------------------------------------
  // The whole body
  // ---------------------------------------------------------------------

  /** `(?<=boundary=)\S+`: the first non-empty run of non-space characters
      after "boundary=" in the Content-Type header. */
  function BoundaryToken(header: string): Option<string> {
    match FirstBoundary(header, 0)
    case None => None
    case Some(p) => Some(RunOfNonSpace(header, p))
  }

  predicate BoundaryAt(s: string, p: nat) {
    PrecededBy(s, p, "boundary=") && p < |s| && !IsSpace(s[p])
  }

  function FirstBoundary(s: string, from: nat): (r: Option<nat>)
    ensures r.Some? ==> from <= r.value && BoundaryAt(s, r.value)
    decreases |s| + 1 - from
  {
    if from > |s| then None
    else if BoundaryAt(s, from) then Some(from)
    else FirstBoundary(s, from + 1)
  }

  function RunOfNonSpace(s: string, p: nat): (r: string)
    requires p <= |s|
    ensures forall i | 0 <= i < |r| :: !IsSpace(r[i])
    decreases |s| - p
  {
    if p == |s| || IsSpace(s[p]) then [] else [s[p]] + RunOfNonSpace(s, p + 1)
  }

  /** The delimiter bytes: "--" and the token, or "--undefined" when the
      header names no boundary. */
  function Delimiter(header: string): (d: seq<byte>)
    ensures |d| > 2
  {
    Utf8("--" + BoundaryToken(header).GetOr("undefined"))
  }

  /** The fields collected so far, extended by what one more part gives. */
  function Extend(acc: Option<seq<(string, Value)>>, outcome: PartOutcome): Option<seq<(string, Value)>> {
    match acc
    case None => None
    case Some(fs) =>
      match outcome
      case Malformed => None
      case Skipped => Some(fs)
      case Field(name, value) => Some(fs + [(name, value)])
  }

  /** The fields of the parts when every name decodes, else None. */
  function Fields(body: seq<byte>, parts: seq<PartPosition>, ends: seq<int>,
                  utf8: seq<byte> -> string, decodeUri: string -> Option<string>): Option<seq<(string, Value)>>
    requires |ends| == |parts|
  {
    if parts == [] then Some([])
    else
      var n := |parts| - 1;
      Extend(Fields(body, parts[..n], ends[..n], utf8, decodeUri), PartField(body, parts[n], ends[n], utf8, decodeUri))
  }

  lemma FieldsPrefix(body: seq<byte>, parts: seq<PartPosition>, ends: seq<int>,
                     utf8: seq<byte> -> string, decodeUri: string -> Option<string>, j: nat)
    requires |ends| == |parts| && j < |parts|
    ensures Fields(body, parts[..j + 1], ends[..j + 1], utf8, decodeUri) ==
      Extend(Fields(body, parts[..j], ends[..j], utf8, decodeUri), PartField(body, parts[j], ends[j], utf8, decodeUri))
  {
    assert parts[..j + 1][..j] == parts[..j] && ends[..j + 1][..j] == ends[..j];
  }

  /** The header ends of the parts, as HeaderEnd computes them. */
  function HeaderEnds(body: seq<byte>, parts: seq<PartPosition>): (r: seq<int>)
    ensures |r| == |parts|
  {
    seq(|parts|, j requires 0 <= j < |parts| =>
      match FirstTerminator(body, parts[j].start, parts[j].end)
      case Some(i) => i - 3
      case None => parts[j].end)
  }

  /** `#parseMultipart`: None when a part's name or file name is not valid
      percent-encoding (the promise rejects); otherwise the normalised body. */
  method ParseMultipart(body: seq<byte>, header: string,
                        utf8: seq<byte> -> string, decodeUri: string -> Option<string>)
    returns (result: Option<Value>)
    ensures result == Decoded(body, header, utf8, decodeUri)
  {
    var boundary := Delimiter(header);
    var parts := ScanBoundaries(boundary, body);
    var data := CollectParts(body, parts, utf8, decodeUri);
    if data.None? {
      return None;
    }
    var normalized := NormalizeFormFields(data.value);
    return Some(normalized);
  }

  /** The loop over the parts (index.mjs:925-976): every part's header end,
      its field, and the field added to the body collected so far. */
  /** Collecting one more field adds it to what was collected. */
  lemma CollectedSnoc(fields: seq<(string, Value)>, name: string, value: Value)
    ensures Collected(fields + [(name, value)]) == AddField(Collected(fields), name, value)
  {
    assert (fields + [(name, value)])[..|fields|] == fields;
  }

  /** One more part: it rejects the body, adds nothing, or adds its field. */
  lemma FieldsStep(body: seq<byte>, parts: seq<PartPosition>, ends: seq<int>,
                   utf8: seq<byte> -> string, decodeUri: string -> Option<string>, j: nat,
                   fields: seq<(string, Value)>)
    requires |ends| == |parts| && j < |parts|
    requires Fields(body, parts[..j], ends[..j], utf8, decodeUri) == Some(fields)
    ensures var outcome := PartField(body, parts[j], ends[j], utf8, decodeUri);
      Fields(body, parts[..j + 1], ends[..j + 1], utf8, decodeUri) ==
        match outcome
        case Malformed => None
        case Skipped => Some(fields)
        case Field(name, value) => Some(fields + [(name, value)])
  {
    FieldsPrefix(body, parts, ends, utf8, decodeUri, j);
  }

  method CollectParts(body: seq<byte>, parts: seq<PartPosition>,
                      utf8: seq<byte> -> string, decodeUri: string -> Option<string>)
    returns (result: Option<Entries<Value>>)
    ensures result == match Fields(body, parts, HeaderEnds(body, parts), utf8, decodeUri)
                      case None => None
                      case Some(fs) => Some(Collected(fs))
  {
    ghost var ends := HeaderEnds(body, parts);
    var data: Entries<Value> := [];
    ghost var fields: seq<(string, Value)> := [];
    for j := 0 to |parts|
      invariant Fields(body, parts[..j], ends[..j], utf8, decodeUri) == Some(fields)
      invariant data == Collected(fields)
    {
      var end := HeaderEnd(body, parts[j]);
      assert end == ends[j];
      var outcome := PartField(body, parts[j], end, utf8, decodeUri);
      FieldsStep(body, parts, ends, utf8, decodeUri, j, fields);
      if outcome.Malformed? {
        FieldsFail(body, parts, ends, utf8, decodeUri, j + 1);
        return None;
      } else if outcome.Field? {
        CollectedSnoc(fields, outcome.name, outcome.value);
        data := AddField(data, outcome.name, outcome.value);
        fields := fields + [(outcome.name, outcome.value)];
      }
    }
    assert parts[..|parts|] == parts && ends[..|ends|] == ends;
    return Some(data);
  }

  /** The parts the scan finds for this Content-Type header. */
  function ScannedParts(body: seq<byte>, header: string): seq<PartPosition> {
    var ms := Matches(Delimiter(header), body, |body|);
    if ms == [] then [] else PartsOf(ms, |Delimiter(header)|)[..|ms| - 1]
  }

  /** The body a multipart payload decodes to, or None when a part's name or
      file name is not valid percent-encoding. */
  function Decoded(body: seq<byte>, header: string,
                   utf8: seq<byte> -> string, decodeUri: string -> Option<string>): Option<Value> {
    var parts := ScannedParts(body, header);
    match Fields(body, parts, HeaderEnds(body, parts), utf8, decodeUri)
    case None => None
    case Some(fs) => Some(Normalized(Collected(fs)))
  }

  /** One malformed part makes the whole body malformed. */
  lemma {:induction false} FieldsFail(body: seq<byte>, parts: seq<PartPosition>, ends: seq<int>,
                                      utf8: seq<byte> -> string, decodeUri: string -> Option<string>, n: nat)
    requires |ends| == |parts| && 0 < n <= |parts|
    requires Fields(body, parts[..n], ends[..n], utf8, decodeUri) == None
    ensures Fields(body, parts, ends, utf8, decodeUri) == None
    decreases |parts| - n
  {
    if n < |parts| {
      FieldsPrefix(body, parts, ends, utf8, decodeUri, n);
      FieldsFail(body, parts, ends, utf8, decodeUri, n + 1);
    } else {
      assert parts[..n] == parts && ends[..n] == ends;
    }
  }
}
