/** FileResponse: a response whose body is a file on disk. Files larger than
    the chunk size are streamed, and a request whose Range header asks for one
    byte range receives that range as a 206 answer (index.mjs:1156-1343).
    The file system is not modelled: the size of the file, or None when it
    cannot be opened, is a parameter. */
module Ranges {
  import opened Base
  import opened Headers

  /** `#maxChunkSize`: 4 MiB, both the largest read and the window a range
      without an end receives. */
  const MaxChunkSize := 4 * 1024 * 1024

  /** Number.MAX_SAFE_INTEGER, 2^53 - 1. */
  const MaxSafeInteger := 9007199254740991

  function Min(a: int, b: int): int {
    if a <= b then a else b
  }

  function Max(a: int, b: int): int {
    if a <= b then b else a
  }

  // ---------------------------------------------------------------------
  // Reading the numbers of a Range header (index.mjs:1231-1243)
  // ---------------------------------------------------------------------

  /** `s.replace(pattern, '')` with a string pattern: the first occurrence
      is removed, wherever it is. */
  function RemoveFirst(s: string, pattern: string): (r: string)
    ensures |r| == |s| || |r| == |s| - |pattern|
    ensures |r| <= |s|
  {
    if StartsWith(s, pattern) then s[|pattern|..]
    else if s == [] then s
    else [s[0]] + RemoveFirst(s[1..], pattern)
  }

  /** The first position at or after `p` that is not white space. */
  function SkipSpaces(s: string, p: nat): (q: nat)
    requires p <= |s|
    ensures p <= q <= |s| && (q == |s| || !IsSpace(s[q]))
    ensures forall i | p <= i < q :: IsSpace(s[i])
    decreases |s| - p
  {
    if p < |s| && IsSpace(s[p]) then SkipSpaces(s, p + 1) else p
  }

  /** Where a match of `/\b\s*-\s*\/` starting at `p` ends. What follows `p`
      in a match is white space or '-', neither a word character, so the
      word boundary is a word character just before `p`. */
  function DashMatch(s: string, p: nat): (e: Option<nat>)
    requires p <= |s|
    ensures e.Some? ==> p < e.value <= |s|
  {
    if 0 < p && IsWordChar(s[p - 1]) then
      var q := SkipSpaces(s, p);
      if q < |s| && s[q] == '-' then Some(SkipSpaces(s, q + 1)) else None
    else None
  }

  /** `s.split(/\b\s*-\s*\/)`, from the piece that starts at `start`: a match
      is tried at every position `q` from there on, and the piece ends where
      one is found. */
  function SplitAtDashes(s: string, start: nat, q: nat): (r: seq<string>)
    requires start <= q <= |s|
    ensures |r| >= 1
    decreases |s| - q
  {
    if q == |s| then [s[start..]]
    else match DashMatch(s, q)
      case Some(e) => [s[start..q]] + SplitAtDashes(s, e, e)
      case None => SplitAtDashes(s, start, q + 1)
  }

  /** `+x` on decimal integers: white space around the text is ignored, an
      empty text is 0, and an optional sign comes before at least one digit.
      Every other text is NaN, written None. */
  function ToNumber(x: string): Option<int> {
    var t := Trim(x);
    if t == [] then Some(0)
    else if (t[0] == '-' || t[0] == '+') && |t| >= 2 && AllDigits(t[1..]) then
      Some(if t[0] == '-' then 0 - DigitsValue(t[1..]) else DigitsValue(t[1..]))
    else if AllDigits(t) then Some(DigitsValue(t))
    else None
  }

  /** The callback of index.mjs:1234-1242: zero, NaN and numbers beyond the
      safe integers become null; integers are their own floor. */
  function RangeNumber(x: string): (r: Option<int>)
    ensures r.Some? ==> r.value != 0 && -MaxSafeInteger <= r.value <= MaxSafeInteger
    ensures r.Some? ==> ToNumber(x) == r
  {
    match ToNumber(x)
    case None => None
    case Some(n) => if n == 0 || n < -MaxSafeInteger || n > MaxSafeInteger then None else Some(n)
  }

  /** The numbers of a Range header value: trimmed, the first `bytes=`
      removed, split at dashes that follow a word character. */
  function RangeNumbers(range: string): (r: seq<Option<int>>)
    ensures |r| >= 1
  {
    var pieces := SplitAtDashes(RemoveFirst(Trim(range), "bytes="), 0, 0);
    seq(|pieces|, i requires 0 <= i < |pieces| => RangeNumber(pieces[i]))
  }

  // ---------------------------------------------------------------------
  // The fragment arithmetic (index.mjs:1251-1268)
  // ---------------------------------------------------------------------

  datatype Fragment = Fragment(offset: int, size: int)

  /** The first number, 0 when absent. */
  function First(numbers: seq<Option<int>>): int
    requires |numbers| >= 1
  {
    numbers[0].GetOr(0)
  }

  /** The end the request names, if it names one. */
  function End(numbers: seq<Option<int>>): Option<int> {
    if |numbers| >= 2 then numbers[1] else None
  }

  /** The window from `offset`: up to the requested end, or `MaxChunkSize`
      bytes when no end is given; never negative, never past the file. */
  function WindowFrom(numbers: seq<Option<int>>, size: nat, offset: int): int {
    var end := End(numbers).GetOr(MaxChunkSize - 1 + offset);
    Min(Max(end - offset + 1, 0), size - offset)
  }

  /** The start as index.mjs:1251-1259 computes it: a negative number counts
      back from the end, and a start past the end becomes the last byte. A
      negative number larger than the file stays negative. */
  function StartAsWritten(numbers: seq<Option<int>>, size: nat): (o: int)
    requires |numbers| >= 1
    ensures o <= size - 1
  {
    var first := First(numbers);
    var o := if first < 0 then size + first else first;
    if o >= size then size - 1 else o
  }

  function FragmentAsWritten(numbers: seq<Option<int>>, size: nat): (f: Fragment)
    requires |numbers| >= 1
    ensures f.offset <= size - 1
    ensures 0 <= f.size <= size - f.offset
  {
    var offset := StartAsWritten(numbers, size);
    Fragment(offset, WindowFrom(numbers, size, offset))
  }

  /** The start with a suffix longer than the file read as the whole file,
      as section 14.1.2 of RFC 9110 asks. */
  function Start(numbers: seq<Option<int>>, size: nat): (o: int)
    requires |numbers| >= 1 && size >= 1
    ensures 0 <= o <= size - 1
  {
    var first := First(numbers);
    var o := if first < 0 then Max(size + first, 0) else first;
    if o >= size then size - 1 else o
  }

  /** The fragment of a file of `size` bytes that `numbers` select: it starts
      inside the file and does not run past its end. */
  function FragmentOf(numbers: seq<Option<int>>, size: nat): (f: Fragment)
    requires |numbers| >= 1 && size >= 1
    ensures 0 <= f.offset <= size - 1
    ensures 0 <= f.size <= size - f.offset
  {
    var offset := Start(numbers, size);
    Fragment(offset, WindowFrom(numbers, size, offset))
  }

  /** The two computations differ only for a suffix longer than the file. */
  lemma AsWrittenAgrees(numbers: seq<Option<int>>, size: nat)
    requires |numbers| >= 1 && size >= 1
    ensures First(numbers) + size >= 0 ==> FragmentAsWritten(numbers, size) == FragmentOf(numbers, size)
    ensures First(numbers) + size < 0 ==> FragmentAsWritten(numbers, size).offset < 0
  {
  }

  /** `bytes=a-b` with `a <= b` inside the file: the bytes from `a` to `b`,
      cut at the end of the file. */
  lemma ExplicitRange(numbers: seq<Option<int>>, size: nat, a: int, b: int)
    requires size >= 1 && |numbers| >= 2 && numbers[0] == Some(a) && numbers[1] == Some(b)
    requires 0 < a <= b && a < size
    ensures FragmentOf(numbers, size) == Fragment(a, Min(b, size - 1) - a + 1)
  {
  }

  /** Without an end, the window is `MaxChunkSize` bytes or what remains. */
  lemma OpenRange(numbers: seq<Option<int>>, size: nat)
    requires size >= 1 && |numbers| >= 1 && End(numbers).None?
    ensures FragmentOf(numbers, size).size == Min(MaxChunkSize, size - Start(numbers, size))
  {
  }

  /** `bytes=-n`: the last `n` bytes, at most `MaxChunkSize` of them. */
  lemma Suffix(n: nat, size: nat)
    requires 0 < n <= size
    ensures FragmentOf([Some(0 - n)], size) == Fragment(size - n, Min(n, MaxChunkSize))
  {
  }

  // ---------------------------------------------------------------------
  // What the header parser reads off the common forms of a Range header
  // ---------------------------------------------------------------------

  /** Text without white space at its ends is its own trim. */
  lemma TrimPlain(s: string)
    requires s == [] || (!IsSpace(s[0]) && !IsSpace(s[|s| - 1]))
    ensures Trim(s) == s
  {
    assert TrimStart(s) == s;
  }

  /** No match starts inside a run of digits. */
  lemma {:induction false} SkipDigits(s: string, start: nat, q: nat, m: nat)
    requires start <= q <= m <= |s|
    requires forall i | q <= i < m :: IsDigit(s[i])
    ensures SplitAtDashes(s, start, q) == SplitAtDashes(s, start, m)
    decreases m - q
  {
    if q < m {
      assert DashMatch(s, q).None? by {
        assert SkipSpaces(s, q) == q;
      }
      SkipDigits(s, start, q + 1, m);
    }
  }

  /** `a-b` with digits on both sides splits into `a` and `b`. */
  lemma SplitDigitPair(a: string, b: string)
    requires a != [] && AllDigits(a) && AllDigits(b)
    ensures SplitAtDashes(a + "-" + b, 0, 0) == [a, b]
  {
    var s := a + "-" + b;
    var m := |a|;
    SkipDigits(s, 0, 0, m);
    assert SkipSpaces(s, m) == m;
    assert SkipSpaces(s, m + 1) == m + 1;
    assert DashMatch(s, m) == Some(m + 1);
    SkipDigits(s, m + 1, m + 1, |s|);
    assert s[..m] == a && s[m + 1..] == b;
  }

  /** `-b` is one piece: the dash has no word character before it. */
  lemma SplitSigned(b: string)
    requires AllDigits(b)
    ensures SplitAtDashes("-" + b, 0, 0) == ["-" + b]
  {
    var s := "-" + b;
    assert DashMatch(s, 0).None?;
    SkipDigits(s, 0, 1, |s|);
  }

  /** The number of a run of digits: null when it is zero or unsafe. */
  lemma DigitsNumber(a: string)
    requires a != [] && AllDigits(a)
    ensures RangeNumber(a) == if DigitsValue(a) == 0 || DigitsValue(a) > MaxSafeInteger then None else Some(DigitsValue(a))
  {
    DigitsToNumber(a);
  }

  /** `+a` of a run of digits is its value. */
  lemma DigitsToNumber(a: string)
    requires a != [] && AllDigits(a)
    ensures ToNumber(a) == Some(DigitsValue(a))
  {
    assert IsDigit(a[0]) && IsDigit(a[|a| - 1]);
    TrimPlain(a);
  }

  /** The number of a minus sign before a run of digits. */
  lemma NegativeNumber(b: string)
    requires b != [] && AllDigits(b)
    ensures RangeNumber("-" + b) == if DigitsValue(b) == 0 || DigitsValue(b) > MaxSafeInteger then None else Some(0 - DigitsValue(b))
  {
    NegativeToNumber(b);
  }

  /** `+('-' + b)` of a run of digits is minus its value. */
  lemma NegativeToNumber(b: string)
    requires b != [] && AllDigits(b)
    ensures ToNumber("-" + b) == Some(0 - DigitsValue(b))
  {
    var t := "-" + b;
    assert t[0] == '-' && t[1..] == b;
    assert t[|t| - 1] == b[|b| - 1] && IsDigit(b[|b| - 1]);
    TrimPlain(t);
    assert |t| >= 2 && AllDigits(t[1..]);
  }

  /** `bytes=a-b` gives the numbers of `a` and of `b`. */
  lemma ExplicitNumbers(a: string, b: string)
    requires a != [] && AllDigits(a) && AllDigits(b)
    ensures RangeNumbers("bytes=" + a + "-" + b) == [RangeNumber(a), RangeNumber(b)]
  {
    var rest := a + "-" + b;
    var range := "bytes=" + a + "-" + b;
    assert range == "bytes=" + rest;
    CleanEnd(a, b);
    SplitDigitPair(a, b);
    TwoNumbers(range, rest, a, b);
  }

  /** `bytes=` before a text that splits into two pieces gives their two numbers. */
  lemma TwoNumbers(range: string, rest: string, a: string, b: string)
    requires range == "bytes=" + rest && rest != [] && !IsSpace(rest[|rest| - 1])
    requires SplitAtDashes(rest, 0, 0) == [a, b]
    ensures RangeNumbers(range) == [RangeNumber(a), RangeNumber(b)]
  {
    StripBytes(range, rest);
    PairNumbers(SplitAtDashes(RemoveFirst(Trim(range), "bytes="), 0, 0), a, b);
  }

  lemma PairNumbers(pieces: seq<string>, a: string, b: string)
    requires pieces == [a, b]
    ensures seq(|pieces|, i requires 0 <= i < |pieces| => RangeNumber(pieces[i])) == [RangeNumber(a), RangeNumber(b)]
  {
  }

  lemma CleanEnd(a: string, b: string)
    requires AllDigits(b)
    ensures var rest := a + "-" + b; rest != [] && !IsSpace(rest[|rest| - 1])
  {
    var rest := a + "-" + b;
    if b == [] {
      assert rest[|rest| - 1] == '-';
    } else {
      assert rest[|rest| - 1] == b[|b| - 1] && IsDigit(b[|b| - 1]);
    }
  }

  /** A header `bytes=` followed by text with no white space at its ends
      leaves that text to be split. */
  lemma StripBytes(h: string, rest: string)
    requires h == "bytes=" + rest && rest != [] && !IsSpace(rest[|rest| - 1])
    ensures RemoveFirst(Trim(h), "bytes=") == rest
  {
    TrimPlain(h);
    assert h[..6] == "bytes=" && h[6..] == rest;
  }

  /** `bytes=-b` gives one negative number. */
  lemma SuffixNumbers(b: string)
    requires b != [] && AllDigits(b)
    ensures RangeNumbers("bytes=-" + b) == [RangeNumber("-" + b)]
  {
    var rest := "-" + b;
    assert rest[|rest| - 1] == b[|b| - 1] && IsDigit(b[|b| - 1]);
    assert "bytes=-" + b == "bytes=" + rest;
    StripBytes("bytes=" + rest, rest);
    SplitSigned(b);
  }

  /** A zero is read as no number at all, so `bytes=0-0`, which asks for the
      first byte, gets the same window as `bytes=0-`: the first 4 MiB of a
      streamed file. */
  lemma FirstByteWindow(a: string, b: string, size: nat)
    requires a != [] && AllDigits(a) && DigitsValue(a) == 0
    requires b != [] && AllDigits(b) && DigitsValue(b) == 0
    requires size > MaxChunkSize
    ensures RangeNumbers("bytes=" + a + "-" + b) == [None, None]
    ensures FragmentOf(RangeNumbers("bytes=" + a + "-" + b), size) == Fragment(0, MaxChunkSize)
  {
    ExplicitNumbers(a, b);
    DigitsNumber(a);
    DigitsNumber(b);
  }

  /** A start below zero prints a Content-Range whose first position is not
      a number of bytes: `bytes -…`. */
  lemma NegativeStartRange(f: Fragment, total: Option<nat>)
    requires f.offset < 0
    ensures ContentRange(f, total)[..7] == "bytes -"
  {
  }

  /** A suffix longer than the file, such as `bytes=-6000000` on a file of
      5242880 bytes: as written the start lies before the file (at -757120
      there); with the start clamped the fragment begins at the first byte. */
  lemma LongSuffix(b: string, size: nat)
    requires b != [] && AllDigits(b) && size < DigitsValue(b) <= MaxSafeInteger
    requires size >= 1
    ensures FragmentAsWritten(RangeNumbers("bytes=-" + b), size).offset == size - DigitsValue(b) < 0
    ensures FragmentOf(RangeNumbers("bytes=-" + b), size).offset == 0
  {
    SuffixNumbers(b);
    NegativeNumber(b);
  }

  // ---------------------------------------------------------------------
  // The chunk loop of #getBodyStream (index.mjs:1288-1299)
  // ---------------------------------------------------------------------

  /** The bytes a sequence of chunks covers, as (position, length) pairs. */
  function TotalLength(chunks: seq<(int, int)>): int {
    if chunks == [] then 0 else TotalLength(chunks[..|chunks| - 1]) + chunks[|chunks| - 1].1
  }

  /** The chunks cover `total` bytes from `position` one after the other, each
      read is at most `MaxChunkSize` bytes and only the last can be shorter. */
  predicate Tiles(chunks: seq<(int, int)>, position: int, total: int) {
    TotalLength(chunks) == Max(total, 0) && Starts(chunks, position) && Sized(chunks)
  }

  /** Each chunk starts where the ones before it end. */
  predicate Starts(chunks: seq<(int, int)>, position: int) {
    forall i | 0 <= i < |chunks| :: chunks[i].0 == position + TotalLength(chunks[..i])
  }

  /** Each read is at most `MaxChunkSize` bytes and only the last can be shorter. */
  predicate Sized(chunks: seq<(int, int)>) {
    && (forall i | 0 <= i < |chunks| :: 0 < chunks[i].1 <= MaxChunkSize)
    && (forall i | 0 <= i < |chunks| - 1 :: chunks[i].1 == MaxChunkSize)
  }

  /** The chunks of `total` bytes from `position`. */
  method ChunkPlan(position: int, total: int) returns (chunks: seq<(int, int)>)
    ensures Tiles(chunks, position, total)
  {
    chunks := [];
    var offset := 0;
    while offset < total
      invariant Planned(chunks, position, total, offset)
      decreases total - offset
    {
      PlannedStep(chunks, position, total, offset);
      chunks := chunks + [(offset + position, Min(MaxChunkSize, total - offset))];
      offset := offset + MaxChunkSize;
    }
    PlannedDone(chunks, position, total, offset);
  }

  /** The loop's state: `offset` bytes planned in full chunks, each chunk
      starting where the ones before it end. */
  predicate Planned(chunks: seq<(int, int)>, position: int, total: int, offset: int) {
    && offset == |chunks| * MaxChunkSize
    && TotalLength(chunks) == Min(offset, Max(total, 0))
    && Starts(chunks, position)
    && Sized(chunks)
    && (chunks != [] && offset < total ==> chunks[|chunks| - 1].1 == MaxChunkSize)
  }

  lemma PlannedStep(chunks: seq<(int, int)>, position: int, total: int, offset: int)
    requires Planned(chunks, position, total, offset) && offset < total
    ensures Planned(chunks + [(offset + position, Min(MaxChunkSize, total - offset))],
                    position, total, offset + MaxChunkSize)
  {
    var c := (offset + position, Min(MaxChunkSize, total - offset));
    PlannedCount(chunks, total, offset, c);
    StartsSnoc(chunks, position, c);
    SizesSnoc(chunks, c);
    assert (chunks + [c])[|chunks + [c]| - 1] == c;
  }

  /** The counts of the loop's state after one more chunk. */
  lemma PlannedCount(chunks: seq<(int, int)>, total: int, offset: int, c: (int, int))
    requires offset == |chunks| * MaxChunkSize && offset < total
    requires TotalLength(chunks) == Min(offset, Max(total, 0))
    requires c.1 == Min(MaxChunkSize, total - offset)
    ensures offset + MaxChunkSize == |chunks + [c]| * MaxChunkSize
    ensures TotalLength(chunks) == offset
    ensures TotalLength(chunks + [c]) == Min(offset + MaxChunkSize, Max(total, 0))
    ensures offset + MaxChunkSize < total ==> c.1 == MaxChunkSize
  {
    ChunksTimesSize(|chunks|);
    TotalSnoc(chunks, c);
  }

  lemma ChunksTimesSize(n: nat)
    ensures n * MaxChunkSize >= 0
    ensures (n + 1) * MaxChunkSize == n * MaxChunkSize + MaxChunkSize
  {
  }

  lemma TotalSnoc(chunks: seq<(int, int)>, c: (int, int))
    ensures TotalLength(chunks + [c]) == TotalLength(chunks) + c.1
  {
    assert (chunks + [c])[..|chunks|] == chunks;
  }

  /** A chunk that starts where the others end keeps every start in place. */
  lemma StartsSnoc(chunks: seq<(int, int)>, position: int, c: (int, int))
    requires Starts(chunks, position)
    requires c.0 == position + TotalLength(chunks)
    ensures Starts(chunks + [c], position)
  {
    var next := chunks + [c];
    forall i | 0 <= i < |next|
      ensures next[i].0 == position + TotalLength(next[..i])
    {
      if i < |chunks| {
        assert next[..i] == chunks[..i];
      } else {
        assert next[..i] == chunks;
      }
    }
  }

  /** After full chunks, one more chunk of a valid size keeps the sizes valid. */
  lemma SizesSnoc(chunks: seq<(int, int)>, c: (int, int))
    requires Sized(chunks) && (chunks != [] ==> chunks[|chunks| - 1].1 == MaxChunkSize)
    requires 0 < c.1 <= MaxChunkSize
    ensures Sized(chunks + [c])
  {
  }

  lemma PlannedDone(chunks: seq<(int, int)>, position: int, total: int, offset: int)
    requires Planned(chunks, position, total, offset) && offset >= total
    ensures Tiles(chunks, position, total)
  {
  }

  // ---------------------------------------------------------------------
  // The file data and the response
  // ---------------------------------------------------------------------

  /** What `#retreiveData` resolves to: the code, the merged headers and the
      size of the file (None when it could not be opened). */
  datatype FileData = FileData(code: int, headers: Entries<HeaderValue>, size: Option<nat>) {
    /** The body is a function streaming the file, not a buffer. */
    predicate Streamed() {
      size.Some? && size.value > MaxChunkSize
    }

    /** A fragment can be served: a 2xx code and a streamed body. */
    predicate Eligible() {
      200 <= code <= 299 && Streamed()
    }
  }

  /** What `getBody` gives: the buffer (the file's bytes or the not-found
      text), a stream made of chunks, or a function whose call throws because
      it calls a buffer. */
  datatype FileBody = Buffered | Chunked(chunks: seq<(int, int)>) | Throwing

  /** A request's header object: its identity and its `range` property. */
  datatype HeaderObject = HeaderObject(id: nat, range: Option<string>)

  /** `headers?.['range']` is a non-empty string. */
  predicate RangeGiven(headers: Option<HeaderObject>) {
    headers.Some? && headers.value.range.Some? && headers.value.range.value != []
  }

  /** The part after the last '.' of a path, lower-cased. */
  function Extension(filePath: string): string {
    var parts := Split(filePath, '.');
    ToLower(parts[|parts| - 1])
  }

  /** The extension is the text after the last dot, lower-cased, and a name
      without a dot is its own extension; with no Content-Type given, the
      MIME table's type for it is used, or `application/octet-stream`. */
  lemma TypeOfExtension(stem: string, e: string, mime: map<string, string>)
    requires '.' !in e
    ensures Extension(stem + "." + e) == ToLower(e)
    ensures Extension(e) == ToLower(e)
    ensures ContentTypeFor(None, stem + "." + e, mime) ==
      if ToLower(e) in mime then mime[ToLower(e)] else "application/octet-stream"
  {
    SplitLast(stem, '.', e);
    SplitAfter(e, '.', []);
  }

  /** The Content-Type: the one given, else the type of the extension, else
      `application/octet-stream`. */
  function ContentTypeFor(contentType: Option<string>, filePath: string, mime: map<string, string>): string {
    if contentType.Some? then contentType.value
    else if Extension(filePath) in mime then mime[Extension(filePath)]
    else "application/octet-stream"
  }

  /** The headers `#retreiveData` merges (index.mjs:1317-1320, 1327). */
  function FileHeaders(contentType: Option<string>, filePath: string, mime: map<string, string>,
                       fileSize: Option<nat>): Entries<HeaderValue> {
    if fileSize.Some? then
      [("Content-Type", Text(ContentTypeFor(contentType, filePath, mime))),
       ("Content-Length", Text(NatToString(fileSize.value)))]
    else [("Content-Type", Text("application/json"))]
  }

  /** `bytes first-last/total`; an unknown total prints as `undefined`. */
  function ContentRange(f: Fragment, total: Option<nat>): string {
    "bytes " + IntToString(f.offset) + ("-" + IntToString(f.offset + f.size - 1) + "/"
      + (if total.Some? then NatToString(total.value) else "undefined"))
  }

  /** The headers of a 206 answer (index.mjs:1190-1195). */
  function FragmentHeaders(d: FileData, f: Fragment): (r: Entries<HeaderValue>)
    ensures Lookup(r, "Content-Range") == Some(Text(ContentRange(f, d.size)))
    ensures Lookup(r, "Content-Length") == Some(Text(IntToString(f.size)))
    ensures forall k | k != "Content-Range" && k != "Content-Length" :: Lookup(r, k) == Lookup(d.headers, k)
  {
    Put(Put(d.headers, "Content-Range", Text(ContentRange(f, d.size))), "Content-Length", Text(IntToString(f.size)))
  }

  /** The fragment a Range header asks of the data `d` (index.mjs:1228-1268). */
  function Requested(range: string, d: FileData): (r: Option<Fragment>)
    ensures r.Some? <==> d.Eligible() && ',' !in range
    ensures r.Some? ==> 0 <= r.value.offset && r.value.offset + r.value.size <= d.size.value
  {
    if ',' in range || !d.Eligible() then None
    else Some(FragmentOf(RangeNumbers(range), d.size.value))
  }

  /** The fragment served is the one index.mjs:1251-1268 computes, except for
      a suffix longer than the file, where the code's start falls below zero
      and the served fragment starts at the first byte instead. */
  lemma RequestedAsWritten(range: string, d: FileData)
    requires d.Eligible() && ',' !in range
    ensures var numbers, size := RangeNumbers(range), d.size.value;
      && (First(numbers) + size >= 0 ==> Requested(range, d) == Some(FragmentAsWritten(numbers, size)))
      && (First(numbers) + size < 0 ==>
            Requested(range, d).value.offset == 0 && FragmentAsWritten(numbers, size).offset < 0)
  {
    AsWrittenAgrees(RangeNumbers(range), d.size.value);
  }

  /** `d` is what the file data of a FileResponse with these fields resolves
      to, for a file of `fileSize` bytes (None: it cannot be opened). */
  ghost predicate Describes(d: FileData, code: int, contentType: Option<string>, filePath: string,
                            cookies: Option<Entries<Cookie>>, custom: Entries<HeaderValue>,
                            fileSize: Option<nat>, mime: map<string, string>, encode: string -> string)
  {
    && d.size == fileSize
    && d.code == (if fileSize.Some? then code else 404)
    && forall k :: Lookup(d.headers, k) ==
         Present(Lookup(Merged(FileHeaders(contentType, filePath, mime, fileSize), cookies, custom, encode), k))
  }

  class FileResponse {
    var filePath: string
    var code: int
    var contentType: Option<string>
    /** The cookies and custom headers of the underlying Response. */
    const response: Response
    /** `#dataPromise`, once settled. */
    var data: Option<FileData>
    /** `#fragmentRequestMap`, keyed by the identity of the header object. */
    var fragments: map<nat, Option<Fragment>>

    constructor (filePath: string, code: int, contentType: Option<string>, cookies: Option<Entries<Cookie>>)
      ensures this.filePath == filePath && this.code == code && this.contentType == contentType
      ensures fresh(response) && response.cookies == cookies && response.customHeaders == []
      ensures data == None && fragments == map[]
    {
      this.filePath := filePath;
      this.code := code;
      this.contentType := contentType;
      response := new Response(Basic, cookies);
      data := None;
      fragments := map[];
    }

    /** The data is settled: kept when it already was, resolved now if not. */
    ghost predicate Settled(before: Option<FileData>, fileSize: Option<nat>, mime: map<string, string>, encode: string -> string)
      reads this, response
    {
      data.Some? && (before.Some? ==> data == before) && (before.None? ==>
        Describes(data.value, code, contentType, filePath, response.cookies, response.customHeaders, fileSize, mime, encode))
    }

    /** The fragment memoised for `headers`, null when there is none. */
    function Memoised(headers: Option<HeaderObject>): Option<Fragment>
      reads this
    {
      if headers.Some? && headers.value.id in fragments then fragments[headers.value.id] else None
    }

    /** The fragment memo after `#getFragmentRequest` for `headers`, given the
        memo `before` it: an entry already there, or no Range header, leaves
        it as it was; otherwise the fragment the Range header asks of the
        settled data (null for a comma) is stored under the header object. */
    ghost predicate Remembered(before: map<nat, Option<Fragment>>, headers: Option<HeaderObject>)
      reads this
    {
      if headers.Some? && headers.value.id !in before && RangeGiven(headers) then
        data.Some? && fragments == before[headers.value.id := Requested(headers.value.range.value, data.value)]
      else fragments == before
    }

    method SetFilePath(p: string)
      modifies this
      ensures filePath == p && data == None
      ensures code == old(code) && contentType == old(contentType) && fragments == old(fragments)
    {
      filePath := p;
      data := None;
    }

    /** `#retreiveData`. */
    method RetrieveData(fileSize: Option<nat>, mime: map<string, string>, encode: string -> string) returns (d: FileData)
      modifies this
      ensures Settled(old(data), fileSize, mime, encode) && d == data.value
      ensures filePath == old(filePath) && code == old(code) && contentType == old(contentType)
      ensures fragments == old(fragments)
    {
      if data.Some? {
        return data.value;
      }
      var headers := MergeWithOtherHeaders(FileHeaders(contentType, filePath, mime, fileSize),
                                           response.cookies, response.customHeaders, encode);
      d := FileData(if fileSize.Some? then code else 404, headers, fileSize);
      data := Some(d);
    }

    /** `#getFragmentRequest`. */
    method GetFragmentRequest(headers: Option<HeaderObject>, fileSize: Option<nat>,
                              mime: map<string, string>, encode: string -> string)
      returns (f: Option<Fragment>)
      modifies this
      ensures f == Memoised(headers)
      ensures data == old(data) || Settled(old(data), fileSize, mime, encode)
      ensures filePath == old(filePath) && code == old(code) && contentType == old(contentType)
      ensures headers.Some? && headers.value.id in old(fragments) ==>
        fragments == old(fragments) && data == old(data)
      ensures (headers.None? || headers.value.id !in old(fragments)) && !RangeGiven(headers) ==>
        fragments == old(fragments) && data == old(data)
      ensures headers.Some? && headers.value.id !in old(fragments) && RangeGiven(headers) ==>
        var range := headers.value.range.value;
        if ',' in range then fragments == old(fragments)[headers.value.id := None] && data == old(data)
        else Settled(old(data), fileSize, mime, encode) && fragments == old(fragments)[headers.value.id := Requested(range, data.value)]
    {
      if headers.None? {
        return None;
      }
      var h := headers.value;
      if h.id in fragments {
        return fragments[h.id];
      }
      if !RangeGiven(headers) {
        return None;
      }
      var range := h.range.value;
      if ',' in range {
        fragments := fragments[h.id := None];
        return None;
      }
      var d := RetrieveData(fileSize, mime, encode);
      f := Requested(range, d);
      fragments := fragments[h.id := f];
    }

    /** `getCode`: 206 when a fragment is served, else the data's code. */
    method GetCode(headers: Option<HeaderObject>, fileSize: Option<nat>,
                   mime: map<string, string>, encode: string -> string) returns (c: int)
      modifies this
      ensures filePath == old(filePath) && code == old(code) && contentType == old(contentType)
      ensures Settled(old(data), fileSize, mime, encode) && Remembered(old(fragments), headers)
      ensures c == if Memoised(headers).Some? then 206 else data.value.code
    {
      var f := GetFragmentRequest(headers, fileSize, mime, encode);
      var d := RetrieveData(fileSize, mime, encode);
      c := if f.Some? then 206 else d.code;
    }

    /** `getHeaders`: with a fragment, the data's headers with Content-Range
        and Content-Length set. */
    method GetHeaders(headers: Option<HeaderObject>, fileSize: Option<nat>,
                      mime: map<string, string>, encode: string -> string) returns (r: Entries<HeaderValue>)
      modifies this
      ensures filePath == old(filePath) && code == old(code) && contentType == old(contentType)
      ensures Settled(old(data), fileSize, mime, encode) && Remembered(old(fragments), headers)
      ensures r == if Memoised(headers).Some? then FragmentHeaders(data.value, Memoised(headers).value) else data.value.headers
    {
      var f := GetFragmentRequest(headers, fileSize, mime, encode);
      var d := RetrieveData(fileSize, mime, encode);
      r := if f.Some? then FragmentHeaders(d, f.value) else d.headers;
    }

    /** `getBody` with the stream it leads to: the fragment's bytes or the
        whole file in chunks, or the buffer. */
    method GetBody(headers: Option<HeaderObject>, fileSize: Option<nat>,
                   mime: map<string, string>, encode: string -> string) returns (b: FileBody)
      modifies this
      ensures filePath == old(filePath) && code == old(code) && contentType == old(contentType)
      ensures Settled(old(data), fileSize, mime, encode) && Remembered(old(fragments), headers)
      ensures var f := Memoised(headers); var d := data.value;
        if f.Some? && !d.Streamed() then b == Throwing
        else if f.Some? then b.Chunked? && Tiles(b.chunks, f.value.offset, f.value.size)
        else if d.Streamed() then b.Chunked? && Tiles(b.chunks, 0, d.size.value)
        else b == Buffered
    {
      var f := GetFragmentRequest(headers, fileSize, mime, encode);
      var d := RetrieveData(fileSize, mime, encode);
      if f.Some? && !d.Streamed() {
        b := Throwing;
      } else if f.Some? {
        var chunks := ChunkPlan(f.value.offset, f.value.size);
        b := Chunked(chunks);
      } else if d.Streamed() {
        var chunks := ChunkPlan(0, d.size.value);
        b := Chunked(chunks);
      } else {
        b := Buffered;
      }
    }
  }
}
